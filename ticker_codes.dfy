/**
 Parsing of the free-text list of Tokyo Stock Exchange security codes that the
 user types into the tool: the text is cut at every comma (with the semantics
 of Python's `str.split(",")`), each piece loses its surrounding whitespace
 (Python's `str.strip()`), and the exchange suffix ".T" is appended.
 */
module TickerCodes {

  /** The exchange suffix appended to every code. */
  const Suffix: string := ".T"

  /** The separator between codes in the input text. */
  const Separator: char := ','

  /** The characters Python's `str.isspace()` (and hence `str.strip()`) treats as whitespace. */
  const Whitespace: set<char> := {
    '\t', '\n', '\U{0B}', '\U{0C}', '\r', '\U{1C}', '\U{1D}', '\U{1E}', '\U{1F}', ' ',
    '\U{85}', '\U{A0}', '\U{1680}',
    '\U{2000}', '\U{2001}', '\U{2002}', '\U{2003}', '\U{2004}', '\U{2005}',
    '\U{2006}', '\U{2007}', '\U{2008}', '\U{2009}', '\U{200A}',
    '\U{2028}', '\U{2029}', '\U{202F}', '\U{205F}', '\U{3000}'
  }

  predicate IsSpace(c: char) {
    c in Whitespace
  }

  predicate AllSpace(s: string) {
    forall k :: 0 <= k < |s| ==> IsSpace(s[k])
  }

  predicate NoSpace(s: string) {
    forall c :: c in s ==> !IsSpace(c)
  }

  /** No whitespace at either end (the shape of a stripped string). */
  predicate Trimmed(s: string) {
    s == [] || (!IsSpace(s[0]) && !IsSpace(s[|s| - 1]))
  }

  // ---------------------------------------------------------------------------
  // Splitting
  // ---------------------------------------------------------------------------

  /** Python's `s.count(c)` for a single character: how often `c` occurs in `s`. */
  function Occurrences(s: string, c: char): nat
  {
    if s == [] then 0 else (if s[0] == c then 1 else 0) + Occurrences(s[1..], c)
  }

  /** Python's `s.split(sep)`: the pieces between separators, empty ones kept. */
  function Split(s: string, sep: char): (r: seq<string>)
    ensures |r| >= 1
  {
    if s == [] then [[]]
    else
      var rest := Split(s[1..], sep);
      if s[0] == sep then [[]] + rest
      else [[s[0]] + rest[0]] + rest[1..]
  }

  /** Python's `sep.join(pieces)` for a non-empty list, the reference inverse of `Split`. */
  function Join(pieces: seq<string>, sep: char): string
    requires |pieces| >= 1
    decreases |pieces|
  {
    if |pieces| == 1 then pieces[0]
    else pieces[0] + [sep] + Join(pieces[1..], sep)
  }

  /** There is one piece more than there are separators. */
  lemma {:induction false} SplitLength(s: string, sep: char)
    ensures |Split(s, sep)| == Occurrences(s, sep) + 1
  {
    if s != [] {
      SplitLength(s[1..], sep);
    }
  }

  /** No piece contains the separator. */
  lemma {:induction false} SplitPiecesHaveNoSeparator(s: string, sep: char)
    ensures forall i :: 0 <= i < |Split(s, sep)| ==> sep !in Split(s, sep)[i]
  {
    if s != [] {
      SplitPiecesHaveNoSeparator(s[1..], sep);
    }
  }

  /** Every character of every piece comes from the input. */
  lemma {:induction false} SplitPiecesComeFromInput(s: string, sep: char)
    ensures forall i, c :: 0 <= i < |Split(s, sep)| && c in Split(s, sep)[i] ==> c in s
  {
    if s != [] {
      SplitPiecesComeFromInput(s[1..], sep);
      var rest := Split(s[1..], sep);
      assert s == [s[0]] + s[1..];
      forall i, c | 0 <= i < |Split(s, sep)| && c in Split(s, sep)[i] ensures c in s {
        if s[0] == sep {
          if i > 0 {
            assert c in rest[i - 1];
          }
        } else if i > 0 {
          assert c in rest[i];
        } else if c != s[0] {
          assert c in rest[0];
        }
      }
    }
  }

  /** Joining the pieces with the separator gives back the input. */
  lemma {:induction false} JoinSplit(s: string, sep: char)
    ensures Join(Split(s, sep), sep) == s
  {
    if s != [] {
      JoinSplit(s[1..], sep);
      var rest := Split(s[1..], sep);
      if s[0] == sep {
        assert ([[]] + rest)[1..] == rest;
        assert s == [sep] + s[1..];
      } else {
        var r := [[s[0]] + rest[0]] + rest[1..];
        assert r[1..] == rest[1..];
        if |rest| > 1 {
          assert Join(rest, sep) == rest[0] + [sep] + Join(rest[1..], sep);
        }
        assert s == [s[0]] + s[1..];
      }
    }
  }

  /** A piece without a separator splits into itself. */
  lemma {:induction false} SplitNoSeparator(p: string, sep: char)
    requires sep !in p
    ensures Split(p, sep) == [p]
  {
    if p != [] {
      SplitNoSeparator(p[1..], sep);
      assert p == [p[0]] + p[1..];
    }
  }

  /** Splitting stops at the first separator. */
  lemma {:induction false} SplitAtFirstSeparator(p: string, t: string, sep: char)
    requires sep !in p
    ensures Split(p + [sep] + t, sep) == [p] + Split(t, sep)
  {
    if p == [] {
      assert (p + [sep] + t)[1..] == t;
    } else {
      SplitAtFirstSeparator(p[1..], t, sep);
      assert (p + [sep] + t)[1..] == p[1..] + [sep] + t;
      assert p == [p[0]] + p[1..];
    }
  }

  /** Splitting the joined pieces gives back the pieces, when none holds the separator. */
  lemma {:induction false} SplitJoin(pieces: seq<string>, sep: char)
    requires |pieces| >= 1
    requires forall i :: 0 <= i < |pieces| ==> sep !in pieces[i]
    ensures Split(Join(pieces, sep), sep) == pieces
  {
    if |pieces| == 1 {
      SplitNoSeparator(pieces[0], sep);
    } else {
      SplitJoin(pieces[1..], sep);
      SplitAtFirstSeparator(pieces[0], Join(pieces[1..], sep), sep);
      assert pieces == [pieces[0]] + pieces[1..];
    }
  }

  // ---------------------------------------------------------------------------
  // Stripping
  // ---------------------------------------------------------------------------

  /** Python's `s.lstrip()`: drops the leading whitespace. */
  function TrimLeft(s: string): (r: string)
    ensures |r| <= |s|
    ensures r == [] || !IsSpace(r[0])
  {
    if s != [] && IsSpace(s[0]) then TrimLeft(s[1..]) else s
  }

  /** Python's `s.rstrip()`: drops the trailing whitespace. */
  function TrimRight(s: string): (r: string)
    ensures |r| <= |s|
    ensures r == [] || !IsSpace(r[|r| - 1])
  {
    if s != [] && IsSpace(s[|s| - 1]) then TrimRight(s[..|s| - 1]) else s
  }

  /** What `TrimLeft` drops is a whitespace prefix. */
  lemma {:induction false} TrimLeftDropsSpace(s: string)
    ensures s == s[..|s| - |TrimLeft(s)|] + TrimLeft(s)
    ensures AllSpace(s[..|s| - |TrimLeft(s)|])
  {
    if s != [] && IsSpace(s[0]) {
      TrimLeftDropsSpace(s[1..]);
      var k := |s| - |TrimLeft(s)|;
      assert s[..k] == [s[0]] + s[1..][..k - 1];
    }
  }

  /** What `TrimRight` drops is a whitespace suffix. */
  lemma {:induction false} TrimRightDropsSpace(s: string)
    ensures s == TrimRight(s) + s[|TrimRight(s)|..]
    ensures AllSpace(s[|TrimRight(s)|..])
  {
    if s != [] && IsSpace(s[|s| - 1]) {
      var s' := s[..|s| - 1];
      TrimRightDropsSpace(s');
      var k := |TrimRight(s)|;
      assert s[k..] == s'[k..] + [s[|s| - 1]];
    }
  }

  /** The leading whitespace of `s`, which `Strip` removes. */
  function Leading(s: string): (a: string)
    ensures AllSpace(a)
  {
    TrimLeftDropsSpace(s);
    s[..|s| - |TrimLeft(s)|]
  }

  /** The trailing whitespace of `s`, which `Strip` removes. */
  function Trailing(s: string): (b: string)
    ensures AllSpace(b)
  {
    var l := TrimLeft(s);
    TrimRightDropsSpace(l);
    l[|TrimRight(l)|..]
  }

  /**
   Python's `s.strip()`: the input is its leading whitespace, then the result,
   then its trailing whitespace, and the result has no whitespace at either end.
   */
  function Strip(s: string): (r: string)
    ensures Trimmed(r)
    ensures s == Leading(s) + r + Trailing(s)
  {
    var l := TrimLeft(s);
    var r := TrimRight(l);
    TrimLeftDropsSpace(s);
    TrimRightDropsSpace(l);
    r
  }

  /** Left-trimming whitespace followed by text that does not start with whitespace leaves that text. */
  lemma {:induction false} TrimLeftSpaces(a: string, t: string)
    requires AllSpace(a)
    requires t == [] || !IsSpace(t[0])
    ensures TrimLeft(a + t) == t
  {
    if a != [] {
      TrimLeftSpaces(a[1..], t);
      assert (a + t)[1..] == a[1..] + t;
    }
  }

  /** Right-trimming text that does not end with whitespace, followed by whitespace, leaves that text. */
  lemma {:induction false} TrimRightSpaces(t: string, b: string)
    requires AllSpace(b)
    requires t == [] || !IsSpace(t[|t| - 1])
    ensures TrimRight(t + b) == t
  {
    if b != [] {
      var b' := b[..|b| - 1];
      TrimRightSpaces(t, b');
      assert (t + b)[..|t + b| - 1] == t + b';
    } else {
      assert t + b == t;
    }
  }

  /**
   `Strip` is the unique trimmed middle: whenever the input is whitespace, then a
   string with no whitespace at its ends, then whitespace, that middle is what
   `Strip` returns.
   */
  lemma StripUnique(a: string, m: string, b: string)
    requires AllSpace(a) && AllSpace(b) && Trimmed(m)
    ensures Strip(a + m + b) == m
  {
    if m == [] {
      assert a + m + b == (a + b) + [];
      TrimLeftSpaces(a + b, []);
    } else {
      assert a + m + b == a + (m + b);
      TrimLeftSpaces(a, m + b);
      TrimRightSpaces(m, b);
    }
  }

  /** Stripping twice is the same as stripping once. */
  lemma StripIdempotent(s: string)
    ensures Strip(Strip(s)) == Strip(s)
  {
  }

  /** A string without whitespace is left as it is. */
  lemma StripNoSpace(s: string)
    requires NoSpace(s)
    ensures Strip(s) == s
  {
  }

  /** Stripping gives the empty string exactly when the input is all whitespace. */
  lemma StripEmptyIff(s: string)
    ensures Strip(s) == [] <==> AllSpace(s)
  {
    if AllSpace(s) {
      assert s + [] + [] == s;
      StripUnique(s, [], []);
    }
  }

  // ---------------------------------------------------------------------------
  // Codes
  // ---------------------------------------------------------------------------

  /** The part of a code before the exchange suffix. */
  function Stem(code: string): string
    requires |code| >= |Suffix|
  {
    code[..|code| - |Suffix|]
  }

  /** A code as the tool builds it: a stem with no whitespace at its ends, followed by the suffix. */
  predicate WellFormedCode(code: string) {
    |code| >= |Suffix| && code[|code| - |Suffix|..] == Suffix && Trimmed(Stem(code))
  }

  /** The codes for a list of pieces: each piece stripped and followed by the suffix, in order. */
  function Codes(pieces: seq<string>): (r: seq<string>)
    ensures |r| == |pieces|
    ensures forall i :: 0 <= i < |r| ==> WellFormedCode(r[i])
  {
    if pieces == [] then []
    else
      var code := Strip(pieces[0]) + Suffix;
      assert Stem(code) == Strip(pieces[0]);
      [code] + Codes(pieces[1..])
  }

  /** Entry `i` of `Codes` belongs to piece `i`. */
  lemma {:induction false} CodesAt(pieces: seq<string>, i: nat)
    requires i < |pieces|
    ensures Codes(pieces)[i] == Strip(pieces[i]) + Suffix
  {
    if i > 0 {
      CodesAt(pieces[1..], i - 1);
    }
  }

  /** The code list built from non-empty input (a list comprehension over the comma-separated pieces). */
  function ParseCodes(s: string): (r: seq<string>)
    ensures |r| == Occurrences(s, Separator) + 1
    ensures forall i :: 0 <= i < |r| ==> WellFormedCode(r[i])
  {
    SplitLength(s, Separator);
    Codes(Split(s, Separator))
  }

  /**
   The code list the tool queries: nothing when the input text is empty (the
   only falsy string), otherwise the parsed codes.
   */
  function CodesToQuery(s: string): (r: seq<string>)
    ensures s == [] <==> r == []
    ensures s != [] ==> |r| == Occurrences(s, Separator) + 1
  {
    if s == [] then [] else ParseCodes(s)
  }

  /** Entry `i` is the `i`-th piece, stripped, followed by the suffix; order is preserved. */
  lemma ParseCodesAt(s: string, i: nat)
    requires i < |Split(s, Separator)|
    ensures i < |ParseCodes(s)|
    ensures ParseCodes(s)[i] == Strip(Split(s, Separator)[i]) + Suffix
    ensures Stem(ParseCodes(s)[i]) == Strip(Split(s, Separator)[i])
  {
    CodesAt(Split(s, Separator), i);
  }

  /** An empty or all-whitespace piece is not filtered out: it yields the bare suffix. */
  lemma BlankPieceGivesBareSuffix(s: string, i: nat)
    requires i < |Split(s, Separator)| && AllSpace(Split(s, Separator)[i])
    ensures i < |ParseCodes(s)| && ParseCodes(s)[i] == Suffix
  {
    ParseCodesAt(s, i);
    StripEmptyIff(Split(s, Separator)[i]);
  }

  /** The stems of a list of codes, in order: each code without its suffix. */
  function Stems(codes: seq<string>): (r: seq<string>)
    requires forall i :: 0 <= i < |codes| ==> WellFormedCode(codes[i])
    ensures |r| == |codes|
    ensures forall i :: 0 <= i < |r| ==> codes[i] == r[i] + Suffix
  {
    if codes == [] then []
    else
      assert WellFormedCode(codes[0]);
      assert |codes[0]| >= |Suffix|;
      assert codes[0] == Stem(codes[0]) + Suffix;
      [Stem(codes[0])] + Stems(codes[1..])
  }

  /** Removing the suffixes from the codes of whitespace-free pieces gives back the pieces. */
  lemma {:induction false} StemsOfCodes(pieces: seq<string>)
    requires forall i :: 0 <= i < |pieces| ==> NoSpace(pieces[i])
    ensures Stems(Codes(pieces)) == pieces
  {
    if pieces != [] {
      var codes := Codes(pieces);
      StemsOfCodes(pieces[1..]);
      StripNoSpace(pieces[0]);
      assert codes[1..] == Codes(pieces[1..]);
      assert Stems(codes) == [Stem(codes[0])] + Stems(codes[1..]);
    }
  }

  /**
   Round trip: when the input holds no whitespace, removing the suffix from every
   code and joining the stems with commas gives back the input text.
   */
  lemma ParseCodesRoundTrip(s: string)
    requires NoSpace(s)
    ensures Join(Stems(ParseCodes(s)), Separator) == s
  {
    var pieces := Split(s, Separator);
    SplitPiecesComeFromInput(s, Separator);
    assert forall i :: 0 <= i < |pieces| ==> NoSpace(pieces[i]);
    StemsOfCodes(pieces);
    JoinSplit(s, Separator);
  }

  /**
   Two codes separated by a comma, as in the input field's example "7203, 6758", give
   two codes in input order, each with its surrounding whitespace removed.
   */
  lemma ParseTwoCodes(p: string, q: string)
    requires Separator !in p && Separator !in q
    ensures ParseCodes(p + [Separator] + q) == [Strip(p) + Suffix, Strip(q) + Suffix]
  {
    var s := p + [Separator] + q;
    SplitAtFirstSeparator(p, q, Separator);
    SplitNoSeparator(q, Separator);
    ParseCodesAt(s, 0);
    ParseCodesAt(s, 1);
  }

  /** A trailing comma, as in "7203,", is not dropped: it adds a final bare ".T" code. */
  lemma ParseTrailingComma(p: string)
    requires Separator !in p
    ensures ParseCodes(p + [Separator]) == [Strip(p) + Suffix, Suffix]
  {
    assert p + [Separator] == p + [Separator] + [];
    ParseTwoCodes(p, []);
    StripUnique([], [], []);
  }
}
