# Stock comparison tool: code parsing and start/current comparison

The tool is a small web page. The user types a list of Tokyo Stock Exchange
security codes separated by commas (for example `7203, 6758`) and picks a start
date. For each code the tool fetches the daily close prices from the start date
to today. It then shows the first close in that range (on the first trading day
on or after the start date), the current close and the percentage change
between them. If no prices come back, it shows a "no data
found" message for that code instead.

This project models the two pieces of logic in that script and proves their
properties:

- `TickerCodes` (`ticker_codes.dfy`) parses the code list. Empty input text
  gives no codes. Any other text is cut at every comma, with the semantics of
  Python's `str.split(",")`, keeping empty pieces. Each piece is stripped of
  surrounding whitespace, with Python's `str.strip()` and the `str.isspace()`
  character set, which includes the ideographic space U+3000. Then the exchange
  suffix `.T` is appended. `Join` (Python's `",".join`) is an independent
  reference that `Split` is proved to invert. `StripUnique` gives an independent
  characterisation of `Strip`.
- `PriceComparison` (`price_comparison.dfy`) compares the first and last close
  of a series. Prices are exact `real`s. An empty series gives `NoData`. A
  non-empty series gives the first close, the last close and
  `(last - first) / first * 100`. `PercentChange` is specified by what it means:
  growing `first` by the result in percent gives `last`, and
  `PercentChangeUnique` shows no other number does that.

The source divides by the first close without a guard. A zero first close would
make it display a non-finite change. `PercentChange` therefore requires a
non-zero first price. `Compare` stays total by reporting `ZeroBaseline` for that
case.

## Model

| member | source | states |
|---|---|---|
| `TickerCodes.Split` | app.py:18 | `str.split(",")` always returns at least one piece |
| `TickerCodes.SplitLength` | app.py:18 | there is one piece more than there are commas in the text |
| `TickerCodes.SplitPiecesHaveNoSeparator` | app.py:18 | no piece contains a comma |
| `TickerCodes.SplitPiecesComeFromInput` | app.py:18 | every character of every piece occurs in the input text |
| `TickerCodes.JoinSplit` | app.py:18 | joining the pieces with commas gives back the input text, so splitting loses nothing and keeps the order |
| `TickerCodes.SplitNoSeparator` | app.py:18 | text without a comma splits into exactly itself |
| `TickerCodes.SplitAtFirstSeparator` | app.py:18 | splitting `p + "," + t`, with no comma in `p`, gives `p` followed by the pieces of `t` |
| `TickerCodes.SplitJoin` | app.py:18 | splitting the comma-join of comma-free pieces gives back those pieces |
| `TickerCodes.TrimLeft` | app.py:18 | the result is no longer than the input and does not start with whitespace |
| `TickerCodes.TrimRight` | app.py:18 | the result is no longer than the input and does not end with whitespace |
| `TickerCodes.TrimLeftDropsSpace` | app.py:18 | what left-trimming removes is a whitespace prefix of the input |
| `TickerCodes.TrimRightDropsSpace` | app.py:18 | what right-trimming removes is a whitespace suffix of the input |
| `TickerCodes.Leading` | app.py:18 | the leading part removed by `strip()` is all whitespace |
| `TickerCodes.Trailing` | app.py:18 | the trailing part removed by `strip()` is all whitespace |
| `TickerCodes.Strip` | app.py:18 | the input is whitespace, then the result, then whitespace, and the result has no whitespace at either end |
| `TickerCodes.StripUnique` | app.py:18 | for any whitespace `a` and `b` and any `m` without whitespace at its ends, `strip(a + m + b)` is `m` |
| `TickerCodes.StripIdempotent` | app.py:18 | stripping twice equals stripping once |
| `TickerCodes.StripNoSpace` | app.py:18 | text without whitespace is unchanged by `strip()` |
| `TickerCodes.StripEmptyIff` | app.py:18 | `strip()` gives the empty string exactly when the text is all whitespace |
| `TickerCodes.Codes` | app.py:18 | one code per piece, each ending in `.T` with a stem that has no whitespace at its ends |
| `TickerCodes.CodesAt` | app.py:18 | code `i` is the stripped piece `i` followed by `.T` |
| `TickerCodes.ParseCodes` | app.py:18 | the code list has one entry per comma plus one; every entry ends in `.T`; the part before `.T` has no whitespace at its ends |
| `TickerCodes.CodesToQuery` | app.py:17-18 | empty text gives no codes; any other text gives one code per comma plus one |
| `TickerCodes.ParseCodesAt` | app.py:18 | entry `i` is the `i`-th comma-separated piece, stripped, followed by `.T`: order is preserved |
| `TickerCodes.BlankPieceGivesBareSuffix` | app.py:18 | an empty or all-whitespace piece is kept and gives the bare code `.T` |
| `TickerCodes.Stems` | app.py:18 | each code is its stem followed by `.T` |
| `TickerCodes.StemsOfCodes` | app.py:18 | removing `.T` from the codes of whitespace-free pieces gives back the pieces |
| `TickerCodes.ParseCodesRoundTrip` | app.py:18 | for input without whitespace, dropping `.T` from every code and joining with commas gives back the input |
| `TickerCodes.ParseTwoCodes` | app.py:9-18 | input shaped like the input field's example `7203, 6758` gives the two stripped codes with `.T`, in input order |
| `TickerCodes.ParseTrailingComma` | app.py:18 | a trailing comma, as in `7203,`, is not dropped: it adds a last code `.T` |
| `PriceComparison.PercentChange` | app.py:33 | growing the first price by the result in percent gives the last price |
| `PriceComparison.PercentChangeUnique` | app.py:33 | no other number satisfies that equation, so the change equals `(last - first) / first * 100` and nothing else |
| `PriceComparison.PercentChangeZeroIff` | app.py:33 | the change is zero exactly when the last price equals the first |
| `PriceComparison.PercentChangeSign` | app.py:33 | for a positive first price the change is positive iff the price rose and negative iff it fell |
| `PriceComparison.PercentChangeExample` | app.py:33 | from 100 to 120 the change is exactly 20 percent |
| `PriceComparison.Compare` | app.py:24-38 | `NoData` exactly for an empty series; otherwise the start price is the first close and the current price the last; the change satisfies the percent-change equation; `ZeroBaseline` exactly when the first close is zero |
| `PriceComparison.CompareSingleDay` | app.py:26-33 | for a one-day series start and current price coincide and the change is 0 |
| `PriceComparison.CompareEndpointsOnly` | app.py:26-27 | the closes between the first and the last day do not affect the outcome |
| `PriceComparison.CompareUnchanged` | app.py:26-33 | a series whose last close equals its first reports a change of 0 |

## Left out

- The page widgets and their output (title, text area, date picker, text lines, line chart; app.py:6-15, 30-36): user interface, outside the model.
- The price download (`yf.download`, app.py:22): a network call to an external price provider. The close-price series it returns is an input of `Compare`.
- The current date and the default start date eight weeks earlier (app.py:12-15): they depend on the wall clock and a date library.
- The two-decimal formatting of the change and IEEE floating-point behaviour (app.py:33): prices are exact reals, and there is no rounding.
- PriceComparison.PercentChange: requires a non-zero first price. For a zero first close, the source's float division prints an infinite or NaN change. `Compare` reports `ZeroBaseline` there and does not model that value.
- The loop over the parsed codes (app.py:20): it only sequences the per-code download and display. The per-code logic is `Compare`.
- The unused plotting import (app.py:4).
- The moving-average, band, cumulative-deviation and breach-signal indicator: it is not in `app.py`, so it is not part of this model.
- Where the download returns a price table, the model takes only its close column as a sequence, oldest first. Dates are not modelled.
