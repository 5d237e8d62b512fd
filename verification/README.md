# CodexBar menu-bar status text, in Dafny

This project models `MenuBarDisplayText`, the part of CodexBar that turns a usage snapshot
into the short text shown next to the menu-bar icon: "42%", "+3%", "42% · +3%", or Cursor's
request count "7/500". The Swift enum has four static functions:

- `percentText` picks `usedPercent` or `remainingPercent` of a rate window by the
  `showUsed` setting, clamps it to [0, 100] and prints it with no decimals and a '%'.
- `cursorRequestText` prints Cursor's request quota as `used/limit`.
- `paceText` asks `UsagePaceText.weeklyPace` for a pace delta and prints it as a sign, the
  rounded magnitude and '%'.
- `displayText` dispatches on the display mode (`percent`, `pace`, `both`). It gives Cursor's
  request counts precedence over the percentage. In `both` mode it joins the two parts with
  " · ", and it shows nothing unless both parts exist.

Modules, one file each:

- `Wrappers` (`wrappers.dfy`): `Option`, for Swift optionals.
- `Decimal` (`decimal.dfy`): integer-to-text as Swift string interpolation writes it, with
  a reader that accepts exactly the texts it writes.
- `Rounding` (`rounding.dfy`): Swift's `rounded()` (to nearest, ties away from zero). Also
  the condition any printf "%.0f" rounding meets: it picks a nearest integer.
- `UsageTypes` (`usage_types.dfy`): display mode, provider, rate window, Cursor request
  usage, instant, pace.
- `MenuBarDisplayText` (`menu_bar_display_text.dfy`): the four functions.
- `StatusTextReading` (`status_text_reading.dfy`): readers for "N%", "±N%", "a/b" and
  "p · q". A numeral is accepted only in the canonical shape the composer writes: no zero
  padding and no "-0". So what a reader recovers from a rendered text pins that text down.
  The readers also accept values the composer never produces, such as "101%", and the
  splitter accepts any parts around the separator. The read-back lemmas say what a rendered
  text contains, and that it is the only text carrying those values.
- `DisplayModes` (`display_modes.dfy`): lemmas relating the three modes.
- `StatusTextExamples` (`status_text_examples.dfy`): concrete texts for fixed inputs.

Two collaborators have no source in this model, so they are parameters:

- `weeklyPace: WeeklyPaceFn` stands for `UsagePaceText.weeklyPace`. Any function may be
  supplied, and no property of it is assumed.
- `printfRound: real -> int` stands for the rounding inside `String(format: "%.0f%%", …)`.
  It must satisfy `IsPrintfRounding`: on [0, 100] it returns an integer within 1/2 of its
  argument. This assumes the default round-to-nearest floating-point mode. Which way a tie
  goes is left open. `RoundHalfToEven` is one such function. It is what printf does under
  the default IEEE 754 rounding mode, and it is proved admissible.

`now` is an explicit `Instant` that is only passed on to `weeklyPace`.

The percentage is printed with `String(format: "%.0f%%", …)`, and printf's "%.0f" is not
half-up. Under ties-to-even, 41.5 prints "42", but 42.5 also prints "42"
(`Rounding.TiesDiffer`). The pace magnitude uses Swift's `rounded()`, which rounds ties away
from zero. On the non-negative magnitude it is applied to, that is half-up.

One consequence of the code as written: a pace delta in (-0.5, 0) is shown as "-0%". The
sign comes from the unrounded delta, and the magnitude rounds to zero
(`StatusTextExamples.PaceSigns`).

## Model

| member | source | states |
|---|---|---|
| MenuBarDisplayText.Clamp | Sources/CodexBar/MenuBarDisplayText.swift:8 | the result lies in [0, 100]; it is the input when the input is in range, 100 above the range and 0 below it |
| MenuBarDisplayText.Max | Sources/CodexBar/MenuBarDisplayText.swift:8 | `max` returns one of its arguments, and it is at least both |
| MenuBarDisplayText.Min | Sources/CodexBar/MenuBarDisplayText.swift:8 | `min` returns one of its arguments, and it is at most both |
| MenuBarDisplayText.PercentText | Sources/CodexBar/MenuBarDisplayText.swift:5-6 | absent exactly when the window is absent |
| StatusTextReading.PercentTextReadsBack | Sources/CodexBar/MenuBarDisplayText.swift:7-9 | a percent text reads back as "N%", where N is the printf rounding of the clamped `usedPercent` (showUsed) or `remainingPercent` (not showUsed), and N ≤ 100; no other text reads as N, so the text is exactly the canonical numeral of N and '%' |
| MenuBarDisplayText.CursorRequestText | Sources/CodexBar/MenuBarDisplayText.swift:12-13 | absent exactly when the request usage is absent |
| StatusTextReading.CursorRequestTextReadsBack | Sources/CodexBar/MenuBarDisplayText.swift:14 | a request text, split at its first '/', reads back as exactly the pair (used, limit), and no other text reads as that pair, so it is exactly the two canonical integer texts around a '/' |
| MenuBarDisplayText.PaceText | Sources/CodexBar/MenuBarDisplayText.swift:17-19 | absent exactly when the window is absent or the pace estimate yields nothing |
| StatusTextReading.PaceTextReadsBack | Sources/CodexBar/MenuBarDisplayText.swift:20-22 | a pace text reads back as a sign and a magnitude. The sign is '+' iff the delta is ≥ 0. The magnitude is the delta's absolute value rounded ties-away-from-zero, so it is within 1/2 of it. No other text reads as that pair, so the text is exactly sign, canonical numeral and '%' |
| MenuBarDisplayText.DisplayText | Sources/CodexBar/MenuBarDisplayText.swift:25-53 | the text is present exactly when the mode's data is: percent needs Cursor request counts or a percent window; pace needs a pace window the estimate accepts; both needs both |
| DisplayModes.PercentModeSelection | Sources/CodexBar/MenuBarDisplayText.swift:35-39 | percent mode shows "used/limit" for Cursor with request counts, whatever the percent window; for any other provider, or Cursor without counts, it is the percent text |
| DisplayModes.PaceModeIndependence | Sources/CodexBar/MenuBarDisplayText.swift:40-41 | pace mode gives the same result however the percent window, showUsed, the request counts and the printf rounding change |
| DisplayModes.PaceModeShowsPaceText | Sources/CodexBar/MenuBarDisplayText.swift:40-41 | pace mode shows exactly `PaceText` of the pace window, so with `BothModeComposition` the pace half of both mode is that text too |
| DisplayModes.BothModeComposition | Sources/CodexBar/MenuBarDisplayText.swift:42-51 | both mode is exactly percent-mode text + " · " + pace-mode text when both exist, and absent otherwise: the percent part of both mode is what percent mode shows |
| DisplayModes.PercentModeCharacters | Sources/CodexBar/MenuBarDisplayText.swift:35-39 | percent-mode text consists of digits, '%', '/' and '-' only |
| DisplayModes.BothModeSplits | Sources/CodexBar/MenuBarDisplayText.swift:42-51 | a both-mode text splits at its separator back into the percent-mode text and the pace-mode text |
| DisplayModes.RemainingIsReadNotDerived | Sources/CodexBar/MenuBarDisplayText.swift:7 | with showUsed off, windows with the same `remainingPercent` show the same text whatever their `usedPercent` |
| DisplayModes.UsedIsReadAlone | Sources/CodexBar/MenuBarDisplayText.swift:7 | with showUsed on, windows with the same `usedPercent` show the same text whatever their `remainingPercent` |
| DisplayModes.CursorRequestTextIgnoresShowUsed | Sources/CodexBar/MenuBarDisplayText.swift:12-14 | the request text is the same for both values of showUsed |
| DisplayModes.PercentTextClamps | Sources/CodexBar/MenuBarDisplayText.swift:7-9 | the shown number is 100 when the selected field is ≥ 100, 0 when it is ≤ 0, and within 1/2 of the field in between |
| Rounding.RoundToNearestOrAwayFromZero | Sources/CodexBar/MenuBarDisplayText.swift:20 | the result is within 1/2 of the input, has the input's sign, and a tie goes away from zero |
| Rounding.Abs | Sources/CodexBar/MenuBarDisplayText.swift:20 | `abs` is non-negative and equals the input or its negation |
| Rounding.IsPrintfRounding | Sources/CodexBar/MenuBarDisplayText.swift:9 | the whole assumption about `String(format: "%.0f")`: on [0, 100] it picks an integer within 1/2 of its argument |
| Rounding.PrintfRoundingBounds | Sources/CodexBar/MenuBarDisplayText.swift:9 | an admissible printf rounding maps [0, 100] into 0..100 and leaves integers unchanged |
| Rounding.RoundHalfToEven | Sources/CodexBar/MenuBarDisplayText.swift:9 | the result is within 1/2 of the input, and is even on a tie |
| Rounding.HalfToEvenIsPrintfRounding | Sources/CodexBar/MenuBarDisplayText.swift:9 | ties-to-even satisfies the printf rounding condition, so the condition can be met |
| Rounding.PrintfRoundingUnique | Sources/CodexBar/MenuBarDisplayText.swift:9 | away from ties every admissible printf rounding equals ties-to-even, so only ties are left open |
| Rounding.TiesDiffer | Sources/CodexBar/MenuBarDisplayText.swift:9-20 | on 42.5 printf's default rounding gives 42 and Swift's `rounded()` gives 43 |
| Decimal.NatToString | Sources/CodexBar/MenuBarDisplayText.swift:22 | the numeral is non-empty, all digits, has no leading zero, is "0" for 0 and is one digit exactly for n < 10 |
| Decimal.IntToString | Sources/CodexBar/MenuBarDisplayText.swift:14 | the text starts with '-' iff the integer is negative, and everything after that optional '-' is digits |
| Decimal.DigitsValueOfNatToString | Sources/CodexBar/MenuBarDisplayText.swift:22 | the value of the digits of the numeral of n is n |
| Decimal.NatToStringRoundTrip | Sources/CodexBar/MenuBarDisplayText.swift:22 | reading the numeral of n gives n back |
| Decimal.NatToStringInjective | Sources/CodexBar/MenuBarDisplayText.swift:22 | two naturals have the same numeral iff they are equal |
| Decimal.IntToStringRoundTrip | Sources/CodexBar/MenuBarDisplayText.swift:14 | reading the text of an integer gives it back, sign included |
| Decimal.IntToStringInjective | Sources/CodexBar/MenuBarDisplayText.swift:14 | two integers have the same text iff they are equal |
| Decimal.NatToStringOfDigitsValue | Sources/CodexBar/MenuBarDisplayText.swift:22 | a canonical numeral (no leading zero) is the numeral of its own value |
| Decimal.ParseNatExactlyNumerals | Sources/CodexBar/MenuBarDisplayText.swift:22 | a text reads as n if and only if it is the numeral of n |
| Decimal.ParseIntOnlyNumerals | Sources/CodexBar/MenuBarDisplayText.swift:14 | a text that reads as the integer i is exactly the text Swift prints for i; "-0" and zero-padded texts are refused |
| Decimal.ParseIntExactlyNumerals | Sources/CodexBar/MenuBarDisplayText.swift:14 | a text reads as the integer i if and only if it is the text Swift prints for i |
| StatusTextReading.ReadPercentExactly | Sources/CodexBar/MenuBarDisplayText.swift:9 | a text reads as N exactly when it is the numeral of N followed by '%' |
| StatusTextReading.ReadSignedPercentExactly | Sources/CodexBar/MenuBarDisplayText.swift:21-22 | a text reads as (sign, N) exactly when it is that sign, the numeral of N and '%' |
| StatusTextReading.IndexOfSeparator | Sources/CodexBar/MenuBarDisplayText.swift:14 | the first '/' of a + "/" + b is right after a when a has none |
| StatusTextReading.ReadFractionExactly | Sources/CodexBar/MenuBarDisplayText.swift:14 | a text reads as (used, limit) exactly when it is the text of used, '/', and the text of limit |
| StatusTextReading.ReadFractionOfRendering | Sources/CodexBar/MenuBarDisplayText.swift:14 | "used/limit" reads back as (used, limit) for any two integers |
| StatusTextReading.ReadFractionOnlyOfRendering | Sources/CodexBar/MenuBarDisplayText.swift:14 | a text that reads as (used, limit) is exactly the text of used, '/', and the text of limit |
| StatusTextReading.PaddedTextsRejected | Sources/CodexBar/MenuBarDisplayText.swift:9-22 | texts the composer never writes, such as "042%", "+03%", "-0/5" and "07/500", are refused by the readers |
| StatusTextReading.SplitAtSeparatorOfJoin | Sources/CodexBar/MenuBarDisplayText.swift:51 | p + " · " + q splits back into p and q when p has no middle dot |
| MenuBarDisplayText.Separator | Sources/CodexBar/MenuBarDisplayText.swift:51 | the both-mode separator is a space, a middle dot (U+00B7) and a space |
| StatusTextExamples.OutOfRangeIsClamped | Sources/CodexBar/MenuBarDisplayText.swift:8-9 | 137% used shows "100%" and -5% shows "0%" |
| StatusTextExamples.NearestPercent | Sources/CodexBar/MenuBarDisplayText.swift:9 | 41.4 shows "41%" under every admissible rounding; 41.5 and 42.5 both show "42%" under ties-to-even |
| StatusTextExamples.RemainingShownAsStored | Sources/CodexBar/MenuBarDisplayText.swift:7 | used 30 and remaining 68 with showUsed off show "68%" |
| StatusTextExamples.CursorRequestsShown | Sources/CodexBar/MenuBarDisplayText.swift:36-37 | Cursor with 7 of 500 requests shows "7/500" in percent mode for either showUsed, ahead of its percent window |
| StatusTextExamples.PaceSigns | Sources/CodexBar/MenuBarDisplayText.swift:20-22 | deltas 0, -2.6 and -0.3 show "+0%", "-3%" and "-0%" |
| StatusTextExamples.BothJoined | Sources/CodexBar/MenuBarDisplayText.swift:49-51 | "42%" and a delta of 2.6 give "42% · +3%"; with no pace, both mode shows nothing |

## Left out

- `UsagePaceText.weeklyPace` is not part of this model. It is the parameter `weeklyPace`,
  with nothing assumed about it: no baseline or normalisation, and nothing about what delta
  an evenly paced usage gives.
- `RateWindow`, `CursorRequestUsage`, `UsageProvider` and `MenuBarDisplayMode` are defined in
  CodexBarCore and the app, which are not part of this model. `remainingPercent` is a field
  of its own, not derived from `usedPercent`. The window's temporal fields are carried only
  for the pace estimate. Providers other than Cursor are represented by `Codex` and `Claude`.
- MenuBarDisplayText.PercentText: the rounding `String(format: "%.0f")` applies is only
  constrained to a nearest integer, so on a tie the contract does not fix the digit. The
  tie rule is the C library's. `IsPrintfRounding` assumes the default round-to-nearest
  mode. Under a directed rounding mode, printf need not pick a nearest integer at all.
- Binary floating point: percentages and the delta are exact reals. NaN, infinities and a
  negative zero are not modelled. Swift's `max(0, -0.0)` keeps the negative zero, which printf
  writes as "-0".
- MenuBarDisplayText.PaceText: `Int(…)` traps when the rounded magnitude does not fit in
  64 bits. The model uses unbounded integers and has no trap.
- The default `now: Date = .init()` reads the clock. The model has no default, and `now` is
  always passed in.
- The default `cursorRequests: CursorRequestUsage? = nil` of `displayText` has no
  counterpart. Callers pass `None` explicitly.
- `Tests/CodexBarTests/OpenAIDashboardNavigationDelegateTests.swift` tests a web-view
  navigation delegate. It is WebKit plumbing unrelated to the status text, and its source
  is not part of this model.
