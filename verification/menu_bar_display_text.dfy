/** The menu-bar status text: the enum `MenuBarDisplayText` of
    Sources/CodexBar/MenuBarDisplayText.swift. Its two outside dependencies are parameters:
    `weeklyPace` for `UsagePaceText.weeklyPace`, and `printfRound` for the rounding done by
    `String(format: "%.0f%%", …)`. */
module MenuBarDisplayText {
  import opened Wrappers
  import opened Decimal
  import opened Rounding
  import opened UsageTypes

  const MiddleDot: char := '\U{00B7}'

  /** What `both` mode puts between its two parts: a middle dot with one space either side. */
  const Separator: string := [' ', MiddleDot, ' ']

  /** Swift's `max` on two reals: the larger of the two. */
  function Max(a: real, b: real): (m: real)
    ensures m >= a && m >= b
    ensures m == a || m == b
  {
    if a >= b then a else b
  }

  /** Swift's `min` on two reals: the smaller of the two. */
  function Min(a: real, b: real): (m: real)
    ensures m <= a && m <= b
    ensures m == a || m == b
  {
    if a <= b then a else b
  }

  /** `min(100, max(0, percent))`: the nearest point of [0, 100]. */
  function Clamp(percent: real): (c: real)
    ensures 0.0 <= c <= 100.0
    ensures 0.0 <= percent <= 100.0 ==> c == percent
    ensures percent > 100.0 ==> c == 100.0
    ensures percent < 0.0 ==> c == 0.0
  {
    Min(100.0, Max(0.0, percent))
  }

  /** `percentText(window:showUsed:)`: the used or the remaining percentage of the window,
      clamped to [0, 100] and printed with no decimals and a trailing '%'. */
  function PercentText(window: Option<RateWindow>, showUsed: bool, printfRound: real -> int): (r: Option<string>)
    requires IsPrintfRounding(printfRound)
    ensures r.None? <==> window.None?
  {
    match window
    case None => None
    case Some(w) =>
      var percent := if showUsed then w.usedPercent else w.remainingPercent;
      var clamped := Clamp(percent);
      PrintfRoundingBounds(printfRound, clamped);
      var shown: nat := printfRound(clamped);
      Some(NatToString(shown) + "%")
  }

  /** `cursorRequestText(cursorRequests:showUsed:)`: "used/limit" as two integers. The
      `showUsed` flag is accepted and not read. */
  function CursorRequestText(cursorRequests: Option<CursorRequestUsage>, showUsed: bool): (r: Option<string>)
    ensures r.None? <==> cursorRequests.None?
  {
    match cursorRequests
    case None => None
    case Some(requests) =>
      Some(IntToString(requests.used) + "/" + IntToString(requests.limit))
  }

  /** `paceText(provider:window:now:)`: the pace delta as a sign, its magnitude rounded to
      an integer, and '%'. The sign is '+' exactly when the unrounded delta is not negative. */
  function PaceText(provider: UsageProvider, window: Option<RateWindow>, now: Instant, weeklyPace: WeeklyPaceFn): (r: Option<string>)
    ensures r.None? <==> window.None? || weeklyPace(provider, window.value, now).None?
  {
    match window
    case None => None
    case Some(w) =>
      match weeklyPace(provider, w, now)
      case None => None
      case Some(pace) =>
        var deltaValue: nat := RoundToNearestOrAwayFromZero(Abs(pace.deltaPercent));
        var sign := if pace.deltaPercent >= 0.0 then "+" else "-";
        Some(sign + NatToString(deltaValue) + "%")
  }

  /** Whether a current value can be shown: Cursor's request counts, or a percentage window. */
  predicate CurrentAvailable(provider: UsageProvider, percentWindow: Option<RateWindow>,
                             cursorRequests: Option<CursorRequestUsage>)
  {
    (provider == Cursor && cursorRequests.Some?) || percentWindow.Some?
  }

  /** Whether a pace can be shown: a pace window for which the estimate yields a value. */
  predicate PaceAvailable(provider: UsageProvider, paceWindow: Option<RateWindow>, now: Instant,
                          weeklyPace: WeeklyPaceFn)
  {
    paceWindow.Some? && weeklyPace(provider, paceWindow.value, now).Some?
  }

  /** `displayText(mode:provider:percentWindow:paceWindow:showUsed:cursorRequests:now:)`.
      The text is absent exactly when the data the mode needs is missing. */
  function DisplayText(
    mode: MenuBarDisplayMode,
    provider: UsageProvider,
    percentWindow: Option<RateWindow>,
    paceWindow: Option<RateWindow>,
    showUsed: bool,
    cursorRequests: Option<CursorRequestUsage>,
    now: Instant,
    weeklyPace: WeeklyPaceFn,
    printfRound: real -> int): (r: Option<string>)
    requires IsPrintfRounding(printfRound)
    ensures mode == Percent ==> (r.Some? <==> CurrentAvailable(provider, percentWindow, cursorRequests))
    ensures mode == Pace ==> (r.Some? <==> PaceAvailable(provider, paceWindow, now, weeklyPace))
    ensures mode == Both ==>
      (r.Some? <==> CurrentAvailable(provider, percentWindow, cursorRequests)
                    && PaceAvailable(provider, paceWindow, now, weeklyPace))
  {
    match mode
    case Percent =>
      var requestText := CursorRequestText(cursorRequests, showUsed);
      if provider == Cursor && requestText.Some? then requestText
      else PercentText(percentWindow, showUsed, printfRound)
    case Pace =>
      PaceText(provider, paceWindow, now, weeklyPace)
    case Both =>
      var requestText := CursorRequestText(cursorRequests, showUsed);
      var percentPart :=
        if provider == Cursor && requestText.Some? then requestText
        else PercentText(percentWindow, showUsed, printfRound);
      var pacePart := PaceText(provider, paceWindow, now, weeklyPace);
      match percentPart
      case None => None
      case Some(percent) =>
        match pacePart
        case None => None
        case Some(pace) => Some(percent + Separator + pace)
  }
}
