/** The value types the status text is computed from. Their Swift definitions live in the
    CodexBarCore package and are not part of this model; only the fields the composer reads,
    and the fields it forwards to the pace estimate, are kept. */
module UsageTypes {
  import opened Wrappers

  /** The display-mode setting of the menu bar. */
  datatype MenuBarDisplayMode = Percent | Pace | Both

  /** The usage providers. Only `Cursor` is singled out by the composer; the others stand for
      every provider that reports percentages. */
  datatype UsageProvider = Codex | Claude | Cursor

  /** A point in time, as Foundation's `Date` (seconds since its reference date). It is only
      handed on to the pace estimate. */
  datatype Instant = Instant(secondsSinceReferenceDate: real)

  /** One rate-limited quota window. `usedPercent` and `remainingPercent` are independent
      fields and either may lie outside [0, 100]; the temporal fields are read only by the
      pace estimate. */
  datatype RateWindow = RateWindow(
    usedPercent: real,
    remainingPercent: real,
    windowMinutes: Option<int>,
    resetsAt: Option<Instant>)

  /** Cursor's request-count quota. Both counts are Swift `Int`s. */
  datatype CursorRequestUsage = CursorRequestUsage(used: int, limit: int)

  /** The part of the pace estimate the composer reads: a signed percentage-point delta. */
  datatype UsagePace = UsagePace(deltaPercent: real)

  /** `UsagePaceText.weeklyPace(provider:window:now:)`, whose definition is not part of this
      model: any function of this shape may be supplied, and nothing is assumed about it. */
  type WeeklyPaceFn = (UsageProvider, RateWindow, Instant) -> Option<UsagePace>
}
