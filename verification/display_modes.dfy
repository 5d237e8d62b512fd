/** How the three display modes of `MenuBarDisplayText.displayText` relate to each other and
    to the sub-texts they are built from. */
module DisplayModes {
  import opened Wrappers
  import opened Decimal
  import opened Rounding
  import opened UsageTypes
  import opened StatusTextReading
  import opened MenuBarDisplayText

  /** In `percent` mode Cursor's request counts take precedence over the percentage window;
      every other provider, and Cursor without request counts, shows the percentage text. */
  lemma PercentModeSelection(
    provider: UsageProvider, percentWindow: Option<RateWindow>, paceWindow: Option<RateWindow>,
    showUsed: bool, cursorRequests: Option<CursorRequestUsage>, now: Instant,
    weeklyPace: WeeklyPaceFn, printfRound: real -> int)
    requires IsPrintfRounding(printfRound)
    ensures provider == Cursor && cursorRequests.Some? ==>
      DisplayText(Percent, provider, percentWindow, paceWindow, showUsed, cursorRequests, now, weeklyPace, printfRound)
      == Some(IntToString(cursorRequests.value.used) + "/" + IntToString(cursorRequests.value.limit))
    ensures provider != Cursor || cursorRequests.None? ==>
      DisplayText(Percent, provider, percentWindow, paceWindow, showUsed, cursorRequests, now, weeklyPace, printfRound)
      == PercentText(percentWindow, showUsed, printfRound)
  {
  }

  /** `pace` mode reads only the provider, the pace window, the instant and the estimate:
      the percentage window, `showUsed`, the request counts and the printf rounding do not
      change it. */
  lemma PaceModeIndependence(
    provider: UsageProvider, paceWindow: Option<RateWindow>, now: Instant, weeklyPace: WeeklyPaceFn,
    percentWindow1: Option<RateWindow>, showUsed1: bool, cursorRequests1: Option<CursorRequestUsage>, printfRound1: real -> int,
    percentWindow2: Option<RateWindow>, showUsed2: bool, cursorRequests2: Option<CursorRequestUsage>, printfRound2: real -> int)
    requires IsPrintfRounding(printfRound1) && IsPrintfRounding(printfRound2)
    ensures DisplayText(Pace, provider, percentWindow1, paceWindow, showUsed1, cursorRequests1, now, weeklyPace, printfRound1)
         == DisplayText(Pace, provider, percentWindow2, paceWindow, showUsed2, cursorRequests2, now, weeklyPace, printfRound2)
  {
  }

  /** `pace` mode shows exactly the pace text of the pace window. */
  lemma PaceModeShowsPaceText(
    provider: UsageProvider, percentWindow: Option<RateWindow>, paceWindow: Option<RateWindow>,
    showUsed: bool, cursorRequests: Option<CursorRequestUsage>, now: Instant,
    weeklyPace: WeeklyPaceFn, printfRound: real -> int)
    requires IsPrintfRounding(printfRound)
    ensures DisplayText(Pace, provider, percentWindow, paceWindow, showUsed, cursorRequests, now, weeklyPace, printfRound)
            == PaceText(provider, paceWindow, now, weeklyPace)
  {
  }

  /** `both` mode is the `percent` text and the `pace` text joined by the separator, and is
      absent as soon as either of them is. */
  lemma BothModeComposition(
    provider: UsageProvider, percentWindow: Option<RateWindow>, paceWindow: Option<RateWindow>,
    showUsed: bool, cursorRequests: Option<CursorRequestUsage>, now: Instant,
    weeklyPace: WeeklyPaceFn, printfRound: real -> int)
    requires IsPrintfRounding(printfRound)
    ensures
      var percent := DisplayText(Percent, provider, percentWindow, paceWindow, showUsed, cursorRequests, now, weeklyPace, printfRound);
      var pace := DisplayText(Pace, provider, percentWindow, paceWindow, showUsed, cursorRequests, now, weeklyPace, printfRound);
      DisplayText(Both, provider, percentWindow, paceWindow, showUsed, cursorRequests, now, weeklyPace, printfRound)
      == if percent.Some? && pace.Some? then Some(percent.value + Separator + pace.value) else None
  {
  }

  /** Every character of a `percent`-mode text is a digit, '%', '/' or '-'. */
  lemma PercentModeCharacters(
    provider: UsageProvider, percentWindow: Option<RateWindow>, paceWindow: Option<RateWindow>,
    showUsed: bool, cursorRequests: Option<CursorRequestUsage>, now: Instant,
    weeklyPace: WeeklyPaceFn, printfRound: real -> int)
    requires IsPrintfRounding(printfRound)
    ensures
      var percent := DisplayText(Percent, provider, percentWindow, paceWindow, showUsed, cursorRequests, now, weeklyPace, printfRound);
      percent.Some? ==>
        forall i :: 0 <= i < |percent.value| ==>
          IsDigit(percent.value[i]) || percent.value[i] in "%/-"
  {
  }

  /** A `both`-mode text can be taken apart again: splitting it at its separator gives back
      the `percent` text and the `pace` text. */
  lemma BothModeSplits(
    provider: UsageProvider, percentWindow: Option<RateWindow>, paceWindow: Option<RateWindow>,
    showUsed: bool, cursorRequests: Option<CursorRequestUsage>, now: Instant,
    weeklyPace: WeeklyPaceFn, printfRound: real -> int)
    requires IsPrintfRounding(printfRound)
    ensures
      var both := DisplayText(Both, provider, percentWindow, paceWindow, showUsed, cursorRequests, now, weeklyPace, printfRound);
      var percent := DisplayText(Percent, provider, percentWindow, paceWindow, showUsed, cursorRequests, now, weeklyPace, printfRound);
      var pace := DisplayText(Pace, provider, percentWindow, paceWindow, showUsed, cursorRequests, now, weeklyPace, printfRound);
      both.Some? ==> percent.Some? && pace.Some? && SplitAtSeparator(both.value) == Some((percent.value, pace.value))
  {
    var both := DisplayText(Both, provider, percentWindow, paceWindow, showUsed, cursorRequests, now, weeklyPace, printfRound);
    var percent := DisplayText(Percent, provider, percentWindow, paceWindow, showUsed, cursorRequests, now, weeklyPace, printfRound);
    var pace := DisplayText(Pace, provider, percentWindow, paceWindow, showUsed, cursorRequests, now, weeklyPace, printfRound);
    BothModeComposition(provider, percentWindow, paceWindow, showUsed, cursorRequests, now, weeklyPace, printfRound);
    if both.Some? {
      PercentModeCharacters(provider, percentWindow, paceWindow, showUsed, cursorRequests, now, weeklyPace, printfRound);
      assert MiddleDot !in percent.value;
      SplitAtSeparatorOfJoin(percent.value, pace.value);
    }
  }

  /** With `showUsed` off the shown value is the window's own `remainingPercent`, whatever
      `usedPercent` says: it is not recomputed as 100 minus the used share. */
  lemma RemainingIsReadNotDerived(w1: RateWindow, w2: RateWindow, printfRound: real -> int)
    requires IsPrintfRounding(printfRound)
    requires w1.remainingPercent == w2.remainingPercent
    ensures PercentText(Some(w1), false, printfRound) == PercentText(Some(w2), false, printfRound)
  {
  }

  /** Symmetrically, with `showUsed` on only `usedPercent` matters. */
  lemma UsedIsReadAlone(w1: RateWindow, w2: RateWindow, printfRound: real -> int)
    requires IsPrintfRounding(printfRound)
    requires w1.usedPercent == w2.usedPercent
    ensures PercentText(Some(w1), true, printfRound) == PercentText(Some(w2), true, printfRound)
  {
  }

  /** The request-count text does not depend on `showUsed`. */
  lemma CursorRequestTextIgnoresShowUsed(cursorRequests: Option<CursorRequestUsage>)
    ensures CursorRequestText(cursorRequests, true) == CursorRequestText(cursorRequests, false)
  {
  }

  /** The shown percentage is the selected field rounded when that field is within
      [0, 100], and the bound it crossed otherwise. */
  lemma PercentTextClamps(w: RateWindow, showUsed: bool, printfRound: real -> int)
    requires IsPrintfRounding(printfRound)
    ensures
      var p := if showUsed then w.usedPercent else w.remainingPercent;
      var shown := ReadPercent(PercentText(Some(w), showUsed, printfRound).value).value;
      && (p >= 100.0 ==> shown == 100)
      && (p <= 0.0 ==> shown == 0)
      && (0.0 <= p <= 100.0 ==> p - 0.5 <= shown as real <= p + 0.5)
  {
    var p := if showUsed then w.usedPercent else w.remainingPercent;
    PrintfRoundingBounds(printfRound, Clamp(p));
    PercentTextReadsBack(Some(w), showUsed, printfRound);
  }
}
