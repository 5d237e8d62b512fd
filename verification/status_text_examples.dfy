/** Concrete status texts, for fixed inputs, that the general contracts imply. */
module StatusTextExamples {
  import opened Wrappers
  import opened Decimal
  import opened Rounding
  import opened UsageTypes
  import opened MenuBarDisplayText

  function Window(used: real, remaining: real): RateWindow {
    RateWindow(used, remaining, None, None)
  }

  function ConstantPace(delta: real): WeeklyPaceFn {
    (p: UsageProvider, w: RateWindow, t: Instant) => Some(UsagePace(delta))
  }

  function NoPace(): WeeklyPaceFn {
    (p: UsageProvider, w: RateWindow, t: Instant) => None
  }

  /** 137% used is shown as "100%" and -5% as "0%", whichever admissible rounding printf uses. */
  lemma OutOfRangeIsClamped(printfRound: real -> int)
    requires IsPrintfRounding(printfRound)
    ensures PercentText(Some(Window(137.0, -37.0)), true, printfRound) == Some("100%")
    ensures PercentText(Some(Window(-5.0, 105.0)), true, printfRound) == Some("0%")
  {
    PrintfRoundingBounds(printfRound, 100.0);
    assert NatToString(100) + "%" == "100%";
    PrintfRoundingBounds(printfRound, 0.0);
    assert NatToString(0) + "%" == "0%";
  }

  /** 41.4 is shown as "41%" by every admissible rounding; 41.5 is a tie, which printf's
      default ties-to-even rounding sends to "42%". */
  lemma NearestPercent(printfRound: real -> int)
    requires IsPrintfRounding(printfRound)
    ensures PercentText(Some(Window(41.4, 58.6)), true, printfRound) == Some("41%")
    ensures PercentText(Some(Window(41.5, 58.5)), true, RoundHalfToEven) == Some("42%")
    ensures PercentText(Some(Window(42.5, 57.5)), true, RoundHalfToEven) == Some("42%")
  {
    assert 41.4 - 0.5 <= printfRound(41.4) as real <= 41.4 + 0.5;
    assert NatToString(41) + "%" == "41%";
    HalfToEvenIsPrintfRounding();
    assert RoundHalfToEven(41.5) == 42 && RoundHalfToEven(42.5) == 42;
    assert NatToString(42) + "%" == "42%";
  }

  /** With `showUsed` off, used 30 and remaining 68 show "68%", not "70%". */
  lemma RemainingShownAsStored(printfRound: real -> int)
    requires IsPrintfRounding(printfRound)
    ensures PercentText(Some(Window(30.0, 68.0)), false, printfRound) == Some("68%")
  {
    PrintfRoundingBounds(printfRound, 68.0);
    assert NatToString(68) + "%" == "68%";
  }

  /** Cursor with 7 of 500 requests used shows "7/500" in `percent` mode, for either value
      of `showUsed`, ahead of its percentage window. */
  lemma CursorRequestsShown(showUsed: bool, printfRound: real -> int)
    requires IsPrintfRounding(printfRound)
    ensures DisplayText(Percent, Cursor, Some(Window(42.0, 58.0)), None, showUsed,
                        Some(CursorRequestUsage(7, 500)), Instant(0.0), NoPace(), printfRound)
            == Some("7/500")
  {
    assert IntToString(7) + "/" + IntToString(500) == "7/500";
  }

  /** A zero delta is shown with a plus sign; -2.6 rounds to "-3%"; a small negative delta
      keeps its minus sign even when its magnitude rounds to zero. */
  lemma PaceSigns(printfRound: real -> int)
    requires IsPrintfRounding(printfRound)
    ensures DisplayText(Pace, Codex, None, Some(Window(10.0, 90.0)), true, None,
                        Instant(0.0), ConstantPace(0.0), printfRound) == Some("+0%")
    ensures DisplayText(Pace, Codex, None, Some(Window(10.0, 90.0)), true, None,
                        Instant(0.0), ConstantPace(-2.6), printfRound) == Some("-3%")
    ensures DisplayText(Pace, Codex, None, Some(Window(10.0, 90.0)), true, None,
                        Instant(0.0), ConstantPace(-0.3), printfRound) == Some("-0%")
  {
    assert RoundToNearestOrAwayFromZero(Abs(0.0)) == 0;
    assert "+" + NatToString(0) + "%" == "+0%";
    assert RoundToNearestOrAwayFromZero(Abs(-2.6)) == 3;
    assert "-" + NatToString(3) + "%" == "-3%";
    assert RoundToNearestOrAwayFromZero(Abs(-0.3)) == 0;
    assert "-" + NatToString(0) + "%" == "-0%";
  }

  /** "42%" and "+3%" are joined as "42% · +3%"; without a pace there is no text at all. */
  lemma BothJoined(printfRound: real -> int)
    requires IsPrintfRounding(printfRound)
    ensures DisplayText(Both, Claude, Some(Window(42.0, 58.0)), Some(Window(42.0, 58.0)), true, None,
                        Instant(0.0), ConstantPace(2.6), printfRound) == Some("42% \U{00B7} +3%")
    ensures DisplayText(Both, Claude, Some(Window(42.0, 58.0)), Some(Window(42.0, 58.0)), true, None,
                        Instant(0.0), NoPace(), printfRound) == None
  {
    PrintfRoundingBounds(printfRound, 42.0);
    assert RoundToNearestOrAwayFromZero(Abs(2.6)) == 3;
    assert (NatToString(42) + "%") + Separator + ("+" + NatToString(3) + "%") == "42% \U{00B7} +3%";
  }
}
