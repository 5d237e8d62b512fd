/** Readers for the three shapes of menu-bar text: "N%", "+N%" / "-N%" and "used/limit", and
    for the "p · q" join of `both` mode. A numeral is accepted only in the canonical shape the
    composer writes (no zero padding, no "-0"), so what a reader recovers from a rendered text
    pins that text down. The readers also accept values the composer never produces, such as
    "101%", and the splitter accepts any parts around the separator. */
module StatusTextReading {
  import opened Wrappers
  import opened Decimal
  import opened Rounding
  import opened UsageTypes
  import opened MenuBarDisplayText

  /** Reads "N%" as N. */
  function ReadPercent(s: string): (r: Option<nat>)
    ensures r.Some? ==> |s| >= 2 && s[|s| - 1] == '%'
  {
    if |s| >= 1 && s[|s| - 1] == '%' then ParseNat(s[..|s| - 1]) else None
  }

  /** Reads "+N%" as (true, N) and "-N%" as (false, N); the flag says whether the sign is '+'. */
  function ReadSignedPercent(s: string): (r: Option<(bool, nat)>)
    ensures r.Some? ==> |s| >= 3 && (s[0] == '+' || s[0] == '-') && s[|s| - 1] == '%'
    ensures r.Some? ==> (r.value.0 <==> s[0] == '+')
  {
    if |s| >= 2 && (s[0] == '+' || s[0] == '-') && s[|s| - 1] == '%' then
      match ParseNat(s[1..|s| - 1])
      case Some(n) => Some((s[0] == '+', n))
      case None => None
    else None
  }

  /** The position of the first occurrence of `c` in `s`. */
  function IndexOf(s: string, c: char): (r: Option<nat>)
    ensures r.Some? ==> r.value < |s| && s[r.value] == c && c !in s[..r.value]
    ensures r.None? ==> c !in s
  {
    if |s| == 0 then None
    else if s[0] == c then Some(0)
    else
      match IndexOf(s[1..], c)
      case Some(k) => assert s[..k + 1] == [s[0]] + s[1..][..k]; Some(k + 1)
      case None => assert s == [s[0]] + s[1..]; None
  }

  /** Reads "a/b", splitting at the first '/', as the pair of integers (a, b). */
  function ReadFraction(s: string): (r: Option<(int, int)>)
    ensures r.Some? ==> '/' in s
  {
    match IndexOf(s, '/')
    case None => None
    case Some(k) =>
      match (ParseInt(s[..k]), ParseInt(s[k + 1..]))
      case (Some(a), Some(b)) => Some((a, b))
      case _ => None
  }

  /** Takes "p · q" apart at its first middle dot. */
  function SplitAtSeparator(s: string): (r: Option<(string, string)>)
    ensures r.Some? ==> s == r.value.0 + Separator + r.value.1 && MiddleDot !in r.value.0
  {
    match IndexOf(s, MiddleDot)
    case None => None
    case Some(k) =>
      if 1 <= k && k + 1 < |s| && s[k - 1] == ' ' && s[k + 1] == ' ' then
        assert s == s[..k - 1] + Separator + s[k + 2..];
        assert s[..k - 1] == s[..k][..k - 1];
        Some((s[..k - 1], s[k + 2..]))
      else None
  }

  /** `s` reads as N exactly when `s` is "N%" with N written as `NatToString` writes it. */
  lemma ReadPercentExactly(s: string, n: nat)
    ensures ReadPercent(s) == Some(n) <==> s == NatToString(n) + "%"
  {
    var t := NatToString(n) + "%";
    assert t[..|t| - 1] == NatToString(n);
    ParseNatExactlyNumerals(NatToString(n), n);
    if ReadPercent(s) == Some(n) {
      ParseNatExactlyNumerals(s[..|s| - 1], n);
      assert s == s[..|s| - 1] + "%";
    }
  }

  /** `s` reads as (plus, N) exactly when `s` is the sign, the numeral of N and '%'. */
  lemma ReadSignedPercentExactly(s: string, plus: bool, n: nat)
    ensures ReadSignedPercent(s) == Some((plus, n))
            <==> s == (if plus then "+" else "-") + NatToString(n) + "%"
  {
    var t := (if plus then "+" else "-") + NatToString(n) + "%";
    assert t[1..|t| - 1] == NatToString(n);
    ParseNatExactlyNumerals(NatToString(n), n);
    if ReadSignedPercent(s) == Some((plus, n)) {
      ParseNatExactlyNumerals(s[1..|s| - 1], n);
      assert s == [s[0]] + s[1..|s| - 1] + "%";
    }
  }

  /** The first '/' of "a/b" is the one between the numbers when the first has none. */
  lemma IndexOfSeparator(a: string, b: string)
    requires '/' !in a
    ensures IndexOf(a + "/" + b, '/') == Some(|a|)
  {
    var s := a + "/" + b;
    assert s[|a|] == '/';
    assert s[..|a|] == a;
  }

  /** "a/b" reads back as (a, b). */
  lemma ReadFractionOfRendering(a: int, b: int)
    ensures ReadFraction(IntToString(a) + "/" + IntToString(b)) == Some((a, b))
  {
    var x := IntToString(a);
    var y := IntToString(b);
    var t := x + "/" + y;
    IndexOfSeparator(x, y);
    assert t[..|x|] == x;
    assert t[|x| + 1..] == y;
    IntToStringRoundTrip(a);
    IntToStringRoundTrip(b);
  }

  /** Only "a/b" reads back as (a, b). */
  lemma ReadFractionOnlyOfRendering(s: string, a: int, b: int)
    requires ReadFraction(s) == Some((a, b))
    ensures s == IntToString(a) + "/" + IntToString(b)
  {
    var k := IndexOf(s, '/').value;
    var x, y := s[..k], s[k + 1..];
    assert ParseInt(x) == Some(a) && ParseInt(y) == Some(b);
    ParseIntOnlyNumerals(x, a);
    ParseIntOnlyNumerals(y, b);
    assert s == x + "/" + y;
  }

  /** `s` reads as (a, b) exactly when `s` is the text of a, a '/', and the text of b. */
  lemma ReadFractionExactly(s: string, a: int, b: int)
    ensures ReadFraction(s) == Some((a, b)) <==> s == IntToString(a) + "/" + IntToString(b)
  {
    ReadFractionOfRendering(a, b);
    if ReadFraction(s) == Some((a, b)) {
      ReadFractionOnlyOfRendering(s, a, b);
    }
  }

  /** Zero-padded numerals and a negative zero are not texts the composer writes, and the
      readers refuse them. */
  lemma PaddedTextsRejected()
    ensures ReadPercent("042%") == None
    ensures ReadSignedPercent("+03%") == None
    ensures ReadFraction("-0/5") == None
    ensures ReadFraction("07/500") == None
  {
  }

  /** Joining with the separator and splitting again gives the parts back, provided the
      first part has no middle dot of its own. */
  lemma SplitAtSeparatorOfJoin(p: string, q: string)
    requires MiddleDot !in p
    ensures SplitAtSeparator(p + Separator + q) == Some((p, q))
  {
    var s := p + Separator + q;
    assert s[|p| + 1] == MiddleDot;
    assert s[..|p| + 1] == p + [' '];
    assert s[..|p|] == p;
    assert s[|p| + 3..] == q;
  }

  /** A percent text reads back as the printf rounding of the clamped selected field, which
      is at most 100, and it is the only text that reads as that number. */
  lemma PercentTextReadsBack(window: Option<RateWindow>, showUsed: bool, printfRound: real -> int)
    requires IsPrintfRounding(printfRound)
    ensures
      var r := PercentText(window, showUsed, printfRound);
      r.Some? ==>
        && ReadPercent(r.value)
           == Some(printfRound(Clamp(if showUsed then window.value.usedPercent else window.value.remainingPercent)))
        && ReadPercent(r.value).value <= 100
        && forall t :: ReadPercent(t) == ReadPercent(r.value) ==> t == r.value
  {
    if window.Some? {
      var w := window.value;
      var clamped := Clamp(if showUsed then w.usedPercent else w.remainingPercent);
      PrintfRoundingBounds(printfRound, clamped);
      var n: nat := printfRound(clamped);
      ReadPercentExactly(NatToString(n) + "%", n);
      forall t | ReadPercent(t) == Some(n) {
        ReadPercentExactly(t, n);
      }
    }
  }

  /** A request text, split at its first '/', reads back as exactly (used, limit), and it is
      the only text that does. */
  lemma CursorRequestTextReadsBack(cursorRequests: Option<CursorRequestUsage>, showUsed: bool)
    ensures
      var r := CursorRequestText(cursorRequests, showUsed);
      r.Some? ==>
        && ReadFraction(r.value) == Some((cursorRequests.value.used, cursorRequests.value.limit))
        && forall t :: ReadFraction(t) == ReadFraction(r.value) ==> t == r.value
  {
    if cursorRequests.Some? {
      var used := cursorRequests.value.used;
      var limit := cursorRequests.value.limit;
      ReadFractionExactly(IntToString(used) + "/" + IntToString(limit), used, limit);
      forall t | ReadFraction(t) == Some((used, limit)) {
        ReadFractionExactly(t, used, limit);
      }
    }
  }

  /** A pace text reads back as a sign that is '+' exactly when the delta is not negative,
      and the delta's magnitude rounded ties-away-from-zero, hence within 1/2 of it; it is
      the only text that reads as that pair. */
  lemma PaceTextReadsBack(provider: UsageProvider, window: Option<RateWindow>, now: Instant, weeklyPace: WeeklyPaceFn)
    ensures
      var r := PaceText(provider, window, now, weeklyPace);
      r.Some? ==>
        var delta := weeklyPace(provider, window.value, now).value.deltaPercent;
        && ReadSignedPercent(r.value) == Some((delta >= 0.0, RoundToNearestOrAwayFromZero(Abs(delta))))
        && Abs(delta) - 0.5 <= ReadSignedPercent(r.value).value.1 as real <= Abs(delta) + 0.5
        && forall t :: ReadSignedPercent(t) == ReadSignedPercent(r.value) ==> t == r.value
  {
    if PaceText(provider, window, now, weeklyPace).Some? {
      var delta := weeklyPace(provider, window.value, now).value.deltaPercent;
      var plus := delta >= 0.0;
      var n: nat := RoundToNearestOrAwayFromZero(Abs(delta));
      ReadSignedPercentExactly((if plus then "+" else "-") + NatToString(n) + "%", plus, n);
      forall t | ReadSignedPercent(t) == Some((plus, n)) {
        ReadSignedPercentExactly(t, plus, n);
      }
    }
  }
}
