/** Decimal rendering of integers, as Swift's string interpolation `"\(n)"` writes an `Int`,
    together with the reading that undoes it. */
module Decimal {
  import opened Wrappers

  predicate IsDigit(c: char) {
    '0' <= c <= '9'
  }

  predicate AllDigits(s: string) {
    forall i :: 0 <= i < |s| ==> IsDigit(s[i])
  }

  function DigitChar(d: nat): (c: char)
    requires d < 10
    ensures IsDigit(c)
  {
    (48 + d) as char
  }

  function DigitValue(c: char): (d: nat)
    requires IsDigit(c)
    ensures d < 10
    ensures DigitChar(d) == c
  {
    (c as int - 48) as nat
  }

  /** The shortest decimal numeral of `n`: digits only, and no leading zero except in "0". */
  function NatToString(n: nat): (s: string)
    ensures |s| >= 1
    ensures AllDigits(s)
    ensures s[0] == '0' ==> n == 0
    ensures n == 0 ==> s == "0"
    ensures n < 10 <==> |s| == 1
    decreases n
  {
    if n < 10 then [DigitChar(n)] else NatToString(n / 10) + [DigitChar(n % 10)]
  }

  /** A signed `Int` as Swift prints it: a '-' before the magnitude when negative. */
  function IntToString(i: int): (s: string)
    ensures |s| >= 1
    ensures s[0] == '-' <==> i < 0
    ensures i >= 0 ==> IsDigit(s[0])
    ensures forall k :: 1 <= k < |s| ==> IsDigit(s[k])
  {
    if i < 0 then "-" + NatToString(-i) else NatToString(i)
  }

  /** The value of a string of decimal digits, most significant first. */
  function DigitsValue(s: string): nat
    requires AllDigits(s)
  {
    if |s| == 0 then 0 else DigitsValue(s[..|s| - 1]) * 10 + DigitValue(s[|s| - 1])
  }

  /** A numeral in the shape `NatToString` writes: digits, and no leading zero unless it is "0". */
  predicate IsCanonicalNumeral(s: string) {
    |s| >= 1 && AllDigits(s) && (s[0] != '0' || |s| == 1)
  }

  /** Reads a canonical numeral; anything else is not a natural number. */
  function ParseNat(s: string): (r: Option<nat>)
    ensures r.Some? <==> IsCanonicalNumeral(s)
  {
    if IsCanonicalNumeral(s) then Some(DigitsValue(s)) else None
  }

  /** Reads a natural number, or a '-' followed by a positive one ("-0" is refused). */
  function ParseInt(s: string): (r: Option<int>)
    ensures |s| >= 1 && s[0] != '-' ==> (r.Some? <==> ParseNat(s).Some?)
  {
    if |s| >= 1 && s[0] == '-' then
      match ParseNat(s[1..])
      case Some(n) => if n > 0 then Some(-(n as int)) else None
      case None => None
    else
      match ParseNat(s)
      case Some(n) => Some(n)
      case None => None
  }

  lemma {:induction false} DigitsValueOfNatToString(n: nat)
    ensures DigitsValue(NatToString(n)) == n
    decreases n
  {
    if n >= 10 {
      var prefix := NatToString(n / 10);
      var s := prefix + [DigitChar(n % 10)];
      assert s[..|s| - 1] == prefix;
      DigitsValueOfNatToString(n / 10);
    }
  }

  lemma {:induction false} DigitsValuePositive(s: string)
    requires |s| >= 1 && AllDigits(s) && s[0] != '0'
    ensures DigitsValue(s) > 0
    decreases |s|
  {
    if |s| > 1 {
      var prefix := s[..|s| - 1];
      assert prefix[0] == s[0];
      DigitsValuePositive(prefix);
    } else {
      assert s[..0] == [];
    }
  }

  /** A canonical numeral is the numeral of its value. */
  lemma {:induction false} NatToStringOfDigitsValue(s: string)
    requires IsCanonicalNumeral(s)
    ensures NatToString(DigitsValue(s)) == s
    decreases |s|
  {
    var n := DigitsValue(s);
    var last := s[|s| - 1];
    var prefix := s[..|s| - 1];
    if |s| == 1 {
      assert prefix == [];
      assert s == [last];
    } else {
      assert prefix[0] == s[0];
      DigitsValuePositive(prefix);
      NatToStringOfDigitsValue(prefix);
      assert n / 10 == DigitsValue(prefix) && n % 10 == DigitValue(last);
      assert s == prefix + [last];
    }
  }

  /** Reading back the numeral of `n` gives `n`. */
  lemma NatToStringRoundTrip(n: nat)
    ensures ParseNat(NatToString(n)) == Some(n)
  {
    DigitsValueOfNatToString(n);
  }

  /** Distinct numbers have distinct numerals. */
  lemma NatToStringInjective(a: nat, b: nat)
    ensures NatToString(a) == NatToString(b) <==> a == b
  {
    NatToStringRoundTrip(a);
    NatToStringRoundTrip(b);
  }

  lemma IntToStringRoundTrip(i: int)
    ensures ParseInt(IntToString(i)) == Some(i)
  {
    if i < 0 {
      var s := IntToString(i);
      assert s[1..] == NatToString(-i);
      NatToStringRoundTrip(-i);
    } else {
      NatToStringRoundTrip(i);
    }
  }

  lemma IntToStringInjective(a: int, b: int)
    ensures IntToString(a) == IntToString(b) <==> a == b
  {
    IntToStringRoundTrip(a);
    IntToStringRoundTrip(b);
  }

  /** The reader accepts exactly the numerals `NatToString` writes: `s` reads as `n` if and only
      if `s` is the numeral of `n`. */
  lemma ParseNatExactlyNumerals(s: string, n: nat)
    ensures ParseNat(s) == Some(n) <==> s == NatToString(n)
  {
    NatToStringRoundTrip(n);
    if ParseNat(s) == Some(n) {
      NatToStringOfDigitsValue(s);
    }
  }

  /** Only the text Swift prints for `i` reads as `i`. */
  lemma ParseIntOnlyNumerals(s: string, i: int)
    requires ParseInt(s) == Some(i)
    ensures s == IntToString(i)
  {
    if |s| >= 1 && s[0] == '-' {
      ParseNatExactlyNumerals(s[1..], -i);
      assert s == "-" + s[1..];
    } else {
      ParseNatExactlyNumerals(s, i);
    }
  }

  /** `s` reads as the integer `i` if and only if `s` is the text Swift prints for `i`. */
  lemma ParseIntExactlyNumerals(s: string, i: int)
    ensures ParseInt(s) == Some(i) <==> s == IntToString(i)
  {
    IntToStringRoundTrip(i);
    if ParseInt(s) == Some(i) {
      ParseIntOnlyNumerals(s, i);
    }
  }
}
