/**
 * A stand-in for `strconv.ParseFloat(s, 64)` restricted to plain decimal notation: an
 * optional sign, digits, and an optional '.' followed by more digits, with at least one
 * digit in all. A value whose magnitude rounds to infinity in float64 is an error, as
 * `ParseFloat` reports `ErrRange` for it; any other value is kept as an exact `real`, and
 * rounding to float64 is not modelled.
 */
module Numbers {
  import opened Wrappers

  predicate IsDigit(ch: char) {
    '0' <= ch <= '9'
  }

  predicate AllDigits(s: string) {
    forall i :: 0 <= i < |s| ==> IsDigit(s[i])
  }

  function DigitValue(ch: char): (d: nat)
    requires IsDigit(ch)
    ensures d < 10
  {
    ch as int - '0' as int
  }

  function DigitChar(d: nat): (ch: char)
    requires d < 10
    ensures IsDigit(ch) && DigitValue(ch) == d
  {
    ('0' as int + d) as char
  }

  /** The value of a run of decimal digits, most significant digit first. */
  function DigitsValue(s: string): nat
    requires AllDigits(s)
    decreases |s|
  {
    if s == [] then 0 else 10 * DigitsValue(s[..|s| - 1]) + DigitValue(s[|s| - 1])
  }

  function Pow10(n: nat): (r: nat)
    ensures r >= 1
  {
    if n == 0 then 1 else 10 * Pow10(n - 1)
  }

  /** Length of the leading run of digits. */
  function DigitRun(s: string): (n: nat)
    ensures n <= |s|
    ensures AllDigits(s[..n])
    ensures n == |s| || !IsDigit(s[n])
    decreases |s|
  {
    if s == [] || !IsDigit(s[0]) then 0
    else
      var m := DigitRun(s[1..]);
      assert s[..m + 1] == [s[0]] + s[1..][..m];
      1 + m
  }

  /** Digits, optionally followed by '.' and digits; at least one digit in all. */
  function ParseUnsigned(s: string): Option<real>
  {
    var n := DigitRun(s);
    var whole := s[..n];
    var rest := s[n..];
    if rest == [] then
      if n == 0 then None else Some(DigitsValue(whole) as real)
    else if rest[0] == '.' && AllDigits(rest[1..]) && (n > 0 || |rest| > 1) then
      Some(DigitsValue(whole) as real + DigitsValue(rest[1..]) as real / Pow10(|rest| - 1) as real)
    else None
  }

  /** Decimal syntax: an optional '+' or '-' in front of an unsigned decimal. */
  function ParseDecimal(s: string): Option<real>
  {
    if s != [] && (s[0] == '+' || s[0] == '-') then
      var v := ParseUnsigned(s[1..]);
      if v.None? then None else Some(if s[0] == '-' then -v.value else v.value)
    else ParseUnsigned(s)
  }

  /** 2^1024 - 2^970: the largest float64, 2^1024 - 2^971, plus half a unit in its last place.
      Round-half-to-even sends this magnitude and every larger one to infinity. */
  const OverflowBound: real := 179_769_313_486_231_580_793_728_971_405_303_415_079_934_132_710_037_826_936_173_778_980_444_968_292_764_750_946_649_017_977_587_207_096_330_286_416_692_887_910_946_555_547_851_940_402_630_657_488_671_505_820_681_908_902_000_708_383_676_273_854_845_817_711_531_764_475_730_270_069_855_571_366_959_622_842_914_819_860_834_936_475_292_719_074_168_444_365_510_704_342_711_559_699_508_093_042_880_177_904_174_497_792.0

  /** "Parses as a number": well-formed decimal syntax whose value stays finite in float64;
      a well-formed key beyond that range is an error (`ErrRange`). */
  function ParseNum(s: string): (r: Option<real>)
    ensures r.Some? ==> -OverflowBound < r.value < OverflowBound
    ensures ParseDecimal(s).None? ==> r.None?
  {
    match ParseDecimal(s)
    case None => None
    case Some(v) => if -OverflowBound < v < OverflowBound then Some(v) else None
  }

  /** Decimal digits of `n`, without leading zeros. */
  function FormatNat(n: nat): (r: string)
    ensures r != [] && AllDigits(r)
  {
    if n < 10 then [DigitChar(n)] else FormatNat(n / 10) + [DigitChar(n % 10)]
  }

  lemma {:induction false} FormatNatValue(n: nat)
    ensures DigitsValue(FormatNat(n)) == n
  {
    if n >= 10 {
      var s := FormatNat(n);
      assert s[..|s| - 1] == FormatNat(n / 10);
      FormatNatValue(n / 10);
    }
  }

  lemma DigitRunOfDigits(s: string)
    requires AllDigits(s)
    ensures DigitRun(s) == |s|
  {
  }

  /** Printing a natural number and parsing it back gives the number, unless the number is
      too large for float64. */
  lemma ParseFormatNat(n: nat)
    ensures ParseNum(FormatNat(n)) == if (n as real) < OverflowBound then Some(n as real) else None
  {
    var s := FormatNat(n);
    DigitRunOfDigits(s);
    FormatNatValue(n);
    assert s[..|s|] == s;
  }

  /** The same with a leading minus sign. */
  lemma ParseFormatNegative(n: nat)
    ensures ParseNum("-" + FormatNat(n)) == if (n as real) < OverflowBound then Some(-(n as real)) else None
  {
    var s := "-" + FormatNat(n);
    assert s[1..] == FormatNat(n);
    ParseFormatNat(n);
  }

  /** A leading zero does not change the value of a digit run. */
  lemma {:induction false} LeadingZeroValue(t: string)
    requires AllDigits(t)
    ensures AllDigits("0" + t) && DigitsValue("0" + t) == DigitsValue(t)
    decreases |t|
  {
    if t != [] {
      var s := "0" + t;
      assert s[..|s| - 1] == "0" + t[..|t| - 1];
      LeadingZeroValue(t[..|t| - 1]);
    }
  }

  /** Leading zeros are accepted and ignored: "007" parses as 7. */
  lemma ParseLeadingZero(n: nat)
    ensures ParseNum("0" + FormatNat(n)) == if (n as real) < OverflowBound then Some(n as real) else None
  {
    var t := FormatNat(n);
    var s := "0" + t;
    LeadingZeroValue(t);
    DigitRunOfDigits(s);
    FormatNatValue(n);
    assert s[..|s|] == s;
  }

  /** A key without any digit never parses. */
  lemma ParseNeedsDigit(s: string)
    requires forall i :: 0 <= i < |s| ==> !IsDigit(s[i])
    ensures ParseDecimal(s) == None && ParseNum(s) == None
  {
    if s != [] && (s[0] == '+' || s[0] == '-') {
      var t := s[1..];
      assert DigitRun(t) == 0;
      assert t[0..] == t;
      if |t| > 0 && t[0] == '.' {
        assert |t| > 1 ==> !IsDigit(t[1..][0]);
      }
    } else {
      assert DigitRun(s) == 0;
      assert s[0..] == s;
      if |s| > 0 && s[0] == '.' {
        assert |s| > 1 ==> !IsDigit(s[1..][0]);
      }
    }
  }

  /** A digit run stops at the first non-digit. */
  lemma {:induction false} DigitRunStops(w: string, t: string)
    requires AllDigits(w) && (t == [] || !IsDigit(t[0]))
    ensures DigitRun(w + t) == |w|
    decreases |w|
  {
    if w != [] {
      assert (w + t)[1..] == w[1..] + t;
      DigitRunStops(w[1..], t);
    } else {
      assert w + t == t;
    }
  }

  /** A run of n digits is below 10^n. */
  lemma {:induction false} DigitsBelowPow10(s: string)
    requires AllDigits(s)
    ensures DigitsValue(s) < Pow10(|s|)
    decreases |s|
  {
    if s != [] {
      DigitsBelowPow10(s[..|s| - 1]);
    }
  }

  /** A proper fraction x / y, with 0 <= x < y, lies in [0, 1). */
  lemma ProperFraction(x: real, y: real)
    requires 0.0 <= x < y
    ensures 0.0 <= x / y < 1.0
  {
    var q := x / y;
    assert q * y == x;
  }

  /** The exact value of `a.d`: the whole part plus the fraction digits over 10^|d|, which
      lies in [a, a + 1). */
  function FractionValue(a: nat, d: string): (r: real)
    requires AllDigits(d)
    ensures a as real <= r < a as real + 1.0
  {
    DigitsBelowPow10(d);
    ProperFraction(DigitsValue(d) as real, Pow10(|d|) as real);
    a as real + DigitsValue(d) as real / Pow10(|d|) as real
  }

  /** `a.d` without a sign: the whole part, then the fraction digits. */
  lemma UnsignedFraction(a: nat, d: string)
    requires AllDigits(d)
    ensures var s := FormatNat(a) + "." + d;
            IsDigit(s[0]) && ParseUnsigned(s) == Some(FractionValue(a, d))
  {
    var w := FormatNat(a);
    var s := w + "." + d;
    assert s == w + ("." + d);
    DigitRunStops(w, "." + d);
    FormatNatValue(a);
    assert s[..|w|] == w;
    assert s[|w|..] == "." + d;
    assert ("." + d)[1..] == d;
  }

  /** A key with a fractional part parses to its exact value ("1.10" is 1.1, "1." is 1);
      beyond the float64 range it is an error. */
  lemma ParseFraction(a: nat, d: string)
    requires AllDigits(d)
    ensures var v := FractionValue(a, d);
            ParseNum(FormatNat(a) + "." + d) == if v < OverflowBound then Some(v) else None
  {
    UnsignedFraction(a, d);
  }

  /** A sign in front of an unsigned decimal: '+' keeps its value, '-' negates it. */
  lemma SignedDecimal(t: string, v: real)
    requires t != [] && IsDigit(t[0]) && ParseUnsigned(t) == Some(v)
    ensures ParseDecimal(t) == Some(v)
    ensures ParseDecimal("+" + t) == Some(v) && ParseDecimal("-" + t) == Some(-v)
  {
    assert ("+" + t)[1..] == t && ("-" + t)[1..] == t;
  }

  /** The same for `ParseNum`, with the overflow error on both signs. */
  lemma SignedNum(t: string, v: real)
    requires t != [] && IsDigit(t[0]) && ParseUnsigned(t) == Some(v) && v >= 0.0
    ensures ParseNum("+" + t) == if v < OverflowBound then Some(v) else None
    ensures ParseNum("-" + t) == if v < OverflowBound then Some(-v) else None
  {
    SignedDecimal(t, v);
  }

  /** A '+' in front changes nothing. */
  lemma ParsePlusFraction(a: nat, d: string)
    requires AllDigits(d)
    ensures var v := FractionValue(a, d);
            ParseNum("+" + FormatNat(a) + "." + d) == if v < OverflowBound then Some(v) else None
  {
    var s := FormatNat(a) + "." + d;
    UnsignedFraction(a, d);
    SignedNum(s, FractionValue(a, d));
    assert "+" + FormatNat(a) + "." + d == "+" + s;
  }

  /** A '-' in front negates the value. */
  lemma ParseMinusFraction(a: nat, d: string)
    requires AllDigits(d)
    ensures var v := FractionValue(a, d);
            ParseNum("-" + FormatNat(a) + "." + d) == if v < OverflowBound then Some(-v) else None
  {
    var s := FormatNat(a) + "." + d;
    UnsignedFraction(a, d);
    SignedNum(s, FractionValue(a, d));
    assert "-" + FormatNat(a) + "." + d == "-" + s;
  }

  /** A key `1.d` parses to one plus its fraction. */
  lemma ParseOnePoint(d: string, v: real)
    requires AllDigits(d) && FractionValue(1, d) == v && v < 2.0
    ensures ParseNum("1." + d) == Some(v)
  {
    ParseFraction(1, d);
    assert FormatNat(1) == "1";
    assert "1" + "." + d == "1." + d;
  }

  lemma ParseOnePointTen()
    ensures ParseNum("1.10") == Some(1.1)
  {
    assert "10"[..1] == "1" && "1"[..0] == [];
    assert DigitsValue("10") == 10;
    assert Pow10(2) == 100;
    assert "1." + "10" == "1.10";
    ParseOnePoint("10", 1.1);
  }

  /** `1.d` for a single digit d is 1 + d/10. */
  lemma ParseOnePointDigit(d: char, v: real)
    requires IsDigit(d) && v == 1.0 + DigitValue(d) as real / 10.0
    ensures ParseNum("1." + [d]) == Some(v)
  {
    assert [d][..0] == [];
    assert DigitsValue([d]) == DigitValue(d);
    assert Pow10(1) == 10;
    ParseOnePoint([d], v);
  }

  /** The decimal keys of the form `1.x` order by their fractional value: 1.10 < 1.2 < 1.5. */
  lemma DecimalKeysOrder()
    ensures ParseNum("1.10") == Some(1.1) && ParseNum("1.2") == Some(1.2) && ParseNum("1.5") == Some(1.5)
  {
    ParseOnePointTen();
    ParseOnePointDigit('2', 1.2);
    assert "1." + ['2'] == "1.2";
    ParseOnePointDigit('5', 1.5);
    assert "1." + ['5'] == "1.5";
  }
}
