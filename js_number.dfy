/**
 * The parts of JavaScript's number handling that `formatFileSize` relies on,
 * over exact integers: `toFixed(2)` of a non-negative quotient, and the
 * string that `parseFloat(...)` followed by string concatenation gives for a
 * number with at most two decimals (no trailing zeros, no trailing point).
 * `ParseHundredths` reads the writer's text back (its inverse).
 */
module JsNumber {
  import opened Wrappers

  predicate IsDigit(c: char)
  {
    '0' <= c <= '9'
  }

  predicate AllDigits(s: string)
  {
    forall k :: 0 <= k < |s| ==> IsDigit(s[k])
  }

  function DigitValue(c: char): nat
    requires IsDigit(c)
  {
    c as int - '0' as int
  }

  function DigitChar(d: nat): (c: char)
    requires d < 10
    ensures IsDigit(c) && DigitValue(c) == d
  {
    ('0' as int + d) as char
  }

  /** The value of a string of decimal digits, most significant first. */
  function DigitsValue(s: string): nat
    requires AllDigits(s)
    decreases |s|
  {
    if s == [] then 0 else 10 * DigitsValue(s[..|s| - 1]) + DigitValue(s[|s| - 1])
  }

  /**
   * The decimal text of a non-negative integer as JavaScript writes it:
   * at least one digit, reads back as `n`, and starts with `0` only for zero.
   */
  function NatToString(n: nat): (s: string)
    ensures |s| >= 1 && AllDigits(s)
    ensures DigitsValue(s) == n
    ensures (s[0] == '0') == (n == 0)
    decreases n
  {
    if n < 10 then [DigitChar(n)]
    else
      var prefix := NatToString(n / 10);
      var s := prefix + [DigitChar(n % 10)];
      assert s[..|s| - 1] == prefix;
      s
  }

  /** Appending a digit to a positive number appends its character to the text. */
  lemma NatToStringAppendDigit(n: nat, d: nat)
    requires n >= 1 && d < 10
    ensures NatToString(10 * n + d) == NatToString(n) + [DigitChar(d)]
  {
    assert (10 * n + d) / 10 == n && (10 * n + d) % 10 == d;
  }

  /**
   * `h` is `num / den` to the nearest hundredth, a tie going to the larger
   * hundredth: h - 1/2 <= 100 * num / den < h + 1/2.
   */
  ghost predicate IsNearestHundredth(h: nat, num: nat, den: nat)
  {
    den * (2 * h - 1) <= 200 * num < den * (2 * h + 1)
  }

  /** At most one hundredth is nearest. */
  lemma NearestHundredthUnique(h1: nat, h2: nat, num: nat, den: nat)
    requires den > 0
    requires IsNearestHundredth(h1, num, den) && IsNearestHundredth(h2, num, den)
    ensures h1 == h2
  {
    if h1 < h2 {
      MulMonotone(den, 2 * h1 + 1, 2 * h2 - 1);
    } else if h2 < h1 {
      MulMonotone(den, 2 * h2 + 1, 2 * h1 - 1);
    }
  }

  /** A quotient of at least 1 and below 1024 rounds to between 1.00 and 1024.00. */
  lemma NearestHundredthBounds(h: nat, num: nat, den: nat)
    requires den > 0 && den <= num < 1024 * den
    requires IsNearestHundredth(h, num, den)
    ensures 100 <= h <= 102400
  {
    if h < 100 {
      MulMonotone(den, 2 * h + 1, 199);
    } else if h > 102400 {
      MulMonotone(den, 204801, 2 * h - 1);
    }
  }

  /** A quotient of at least 1 rounds to at least 1.00. */
  lemma RoundHundredthsAtLeastOne(num: nat, den: nat)
    requires 0 < den <= num
    ensures RoundHundredths(num, den) >= 100
  {
    var h := RoundHundredths(num, den);
    if h < 100 {
      MulMonotone(den, 2 * h + 1, 199);
    }
  }

  /** A whole multiple of the divisor rounds to exactly that many units. */
  lemma RoundWholeQuotient(n: nat, den: nat)
    requires den > 0
    ensures RoundHundredths(n * den, den) == 100 * n
  {
    assert IsNearestHundredth(100 * n, n * den, den) by {
      assert den * (2 * (100 * n) - 1) == 200 * (n * den) - den;
      assert den * (2 * (100 * n) + 1) == 200 * (n * den) + den;
    }
    NearestHundredthUnique(100 * n, RoundHundredths(n * den, den), n * den, den);
  }

  /** A whole multiple of the divisor plus its half rounds to that many units and a half. */
  lemma RoundHalfQuotient(n: nat, den: nat, half: nat)
    requires den > 0 && 2 * half == den
    ensures RoundHundredths(n * den + half, den) == 100 * n + 50
  {
    var num := n * den + half;
    assert IsNearestHundredth(100 * n + 50, num, den) by {
      assert den * (2 * (100 * n + 50) - 1) == 200 * num - den;
      assert den * (2 * (100 * n + 50) + 1) == 200 * num + den;
    }
    NearestHundredthUnique(100 * n + 50, RoundHundredths(num, den), num, den);
  }

  /** A whole number of units is written without decimals. */
  lemma WholeHundredthsToString(n: nat)
    ensures HundredthsToString(100 * n) == NatToString(n)
  {
    assert (100 * n) / 100 == n && (100 * n) % 100 == 0;
  }

  /** A number of units and a half is written with the one decimal `5`. */
  lemma HalfHundredthsToString(n: nat)
    ensures HundredthsToString(100 * n + 50) == NatToString(n) + ".5"
  {
    assert (100 * n + 50) / 100 == n && (100 * n + 50) % 100 == 50;
    assert FractionText(50) == "5";
  }

  lemma MulMonotone(a: nat, x: int, y: int)
    requires x <= y
    ensures a * x <= a * y
  {
  }

  /**
   * `(num / den).toFixed(2)` as a count of hundredths. The quotient of an
   * integer by a power of two is exact in a double, and `toFixed` picks the
   * larger of two equally near results.
   */
  function RoundHundredths(num: nat, den: nat): (h: nat)
    requires den > 0
    ensures IsNearestHundredth(h, num, den)
  {
    var h := (200 * num + den) / (2 * den);
    FloorDivBounds(200 * num + den, 2 * den);
    assert den * (2 * h - 1) == 2 * den * h - den;
    assert den * (2 * h + 1) == 2 * den * h + den;
    h
  }

  lemma FloorDivBounds(a: nat, b: nat)
    requires b > 0
    ensures b * (a / b) <= a < b * (a / b) + b
  {
  }

  /** The one or two decimals written after the point for a non-zero fraction of hundredths. */
  function FractionText(frac: nat): (f: string)
    requires 0 < frac < 100
    ensures 1 <= |f| <= 2 && AllDigits(f) && f[|f| - 1] != '0'
  {
    if frac % 10 == 0 then [DigitChar(frac / 10)]
    else [DigitChar(frac / 10), DigitChar(frac % 10)]
  }

  /**
   * The text of the number `h / 100`: its integer part, then a point and one
   * or two decimals only when the fraction is not zero, never ending in `0`.
   */
  function HundredthsToString(h: nat): (s: string)
    ensures |s| >= 1 && IsDigit(s[0])
    ensures s[0] == '0' ==> h < 100 && (|s| == 1 || s[1] == '.')
    ensures ('.' in s) == (h % 100 != 0)
    ensures '.' in s ==> s[|s| - 1] != '0'
  {
    var whole := NatToString(h / 100);
    assert '.' !in whole by {
      NoPointInDigits(whole);
    }
    if h % 100 == 0 then whole else whole + "." + FractionText(h % 100)
  }

  /**
   * Reads a number written with digits, optionally followed by a point and
   * one or two decimals, as a count of hundredths.
   */
  function ParseHundredths(s: string): (r: Option<nat>)
    ensures r.Some? ==> s != [] && IsDigit(s[0]) && IsDigit(s[|s| - 1])
  {
    if s != [] && AllDigits(s) then Some(100 * DigitsValue(s))
    else if |s| >= 3 && s[|s| - 2] == '.' then ParseAtPoint(s[..|s| - 2], s[|s| - 1..])
    else if |s| >= 4 && s[|s| - 3] == '.' then ParseAtPoint(s[..|s| - 3], s[|s| - 2..])
    else None
  }

  /** The reading of the digits before and after a point. */
  function ParseAtPoint(whole: string, f: string): (r: Option<nat>)
    requires 1 <= |f| <= 2
    ensures r.Some? ==> whole != [] && IsDigit(whole[0]) && IsDigit(f[|f| - 1])
  {
    if whole != [] && AllDigits(whole) && AllDigits(f) then
      Some(100 * DigitsValue(whole) + if |f| == 1 then 10 * DigitsValue(f) else DigitsValue(f))
    else None
  }

  lemma NoPointInDigits(s: string)
    requires AllDigits(s)
    ensures '.' !in s
  {
    forall k | 0 <= k < |s| ensures s[k] != '.' {
      assert IsDigit(s[k]);
    }
  }

  /** Reading the text of `h / 100` gives `h` back. */
  lemma HundredthsRoundTrip(h: nat)
    ensures ParseHundredths(HundredthsToString(h)) == Some(h)
  {
    var whole := NatToString(h / 100);
    assert h == 100 * DigitsValue(whole) + h % 100;
    if h % 100 != 0 {
      assert HundredthsToString(h) == whole + "." + FractionText(h % 100);
      PointRoundTrip(whole, h % 100);
    }
  }

  /** Digits, a point and the decimals of a non-zero fraction read back as whole and fraction. */
  lemma PointRoundTrip(whole: string, frac: nat)
    requires AllDigits(whole) && whole != [] && 0 < frac < 100
    ensures ParseHundredths(whole + "." + FractionText(frac)) == Some(100 * DigitsValue(whole) + frac)
  {
    var f := FractionText(frac);
    FractionValue(frac);
    if |f| == 1 {
      ReadOneDecimal(whole, f);
    } else {
      ReadTwoDecimals(whole, f);
    }
  }

  /** Text ending in a point and one digit is read from the two sides of the point. */
  lemma ReadOneDecimal(whole: string, f: string)
    requires AllDigits(whole) && whole != [] && |f| == 1 && AllDigits(f)
    ensures ParseHundredths(whole + "." + f) == ParseAtPoint(whole, f)
  {
    var s := whole + "." + f;
    assert !IsDigit(s[|whole|]);
    assert s[|s| - 2] == '.';
    assert s[..|s| - 2] == whole && s[|s| - 1..] == f;
  }

  /** Text ending in a point and two digits is read from the two sides of the point. */
  lemma ReadTwoDecimals(whole: string, f: string)
    requires AllDigits(whole) && whole != [] && |f| == 2 && AllDigits(f)
    ensures ParseHundredths(whole + "." + f) == ParseAtPoint(whole, f)
  {
    var s := whole + "." + f;
    assert !IsDigit(s[|whole|]);
    assert s[|s| - 2] == f[0] && IsDigit(f[0]);
    assert s[|s| - 3] == '.';
    assert s[..|s| - 3] == whole && s[|s| - 2..] == f;
  }

  /** The decimals written for a non-zero fraction read back as that fraction. */
  lemma FractionValue(frac: nat)
    requires 0 < frac < 100
    ensures var f := FractionText(frac);
            (if |f| == 1 then 10 * DigitsValue(f) else DigitsValue(f)) == frac
  {
    var f := FractionText(frac);
    if frac % 10 == 0 {
      assert f[..0] == [];
    } else {
      assert f[..1] == [f[0]] && [f[0]][..0] == [];
      assert DigitsValue([f[0]]) == frac / 10;
      assert DigitsValue(f) == 10 * (frac / 10) + frac % 10;
    }
  }
}
