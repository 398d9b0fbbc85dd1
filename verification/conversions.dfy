/**
 * The `conversions` helpers of the content script, over exact decimals: the
 * value parseFloat reads from a captured `\d+(?:\.\d+)?` is num / 10^scale,
 * Math.round(x) is floor(x + 1/2), and a two-decimal result is kept as a
 * whole number of hundredths and rendered the way number-to-string writes it.
 */
module Conversions {
  import opened Chars

  /** num / 10^scale */
  datatype Decimal = Decimal(num: nat, scale: nat)

  function Pow10(k: nat): (r: nat)
    ensures r >= 1
  {
    if k == 0 then 1 else 10 * Pow10(k - 1)
  }

  /** `\d+(?:\.\d+)?` as one string */
  predicate IsNumberToken(g: string) {
    var j := RunEnd(g, 0, IsDigit);
    0 < j && (j == |g| || (g[j] == '.' && j + 1 < |g| && RunEnd(g, j + 1, IsDigit) == |g|))
  }

  /** parseFloat of a captured number token, exactly. */
  function ParseNumber(g: string): (d: Decimal)
    requires IsNumberToken(g)
  {
    var j := RunEnd(g, 0, IsDigit);
    if j == |g| then Decimal(DigitsValue(g), 0)
    else
      var frac := g[j + 1..];
      Decimal(DigitsValue(g[..j]) * Pow10(|frac|) + DigitsValue(frac), |frac|)
  }

  /** The digits of a followed by those of b read as a shifted left by |b| places, plus b. */
  lemma {:induction false} DigitsAppend(a: string, b: string)
    requires AllDigits(a) && AllDigits(b)
    ensures AllDigits(a + b) && DigitsValue(a + b) == DigitsValue(a) * Pow10(|b|) + DigitsValue(b)
    decreases |b|
  {
    if b == [] {
      assert a + b == a;
    } else {
      var front := b[..|b| - 1];
      var d := DigitValue(b[|b| - 1]);
      assert (a + b)[..|a + b| - 1] == a + front;
      assert (a + b)[|a + b| - 1] == b[|b| - 1];
      DigitsAppend(a, front);
      assert DigitsValue(a + b) == DigitsValue(a + front) * 10 + d;
      assert DigitsValue(b) == DigitsValue(front) * 10 + d;
      ShiftDigit(DigitsValue(a), DigitsValue(front), Pow10(|front|), d);
    }
  }

  /** Appending one digit d to x * p + f multiplies the shift p by ten as well. */
  lemma ShiftDigit(x: nat, f: nat, p: nat, d: nat)
    ensures (x * p + f) * 10 + d == x * (p * 10) + (f * 10 + d)
  {
  }

  /**
   * parseFloat reads a token of digits as their value, and a token
   * "whole.frac" as the digits with the point taken out, over 10^|frac|.
   */
  lemma ParseNumberValue(whole: string, frac: string)
    requires |whole| > 0 && AllDigits(whole) && AllDigits(frac)
    ensures frac == [] ==> IsNumberToken(whole) && ParseNumber(whole) == Decimal(DigitsValue(whole), 0)
    ensures frac != [] ==>
      IsNumberToken(whole + "." + frac) && ParseNumber(whole + "." + frac) == Decimal(DigitsValue(whole + frac), |frac|)
  {
    if frac == [] {
      WholeToken(whole);
    } else {
      FractionToken(whole, frac);
      DigitsAppend(whole, frac);
    }
  }

  /** Math.round(p / q): the integer nearest p / q, a half rounded towards +infinity. */
  function RoundHalfUp(p: int, q: int): (r: int)
    requires q > 0
    ensures q * (2 * r - 1) <= 2 * p < q * (2 * r + 1)
  {
    var r := (2 * p + q) / (2 * q);
    assert 2 * q * r <= 2 * p + q < 2 * q * r + 2 * q;
    r
  }

  /** The bounds of RoundHalfUp single out one integer. */
  lemma RoundHalfUpUnique(p: int, q: int, r: int)
    requires q > 0
    requires q * (2 * r - 1) <= 2 * p < q * (2 * r + 1)
    ensures r == RoundHalfUp(p, q)
  {
    var r0 := RoundHalfUp(p, q);
    assert q * (2 * r - 1) < q * (2 * r0 + 1);
    assert q * (2 * r0 - 1) < q * (2 * r + 1);
    MulCancel(q, 2 * r - 1, 2 * r0 + 1);
    MulCancel(q, 2 * r0 - 1, 2 * r + 1);
  }

  lemma MulCancel(q: int, a: int, b: int)
    requires q > 0 && q * a < q * b
    ensures a < b
  {
  }

  /** Math.round(p / q) for p >= 0, which is never negative. */
  function RoundRatio(p: nat, q: int): (r: nat)
    requires q > 0
    ensures q * (2 * r - 1) <= 2 * p < q * (2 * r + 1)
  {
    var r := RoundHalfUp(p, q);
    assert 0 < q * (2 * r + 1);
    assert r >= 0 by {
      if r < 0 {
        MulCancel(q, 2 * r + 1, 0);
      }
    }
    r
  }

  /** fahrenheitToCelsius: Math.round((f - 32) * 5 / 9), i.e. the integer nearest (f - 32) * 5 / 9. */
  function FahrenheitToCelsius(f: Decimal): (c: int)
    ensures 9 * Pow10(f.scale) * (2 * c - 1) <= 10 * (f.num - 32 * Pow10(f.scale)) < 9 * Pow10(f.scale) * (2 * c + 1)
  {
    RoundHalfUp(5 * (f.num - 32 * Pow10(f.scale)), 9 * Pow10(f.scale))
  }

  /** milesToKm: Math.round(miles * 1.60934 * 100) / 100, as a count of hundredths of a kilometre. */
  function MilesToKm(miles: Decimal): (h: nat)
    ensures 1000 * Pow10(miles.scale) * (2 * h - 1) <= 2 * (miles.num * 160934) < 1000 * Pow10(miles.scale) * (2 * h + 1)
  {
    RoundRatio(miles.num * 160934, 1000 * Pow10(miles.scale))
  }


  /** lbsToKg: Math.round(lbs * 0.453592 * 100) / 100, as a count of hundredths of a kilogram. */
  function LbsToKg(lbs: Decimal): (h: nat)
    ensures 10000 * Pow10(lbs.scale) * (2 * h - 1) <= 2 * (lbs.num * 453592) < 10000 * Pow10(lbs.scale) * (2 * h + 1)
  {
    RoundRatio(lbs.num * 453592, 10000 * Pow10(lbs.scale))
  }


  /** mphToKmh: Math.round(mph * 1.60934). */
  function MphToKmh(mph: Decimal): (k: nat)
    ensures 100000 * Pow10(mph.scale) * (2 * k - 1) <= 2 * (mph.num * 160934) < 100000 * Pow10(mph.scale) * (2 * k + 1)
  {
    RoundRatio(mph.num * 160934, 100000 * Pow10(mph.scale))
  }


  /** Number-to-string of h / 100: no trailing zeros after the point, no point for a whole number. */
  function Hundredths(h: nat): (r: string)
  {
    var whole := NatToString(h / 100);
    var cents := h % 100;
    if cents == 0 then whole
    else if cents % 10 == 0 then whole + "." + [DigitChar(cents / 10)]
    else whole + "." + [DigitChar(cents / 10), DigitChar(cents % 10)]
  }

  /**
   * Hundredths writes a point only when h / 100 is not whole, and then no
   * trailing zero, as number-to-string does.
   */
  lemma HundredthsShortest(h: nat)
    ensures var r := Hundredths(h);
      && ('.' in r <==> h % 100 != 0)
      && (h % 100 != 0 ==> r[|r| - 1] != '0')
  {
    var whole := NatToString(h / 100);
    assert forall k | 0 <= k < |whole| :: whole[k] != '.';
  }

  /** g is a `\d+(?:\.\d+)?` token that parseFloat reads as exactly h / 100. */
  predicate ReadsAsHundredths(g: string, h: nat) {
    IsNumberToken(g) && ParseNumber(g).num * 100 == h * Pow10(ParseNumber(g).scale)
  }

  /** Hundredths writes a number token that parseFloat reads back as exactly h / 100. */
  lemma HundredthsRoundTrip(h: nat)
    ensures ReadsAsHundredths(Hundredths(h), h)
  {
    var whole, cents := h / 100, h % 100;
    assert h == whole * 100 + cents;
    NatToStringRoundTrip(whole);
    if cents == 0 {
      WholeHundredths(h, whole);
    } else if cents % 10 == 0 {
      TenthHundredths(h, whole, cents / 10);
    } else {
      CentHundredths(h, whole, cents / 10, cents % 10);
    }
  }

  lemma WholeHundredths(h: nat, whole: nat)
    requires h == whole * 100 && DigitsValue(NatToString(whole)) == whole
    ensures ReadsAsHundredths(NatToString(whole), h)
  {
    WholeToken(NatToString(whole));
  }

  lemma TenthHundredths(h: nat, whole: nat, tenth: nat)
    requires 1 <= tenth <= 9 && h == whole * 100 + tenth * 10 && DigitsValue(NatToString(whole)) == whole
    ensures ReadsAsHundredths(NatToString(whole) + "." + [DigitChar(tenth)], h)
  {
    var frac := [DigitChar(tenth)];
    assert DigitsValue(frac) == tenth by { assert frac[..0] == []; }
    FractionToken(NatToString(whole), frac);
    assert Pow10(1) == 10;
    assert ParseNumber(NatToString(whole) + "." + frac) == Decimal(whole * 10 + tenth, 1);
  }

  lemma CentHundredths(h: nat, whole: nat, tenth: nat, cent: nat)
    requires tenth <= 9 && 1 <= cent <= 9 && h == whole * 100 + tenth * 10 + cent
    requires DigitsValue(NatToString(whole)) == whole
    ensures ReadsAsHundredths(NatToString(whole) + "." + [DigitChar(tenth), DigitChar(cent)], h)
  {
    var frac := [DigitChar(tenth), DigitChar(cent)];
    assert DigitsValue(frac) == tenth * 10 + cent by {
      assert frac[..1] == [DigitChar(tenth)];
      assert DigitsValue([DigitChar(tenth)]) == tenth by { assert [DigitChar(tenth)][..0] == []; }
    }
    FractionToken(NatToString(whole), frac);
    assert Pow10(2) == 100 by { assert Pow10(1) == 10; }
    assert ParseNumber(NatToString(whole) + "." + frac) == Decimal(whole * 100 + tenth * 10 + cent, 2);
  }

  /** A token of digits alone, and what parseFloat reads from it. */
  lemma WholeToken(whole: string)
    requires |whole| > 0 && AllDigits(whole)
    ensures IsNumberToken(whole) && ParseNumber(whole) == Decimal(DigitsValue(whole), 0)
  {
    RunEndOverDigits(whole, whole);
  }

  /** A token of digits, a point and more digits, and what parseFloat reads from it. */
  lemma FractionToken(whole: string, frac: string)
    requires |whole| > 0 && AllDigits(whole) && |frac| > 0 && AllDigits(frac)
    ensures IsNumberToken(whole + "." + frac)
    ensures ParseNumber(whole + "." + frac) == Decimal(DigitsValue(whole) * Pow10(|frac|) + DigitsValue(frac), |frac|)
  {
    var g := whole + "." + frac;
    RunEndOverDigits(g, whole);
    assert g[..|whole|] == whole;
    assert g[|whole| + 1..] == frac;
    RunEndFrom(g, |whole| + 1, |g|, IsDigit);
  }

  /** A run of digits ends where the digit string ends, when a non-digit or nothing follows. */
  lemma RunEndOverDigits(r: string, ds: string)
    requires |ds| <= |r| && r[..|ds|] == ds && AllDigits(ds)
    requires |ds| == |r| || !IsDigit(r[|ds|])
    ensures RunEnd(r, 0, IsDigit) == |ds|
  {
    RunEndFrom(r, 0, |ds|, IsDigit);
  }

  lemma {:induction false} RunEndFrom(r: string, i: nat, j: nat, p: char -> bool)
    requires i <= j <= |r|
    requires forall k | i <= k < j :: p(r[k])
    requires j == |r| || !p(r[j])
    ensures RunEnd(r, i, p) == j
    decreases j - i
  {
    if i < j {
      RunEndFrom(r, i + 1, j, p);
    }
  }

  const Months: seq<string> := [
    "January", "February", "March", "April", "May", "June",
    "July", "August", "September", "October", "November", "December"
  ]

  /** months[m - 1], which is undefined (and renders as "undefined") outside 1..12. */
  function MonthName(m: int): (name: string)
    ensures 1 <= m <= 12 ==> name == Months[m - 1]
    ensures name == "undefined" <==> !(1 <= m <= 12)
  {
    if 1 <= m <= 12 then Months[m - 1] else "undefined"
  }

  /** formatDate(month, day, year): day, the month's name, year, separated by single spaces. */
  function FormatDate(month: string, day: string, year: string): (r: string)
    requires AllDigits(month)
  {
    day + " " + MonthName(DigitsValue(month)) + " " + year
  }

  /** Every month name, and the "undefined" that an out-of-range month gives, is one `\w+` word. */
  lemma MonthNameIsWord(m: int)
    ensures |MonthName(m)| > 0
    ensures forall k | 0 <= k < |MonthName(m)| :: IsAsciiLetter(MonthName(m)[k])
  {
  }

  /**
   * formatDate writes the day, a space, one word and a space before the year.
   * The word is the month's name when parseInt reads the month as 1..12, and
   * it is "undefined" exactly when parseInt reads 0 or more than 12.
   */
  lemma FormatDateWord(month: string, day: string, year: string)
    requires AllDigits(month)
    ensures var r := FormatDate(month, day, year);
      && |r| >= |day| + |year| + 2
      && r[..|day| + 1] == day + " " && r[|r| - |year| - 1..] == " " + year
      && var w := r[|day| + 1..|r| - |year| - 1];
         var m := DigitsValue(month);
         && (1 <= m <= 12 ==> w == Months[m - 1])
         && (w == "undefined" <==> m == 0 || m > 12)
  {
    var r := FormatDate(month, day, year);
    var name := MonthName(DigitsValue(month));
    assert r == (day + " ") + name + (" " + year);
    assert r[|day| + 1..|r| - |year| - 1] == name;
  }

  lemma FormatDateExample()
    ensures FormatDate("7", "4", "1976") == "4 July 1976"
    ensures FormatDate("07", "4", "1976") == "4 July 1976"
    ensures FormatDate("13", "4", "1976") == "4 undefined 1976"
    ensures FormatDate("0", "4", "1976") == "4 undefined 1976"
    ensures FormatDate("00", "4", "1976") == "4 undefined 1976"
  {
    assert DigitsValue("7") == 7 by { assert "7"[..0] == []; }
    assert DigitsValue("0") == 0 by { assert "0"[..0] == []; }
    assert DigitsValue("07") == 7 by { assert "07"[..1] == "0"; assert "0"[..0] == []; }
    assert DigitsValue("00") == 0 by { assert "00"[..1] == "0"; assert "0"[..0] == []; }
    assert DigitsValue("13") == 13 by { assert "13"[..1] == "1"; assert "1"[..0] == []; }
  }

  lemma ConversionExamples()
    ensures FahrenheitToCelsius(Decimal(986, 1)) == 37
    ensures FahrenheitToCelsius(Decimal(32, 0)) == 0
    ensures FahrenheitToCelsius(Decimal(0, 0)) == -18
    ensures MilesToKm(Decimal(262, 1)) == 4216 && Hundredths(4216) == "42.16"
    ensures LbsToKg(Decimal(150, 0)) == 6804 && Hundredths(6804) == "68.04"
    ensures MphToKmh(Decimal(60, 0)) == 97
  {
    RoundHalfUpUnique(5 * (986 - 320), 90, 37);
    RoundHalfUpUnique(0, 9, 0);
    RoundHalfUpUnique(-160, 9, -18);
    RoundHalfUpUnique(262 * 160934, 10000, 4216);
    RoundHalfUpUnique(150 * 453592, 10000, 6804);
    RoundHalfUpUnique(60 * 160934, 100000, 97);
    assert NatToString(42) == "42";
    assert NatToString(68) == "68";
  }
}
