/** What the numbers of FloatDigits.Convert mean: their shape, what rounding adds, and how they relate to the magnitude
    of the double. */
module FloatMeaning {
  import opened Options
  import opened Division
  import opened Digits
  import opened FloatDigits

  /** The number the digits stand for, least significant first, the point left out */
  function Value(s: string): nat {
    if s == [] then 0 else if s[0] == '.' then Value(s[1..]) else DigitValue(s[0]) + 10 * Value(s[1..])
  }

  // ---------- Rounding ----------

  /** Rounding up adds exactly one unit at its starting digit: carries run across 9s and the point, and a new leading
      digit appears if they run out of digits.  The point stays where it is. */
  lemma {:induction false} RoundUpAddsUnit(s: string, room: nat)
    requires Numeral(s) && RoundUp(s, room).Some? && |s| <= room
    ensures var t := RoundUp(s, room).value;
            && Value(t) == Value(s) + 1
            && |s| <= |t| <= |s| + 1 && |t| <= room
            && Numeral(t)
            && forall k | 0 <= k < |t| :: t[k] == '.' <==> k < |s| && s[k] == '.'
  {
    if s != [] && (s[0] == '.' || s[0] == '9') {
      RoundUpAddsUnit(s[1..], room - 1);
      var t, t1 := RoundUp(s, room).value, RoundUp(s[1..], room - 1).value;
      assert t[1..] == t1;
      forall k | 0 <= k < |t| ensures t[k] == '.' <==> k < |s| && s[k] == '.' {
        assert k > 0 ==> t[k] == t1[k - 1];
        assert 0 < k < |s| ==> s[k] == s[1..][k - 1];
      }
    } else if s == [] {
      assert Value("1") == 1 + 10 * Value([]);
    } else {
      var t := RoundUp(s, room).value;
      assert t[1..] == s[1..];
    }
  }

  /** Rounding fails only when nothing but 9s and points fill the buffer up to its end. */
  lemma {:induction false} RoundUpFails(s: string, room: nat)
    requires Numeral(s) && |s| <= room
    ensures RoundUp(s, room) == None <==> |s| == room && forall k | 0 <= k < |s| :: s[k] == '.' || s[k] == '9'
  {
    if s != [] && (s[0] == '.' || s[0] == '9') {
      RoundUpFails(s[1..], room - 1);
      assert (forall k | 0 <= k < |s| :: s[k] == '.' || s[k] == '9') <==
             (forall k | 0 <= k < |s[1..]| :: s[1..][k] == '.' || s[1..][k] == '9');
      assert (forall k | 0 <= k < |s[1..]| :: s[1..][k] == s[k + 1]);
    }
  }

  lemma Horner(d: nat, a: nat, p: nat, v: nat)
    requires d <= 9 && a < p
    ensures d + 10 * (a + p * v) == d + 10 * a + 10 * p * v && d + 10 * a < 10 * p
  {
    assert 10 * p * v == 10 * (p * v);
  }

  lemma {:induction false} ValueConcat(x: string, y: string)
    requires Decimals(x)
    ensures Value(x + y) == Value(x) + Power(10, |x|) * Value(y)
    ensures Value(x) < Power(10, |x|)
  {
    hide Power;
    if x == [] {
      assert x + y == y;
      PowerStep(10, 0);
    } else {
      ValueConcat(x[1..], y);
      assert (x + y)[1..] == x[1..] + y;
      PowerStep(10, |x|);
      Horner(DigitValue(x[0]), Value(x[1..]), Power(10, |x| - 1), Value(y));
    }
  }

  lemma {:induction false} ValueIsEval(s: string)
    requires Decimals(s)
    ensures Value(s) == EvalRev(s, 10)
  {
    if s != [] {
      ValueIsEval(s[1..]);
    }
  }

  /** The digits of an integer part stand for it. */
  lemma IntDigitsValue(man: nat)
    ensures Value(IntDigits(man)) == man
  {
    ValueIsEval(IntDigits(man));
    DigitsRoundTrip(man, 10, 0);
  }

  lemma LayoutValue(frac: string, point: string, low: string, ints: string)
    requires Decimals(frac) && Decimals(low) && Decimals(ints) && (point == "" || point == ".")
    ensures Value(Layout(frac, point, low, ints)) ==
            Value(frac) + Power(10, |frac|) * (Value(low) + Power(10, |low|) * Value(ints))
  {
    hide Power, Value;
    ValueConcat(frac, point + (low + ints));
    ValueConcat(low, ints);
    PointSkipped(point, low + ints);
  }

  lemma PointSkipped(point: string, w: string)
    requires point == "" || point == "."
    ensures Value(point + w) == Value(w)
  {
    if point == "." {
      assert (point + w)[1..] == w;
    } else {
      assert point + w == w;
    }
  }

  // ---------- The shape of every result ----------

  /** Decimal digits with at most one point, which stands after the fraction and exactly when the precision or the
      alternative form asks for it; at least one integer digit; inside the buffer. */
  predicate Shape(rev: string, prec: nat, alt: bool) {
    && prec + |Point(prec, alt)| < |rev| <= SIZE
    && Numeral(rev)
    && forall k | 0 <= k < |rev| :: rev[k] == '.' <==> k == prec && (prec > 0 || alt)
  }

  lemma LayoutShape(frac: string, prec: nat, alt: bool, low: string, ints: string)
    requires Decimals(frac) && |frac| == prec && Decimals(low) && Decimals(ints) && |ints| > 0
    requires prec + |Point(prec, alt)| + |low| + |ints| <= SIZE
    ensures Shape(Layout(frac, Point(prec, alt), low, ints), prec, alt)
  {
    var rev := Layout(frac, Point(prec, alt), low, ints);
    var n := prec + |Point(prec, alt)|;
    forall k | 0 <= k < |rev| ensures rev[k] == '.' <==> k == prec && (prec > 0 || alt) {
      if k < prec {
        assert rev[k] == frac[k];
      } else if k < n {
        assert rev[k] == Point(prec, alt)[0];
      } else if k < n + |low| {
        assert rev[k] == low[k - n];
      } else {
        assert rev[k] == ints[k - n - |low|];
      }
    }
  }

  lemma RoundedShape(rev: string, dec: nat, prec: nat, alt: bool)
    requires Shape(rev, prec, alt) && dec <= |rev| && Rounded(rev, dec).Number?
    ensures var r := Rounded(rev, dec).rev;
            && Shape(r, prec, alt) && r[..dec] == rev[..dec]
            && Value(r[dec..]) == Value(rev[dec..]) + 1
  {
    hide Value, RoundUp;
    var tail := rev[dec..];
    RoundUpAddsUnit(tail, SIZE - dec);
    var t := RoundUp(tail, SIZE - dec).value;
    var r := rev[..dec] + t;
    assert r[dec..] == t && r[..dec] == rev[..dec];
    forall k | 0 <= k < |r| ensures r[k] == '.' <==> k == prec && (prec > 0 || alt) {
      PointStays(rev, t, dec, k);
    }
    forall k | 0 <= k < |r| ensures r[k] == '.' || '0' <= r[k] <= '9' {
      assert k >= dec ==> r[k] == t[k - dec];
    }
  }

  lemma PointStays(rev: string, t: string, dec: nat, k: nat)
    requires dec <= |rev| && |rev| - dec <= |t| && k < dec + |t|
    requires forall j | 0 <= j < |t| :: t[j] == '.' <==> j < |rev[dec..]| && rev[dec..][j] == '.'
    ensures (rev[..dec] + t)[k] == '.' <==> k < |rev| && rev[k] == '.'
  {
    if k >= dec {
      assert (rev[..dec] + t)[k] == t[k - dec];
      assert k < |rev| ==> rev[dec..][k - dec] == rev[k];
    }
  }

  /** Every number the converter yields, for any double and any precision, has this shape. */
  lemma ConvertShape(bits: nat, prec: nat, alt: bool)
    requires Convert(bits, prec, alt).Number?
    ensures Shape(Convert(bits, prec, alt).rev, prec, alt)
  {
    hide IntScale, FracScale, FracText, IntPart, FracStart, IntDigits, Shape, Rounded;
    var bin, exp := Mantissa(bits), Exponent(bits);
    if exp > 31 {
      LargeShape(bin, exp, prec, alt);
    } else {
      SmallShape(bin, exp, prec, alt);
    }
  }

  lemma LargeShape(bin: nat, exp: int, prec: nat, alt: bool)
    requires 31 < exp && bin < 2 * MAN && Large(bin, exp, prec, alt).Number?
    ensures Shape(Large(bin, exp, prec, alt).rev, prec, alt)
  {
    hide IntScale, IntDigits, Shape, Rounded, Layout;
    var start := prec + |Point(prec, alt)|;
    var s := IntScale(IntState(bin / 0x20_0000, bin / 0x10_0000 % 2, start), exp - 31).value;
    LayoutShape(Zeros(prec), prec, alt, Zeros(s.dec - start), IntDigits(s.man));
    if s.carry == 1 {
      RoundedShape(Layout(Zeros(prec), Point(prec, alt), Zeros(s.dec - start), IntDigits(s.man)), s.dec, prec, alt);
    }
  }

  lemma SmallShape(bin: nat, exp: int, prec: nat, alt: bool)
    requires exp <= 31 && bin < 2 * MAN && Small(bin, exp, prec, alt).Number?
    ensures Shape(Small(bin, exp, prec, alt).rev, prec, alt)
  {
    hide FracScale, IntPart, FracStart, IntDigits, Shape, Rounded, Layout, FracText;
    FracScaleFits(FracStart(bin, exp, prec));
    var s := FracScale(FracStart(bin, exp, prec));
    var ints := IntDigits(IntPart(bin, exp));
    var frac := Reverse(FracText(s, prec));
    LayoutShape(frac, prec, alt, "", ints);
    if s.expf >= 0 && TopBit(s) {
      RoundedShape(Layout(frac, Point(prec, alt), "", ints), 0, prec, alt);
    }
  }

  // ---------- Magnitudes below 2^32 ----------

  /** The double's magnitude is Mantissa * 2^(Exponent - 52); below 2^32 the integer part is its exact floor. */
  lemma IntPartIsFloor(bin: nat, exp: int)
    requires exp <= 31 && bin < 2 * MAN
    ensures var unit := Power(2, 52 - exp);
            IntPart(bin, exp) * unit <= bin < (IntPart(bin, exp) + 1) * unit
  {
    hide Power;
    var unit := Power(2, 52 - exp);
    if exp < 0 {
      PowerAtLeast(53, 52 - exp);
    } else {
      var q := bin / unit;
      assert bin == q * unit + bin % unit;
      assert (q + 1) * unit == q * unit + unit;
    }
  }

  lemma {:induction false} PowerAtLeast(m: nat, n: nat)
    requires m <= n
    ensures Power(2, m) <= Power(2, n)
    ensures m == 53 ==> Power(2, n) >= 2 * MAN
    decreases n - m
  {
    if m < n {
      PowerAtLeast(m, n - 1);
    }
    if m == 53 && m == n {
      Power53();
    }
  }

  lemma Power53()
    ensures Power(2, 53) == 2 * MAN
  {
    assert Power(2, 10) == 1024;
    assert Power(2, 20) == 0x10_0000;
    assert Power(2, 30) == 0x4000_0000;
    assert Power(2, 40) == 0x100_0000_0000;
  }

  /** Is the number rounded up? */
  predicate RoundsUp(bin: nat, exp: int, prec: nat)
    requires exp <= 31
  {
    var s := FracScale(FracStart(bin, exp, prec));
    s.expf >= 0 && TopBit(s)
  }

  /** Below 2^32 the printed number, as a multiple of 10^-prec, is the exact integer part followed by fraction digits,
      and at most one unit more from rounding; so it lies between the floor and the floor plus one. */
  lemma SmallValue(bin: nat, exp: int, prec: nat, alt: bool)
    requires exp <= 31 && bin < 2 * MAN && Small(bin, exp, prec, alt).Number?
    ensures var unit := Power(2, 52 - exp);
            IntPart(bin, exp) * unit <= bin < (IntPart(bin, exp) + 1) * unit
    ensures var v := Value(Small(bin, exp, prec, alt).rev);
            var floor := IntPart(bin, exp) * Power(10, prec);
            var f := v - floor - (if RoundsUp(bin, exp, prec) then 1 else 0);
            0 <= f < Power(10, prec)
    ensures var v := Value(Small(bin, exp, prec, alt).rev);
            IntPart(bin, exp) * Power(10, prec) <= v <= (IntPart(bin, exp) + 1) * Power(10, prec)
    ensures prec == 0 ==>
              Value(Small(bin, exp, prec, alt).rev) == IntPart(bin, exp) + (if RoundsUp(bin, exp, 0) then 1 else 0)
  {
    hide FracScale, IntPart, FracStart, IntDigits, Rounded, Layout, FracText, Value, Power, TopBit;
    IntPartIsFloor(bin, exp);
    FracScaleFits(FracStart(bin, exp, prec));
    var s := FracScale(FracStart(bin, exp, prec));
    var n, frac := IntPart(bin, exp), Reverse(FracText(s, prec));
    UnroundedValue(frac, prec, alt, n);
    if RoundsUp(bin, exp, prec) {
      WholeRounded(Layout(frac, Point(prec, alt), "", IntDigits(n)));
    }
    Between(Value(frac), n, Power(10, prec));
    if prec == 0 {
      PowerStep(10, 0);
    }
  }

  lemma UnroundedValue(frac: string, prec: nat, alt: bool, n: nat)
    requires Decimals(frac) && |frac| == prec
    ensures Value(Layout(frac, Point(prec, alt), "", IntDigits(n))) == Value(frac) + Power(10, prec) * n
    ensures Value(frac) < Power(10, prec)
  {
    hide Power, Value, Layout, IntDigits;
    ValueConcat(frac, "");
    LayoutValue(frac, Point(prec, alt), "", IntDigits(n));
    EmptyValue();
    IntDigitsValue(n);
  }

  lemma Between(f: nat, n: nat, p: nat)
    requires f < p
    ensures p * n == n * p && n * p <= f + n * p && f + 1 + n * p <= (n + 1) * p
  {
  }

  lemma EmptyValue()
    ensures Value("") == 0 && Power(10, 0) == 1
  {
  }

  lemma WholeRounded(rev: string)
    requires Numeral(rev) && |rev| <= SIZE && Rounded(rev, 0).Number?
    ensures Value(Rounded(rev, 0).rev) == Value(rev) + 1
  {
    assert rev[0..] == rev;
    RoundUpAddsUnit(rev, SIZE);
    var t := RoundUp(rev, SIZE).value;
    assert rev[..0] + t == t;
  }

  // ---------- Rounding to an integer ----------

  /** The fraction of a magnitude from 1/2 on, in units of 2^-64 */
  lemma FracPartIsFraction(bin: nat, exp: int)
    requires -1 <= exp <= 31 && bin < 2 * MAN
    ensures exp >= 0 ==> bin * Power(2, 12 + exp) == IntPart(bin, exp) * WORD64 + FracPart(bin, exp)
    ensures exp < 0 ==> FracPart(bin, exp) == bin * 0x800
    ensures FracPart(bin, exp) < WORD64
  {
    hide Power;
    if exp < 0 {
      assert Power(2, 11) == 0x800 by {
        PowerSum(5, 6);
        PowerStep(2, 6); PowerStep(2, 5); PowerStep(2, 4); PowerStep(2, 3); PowerStep(2, 2); PowerStep(2, 1);
        PowerStep(2, 0);
      }
      assert bin * 0x800 < WORD64;
    } else {
      var u, w := Power(2, 52 - exp), Power(2, 12 + exp);
      PowerSum(52 - exp, 12 + exp);
      Power64();
      ShiftSplits(bin, u, w);
    }
  }

  /** The quotient by u and the low part of the product with w are the two halves of a number split at u * w. */
  lemma ShiftSplits(bin: nat, u: nat, w: nat)
    requires 0 < u && 0 < w && u * w == WORD64
    ensures bin * w == bin / u * WORD64 + bin * w % WORD64
  {
    var q, r := bin / u, bin % u;
    assert bin == q * u + r;
    assert bin * w == q * WORD64 + r * w by {
      assert (q * u + r) * w == q * (u * w) + r * w;
    }
    assert 0 <= r * w < WORD64 by {
      assert (u - r) * w >= w;
      assert (u - r) * w == u * w - r * w;
    }
    Split(q, r * w, WORD64);
  }

  lemma {:induction false} PowerSum(m: nat, n: nat)
    ensures Power(2, m) * Power(2, n) == Power(2, m + n)
  {
    if m > 0 {
      PowerSum(m - 1, n);
      assert 2 * Power(2, m - 1) * Power(2, n) == 2 * (Power(2, m - 1) * Power(2, n));
    }
  }

  lemma Power64()
    ensures Power(2, 64) == WORD64
  {
    assert Power(2, 8) == 256;
    assert Power(2, 16) == 0x1_0000;
    assert Power(2, 24) == 0x100_0000;
    assert Power(2, 32) == WORD32;
    assert Power(2, 40) == 0x100_0000_0000;
    assert Power(2, 48) == 0x1_0000_0000_0000;
    assert Power(2, 56) == 0x100_0000_0000_0000;
  }

  /** With precision 0 the converter looks at the top 33 bits of the fraction: it rounds up from just below one half,
      and its 32-bit sum wraps to 0 just below one. */
  lemma RoundsUpExactly(bin: nat, exp: int)
    requires exp <= 31 && bin < 2 * MAN
    ensures RoundsUp(bin, exp, 0) <==>
              exp >= -1 && WORD32 - 1 <= FracPart(bin, exp) / (WORD32 / 2) <= 2 * WORD32 - 2
  {
    hide FracPart;
    var f := FracPart(bin, exp);
    var t := f / (WORD32 / 2);
    assert f / WORD32 == t / 2 by {
      assert f == t * (WORD32 / 2) + f % (WORD32 / 2);
      assert t == t / 2 * 2 + t % 2;
    }
    FracPartBelow(bin, exp);
    var s := FracStart(bin, exp, 0);
    assert FracScale(s) == s && s.man == t / 2 && s.carry == t % 2;
  }

  lemma FracPartBelow(bin: nat, exp: int)
    requires exp <= 31
    ensures FracPart(bin, exp) < WORD64
  {
  }

  /** So `%.0f` of a magnitude below 2^32 is that magnitude rounded half up exactly unless its fraction lies within
      2^-33 below one half or below one. */
  lemma PrecisionZeroExactly(bin: nat, exp: int, alt: bool)
    requires exp <= 31 && bin < 2 * MAN && Small(bin, exp, 0, alt).Number?
    ensures var half := exp >= -1 && FracPart(bin, exp) >= WORD64 / 2;
            var t := FracPart(bin, exp) / (WORD32 / 2);
            Value(Small(bin, exp, 0, alt).rev) == IntPart(bin, exp) + (if half then 1 else 0) <==>
            !(exp >= -1 && t in {WORD32 - 1, 2 * WORD32 - 1})
  {
    hide FracPart, Small, RoundsUp, IntPart;
    SmallValue(bin, exp, 0, alt);
    RoundsUpExactly(bin, exp);
    FracPartBelow(bin, exp);
    var f := FracPart(bin, exp);
    var t := f / (WORD32 / 2);
    assert f == t * (WORD32 / 2) + f % (WORD32 / 2);
  }

  /** The largest double below 1 prints as 0 under `%.0f`. */
  lemma JustBelowOne()
    ensures Convert(0x3fef_ffff_ffff_ffff, 0, false) == Number("0")
  {
    hide RoundsUp, FracPart, Power, FracText, FracScale;
    var bits := 0x3fef_ffff_ffff_ffff;
    var bin: nat := 0x1f_ffff_ffff_ffff;
    assert Mantissa(bits) == bin && Exponent(bits) == -1 && Finite(bits);
    FracPartIsFraction(bin, -1);
    RoundsUpExactly(bin, -1);
    FracScaleFits(FracStart(bin, -1, 0));
    assert IntDigits(0) == "0";
    assert Convert(bits, 0, false) == Small(bin, -1, 0, false);
    assert !RoundsUp(bin, -1, 0);
    NoFraction(bin);
  }

  lemma NoFraction(bin: nat)
    requires bin < 2 * MAN && IntDigits(0) == "0" && !RoundsUp(bin, -1, 0)
    ensures Small(bin, -1, 0, false) == Number("0")
  {
    hide FracPart, Power, IntDigits;
    FracScaleFits(FracStart(bin, -1, 0));
    var s := FracScale(FracStart(bin, -1, 0));
    assert Reverse(FracText(s, 0)) == "";
    assert Layout("", "", "", "0") == "0";
  }
}
