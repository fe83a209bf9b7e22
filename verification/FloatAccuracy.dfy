/** How far any number of FloatDigits.Convert is from the magnitude of the double, and when there is no number. */
module FloatAccuracy {
  import opened Options
  import opened Division
  import opened Digits
  import opened FloatDigits
  import opened FloatMeaning
  import opened FloatScaling
  import opened FloatSmall
  import opened FloatLarge

  // ---------- Every double ----------

  /** v * 10^-prec is near the magnitude of the double. */
  ghost predicate Near(v: nat, bits: nat, prec: nat) {
    var bin, exp := Mantissa(bits), Exponent(bits);
    if exp <= 31 then NearSmall(v, bin, exp, prec) else NearLarge(v, bin, exp, prec)
  }

  /** Every number the converter prints is near the magnitude of the double, except for a precision of 0 and a fraction
      within 2^-33 below one. */
  lemma Accuracy(bits: nat, prec: nat, alt: bool)
    requires Convert(bits, prec, alt).Number?
    ensures Near(Value(Convert(bits, prec, alt).rev), bits, prec) <==>
            !(Exponent(bits) <= 31 && Wraps(Mantissa(bits), Exponent(bits), prec))
  {
    hide Small, Large, Mantissa, Exponent, Power, Value, NearSmall, NearLarge, Wraps, IntScale;
    NormalOrTiny(bits);
    if Exponent(bits) <= 31 {
      SmallAccuracy(bits, prec, alt);
    } else {
      var start, r := LargeIs(Mantissa(bits), Exponent(bits), prec, alt);
      LargeNear(Mantissa(bits), Exponent(bits), prec, start, r);
    }
  }

  // ---------- When a number is too long ----------

  lemma {:induction false} DigitsAtLeast(v: nat)
    requires v > 0
    ensures Power(10, |DigitsRev(v, 10, 0)| - 1) <= v
    decreases v
  {
    hide Power, DigitsRev, DigitChar;
    DivShrinks(v, 10);
    DigitsUnfold(v, 10, 0);
    if v < 10 {
      PowerStep(10, 0);
    } else {
      DigitsAtLeast(v / 10);
      PowerSplit(10, |DigitsRev(v / 10, 10, 0)| - 1);
    }
  }

  /** A number of k digits is at least 10^(k-1). */
  lemma IntDigitsAtLeast(v: nat, k: nat)
    requires 0 < k < |IntDigits(v)|
    ensures Power(10, k) <= v
  {
    hide Power, DigitsRev;
    if v == 0 {
      DigitsUnfold(0, 10, 0);
    } else {
      DigitsAtLeast(v);
      TenGrows(k, |IntDigits(v)| - 1);
    }
  }

  lemma {:induction false} TenGrows(m: nat, n: nat)
    requires m <= n
    ensures Power(10, m) <= Power(10, n)
    decreases n
  {
    if m < n {
      TenGrows(m, n - 1);
    }
  }

  /** Rounding fails only in a full buffer. */
  lemma FullBuffer(rev: string, dec: nat)
    requires dec <= |rev| <= SIZE && Numeral(rev) && Rounded(rev, dec).Message?
    ensures |rev| == SIZE
  {
    hide RoundUp;
    RoundUpFails(rev[dec..], SIZE - dec);
  }

  lemma SmallTooLong(bin: nat, exp: int, prec: nat, alt: bool)
    requires exp <= 31 && bin < 2 * MAN && prec + |Point(prec, alt)| < SIZE - 1 && Small(bin, exp, prec, alt).Message?
    ensures Power(10, SIZE - 1 - (prec + |Point(prec, alt)|)) <= IntPart(bin, exp)
  {
    hide FracScale, FracText, IntPart, FracStart, IntDigits, Rounded, Layout, Power, TopBit;
    var ints, d := IntDigits(IntPart(bin, exp)), prec + |Point(prec, alt)|;
    if d + |ints| <= SIZE {
      FracScaleFits(FracStart(bin, exp, prec));
      var r := FracScale(FracStart(bin, exp, prec));
      FullBuffer(Layout(Reverse(FracText(r, prec)), Point(prec, alt), "", ints), 0);
    }
    IntDigitsAtLeast(IntPart(bin, exp), SIZE - 1 - d);
  }

  /** One more digit of the mantissa is worth one more decimal zero. */
  lemma LongInts(s: IntState, start: nat)
    requires start <= s.dec && start < SIZE && s.man > 0 && s.dec + |IntDigits(s.man)| >= SIZE
    ensures IntScaled(s, 0, start) >= 2 * Power(10, SIZE - 1 - start)
  {
    hide Power, IntDigits;
    var k, p := |IntDigits(s.man)| - 1, Power(10, s.dec - start);
    One(p);
    if k > 0 {
      IntDigitsAtLeast(s.man, k);
    }
    TenSum(k, s.dec - start);
    TenGrows(SIZE - 1 - start, k + (s.dec - start));
    Bounds(2 * s.man + s.carry, 2 * Power(10, k), 2 * s.man + s.carry, p);
    assert 2 * Power(10, k) * p == 2 * (Power(10, k) * p);
  }

  lemma {:induction false} TenSum(m: nat, n: nat)
    ensures Power(10, m) * Power(10, n) == Power(10, m + n)
  {
    hide Power;
    PowerStep(10, m);
    if m > 0 {
      TenSum(m - 1, n);
      PowerStep(10, m + n);
      assert 10 * Power(10, m - 1) * Power(10, n) == 10 * (Power(10, m - 1) * Power(10, n));
    }
  }

  lemma LongZeros(s: IntState, n: nat, start: nat)
    requires start < SIZE <= s.dec && s.man >= WORD32 / 2
    ensures IntScaled(s, n, start) >= 2 * Power(10, SIZE - 1 - start)
  {
    hide Power, IntWeight;
    TenGrows(SIZE - 1 - start, s.dec - start);
    AtLeastTens(s, n, start);
    Bounds(2 * s.man + s.carry, 2, 2 * s.man + s.carry, IntWeight(s, n, start));
  }

  lemma AtLeastTens(s: IntState, n: nat, start: nat)
    requires start <= s.dec
    ensures IntWeight(s, n, start) >= Power(10, s.dec - start)
  {
    hide Power;
    var p := Power(10, s.dec - start);
    Bounds(Power(2, n), 1, Power(2, n), p);
  }

  lemma NextTurn(s: IntState, n: nat)
    requires n > 0 && (s.man < WORD32 / 2 || s.dec < SIZE)
    ensures IntScale(s, n) == IntScale(if s.man < WORD32 / 2 then Doubled(s) else Fifth(s), n - 1)
  {
  }

  /** Where the scaling runs out of room, or its result is too long, what it started with is too long. */
  lemma {:induction false} IntTooLong(s: IntState, n: nat, start: nat, x: nat)
    requires start <= s.dec && start < SIZE && s.carry <= 1 && s.man > 0 && IntScaled(s, n, start) <= x
    requires match IntScale(s, n)
             case None => true
             case Some(r) => r.dec + |IntDigits(r.man)| >= SIZE
    ensures x >= 2 * Power(10, SIZE - 1 - start)
    decreases n
  {
    hide IntScale, Power, IntScaled, IntWeight, IntDigits;
    if n == 0 {
      NoTurn(s);
      LongInts(s, start);
    } else if s.man >= WORD32 / 2 && s.dec >= SIZE {
      LongZeros(s, n, start);
    } else {
      NextTurn(s, n);
      if s.man < WORD32 / 2 {
        DoubledKeeps(s, n, start);
        IntTooLong(Doubled(s), n - 1, start, x);
      } else {
        FifthKeeps(s, n, start);
        IntTooLong(Fifth(s), n - 1, start, x);
      }
    }
  }

  lemma LargeTooLong(bin: nat, exp: int, prec: nat, alt: bool)
    requires 31 < exp && MAN <= bin < 2 * MAN && prec + |Point(prec, alt)| < SIZE - 1 && Large(bin, exp, prec, alt).Message?
    ensures 0x20_0000 * Power(10, SIZE - 1 - (prec + |Point(prec, alt)|)) <= bin * Power(2, exp - 31)
  {
    hide IntScale, IntDigits, Rounded, Power, Layout, IntScaled;
    var start, t, n: nat := prec + |Point(prec, alt)|, bin / 0x10_0000, exp - 31;
    var s := IntState(bin / 0x20_0000, bin / 0x10_0000 % 2, start);
    StartLarge(s, n, start, t);
    LongResult(s, n, prec, alt, bin, exp);
    IntTooLong(s, n, start, t * Power(2, n));
    TopBits(bin, t, Power(2, n));
  }

  lemma LongResult(s: IntState, n: nat, prec: nat, alt: bool, bin: nat, exp: int)
    requires 31 < exp && bin < 2 * MAN && Large(bin, exp, prec, alt).Message? && n == exp - 31
    requires s == IntState(bin / 0x20_0000, bin / 0x10_0000 % 2, prec + |Point(prec, alt)|)
    ensures match IntScale(s, n)
            case None => true
            case Some(r) => r.dec + |IntDigits(r.man)| >= SIZE
  {
    hide IntScale, IntDigits, Rounded, Layout;
    var start := prec + |Point(prec, alt)|;
    if IntScale(s, n).Some? {
      var r := IntScale(s, n).value;
      if r.dec + |IntDigits(r.man)| < SIZE {
        FullBuffer(Layout(Zeros(prec), Point(prec, alt), Zeros(r.dec - start), IntDigits(r.man)), r.dec);
      }
    }
  }

  /** A finite double prints as a word only if the precision is too large for the buffer, or its integer part has more
      digits than the buffer has room for in front of a carry. */
  lemma TooLong(bits: nat, prec: nat, alt: bool)
    requires Finite(bits) && Convert(bits, prec, alt).Message?
    ensures var bin, exp, used := Mantissa(bits), Exponent(bits), prec + |Point(prec, alt)|;
            || prec > SIZE - 2
            || used >= SIZE - 1
            || (exp <= 31 && Power(10, SIZE - 1 - used) * Power(2, 52 - exp) <= bin)
            || (exp > 31 && Power(10, SIZE - 1 - used) * 0x20_0000 <= bin * Power(2, exp - 31))
  {
    hide Small, Large, Mantissa, Exponent, Power, IntPart;
    NormalOrTiny(bits);
    var bin, exp, used := Mantissa(bits), Exponent(bits), prec + |Point(prec, alt)|;
    if prec <= SIZE - 2 && used < SIZE - 1 {
      if exp <= 31 {
        SmallTooLong(bin, exp, prec, alt);
        IntPartIsFloor(bin, exp);
        Bounds(Power(10, SIZE - 1 - used), 0, IntPart(bin, exp), Power(2, 52 - exp));
      } else {
        LargeTooLong(bin, exp, prec, alt);
      }
    }
  }
}
