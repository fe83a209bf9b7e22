/** How far the numbers printed for magnitudes below 2^32 are from the magnitude (`npf_ftoa_rev`,
    include/nanoprintf.h:666-776). */
module FloatSmall {
  import opened Options
  import opened Division
  import opened Digits
  import opened FloatDigits
  import opened FloatMeaning
  import opened FloatScaling

  // ---------- Magnitudes below 1 ----------

  /** v * 10^-prec is the magnitude bin * 2^(exp - 52) up to half a unit of the last place, and one part in FIFTH for every
      turn of the scaling. */
  ghost predicate NearBelowOne(v: nat, bin: nat, exp: int, prec: nat)
    requires exp < 0
  {
    var unit, x := Power(2, 52 - exp), bin * Power(10, prec);
    Close(x * FIFTH * 2, v * unit * FIFTH * 2, unit * FIFTH + 2 * ((10 - exp) * x))
  }

  lemma Halves(f: nat)
    ensures f / (WORD32 / 2) == 2 * (f / WORD32) + f / (WORD32 / 2) % 2
  {
    var t := f / (WORD32 / 2);
    assert f == t * (WORD32 / 2) + f % (WORD32 / 2);
    assert t == t / 2 * 2 + t % 2;
    assert f / WORD32 == t / 2;
  }

  /** The scaling starts with the top 33 bits. */
  lemma StartBelowOne(bin: nat, exp: int, prec: nat)
    requires exp < 0 && bin < 2 * MAN
    ensures var s := FracStart(bin, exp, prec);
            var t := 2 * s.man + s.carry;
            && FracPart(bin, exp) == bin * 0x800 && t == bin / 0x10_0000 && s.carry <= 1 && s.man < WORD32 && s.expf == exp + 1
            && (bin >= MAN ==> s.man >= WORD32 / 2)
  {
    hide FracPart;
    assert FracPart(bin, exp) == FracPart(bin, -1) by {
      SamePart(bin, exp);
    }
    FracPartIsFraction(bin, -1);
    Halves(bin * 0x800);
    assert bin * 0x800 / (WORD32 / 2) == bin / 0x10_0000;
  }

  lemma SamePart(bin: nat, exp: int)
    requires exp < 0
    ensures FracPart(bin, exp) == FracPart(bin, -1)
  {
  }

  lemma TopBits(bin: nat, t: nat, q: nat)
    requires t == bin / 0x10_0000 && t >= WORD32
    ensures 0 <= bin * q - t * q * 0x10_0000 <= q * 0x10_0000 && q * FIFTH <= t * q
  {
    var d := bin - t * 0x10_0000;
    Bounds(d, 0, 0x10_0000, q);
    assert d * q == bin * q - t * q * 0x10_0000;
    Bounds(t, FIFTH, t, q);
  }

  /** The errors add up. */
  lemma AddUp(y: int, z: int, x: int, exact: int, q: int, h: int, n: int)
    requires Close(z, y, h + 1) && Parts(x, z, n) && x >= FIFTH && n >= 0
    requires 0 <= exact - x * 0x10_0000 <= q * 0x10_0000 && q * FIFTH <= x
    ensures Close(exact * FIFTH, y * 0x10_0000 * FIFTH, 0x10_0000 * h * FIFTH + (n + 2) * exact)
  {
    hide Close;
    var u, e := n * x, (n + 2) * exact;
    TwoMore(x, exact, n);
    assert -n * x == -u;
    AddLinear(y, z, x, exact, q, h, u, e);
  }

  lemma TwoMore(x: int, exact: int, n: int)
    requires exact >= x * 0x10_0000 && n >= 0
    ensures (n + 2) * exact >= 0x10_0000 * (n * x + 2 * x)
  {
    var d := exact - x * 0x10_0000;
    assert (n + 2) * d >= 0;
    assert (n + 2) * exact == (n + 2) * d + (n + 2) * x * 0x10_0000;
    assert (n + 2) * x == n * x + 2 * x;
  }

  lemma AddLinear(y: int, z: int, x: int, exact: int, q: int, h: int, u: int, e: int)
    requires Close(z, y, h + 1) && -u <= (z - x) * FIFTH <= u && x >= FIFTH && e >= 0x10_0000 * (u + 2 * x)
    requires 0 <= exact - x * 0x10_0000 <= q * 0x10_0000 && q * FIFTH <= x
    ensures Close(exact * FIFTH, y * 0x10_0000 * FIFTH, 0x10_0000 * h * FIFTH + e)
  {
  }

  /** Wherever the scaling of a normal number ends, the rounded digits are near what it started with. */
  lemma ScaledNear(s: FracState, prec: nat, e0: int, x: nat, r: FracState) returns (z: int, n: nat)
    requires s.expf == e0 <= 0 && !s.digit && s.decf == prec && FIFTH / 2 <= s.man < WORD32 && s.carry <= 1
    requires -0x400_0000 <= e0 && x == Scaled(s, e0) && r == FracScale(s) && !Overflows(r)
    ensures r.decf <= prec && (r.decf > 0 ==> r.man + r.carry < 10 * 0x1000_0000)
    ensures Close(z, FracValue(r, prec) * Power(2, 33 - e0), Power(2, 32 - e0) + 1)
    ensures Parts(x, z, n) && n <= 9 - e0
  {
    hide FracScale, Power, FracValue, Scaled, Final, Close;
    assert Parts(x, x, 0);
    FracScaleFits(s);
    var r' := TurnsKeep(s, e0, x);
    if r.decf > 0 {
      z, n := Final(r, e0), 9 - e0;
      DigitsNear(r, prec, e0);
      Wider(z, FracValue(r, prec) * Power(2, 33 - e0), Power(2, 32 - e0));
    } else {
      z, n := Scaled(r, e0), r.expf - e0;
      if prec == 0 {
        NoDigitsLeft(s);
      }
      NoDigitsNear(r, prec, e0);
    }
  }

  lemma Wider(x: int, y: int, d: int)
    requires Close(x, y, d)
    ensures Close(x, y, d + 1)
  {
  }

  lemma MorePart(x: int, y: int, d: int, m: int, n: int, e: int)
    requires Close(x, y, d + m * e) && m <= n && e >= 0
    ensures Close(x, y, d + n * e)
  {
    assert (n - m) * e >= 0;
  }

  lemma NormalNear(bin: nat, exp: int, prec: nat)
    requires -2000 <= exp < 0 && MAN <= bin < 2 * MAN && !Overflows(FracScale(FracStart(bin, exp, prec)))
    ensures var r := FracScale(FracStart(bin, exp, prec));
            && r.decf <= prec && (r.decf > 0 ==> r.man + r.carry < 10 * 0x1000_0000)
            && NearBelowOne(FracValue(r, prec), bin, exp, prec)
  {
    hide FracScale, FracStart, Power, FracValue, Close, Parts, FracPart;
    var s, q := FracStart(bin, exp, prec), Power(10, prec);
    var r, t, e0 := FracScale(s), bin / 0x10_0000, exp + 1;
    StartBelowOne(bin, exp, prec);
    StartScaled(s, prec, e0);
    var z, n := ScaledNear(s, prec, e0, t * q, r);
    TopBits(bin, t, q);
    var y, h := FracValue(r, prec) * Power(2, 33 - e0), Power(2, 32 - e0);
    assert t * q >= FIFTH by {
      MultipleGrows(q, t);
      assert q * t == t * q;
    }
    AddUp(y, z, t * q, bin * q, q, h, n);
    MorePart(bin * q * FIFTH, y * 0x10_0000 * FIFTH, 0x10_0000 * h * FIFTH, n + 2, 10 - exp, bin * q);
    UnitsBelowOne(FracValue(r, prec), exp, bin * q);
  }

  lemma StartScaled(s: FracState, prec: nat, e0: int)
    requires s.expf == e0 && !s.digit && s.decf == prec
    ensures Scaled(s, e0) == (2 * s.man + s.carry) * Power(10, prec)
  {
    hide Power;
    One(Power(10, prec));
  }

  lemma UnitsBelowOne(v: nat, exp: int, x: nat)
    requires exp < 0
    requires Close(x * FIFTH, v * Power(2, 32 - exp) * 0x10_0000 * FIFTH,
                   0x10_0000 * Power(2, 31 - exp) * FIFTH + (10 - exp) * x)
    ensures Close(x * FIFTH * 2, v * Power(2, 52 - exp) * FIFTH * 2, Power(2, 52 - exp) * FIFTH + 2 * ((10 - exp) * x))
  {
    hide Power;
    PowerSplit(2, 31 - exp);
    PowerSum(20, 32 - exp);
    Power20();
    var p := Power(2, 32 - exp);
    assert v * (0x10_0000 * p) == v * p * 0x10_0000;
  }

  lemma Power20()
    ensures Power(2, 20) == 0x10_0000
  {
    assert Power(2, 10) == 1024;
  }

  // ---------- Magnitudes that print as zero ----------

  function AtLeastOne(m: nat): nat {
    if m == 0 then 1 else m
  }

  lemma EightTimesMore(m: nat, c: nat, p: nat)
    requires c <= 1
    ensures AtLeastOne(m * 5 + 3 * c) * p <= AtLeastOne(m) * (8 * p)
  {
    assert AtLeastOne(m) * (8 * p) == (8 * AtLeastOne(m)) * p;
    Bounds(AtLeastOne(m * 5 + 3 * c), 0, 8 * AtLeastOne(m), p);
  }

  lemma HalfAsMuch(m: nat, p: nat, n: nat)
    requires m > 1 && p >= 1 && AtLeastOne(m) * p <= 2 * n
    ensures AtLeastOne(m / 2) * p <= n && n >= 1
  {
    Bounds(2 * (m / 2), 0, m, p);
    assert 2 * (m / 2) * p == 2 * (m / 2 * p);
    MultipleGrows(m, p);
  }

  lemma NeedsBits(m: nat, p: nat)
    requires m > 1 && p >= 1
    ensures AtLeastOne(m) * p > 1
  {
    MultipleGrows(p, m);
    assert m * p == p * m;
  }

  /** A multiplication takes a decimal place and adds at most three bits to the mantissa; a halving takes one away and needs
      a mantissa that has some.  So if there are more turns than bits and places, no digit is left below exponent 0. */
  lemma {:induction false} Vanishes(s: FracState, bits: nat)
    requires !s.digit && s.carry <= 1 && -s.expf > bits + s.decf
    requires AtLeastOne(s.man) * Power(8, s.decf) <= Power(2, bits)
    ensures var r := FracScale(s); r.decf == 0 && r.expf < 0
    decreases -s.expf
  {
    hide FracScale, Power, AtLeastOne;
    if s.decf == 0 {
      NoDigitsLeft(s);
    } else {
      ScaleTurn(s);
      if s.man > FIFTH {
        NeedsBits(s.man, Power(8, s.decf));
        One(0);
        PowerSplit(2, bits - 1);
        HalfAsMuch(s.man, Power(8, s.decf), Power(2, bits - 1));
        Vanishes(Halved(s), bits - 1);
      } else {
        PowerSplit(8, s.decf - 1);
        EightTimesMore(s.man, s.carry, Power(8, s.decf - 1));
        Vanishes(Fived(s), bits);
      }
    }
  }

  lemma {:induction false} PowersOfTwo(k: nat)
    ensures Power(8, k) == Power(2, 3 * k) && Power(10, k) <= Power(2, 4 * k)
  {
    hide Power;
    if k == 0 {
      One(0);
      PowerStep(8, 0);
    } else {
      PowersOfTwo(k - 1);
      PowerStep(8, k);
      PowerStep(10, k);
      PowerSplit(2, 3 * k - 1); PowerSplit(2, 3 * k - 2); PowerSplit(2, 3 * k - 3);
      PowerSplit(2, 4 * k - 1); PowerSplit(2, 4 * k - 2); PowerSplit(2, 4 * k - 3); PowerSplit(2, 4 * k - 4);
    }
  }

  /** Subnormal doubles, and all so small, print as zero, which is near enough. */
  lemma TinyNear(bin: nat, exp: int, prec: nat)
    requires exp <= -300 && bin < 2 * MAN && prec <= SIZE - 2
    ensures var r := FracScale(FracStart(bin, exp, prec));
            r.decf == 0 && r.expf < 0 && FracValue(r, prec) == 0 && NearBelowOne(0, bin, exp, prec)
  {
    hide FracScale, FracStart, Power, FracValue, FracPart, AtLeastOne;
    var s := FracStart(bin, exp, prec);
    StartBelowOne(bin, exp, prec);
    PowersOfTwo(prec);
    Mantissa32(s.man, Power(8, prec));
    PowerSum(32, 3 * prec);
    Power28();
    Vanishes(s, 32 + 3 * prec);
    WholeFraction(FracScale(s), prec);
    PowerSum(54, 4 * prec);
    PowerGrows(54 + 4 * prec, 52 - exp);
    TinyProduct(bin, Power(10, prec), Power(2, 4 * prec), Power(2, 52 - exp), exp);
  }

  lemma Mantissa32(m: nat, p: nat)
    requires m < WORD32
    ensures AtLeastOne(m) * p <= WORD32 * p
  {
    Bounds(AtLeastOne(m), 0, WORD32, p);
  }

  lemma TinyProduct(bin: nat, q: nat, p: nat, unit: nat, exp: int)
    requires exp <= 10 && bin < 2 * MAN && q <= p && Power(2, 54) * p <= unit
    ensures Close(bin * q * FIFTH * 2, 0 * unit * FIFTH * 2, unit * FIFTH + 2 * ((10 - exp) * (bin * q)))
  {
    hide Power;
    Power53();
    PowerSplit(2, 53);
    TinyBound(bin, q, p);
    assert (10 - exp) * (bin * q) >= 0;
    assert 0 * unit == 0;
  }

  lemma TinyBound(bin: nat, q: nat, p: nat)
    requires bin < 2 * MAN && q <= p
    ensures 0 <= bin * q <= 2 * MAN * p
  {
    Bounds(bin, 0, 2 * MAN, q);
  }

  // ---------- Magnitudes from 1 to 2^32 ----------

  /** v * 10^-prec is the magnitude up to half a unit of the last place and 2^-30. */
  ghost predicate NearFromOne(v: nat, bin: nat, exp: int, prec: nat)
    requires 0 <= exp <= 31
  {
    var unit, p := Power(2, 52 - exp), Power(10, prec);
    Close(bin * p * 0x4000_0000, v * unit * 0x4000_0000, unit * (0x2000_0000 + p))
  }

  /** From exponent 0 the turns, the digits and the rounding lose at most seven units of 2^-33 and half a unit of the last
      place, and add at most eight and a half. */
  lemma WholeNear(s: FracState, prec: nat, r: FracState)
    requires s.expf == 0 && !s.digit && s.decf == prec && s.man < WORD32 && s.carry <= 1
    requires r == FracScale(s) && !Overflows(r)
    ensures r.decf <= prec && (r.decf > 0 ==> r.man + r.carry < 10 * 0x1000_0000)
    ensures var p := Power(10, prec);
            -7 * p - WORD32 <= FracValue(r, prec) * (2 * WORD32) - (2 * s.man + s.carry) * p <= 8 * p + WORD32
  {
    hide FracScale, Power, FracValue, Scaled, Final, Weight;
    FracScaleFits(s);
    StartScaled(s, prec, 0);
    PowerShift(0);
    One(2 * WORD32);
    if prec == 0 {
      NoDigitsLeft(s);
      NoDigitsNear(r, prec, 0);
    } else {
      var r' := LastTurns(s, 0);
      Eight();
      DigitsNear(r, prec, 0);
      StartWeight(s, prec);
    }
  }

  lemma StartWeight(s: FracState, prec: nat)
    requires s.expf == 0 && !s.digit && s.decf == prec
    ensures Weight(s, 0) == Power(10, prec)
  {
    hide Power;
    One(Power(10, prec));
  }

  lemma StartFromOne(bin: nat, exp: int, prec: nat)
    requires 0 <= exp <= 31 && bin < 2 * MAN
    ensures var s := FracStart(bin, exp, prec);
            && 2 * s.man + s.carry == FracPart(bin, exp) / (WORD32 / 2) && s.carry <= 1 && s.man < WORD32
            && s.expf == 0
  {
    hide FracPart;
    FracPartIsFraction(bin, exp);
    Halves(FracPart(bin, exp));
  }

  /** All 64 bits of the fraction */
  lemma WholeBits(f: nat, t: nat, p: nat, v: int)
    requires t == f / (WORD32 / 2) && -7 * p - WORD32 <= v * (2 * WORD32) - t * p <= 8 * p + WORD32
    ensures Close(f * p, v * WORD64, WORD64 / 2 + 0x4_0000_0000 * p)
  {
    hide Close;
    TopPart(f, t, p);
    WholeLinear(f * p, t * p, p, v);
  }

  lemma TopPart(f: nat, t: nat, p: nat)
    requires t == f / (WORD32 / 2)
    ensures 0 <= f * p - t * p * (WORD32 / 2) <= p * (WORD32 / 2)
  {
    var d := f - t * (WORD32 / 2);
    Bounds(d, 0, WORD32 / 2, p);
    assert d * p == f * p - t * p * (WORD32 / 2);
  }

  lemma WholeLinear(exact: int, x: int, p: int, v: int)
    requires p >= 0 && 0 <= exact - x * (WORD32 / 2) <= p * (WORD32 / 2)
    requires -7 * p - WORD32 <= v * (2 * WORD32) - x <= 8 * p + WORD32
    ensures Close(exact, v * WORD64, WORD64 / 2 + 0x4_0000_0000 * p)
  {
  }

  /** Dividing by the weight of the last bit */
  lemma Cancel(w: nat, unit: nat, bin: nat, p: nat, v: int, n: nat, f: nat, frac: int)
    requires unit * w == WORD64 && bin * w == n * WORD64 + f && v == frac + n * p
    requires Close(f * p, frac * WORD64, WORD64 / 2 + 0x4_0000_0000 * p)
    ensures Close(bin * p * 0x4000_0000, v * unit * 0x4000_0000, unit * (0x2000_0000 + p))
  {
    var d := v * unit - bin * p;
    assert d * w == frac * WORD64 - f * p by {
      CancelTerms(w, unit, bin, p, v, n, f, frac);
    }
    var bound := unit * (0x2000_0000 + p);
    assert bound * w == WORD64 * (0x2000_0000 + p) by {
      assert bound * w == (unit * w) * (0x2000_0000 + p);
    }
    assert -(bound * w) <= d * w * 0x4000_0000 <= bound * w;
    Smaller(d * 0x4000_0000, bound, w);
  }

  lemma CancelTerms(w: nat, unit: nat, bin: nat, p: nat, v: int, n: nat, f: nat, frac: int)
    requires unit * w == WORD64 && bin * w == n * WORD64 + f && v == frac + n * p
    ensures (v * unit - bin * p) * w == frac * WORD64 - f * p
  {
    assert (v * unit - bin * p) * w == v * (unit * w) - (bin * w) * p;
    assert v * WORD64 == frac * WORD64 + n * p * WORD64;
    assert (n * WORD64 + f) * p == n * p * WORD64 + f * p;
  }

  lemma Smaller(a: int, b: int, w: nat)
    requires w > 0 && -(b * w) <= a * w <= b * w
    ensures -b <= a <= b
  {
    assert (a - b) * w == a * w - b * w && (-b - a) * w == -(b * w) - a * w;
    MultipleGrows(a - b, w);
    MultipleGrows(-b - a, w);
  }

  lemma FromOneNear(bin: nat, exp: int, prec: nat, r: FracState) returns (v: nat)
    requires 0 <= exp <= 31 && bin < 2 * MAN && r == FracScale(FracStart(bin, exp, prec)) && !Overflows(r)
    ensures r.decf <= prec && (r.decf > 0 ==> r.man + r.carry < 10 * 0x1000_0000)
    ensures v == FracValue(r, prec) + IntPart(bin, exp) * Power(10, prec) && NearFromOne(v, bin, exp, prec)
  {
    hide FracScale, FracStart, Power, FracValue, FracPart, IntPart, Close;
    var s, f, n, p := FracStart(bin, exp, prec), FracPart(bin, exp), IntPart(bin, exp), Power(10, prec);
    StartFromOne(bin, exp, prec);
    WholeNear(s, prec, r);
    WholeBits(f, 2 * s.man + s.carry, p, FracValue(r, prec));
    FracPartIsFraction(bin, exp);
    PowerSum(52 - exp, 12 + exp);
    Power64();
    v := FracValue(r, prec) + n * p;
    Cancel(Power(2, 12 + exp), Power(2, 52 - exp), bin, p, v, n, f, FracValue(r, prec));
  }

  // ---------- All magnitudes below 2^32 ----------

  /** With precision 0 the top 33 bits of the fraction may all be set; their sum with the pending bit is then 0 in C. */
  predicate Wraps(bin: nat, exp: int, prec: nat)
    requires exp <= 31
  {
    prec == 0 && exp >= -1 && FracPart(bin, exp) / (WORD32 / 2) == 2 * WORD32 - 1
  }

  /** Scaling that has digits to print ends with the four integer bits in place, or with no pending bit. */
  lemma {:induction false} EndsClean(s: FracState)
    requires s.decf > 0 && s.expf <= 4 && (s.digit ==> s.expf > 0)
    ensures var r := FracScale(s); r.expf == 4 || (r.decf == 0 && r.carry == 0)
    decreases 4 - s.expf
  {
    hide FracScale;
    if s.expf == 4 {
      Done(s);
    } else {
      ScaleTurn(s);
      var t := if s.man > FIFTH || s.digit then Halved(s) else Fived(s);
      if t.decf == 0 {
        NoDigitsLeft(t);
      } else {
        EndsClean(t);
      }
    }
  }

  lemma OverflowsExactly(bin: nat, exp: int, prec: nat)
    requires exp <= 31 && bin < 2 * MAN
    ensures Overflows(FracScale(FracStart(bin, exp, prec))) <==> Wraps(bin, exp, prec)
  {
    hide FracScale, FracPart;
    var s := FracStart(bin, exp, prec);
    FracPartBelow(bin, exp);
    Halves(FracPart(bin, exp));
    if prec == 0 {
      NoDigitsLeft(s);
    } else {
      EndsClean(s);
      FracScaleFits(s);
    }
  }

  /** What a magnitude below 2^32 prints is its integer part and its rounded fraction. */
  lemma SmallIs(bin: nat, exp: int, prec: nat, alt: bool) returns (r: FracState)
    requires exp <= 31 && bin < 2 * MAN && Small(bin, exp, prec, alt).Number?
    ensures r == FracScale(FracStart(bin, exp, prec))
    ensures r.decf <= prec && (r.decf > 0 ==> r.man + r.carry < 10 * 0x1000_0000)
    ensures Value(Small(bin, exp, prec, alt).rev) == FracValue(r, prec) + IntPart(bin, exp) * Power(10, prec)
  {
    hide FracScale, IntPart, FracStart, IntDigits, Rounded, Layout, FracText, Value, Power, TopBit;
    FracScaleFits(FracStart(bin, exp, prec));
    r := FracScale(FracStart(bin, exp, prec));
    var n, frac := IntPart(bin, exp), Reverse(FracText(r, prec));
    UnroundedValue(frac, prec, alt, n);
    if r.expf >= 0 && TopBit(r) {
      WholeRounded(Layout(frac, Point(prec, alt), "", IntDigits(n)));
    }
    assert Power(10, prec) * n == n * Power(10, prec);
  }

  /** The doubles: normal ones have their 53rd bit set, the others the smallest exponent. */
  lemma NormalOrTiny(bits: nat)
    ensures Mantissa(bits) < 2 * MAN && -1022 <= Exponent(bits) && (Mantissa(bits) >= MAN || Exponent(bits) == -1022)
  {
  }

  ghost predicate NearSmall(v: nat, bin: nat, exp: int, prec: nat)
    requires exp <= 31
  {
    if exp < 0 then NearBelowOne(v, bin, exp, prec) else NearFromOne(v, bin, exp, prec)
  }

  /** Below 2^32 the printed number is as near to the magnitude as NearBelowOne and NearFromOne say, if and only if the
      32-bit sum does not wrap. */
  lemma SmallAccuracy(bits: nat, prec: nat, alt: bool)
    requires Finite(bits) && Exponent(bits) <= 31 && Convert(bits, prec, alt).Number?
    ensures NearSmall(Value(Convert(bits, prec, alt).rev), Mantissa(bits), Exponent(bits), prec) <==>
            !Wraps(Mantissa(bits), Exponent(bits), prec)
  {
    hide Small, FracScale, FracStart, IntPart, Power, Value, FracValue, NearBelowOne, NearFromOne, Wraps, Overflows;
    hide Mantissa, Exponent;
    NormalOrTiny(bits);
    var bin, exp := Mantissa(bits), Exponent(bits);
    var r := SmallIs(bin, exp, prec, alt);
    OverflowsExactly(bin, exp, prec);
    if Wraps(bin, exp, prec) {
      WrappedFar(bin, exp, prec, r);
    } else if exp >= 0 {
      var v := FromOneNear(bin, exp, prec, r);
    } else {
      NoIntPart(bin, exp, prec);
      if bin >= MAN {
        NormalNear(bin, exp, prec);
      } else {
        TinyNear(bin, exp, prec);
      }
    }
  }

  lemma NoIntPart(bin: nat, exp: int, prec: nat)
    requires exp < 0
    ensures IntPart(bin, exp) * Power(10, prec) == 0
  {
    hide Power;
    assert 0 * Power(10, prec) == 0;
  }

  lemma WrappedFar(bin: nat, exp: int, prec: nat, r: FracState)
    requires exp <= 31 && bin < 2 * MAN && Wraps(bin, exp, prec) && r == FracScale(FracStart(bin, exp, prec)) && Overflows(r)
    requires r.decf <= prec
    ensures !NearSmall(FracValue(r, prec) + IntPart(bin, exp) * Power(10, prec), bin, exp, prec)
  {
    hide FracScale, FracStart, FracPart, IntPart, Power, FracValue;
    WholeFraction(r, prec);
    One(IntPart(bin, exp));
    FracPartIsFraction(bin, exp);
    var f := FracPart(bin, exp);
    assert f >= (2 * WORD32 - 1) * (WORD32 / 2);
    if exp < 0 {
      NoIntPart(bin, exp, prec);
      Power53();
      assert !NearBelowOne(0, bin, exp, prec);
    } else {
      PowerSum(52 - exp, 12 + exp);
      Power64();
      FarFromOne(bin, IntPart(bin, exp), f, Power(2, 52 - exp), Power(2, 12 + exp));
    }
  }

  lemma FarFromOne(bin: nat, n: nat, f: nat, unit: nat, w: nat)
    requires unit * w == WORD64 && bin * w == n * WORD64 + f && f >= (2 * WORD32 - 1) * (WORD32 / 2)
    ensures !Close(bin * 1 * 0x4000_0000, n * unit * 0x4000_0000, unit * (0x2000_0000 + 1))
  {
    var d := bin - n * unit;
    assert d * w == f by {
      assert d * w == bin * w - n * (unit * w);
    }
    var e := unit * 0x2000_0001 - d * 0x4000_0000;
    assert e * w == unit * w * 0x2000_0001 - d * w * 0x4000_0000;
    assert e >= 0 ==> e * w >= 0;
  }
}
