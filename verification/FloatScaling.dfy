/** The invariants of the loop that scales the fraction of a double (`npf_ftoa_rev`, include/nanoprintf.h:707-767): what
    is left of the fraction, measured in one unit throughout, and what the digits make of it. */
module FloatScaling {
  import opened Options
  import opened Division
  import opened Digits
  import opened FloatDigits
  import opened FloatMeaning

  // ---------- The digits of a scaled fraction ----------

  lemma ReverseConcat(x: string, y: string)
    ensures Reverse(x + y) == Reverse(y) + Reverse(x)
  {
    var z := Reverse(y) + Reverse(x);
    assert forall k | 0 <= k < |x + y| :: Reverse(x + y)[k] == z[k];
  }

  lemma {:induction false} ZerosValue(n: nat)
    ensures Value(Zeros(n)) == 0 && Decimals(Reverse(Zeros(n))) && Value(Reverse(Zeros(n))) == 0
  {
    if n > 0 {
      ZerosValue(n - 1);
      assert Zeros(n)[1..] == Zeros(n - 1);
    }
    assert Reverse(Zeros(n)) == Zeros(n);
  }

  /** A digit in front, most significant first */
  lemma DigitInFront(c: char, w: string)
    requires '0' <= c <= '9' && Decimals(w)
    ensures Value(Reverse([c] + w)) == Value(Reverse(w)) + Power(10, |w|) * (c as nat - 48)
  {
    hide Power, Value, Reverse;
    ReverseConcat([c], w);
    OneDigit(c);
    ValueConcat(Reverse(w), [c]);
  }

  lemma OneDigit(c: char)
    requires '0' <= c <= '9'
    ensures Reverse([c]) == [c] && Value([c]) == c as nat - 48
  {
    hide Reverse;
    NothingReversed();
    assert [c][1..] == "";
    assert Reverse([c]) == [c] by {
      OneReversed(c);
    }
  }

  lemma OneReversed(c: char)
    ensures Reverse([c]) == [c]
  {
  }

  lemma FirstDigit(man: nat)
    requires man < 10 * 0x1000_0000
    ensures var d := man / 0x1000_0000; d < 10 && DigitChar(d, 0) as nat - 48 == d && '0' <= DigitChar(d, 0) <= '9'
  {
  }

  /** n digits and what is left make up the whole scaled fraction. */
  lemma {:induction false} FracDigitsValue(man: nat, n: nat)
    requires man < 10 * 0x1000_0000 && 0 < n
    ensures FracRest(man, n) % 16 == 0 && FracRest(man, n) / 16 < 0x1000_0000
    ensures Value(Reverse(FracDigits(man, n))) * 0x1000_0000 + FracRest(man, n) / 16 == man * Power(10, n - 1)
    decreases n
  {
    hide Power, Value, Reverse, DigitChar;
    var d, low := man / 0x1000_0000, man % 0x1000_0000;
    var w := FracDigits(low * 10, n - 1);
    FirstDigit(man);
    DigitInFront(DigitChar(d, 0), w);
    PowerStep(10, n - 1);
    if n == 1 {
      assert w == "";
      assert Reverse("") == "" && Value("") == 0 by {
        NothingReversed();
      }
    } else {
      FracDigitsValue(low * 10, n - 1);
      PlaceValue(Power(10, n - 2), d, low);
    }
  }

  lemma NothingReversed()
    ensures Reverse("") == "" && Value("") == 0
  {
  }

  lemma PlaceValue(p: nat, d: nat, low: nat)
    ensures 10 * p * d * 0x1000_0000 + low * 10 * p == (d * 0x1000_0000 + low) * (10 * p)
  {
  }

  /** The leading zeros count for nothing. */
  lemma FracTextValue(s: FracState, prec: nat)
    requires s.decf <= prec && (s.decf > 0 ==> s.man + s.carry < 10 * 0x1000_0000)
    ensures Value(Reverse(FracText(s, prec))) ==
            if s.decf == 0 then 0 else Value(Reverse(FracDigits(FracMan(s), s.decf)))
  {
    hide Power, Value, Reverse, FracDigits;
    var w := if s.decf == 0 then "" else FracDigits(FracMan(s), s.decf);
    var z := Zeros(prec - s.decf);
    ReverseConcat(z, w);
    ZerosValue(prec - s.decf);
    ValueConcat(Reverse(w), Reverse(z));
    NothingReversed();
  }

  lemma Bounds(a: int, lo: int, hi: int, p: nat)
    requires lo <= a <= hi
    ensures lo * p <= a * p <= hi * p
  {
    assert (a - lo) * p >= 0 && (hi - a) * p >= 0;
    assert (a - lo) * p == a * p - lo * p && (hi - a) * p == hi * p - a * p;
  }

  // ---------- What the scaling keeps ----------

  /** One unit of the mantissa, in units of 10^-prec * 2^(e0 - 32) where e0 is the exponent the scaling starts at */
  ghost function Weight(s: FracState, e0: int): (w: nat)
    requires e0 <= s.expf && (s.digit ==> s.decf > 0)
    ensures w > 0
  {
    Power(2, s.expf - e0) * Power(10, if s.digit then s.decf - 1 else s.decf)
  }

  /** Twice the fraction left, the pending bit counted as one half */
  ghost function Scaled(s: FracState, e0: int): nat
    requires e0 <= s.expf && (s.digit ==> s.decf > 0)
  {
    (2 * s.man + s.carry) * Weight(s, e0)
  }

  function Halved(s: FracState): FracState {
    FracState(s.man / 2, s.man % 2, s.decf, s.expf + 1, s.digit)
  }

  function Fived(s: FracState): FracState
    requires s.expf < 0 ==> s.decf > 0
  {
    var m := s.man * 5 + (if s.carry != 0 then 3 else 0);
    if s.expf < 0 then FracState(m, 0, s.decf - 1, s.expf + 1, s.digit) else FracState(m, 0, s.decf, s.expf + 1, true)
  }

  lemma ScaleTurn(s: FracState)
    requires s.decf > 0 && s.expf < 4
    ensures FracScale(s) == FracScale(if s.man > FIFTH || s.digit then Halved(s) else Fived(s))
  {
  }

  lemma PowerSplit(b: nat, k: nat)
    ensures Power(b, k + 1) == b * Power(b, k)
  {
  }

  /** Halving drops the pending bit and nothing else. */
  lemma HalvedKeeps(s: FracState, e0: int)
    requires e0 <= s.expf && (s.digit ==> s.decf > 0)
    ensures Weight(Halved(s), e0) == 2 * Weight(s, e0)
    ensures Scaled(Halved(s), e0) == Scaled(s, e0) - s.carry * Weight(s, e0)
  {
    hide Power;
    PowerSplit(2, s.expf - e0);
    var w := Weight(s, e0);
    var h := Halved(s);
    var p, q := Power(2, s.expf - e0), Power(10, if s.digit then s.decf - 1 else s.decf);
    assert h.expf - e0 == s.expf - e0 + 1;
    assert (2 * p) * q == 2 * (p * q);
    assert 2 * h.man + h.carry == s.man;
    assert s.man * (2 * w) == (2 * s.man + s.carry) * w - s.carry * w;
  }

  /** Multiplying by 5 adds at most one half of a unit of the new mantissa. */
  lemma FivedKeeps(s: FracState, e0: int)
    requires e0 <= s.expf && !s.digit && s.decf > 0 && s.carry <= 1
    ensures 5 * Weight(Fived(s), e0) == Weight(s, e0)
    ensures Scaled(Fived(s), e0) == Scaled(s, e0) + s.carry * Weight(Fived(s), e0)
  {
    hide Power;
    PowerSplit(2, s.expf - e0);
    PowerSplit(10, s.decf - 1);
    var t := Fived(s);
    var w := Weight(t, e0);
    var p, q := Power(2, s.expf - e0), Power(10, s.decf - 1);
    assert t.expf - e0 == s.expf - e0 + 1;
    assert 5 * ((2 * p) * q) == p * (10 * q);
    assert (2 * s.man + s.carry) * (5 * w) + s.carry * w == (10 * s.man + 6 * s.carry) * w;
    assert 2 * t.man + t.carry == 10 * s.man + 6 * s.carry;
  }

  /** The value the digits are taken from: the pending bit is added as a whole unit. */
  ghost function Final(s: FracState, e0: int): nat
    requires e0 <= s.expf && (s.digit ==> s.decf > 0)
  {
    2 * (s.man + s.carry) * Weight(s, e0)
  }

  /** y is at most lo * w below x and hi * w above it. */
  predicate Within(x: int, y: int, lo: int, hi: int, w: int) {
    x - lo * w <= y <= x + hi * w
  }

  /** A halving moves a band around what is left to a band around what was there. */
  lemma HalvedBand(x: int, y: int, lo: int, hi: int, w: int, c: int)
    requires 0 <= c <= 1 && 0 <= w && Within(x - c * w, y, lo, hi, 2 * w)
    ensures Within(x, y, 2 * lo + 1, 2 * hi, w)
  {
    assert lo * (2 * w) == 2 * lo * w && hi * (2 * w) == 2 * hi * w;
    assert c == 0 ==> c * w == 0;
    assert c == 1 ==> c * w == w;
    assert (2 * lo + 1) * w == 2 * lo * w + w;
  }

  /** After the multiplication only halvings are left. */
  lemma {:induction false} HalvingsKeep(s: FracState, e0: int) returns (r: FracState)
    requires e0 <= s.expf && s.digit && s.decf > 0 && 0 < s.expf <= 4 && s.carry <= 1
    ensures r == FracScale(s) && r.expf == 4 && r.digit && r.decf == s.decf && r.carry <= 1
    ensures var n := Power(2, 4 - s.expf); Within(Scaled(s, e0), Final(r, e0), n - 1, n, Weight(s, e0))
    decreases 4 - s.expf
  {
    hide FracScale, Power, Weight, Within;
    var w := Weight(s, e0);
    if s.expf == 4 {
      r := s;
      Done(s);
      LastBit(s, w);
    } else {
      ScaleTurn(s);
      HalvedKeeps(s, e0);
      var h := Halved(s);
      r := HalvingsKeep(h, e0);
      PowerSplit(2, 3 - s.expf);
      HalvedBand(Scaled(s, e0), Final(r, e0), Power(2, 3 - s.expf) - 1, Power(2, 3 - s.expf), w, s.carry);
    }
  }

  lemma Done(s: FracState)
    requires s.expf == 4
    ensures FracScale(s) == s && Power(2, 0) == 1
  {
  }

  lemma LastBit(s: FracState, w: nat)
    requires s.carry <= 1
    ensures Within((2 * s.man + s.carry) * w, 2 * (s.man + s.carry) * w, 0, 1, w)
  {
    assert 2 * (s.man + s.carry) * w == (2 * s.man + s.carry) * w + s.carry * w;
    assert s.carry == 1 ==> s.carry * w == w;
    assert s.carry == 0 ==> s.carry * w == 0;
  }

  /** The mantissa has lost as many bits as there were halvings since exponent 0, so the last turn cannot be one more. */
  predicate Shrunk(s: FracState) {
    && 0 <= s.expf <= 3
    && s.man < (if s.expf == 0 then WORD32 else if s.expf == 1 then WORD32 / 2 else if s.expf == 2 then WORD32 / 4 else WORD32 / 8)
  }

  lemma FivedBand(x: int, y: int, n: nat, v: nat, c: nat)
    requires c <= 1 && n >= 1 && Within(x + c * v, y, n - 1, n, v)
    ensures Within(x, y, n - 1, n, 5 * v)
  {
    assert (n - 1) * (5 * v) == 5 * ((n - 1) * v) && n * (5 * v) == 5 * (n * v);
    assert (n - 1) * v >= 0 && n * v >= v;
    assert c == 1 ==> c * v == v;
    assert c == 0 ==> c * v == 0;
  }

  /** From exponent 0 on, the turns and the final addition change what is left by at most eight units. */
  lemma {:induction false} LastTurns(s: FracState, e0: int) returns (r: FracState)
    requires e0 <= s.expf && !s.digit && s.decf > 0 && Shrunk(s) && s.carry <= 1
    ensures r == FracScale(s) && r.expf == 4 && r.digit && r.decf == s.decf && r.carry <= 1
    ensures var n := Power(2, 3 - s.expf); Within(Scaled(s, e0), Final(r, e0), n - 1, n, Weight(s, e0))
    decreases 4 - s.expf
  {
    hide FracScale, Power, Weight, Within, Scaled, Final;
    ScaleTurn(s);
    if s.man > FIFTH {
      HalvedKeeps(s, e0);
      r := LastTurns(Halved(s), e0);
      PowerSplit(2, 2 - s.expf);
      HalvedBand(Scaled(s, e0), Final(r, e0), Power(2, 2 - s.expf) - 1, Power(2, 2 - s.expf), Weight(s, e0), s.carry);
    } else {
      FivedKeeps(s, e0);
      r := HalvingsKeep(Fived(s), e0);
      FivedBand(Scaled(s, e0), Final(r, e0), Power(2, 3 - s.expf), Weight(Fived(s), e0), s.carry);
    }
  }

  // ---------- Below exponent 0 ----------

  /** y is within n parts in FIFTH of x. */
  predicate Parts(x: int, y: int, n: int) {
    -n * x <= (y - x) * FIFTH <= n * x
  }

  lemma PartsBy(x: int, n: int, m: int)
    requires x >= 0 && 0 <= n && 0 <= m && m * n <= FIFTH
    ensures (n + m) * x == n * x + m * x && -(n + m) * x == -(n * x) - m * x && -n * x == -(n * x)
    ensures 0 <= n * x && m * (n * x) <= FIFTH * x
  {
    assert (FIFTH - m * n) * x >= 0;
    assert m * (n * x) == m * n * x;
  }

  lemma HalvedParts(x: int, y: int, n: int, d: int)
    requires x >= 0 && n >= 0 && d >= 0 && Parts(x, y, n) && n <= FIFTH && d * FIFTH <= y
    ensures Parts(x, y - d, n + 1)
  {
    PartsBy(x, n, 1);
    HalvedLinear(x, y, n * x, d);
  }

  lemma HalvedLinear(x: int, y: int, u: int, d: int)
    requires x >= 0 && d >= 0 && -u <= (y - x) * FIFTH <= u <= FIFTH * x && d * FIFTH <= y
    ensures -u - x <= (y - d - x) * FIFTH <= u + x
  {
  }

  lemma FivedParts(x: int, y: int, n: int, d: int)
    requires x >= 0 && n >= 0 && d >= 0 && Parts(x, y, n) && n <= FIFTH && 5 * d * FIFTH <= y
    ensures Parts(x, y + d, n + 1)
  {
    PartsBy(x, n, 1);
    FivedLinear(x, y, n * x, d);
  }

  lemma FivedLinear(x: int, y: int, u: int, d: int)
    requires x >= 0 && d >= 0 && -u <= (y - x) * FIFTH <= u <= FIFTH * x && 5 * d * FIFTH <= y
    ensures -u - x <= (y + d - x) * FIFTH <= u + x
  {
  }

  /** A unit is at most one part of a mantissa with its 29th bit set. */
  lemma UnitPart(s: FracState, w: nat)
    requires s.man >= FIFTH / 2 && s.carry <= 1
    ensures s.carry * w * FIFTH <= (2 * s.man + s.carry) * w && w * FIFTH <= (2 * s.man + s.carry) * w
  {
    Bounds(2 * s.man + s.carry, FIFTH, 2 * s.man + s.carry, w);
    assert s.carry == 1 ==> s.carry * w == w;
    assert s.carry == 0 ==> s.carry * w == 0;
  }

  lemma LastParts(x: int, y: int, z: int, n: int, w: int)
    requires x >= 0 && n >= 0 && Parts(x, y, n) && 8 * n <= FIFTH && Within(y, z, 7, 8, w) && 0 <= w && w * FIFTH <= y
    ensures Parts(x, z, n + 9)
  {
    PartsBy(x, n, 8);
    LastLinear(x, y, z, n * x, w);
    assert (n + 9) * x == n * x + 9 * x && -(n + 9) * x == -(n * x) - 9 * x;
  }

  lemma LastLinear(x: int, y: int, z: int, u: int, w: int)
    requires x >= 0 && 0 <= w && -u <= (y - x) * FIFTH <= u && 8 * u <= FIFTH * x && w * FIFTH <= y
    requires y - 7 * w <= z <= y + 8 * w
    ensures -u - 9 * x <= (z - x) * FIFTH <= u + 9 * x
  {
  }

  lemma NoDigitsLeft(s: FracState)
    requires s.decf == 0
    ensures FracScale(s) == s
  {
  }

  lemma Eight()
    ensures Power(2, 3) == 8
  {
  }

  lemma UnitOf(s: FracState, e0: int)
    requires e0 <= s.expf && (s.digit ==> s.decf > 0) && s.man >= FIFTH / 2 && s.carry <= 1
    ensures s.carry * Weight(s, e0) * FIFTH <= Scaled(s, e0) && Weight(s, e0) * FIFTH <= Scaled(s, e0)
  {
    hide Weight;
    UnitPart(s, Weight(s, e0));
  }

  lemma FifthUnit(c: nat, w: nat, v: nat, y: nat)
    requires c <= 1 && 5 * v == w && c * w * FIFTH <= y
    ensures 5 * (c * v) * FIFTH <= y
  {
    if c == 1 {
      assert c * v == v && c * w == w;
    } else {
      assert c * v == 0;
    }
  }

  /** The turns below exponent 0 lose or add at most one part of what is there, so the fraction stays what it was up to as
      many parts as there were turns, wherever the scaling ends. */
  lemma {:induction false} TurnsKeep(s: FracState, e0: int, x: nat) returns (r: FracState)
    requires e0 <= s.expf <= 0 && !s.digit && FIFTH / 2 <= s.man < WORD32 && s.carry <= 1 && -0x400_0000 <= e0
    requires Parts(x, Scaled(s, e0), s.expf - e0)
    ensures r == FracScale(s) && r.carry <= 1 && r.man < WORD32
    ensures r.decf == 0 ==>
              !r.digit && e0 <= r.expf <= 0 && (s.decf > 0 ==> r.carry == 0) && Parts(x, Scaled(r, e0), r.expf - e0)
    ensures r.decf > 0 ==> r.expf == 4 && r.digit && Parts(x, Final(r, e0), 9 - e0)
    decreases -s.expf
  {
    hide FracScale, Power, Weight, Within, Scaled, Final, Parts;
    if s.decf == 0 {
      r := s;
      NoDigitsLeft(s);
    } else if s.expf == 0 {
      r := LastTurns(s, e0);
      FracScaleFits(s);
      UnitOf(s, e0);
      Eight();
      LastParts(x, Scaled(s, e0), Final(r, e0), -e0, Weight(s, e0));
    } else {
      ScaleTurn(s);
      UnitOf(s, e0);
      if s.man > FIFTH {
        HalvedKeeps(s, e0);
        HalvedParts(x, Scaled(s, e0), s.expf - e0, s.carry * Weight(s, e0));
        r := TurnsKeep(Halved(s), e0, x);
      } else {
        FivedKeeps(s, e0);
        FifthUnit(s.carry, Weight(s, e0), Weight(Fived(s), e0), Scaled(s, e0));
        FivedParts(x, Scaled(s, e0), s.expf - e0, s.carry * Weight(Fived(s), e0));
        r := TurnsKeep(Fived(s), e0, x);
        if s.decf == 1 {
          NoDigitsLeft(Fived(s));
        }
      }
    }
  }

  // ---------- From the scaled fraction to the printed one ----------

  /** The printed fraction in units of 10^-prec, rounded */
  ghost function FracValue(r: FracState, prec: nat): nat
    requires r.decf <= prec && (r.decf > 0 ==> r.man + r.carry < 10 * 0x1000_0000)
  {
    Value(Reverse(FracText(r, prec))) + (if r.expf >= 0 && TopBit(r) then 1 else 0)
  }

  predicate Close(x: int, y: int, d: int) {
    -d <= y - x <= d
  }

  lemma HalfUp(m: nat, t: nat, v: nat, rest: nat, up: bool)
    requires v * 0x1000_0000 + rest == m * t && rest < 0x1000_0000 && (up <==> rest >= 0x800_0000)
    ensures Close(m * t, (v + if up then 1 else 0) * 0x1000_0000, 0x800_0000)
  {
  }

  lemma CloseTimes(m: nat, t: nat, v: int, p: nat)
    requires Close(m * t, v * 0x1000_0000, 0x800_0000)
    ensures Close(2 * m * (p * t), v * (0x2000_0000 * p), 0x1000_0000 * p)
  {
    Regroup(m, t, v, p);
    Bounds(v * 0x1000_0000 - m * t, -0x800_0000, 0x800_0000, 2 * p);
  }

  lemma Regroup(m: nat, t: nat, v: int, p: nat)
    ensures v * (0x2000_0000 * p) - 2 * m * (p * t) == (v * 0x1000_0000 - m * t) * (2 * p)
  {
    assert v * (0x2000_0000 * p) == (v * 0x1000_0000) * (2 * p);
    assert 2 * m * (p * t) == (m * t) * (2 * p);
  }

  lemma PowerShift(k: nat)
    ensures Power(2, k + 28) == 0x1000_0000 * Power(2, k) && Power(2, k + 29) == 0x2000_0000 * Power(2, k)
    ensures Power(2, k + 32) == WORD32 * Power(2, k) && Power(2, k + 33) == 2 * WORD32 * Power(2, k)
  {
    hide Power;
    PowerSum(28, k);
    PowerSum(32, k);
    PowerSplit(2, k + 28);
    PowerSplit(2, k + 32);
    Power28();
    assert 2 * (0x1000_0000 * Power(2, k)) == 0x2000_0000 * Power(2, k);
    assert 2 * (WORD32 * Power(2, k)) == 2 * WORD32 * Power(2, k);
  }

  lemma Power28()
    ensures Power(2, 28) == 0x1000_0000 && Power(2, 32) == WORD32
  {
    assert Power(2, 8) == 256;
    assert Power(2, 16) == 0x1_0000;
    assert Power(2, 24) == 0x100_0000;
  }

  /** Digits and rounding stay within half a unit of the last place. */
  lemma DigitsNear(r: FracState, prec: nat, e0: int)
    requires 0 < r.decf <= prec && r.expf == 4 && r.digit && r.carry <= 1 && r.man + r.carry < 10 * 0x1000_0000 && e0 <= 0
    ensures Close(Final(r, e0), FracValue(r, prec) * Power(2, 33 - e0), Power(2, 32 - e0))
  {
    hide Power, FracValue, Close;
    var t := Power(10, r.decf - 1);
    RoundedDigits(r, prec);
    CloseTimes(r.man + r.carry, t, FracValue(r, prec), Power(2, 4 - e0));
    PowerShift(4 - e0);
  }

  lemma RoundedDigits(r: FracState, prec: nat)
    requires 0 < r.decf <= prec && r.expf == 4 && r.man + r.carry < 10 * 0x1000_0000
    ensures Close((r.man + r.carry) * Power(10, r.decf - 1), FracValue(r, prec) * 0x1000_0000, 0x800_0000)
  {
    hide Power, Value, Reverse, FracText, FracRest, FracDigits, Close;
    var m := r.man + r.carry;
    FracTextValue(r, prec);
    FracDigitsValue(m, r.decf);
    var v, rest := Value(Reverse(FracDigits(m, r.decf))), FracRest(m, r.decf);
    HalfUp(m, Power(10, r.decf - 1), v, rest / 16, rest >= WORD32 / 2);
  }

  /** The 32-bit sum of mantissa and pending bit overflows. */
  predicate Overflows(r: FracState) {
    r.expf == 0 && r.man + r.carry == WORD32
  }

  /** If no digits are left, the fraction is below one half, or it is rounded to an integer. */
  lemma NoDigitsNear(r: FracState, prec: nat, e0: int)
    requires r.decf == 0 && e0 <= r.expf <= 0 && !r.digit && r.man < WORD32 && r.carry <= 1 && !Overflows(r)
    requires r.carry == 0 || r.expf == e0
    ensures Close(Scaled(r, e0), FracValue(r, prec) * Power(2, 33 - e0), Power(2, 32 - e0) + 1)
  {
    hide Power, FracValue, Close, Scaled;
    WholeFraction(r, prec);
    var p := Power(2, r.expf - e0);
    WholeScaled(r, e0);
    PowerShift(r.expf - e0);
    if r.expf < 0 {
      PowerGrows(r.expf - e0 + 33, 32 - e0);
      BelowHalf(2 * r.man + r.carry, p, Power(2, 32 - e0));
      assert 0 * Power(2, 33 - e0) == 0;
    } else {
      One(p);
      RoundedWhole(r, p);
    }
  }

  lemma WholeFraction(r: FracState, prec: nat)
    requires r.decf == 0
    ensures FracValue(r, prec) == if r.expf >= 0 && (r.man + r.carry) % WORD32 >= WORD32 / 2 then 1 else 0
  {
    hide Value, Reverse, FracText;
    FracTextValue(r, prec);
  }

  lemma WholeScaled(r: FracState, e0: int)
    requires r.decf == 0 && e0 <= r.expf && !r.digit
    ensures Scaled(r, e0) == (2 * r.man + r.carry) * Power(2, r.expf - e0)
  {
    hide Power;
    One(Power(2, r.expf - e0));
  }

  lemma BelowHalf(a: nat, p: nat, half: nat)
    requires a <= 2 * WORD32 && 2 * WORD32 * p <= half
    ensures Close(a * p, 0, half + 1)
  {
    Bounds(a, 0, 2 * WORD32, p);
  }

  lemma One(p: nat)
    ensures Power(10, 0) == 1 && Power(2, 0) == 1 && p * 1 == p
  {
  }

  lemma {:induction false} PowerGrows(m: nat, n: nat)
    requires m <= n
    ensures Power(2, m) <= Power(2, n)
    decreases n
  {
    if m < n {
      PowerGrows(m, n - 1);
    }
  }

  lemma RoundedWhole(r: FracState, p: nat)
    requires r.man < WORD32 && r.carry <= 1 && r.man + r.carry != WORD32 && (r.carry == 0 || p == 1)
    ensures var v := if (r.man + r.carry) % WORD32 >= WORD32 / 2 then 1 else 0;
            Close((2 * r.man + r.carry) * p, v * (2 * WORD32 * p), WORD32 * p + 1)
  {
    var a := 2 * r.man + r.carry;
    var up := (r.man + r.carry) % WORD32 >= WORD32 / 2;
    if p != 1 {
      Bounds(a, if up then WORD32 else 0, if up then 2 * WORD32 else WORD32, p);
    }
  }
}
