/** How far the numbers printed for magnitudes from 2^32 on are from the magnitude: the loop that scales the integer part
    (`npf_ftoa_rev`, include/nanoprintf.h:666-705). */
module FloatLarge {
  import opened Options
  import opened Division
  import opened Digits
  import opened FloatDigits
  import opened FloatMeaning
  import opened FloatScaling
  import opened FloatSmall

  // ---------- Magnitudes from 2^32 on ----------

  /** The weight of one unit of the mantissa with n turns left, `start` being the place of the units */
  ghost function IntWeight(s: IntState, n: nat, start: nat): (w: nat)
    requires start <= s.dec
  {
    Power(2, n) * Power(10, s.dec - start)
  }

  /** Twice the magnitude in the state, the pending bit counted as one half */
  ghost function IntScaled(s: IntState, n: nat, start: nat): nat
    requires start <= s.dec
  {
    (2 * s.man + s.carry) * IntWeight(s, n, start)
  }

  function Doubled(s: IntState): IntState {
    IntState(s.man * 2 + s.carry, 0, s.dec)
  }

  function Fifth(s: IntState): IntState {
    IntState(s.man / 5, if s.man % 5 + s.carry > 2 then 1 else 0, s.dec + 1)
  }

  lemma IntTurn(s: IntState, n: nat)
    requires n > 0 && IntScale(s, n).Some?
    ensures IntScale(s, n) == IntScale(if s.man < WORD32 / 2 then Doubled(s) else Fifth(s), n - 1)
  {
  }

  lemma NoTurn(s: IntState)
    ensures IntScale(s, 0) == Some(s)
  {
  }

  lemma DoubledKeeps(s: IntState, n: nat, start: nat)
    requires n > 0 && start <= s.dec
    ensures IntScaled(Doubled(s), n - 1, start) == IntScaled(s, n, start)
  {
    hide Power;
    PowerSplit(2, n - 1);
    var p, q := Power(2, n - 1), Power(10, s.dec - start);
    assert 2 * (2 * s.man + s.carry) * (p * q) == (2 * s.man + s.carry) * ((2 * p) * q);
  }

  /** The rounded division by 5 loses at most four fifths of a half unit. */
  lemma FifthKeeps(s: IntState, n: nat, start: nat)
    requires n > 0 && start <= s.dec && s.carry <= 1
    ensures 0 <= IntScaled(s, n, start) - IntScaled(Fifth(s), n - 1, start) <= 4 * IntWeight(s, n, start)
  {
    hide Power;
    var t, w := Fifth(s), IntWeight(s, n, start);
    FifthWeight(s, n, start);
    var a, b := 2 * s.man + s.carry, 2 * t.man + t.carry;
    assert 0 <= a - 5 * b <= 4;
    Bounds(a - 5 * b, 0, 4, w);
    assert (a - 5 * b) * w == a * w - b * (5 * w);
  }

  lemma FifthWeight(s: IntState, n: nat, start: nat)
    requires n > 0 && start <= s.dec
    ensures IntWeight(Fifth(s), n - 1, start) == 5 * IntWeight(s, n, start)
  {
    hide Power;
    PowerSplit(2, n - 1);
    PowerSplit(10, s.dec - start);
    var p, q := Power(2, n - 1), Power(10, s.dec - start);
    assert s.dec + 1 - start == s.dec - start + 1;
    assert p * (10 * q) == 5 * ((2 * p) * q);
  }

  /** y is at most n parts in 2^30 below x. */
  predicate Below(x: int, y: int, n: int) {
    0 <= (x - y) * 0x4000_0000 <= n * x
  }

  lemma BelowMore(x: int, y: int, z: int, n: int, w: int)
    requires Below(x, y, n) && x >= 0 && 0 <= y - z <= 4 * w && w * WORD32 <= y
    ensures Below(x, z, n + 1)
  {
    assert (n + 1) * x == n * x + x;
  }

  /** However many turns there are, the mantissa and its decimal zeros stay what the magnitude was, up to one part in 2^30 a
      turn; and a bit is pending only behind a division. */
  lemma {:induction false} IntTurnsKeep(s: IntState, n: nat, start: nat, x: nat, k: nat) returns (r: IntState)
    requires start <= s.dec && s.carry <= 1 && IntScale(s, n).Some? && Below(x, IntScaled(s, n, start), k)
    requires s.carry == 1 ==> s.man >= 0x1000_0000
    ensures r == IntScale(s, n).value && start <= r.dec && r.carry <= 1 && Below(x, IntScaled(r, 0, start), k + n)
    ensures r.carry == 1 ==> r.man >= 0x1000_0000
    decreases n
  {
    hide IntScale, Power, IntScaled, IntWeight, Below;
    if n == 0 {
      NoTurn(s);
      r := s;
    } else {
      IntTurn(s, n);
      if s.man < WORD32 / 2 {
        DoubledKeeps(s, n, start);
        r := IntTurnsKeep(Doubled(s), n - 1, start, x, k);
        OnePartMore(x, IntScaled(r, 0, start), k + n - 1);
      } else {
        FifthKeeps(s, n, start);
        IntUnit(s, n, start);
        BelowMore(x, IntScaled(s, n, start), IntScaled(Fifth(s), n - 1, start), k, IntWeight(s, n, start));
        r := IntTurnsKeep(Fifth(s), n - 1, start, x, k + 1);
      }
    }
  }

  lemma OnePartMore(x: nat, y: int, n: int)
    requires Below(x, y, n)
    ensures Below(x, y, n + 1)
  {
    assert (n + 1) * x == n * x + x;
  }

  lemma IntUnit(s: IntState, n: nat, start: nat)
    requires start <= s.dec && s.man >= WORD32 / 2
    ensures IntWeight(s, n, start) * WORD32 <= IntScaled(s, n, start)
  {
    hide IntWeight;
    Bounds(2 * s.man + s.carry, WORD32, 2 * s.man + s.carry, IntWeight(s, n, start));
  }

  /** v * 10^-prec is the magnitude up to one part in 2^30 for every turn and two for the rounding. */
  ghost predicate NearLarge(v: nat, bin: nat, exp: int, prec: nat)
    requires exp > 31
  {
    var x := bin * Power(2, exp - 31) * Power(10, prec);
    Close(x * 0x4000_0000, v * 0x20_0000 * 0x4000_0000, (exp - 29) * x)
  }

  /** Adding the pending bit adds at most two parts. */
  lemma PendingBit(r: IntState, start: nat, x: int, n: int) returns (y: int)
    requires start <= r.dec && r.carry <= 1 && Below(x, IntScaled(r, 0, start), n) && (r.carry == 1 ==> r.man >= 0x1000_0000)
    ensures y == 2 * ((r.man + r.carry) * Power(10, r.dec - start))
    ensures -(n * x) <= (y - x) * 0x4000_0000 <= 2 * x
  {
    hide Power;
    var q := Power(10, r.dec - start);
    One(q);
    y := 2 * ((r.man + r.carry) * q);
    assert 1 * q == q;
    assert IntScaled(r, 0, start) == (2 * r.man + r.carry) * q;
    assert y == (2 * r.man + r.carry) * q + r.carry * q;
    if r.carry == 1 {
      Bounds(2 * r.man + r.carry, 0x2000_0000, 2 * r.man + r.carry, q);
      assert r.carry * q == q;
    } else {
      assert r.carry * q == 0;
    }
  }

  /** The bits cut off at the start count for less than one part. */
  lemma AddUpLarge(y: int, x: int, exact: int, p: int, n: int)
    requires -(n * x) <= (y - x) * 0x4000_0000 <= 2 * x && x >= 0 && n >= 0
    requires 0 <= exact - x * 0x10_0000 <= p * 0x10_0000 && p * 0x4000_0000 <= x
    ensures Close(exact * 0x4000_0000, y * 0x10_0000 * 0x4000_0000, (n + 2) * exact)
  {
    TwoMore(x, exact, n);
    AddLinearLarge(y, x, exact, p, n * x, (n + 2) * exact);
  }

  lemma AddLinearLarge(y: int, x: int, exact: int, p: int, u: int, e: int)
    requires -u <= (y - x) * 0x4000_0000 <= 2 * x && x >= 0 && u >= 0 && e >= 0x10_0000 * (u + 2 * x)
    requires 0 <= exact - x * 0x10_0000 <= p * 0x10_0000 && p * 0x4000_0000 <= x
    ensures Close(exact * 0x4000_0000, y * 0x10_0000 * 0x4000_0000, e)
  {
  }

  lemma CloseByPower(x: int, y: int, d: int, p: nat)
    requires Close(x, y, d)
    ensures Close(x * p, y * p, d * p)
  {
    Bounds(y - x, -d, d, p);
    assert (y - x) * p == y * p - x * p && -d * p == -(d * p);
  }

  lemma LargeNear(bin: nat, exp: int, prec: nat, start: nat, r: IntState)
    requires 31 < exp && MAN <= bin < 2 * MAN
    requires IntScale(IntState(bin / 0x20_0000, bin / 0x10_0000 % 2, start), exp - 31) == Some(r)
    ensures start <= r.dec && r.carry <= 1
    ensures NearLarge((r.man + r.carry) * Power(10, r.dec - start) * Power(10, prec), bin, exp, prec)
  {
    hide IntScale, Power, Close, IntScaled;
    var n: nat := exp - 31;
    var s, t, p, q := IntState(bin / 0x20_0000, bin / 0x10_0000 % 2, start), bin / 0x10_0000, Power(2, n), Power(10, prec);
    var x := t * p;
    StartLarge(s, n, start, t);
    assert Below(x, x, 0);
    var r' := IntTurnsKeep(s, n, start, x, 0);
    var y := PendingBit(r, start, x, n);
    TopBits(bin, t, p);
    PartOfTop(t, p);
    AddUpLarge(y, x, bin * p, p, n);
    CloseByPower(bin * p * 0x4000_0000, y * 0x10_0000 * 0x4000_0000, (n + 2) * (bin * p), q);
    LargeProducts(bin * p, (r.man + r.carry) * Power(10, r.dec - start), y, q, n);
  }

  lemma StartLarge(s: IntState, n: nat, start: nat, t: nat)
    requires s.dec == start && 2 * s.man + s.carry == t
    ensures IntScaled(s, n, start) == t * Power(2, n)
  {
    hide Power;
    One(Power(2, n));
  }

  lemma PartOfTop(t: nat, p: nat)
    requires t >= WORD32
    ensures p * 0x4000_0000 <= t * p
  {
    Bounds(t, 0x4000_0000, t, p);
  }

  lemma LargeProducts(x: nat, v: nat, y: int, q: nat, n: nat)
    requires y == 2 * v
    requires Close(x * 0x4000_0000 * q, y * 0x10_0000 * 0x4000_0000 * q, (n + 2) * x * q)
    ensures Close(x * q * 0x4000_0000, v * q * 0x20_0000 * 0x4000_0000, (n + 2) * (x * q))
  {
    assert x * 0x4000_0000 * q == x * q * 0x4000_0000;
    assert y * 0x10_0000 * 0x4000_0000 * q == v * q * 0x20_0000 * 0x4000_0000;
    assert (n + 2) * x * q == (n + 2) * (x * q);
  }

  /** Adding one at the units is adding one to the integer digits. */
  lemma RoundedInts(front: string, ints: string, start: nat)
    requires Decimals(ints) && Numeral(front + ints) && |front| == start && |front + ints| <= SIZE
    requires Rounded(front + ints, start).Number?
    ensures exists t :: Decimals(t) && Value(t) == Value(ints) + 1 && Rounded(front + ints, start).rev == front + t
  {
    hide Value, RoundUp;
    var rev := front + ints;
    assert rev[start..] == ints && rev[..start] == front;
    RoundUpAddsUnit(ints, SIZE - start);
    var t := RoundUp(ints, SIZE - start).value;
    assert Decimals(t) && Rounded(rev, start).rev == front + t;
  }

  lemma LargeValue(prec: nat, alt: bool, zeros: nat, t: string)
    requires Decimals(t)
    ensures Value(Layout(Zeros(prec), Point(prec, alt), Zeros(zeros), t)) == Value(t) * Power(10, zeros) * Power(10, prec)
  {
    hide Power, Value, Layout;
    ZerosValue(prec);
    ZerosValue(zeros);
    LayoutValue(Zeros(prec), Point(prec, alt), Zeros(zeros), t);
    Commuted(Power(10, prec), Power(10, zeros), Value(t));
    assert Power(10, zeros) * 0 == 0;
  }

  lemma Commuted(p: nat, q: nat, v: nat)
    ensures p * (0 + q * v) == v * q * p && 0 + p * (q * v) == v * q * p
  {
    assert q * v == v * q;
  }

  /** The digits of the mantissa and its decimal zeros, rounded at the units */
  lemma LargeIs(bin: nat, exp: int, prec: nat, alt: bool) returns (start: nat, r: IntState)
    requires 31 < exp && bin < 2 * MAN && Large(bin, exp, prec, alt).Number?
    ensures start == prec + |Point(prec, alt)| && start <= r.dec && r.carry <= 1
    ensures IntScale(IntState(bin / 0x20_0000, bin / 0x10_0000 % 2, start), exp - 31) == Some(r)
    ensures Value(Large(bin, exp, prec, alt).rev) == (r.man + r.carry) * Power(10, r.dec - start) * Power(10, prec)
  {
    hide IntScale, IntDigits, Rounded, Value, Power, Layout;
    start := prec + |Point(prec, alt)|;
    r := IntScale(IntState(bin / 0x20_0000, bin / 0x10_0000 % 2, start), exp - 31).value;
    var ints, zeros := IntDigits(r.man), r.dec - start;
    IntDigitsValue(r.man);
    if r.carry == 1 {
      var t := RoundedLayout(prec, alt, zeros, ints);
      LargeValue(prec, alt, zeros, t);
    } else {
      LargeValue(prec, alt, zeros, ints);
    }
  }

  lemma RoundedLayout(prec: nat, alt: bool, zeros: nat, ints: string) returns (t: string)
    requires Decimals(ints) && prec + |Point(prec, alt)| + zeros + |ints| <= SIZE
    requires var n := prec + |Point(prec, alt)| + zeros;
             Rounded(Layout(Zeros(prec), Point(prec, alt), Zeros(zeros), ints), n).Number?
    ensures Decimals(t) && Value(t) == Value(ints) + 1
    ensures var n := prec + |Point(prec, alt)| + zeros;
            Rounded(Layout(Zeros(prec), Point(prec, alt), Zeros(zeros), ints), n).rev ==
            Layout(Zeros(prec), Point(prec, alt), Zeros(zeros), t)
  {
    hide Rounded, Value;
    var front := Zeros(prec) + (Point(prec, alt) + Zeros(zeros));
    assert forall w: string :: Zeros(prec) + (Point(prec, alt) + (Zeros(zeros) + w)) == front + w;
    RoundedInts(front, ints, prec + |Point(prec, alt)| + zeros);
    t :| Decimals(t) && Value(t) == Value(ints) + 1 && Rounded(front + ints, |front|).rev == front + t;
  }
}
