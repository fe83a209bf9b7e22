/** The arithmetic of nanoprintf's binary-to-decimal converter (`npf_ftoa_rev`, include/nanoprintf.h:635-784), for a
    64-bit double, a 32-bit `npf_ftoa_man_t` and the 64-byte conversion buffer of the default configuration: what the
    converter computes, as a function of the bit pattern, and what that means. */
module FloatDigits {
  import opened Options
  import opened Digits

  /** What the converter leaves in the buffer, least significant character first: a word, or a number */
  datatype Result = Message(w: string) | Number(rev: string)

  const SIZE: nat := 64
  const WORD32: nat := 0x1_0000_0000
  const WORD64: nat := 0x1_0000_0000_0000_0000
  const MAN: nat := 0x10_0000_0000_0000  // 2^52
  // `(npf_ftoa_man_t)-4 / 5`
  const FIFTH: nat := 858993458

  /** Characters of a decimal number */
  predicate Numeral(s: string) {
    forall k | 0 <= k < |s| :: s[k] == '.' || '0' <= s[k] <= '9'
  }

  predicate Decimals(s: string) {
    forall k | 0 <= k < |s| :: '0' <= s[k] <= '9'
  }

  function Zeros(n: nat): (s: string)
    ensures |s| == n && (forall k | 0 <= k < n :: s[k] == '0') && Decimals(s)
  {
    seq(n, _ => '0')
  }

  function Reverse(s: string): (r: string)
    ensures |r| == |s| && forall k | 0 <= k < |s| :: r[k] == s[|s| - 1 - k]
    ensures Decimals(s) ==> Decimals(r)
  {
    if s == [] then [] else Reverse(s[1..]) + [s[0]]
  }

  // ---------- The integer part ----------

  datatype IntState = IntState(man: nat, carry: nat, dec: nat)

  /** Scales a mantissa by 2^n: doubles it while its top bit is clear, and otherwise divides it by 5 and notes a
      decimal zero.  None if the buffer has no room for the zero. */
  function IntScale(s: IntState, n: nat): (r: Option<IntState>)
    ensures r.Some? ==> s.dec <= r.value.dec
    ensures r.Some? && s.man < WORD32 && s.carry <= 1 ==> r.value.man < WORD32 && r.value.carry <= 1
    decreases n
  {
    if n == 0 then Some(s)
    else if s.man < WORD32 / 2 then IntScale(IntState(s.man * 2 + s.carry, 0, s.dec), n - 1)
    else if s.dec >= SIZE then None
    else IntScale(IntState(s.man / 5, if s.man % 5 + s.carry > 2 then 1 else 0, s.dec + 1), n - 1)
  }

  // ---------- The fraction ----------

  datatype FracState = FracState(man: nat, carry: nat, decf: nat, expf: int, digit: bool)

  /** Scales the fraction to four integer bits: halves it, or multiplies it by 5, each time moving on by one binary
      exponent; a factor below exponent 0 is a leading decimal zero. */
  function FracScale(s: FracState): FracState
    decreases 4 - s.expf
  {
    if s.decf == 0 || s.expf >= 4 then s
    else if s.man > FIFTH || s.digit then FracScale(FracState(s.man / 2, s.man % 2, s.decf, s.expf + 1, s.digit))
    else
      var m := s.man * 5 + (if s.carry != 0 then 3 else 0);
      if s.expf < 0 then FracScale(FracState(m, 0, s.decf - 1, s.expf + 1, s.digit))
      else FracScale(FracState(m, 0, s.decf, s.expf + 1, true))
  }

  /** n decimal digits of a fraction with four integer bits, most significant first */
  function FracDigits(man: nat, n: nat): (s: string)
    requires man < 10 * 0x1000_0000
    ensures |s| == n && Decimals(s)
    decreases n
  {
    if n == 0 then [] else [DigitChar(man / 0x1000_0000, 0)] + FracDigits(man % 0x1000_0000 * 10, n - 1)
  }

  /** What is left of the fraction after n > 0 digits, shifted up by its four integer bits */
  function FracRest(man: nat, n: nat): (r: nat)
    requires 0 < n
    decreases n
  {
    if n == 1 then man % 0x1000_0000 * 16 else FracRest(man % 0x1000_0000 * 10, n - 1)
  }

  // ---------- Rounding ----------

  /** Adds one unit at the first digit, carrying over runs of 9 and the point; None if there is no room for a carry. */
  function RoundUp(s: string, room: nat): Option<string>
    requires Numeral(s)
  {
    if room == 0 then None
    else if s == [] then Some("1")
    else if s[0] == '.' || s[0] == '9' then
      match RoundUp(s[1..], room - 1)
      case None => None
      case Some(t) => Some([if s[0] == '.' then '.' else '0'] + t)
    else Some([(s[0] as nat + 1) as char] + s[1..])
  }

  function Rounded(s: string, dec: nat): Result
    requires dec <= |s| <= SIZE && Numeral(s)
  {
    match RoundUp(s[dec..], SIZE - dec)
    case None => Message("RRE")
    case Some(t) => Number(s[..dec] + t)
  }

  // ---------- The conversion ----------

  /** The digits of an integer part, least significant first */
  function IntDigits(man: nat): (s: string)
    ensures |s| > 0 && Decimals(s)
  {
    IntDigitsDecimal(man);
    DigitsRev(man, 10, 0)
  }

  lemma {:induction false} IntDigitsDecimal(man: nat)
    ensures Decimals(DigitsRev(man, 10, 0))
    decreases man
  {
    hide DigitsRev;
    DivShrinks(man, 10);
    DigitsUnfold(man, 10, 0);
    if man >= 10 {
      IntDigitsDecimal(man / 10);
    }
  }

  /** The digits of a scaled fraction after its leading zeros, most significant first */
  function FracText(s: FracState, prec: nat): (w: string)
    requires s.decf <= prec && (s.decf > 0 ==> s.man + s.carry < 10 * 0x1000_0000)
    ensures |w| == prec && Decimals(w)
  {
    Zeros(prec - s.decf) + (if s.decf == 0 then "" else FracDigits(FracMan(s), s.decf))
  }

  /** All characters of a number, least significant first */
  function Layout(frac: string, point: string, low: string, ints: string): (s: string)
    requires Decimals(frac) && Numeral(point) && Decimals(low) && Decimals(ints)
    ensures Numeral(s) && |s| == |frac| + |point| + |low| + |ints|
  {
    frac + (point + (low + ints))
  }

  function Point(prec: nat, alt: bool): (s: string)
    ensures Numeral(s) && |s| <= 1
  {
    if prec > 0 || alt then "." else ""
  }

  /** The unbiased exponent and the 53-bit mantissa of a finite double: its magnitude is mantissa * 2^(exponent - 52). */
  function Exponent(bits: nat): int {
    var e := bits / MAN % 2048;
    (if e == 0 then 1 else e) - 1023
  }

  function Mantissa(bits: nat): nat {
    bits % MAN + (if bits / MAN % 2048 == 0 then 0 else MAN)
  }

  predicate Finite(bits: nat) {
    bits / MAN % 2048 != 2047
  }

  /** The integer part of a magnitude below 2^32 */
  function IntPart(bin: nat, exp: int): nat
    requires exp <= 31
  {
    if exp < 0 then 0 else bin / Power(2, 52 - exp)
  }

  /** The 64 bits the fraction is taken from: bits 2^-1 downwards of the magnitude or, below 1/2, of its normal form */
  function FracPart(bin: nat, exp: int): nat
    requires exp <= 31
  {
    bin * Power(2, if exp < 0 then 11 else 12 + exp) % WORD64
  }

  function FracStart(bin: nat, exp: int, prec: nat): (s: FracState)
    requires exp <= 31
    ensures FracFits(s) && s.expf <= 0 && !s.digit && s.decf == prec
  {
    var f := FracPart(bin, exp);
    FracState(f / WORD32, f / (WORD32 / 2) % 2, prec, if exp < 0 then exp + 1 else 0, false)
  }

  /** The fraction after scaling, the pending bit added in 32-bit arithmetic */
  function FracMan(s: FracState): nat {
    (s.man + s.carry) % WORD32
  }

  /** A magnitude below 2^32 */
  function Small(bin: nat, exp: int, prec: nat, alt: bool): Result
    requires exp <= 31 && bin < 2 * MAN
  {
    var ints := IntDigits(IntPart(bin, exp));
    if prec + |Point(prec, alt)| + |ints| > SIZE then Message("RRE")
    else
      FracScaleFits(FracStart(bin, exp, prec));
      var s := FracScale(FracStart(bin, exp, prec));
      var rev := Layout(Reverse(FracText(s, prec)), Point(prec, alt), "", ints);
      if s.expf >= 0 && TopBit(s) then Rounded(rev, 0) else Number(rev)
  }

  /** The bit that decides about rounding up */
  predicate TopBit(s: FracState) {
    (if s.decf == 0 then FracMan(s) else FracRest(FracMan(s), s.decf)) >= WORD32 / 2
  }

  /** A magnitude from 2^32 on: the fraction prints as zeros. */
  function Large(bin: nat, exp: int, prec: nat, alt: bool): Result
    requires 31 < exp && bin < 2 * MAN
  {
    var start := prec + |Point(prec, alt)|;
    match IntScale(IntState(bin / 0x20_0000, bin / 0x10_0000 % 2, start), exp - 31)
    case None => Message("RRE")
    case Some(s) =>
      var ints := IntDigits(s.man);
      if s.dec + |ints| > SIZE then Message("RRE")
      else
        var rev := Layout(Zeros(prec), Point(prec, alt), Zeros(s.dec - start), ints);
        if s.carry == 1 then Rounded(rev, s.dec) else Number(rev)
  }

  function Convert(bits: nat, prec: nat, alt: bool): Result {
    if !Finite(bits) then Message(if bits % MAN != 0 then "NAN" else "FNI")
    else if prec > SIZE - 2 then Message("RRE")
    else if Exponent(bits) > 31 then Large(Mantissa(bits), Exponent(bits), prec, alt)
    else Small(Mantissa(bits), Exponent(bits), prec, alt)
  }

  // ---------- The scaled fraction fits ----------

  predicate FracFits(s: FracState) {
    && s.man < WORD32 && s.carry <= 1 && s.expf <= 4
    && (s.digit ==> 0 <= s.expf - 1 && s.man + s.carry <= 5 * FIFTH + 3)
  }

  /** However the fraction starts, four integer bits hold the first digit after scaling: it is at most 9. */
  lemma {:induction false} FracScaleFits(s: FracState)
    requires FracFits(s) && s.expf <= 0 && !s.digit
    ensures var r := FracScale(s);
            && r.decf <= s.decf && r.man < WORD32 && r.carry <= 1
            && (r.decf > 0 ==> r.expf == 4 && r.man + r.carry < 10 * 0x1000_0000)
    decreases 4 - s.expf
  {
    if s.decf != 0 {
      if s.expf < 0 {
        if s.man > FIFTH {
          FracScaleFits(FracState(s.man / 2, s.man % 2, s.decf, s.expf + 1, s.digit));
        } else {
          var m := s.man * 5 + (if s.carry != 0 then 3 else 0);
          FracScaleFits(FracState(m, 0, s.decf - 1, s.expf + 1, s.digit));
        }
      } else {
        LastFour(s);
      }
    }
  }

  lemma ScaleStep(s: FracState)
    requires s.decf > 0 && 0 <= s.expf < 4
    ensures s.man > FIFTH || s.digit ==>
              FracScale(s) == FracScale(FracState(s.man / 2, s.man % 2, s.decf, s.expf + 1, s.digit))
    ensures s.man <= FIFTH && !s.digit ==>
              FracScale(s) == FracScale(FracState(s.man * 5 + (if s.carry != 0 then 3 else 0), 0, s.decf, s.expf + 1, true))
  {
  }

  /** From exponent 0 exactly one of the four turns multiplies by 5. */
  lemma LastFour(s: FracState)
    requires s.expf == 0 && s.decf > 0 && s.man < WORD32 && s.carry <= 1 && !s.digit
    ensures var r := FracScale(s);
            r.decf == s.decf && r.expf == 4 && r.carry <= 1 && r.man + r.carry < 10 * 0x1000_0000
  {
    hide FracScale;
    ScaleStep(s);
    if s.man > FIFTH {
      LastThree(FracState(s.man / 2, s.man % 2, s.decf, 1, false));
    } else {
      Halve(FracState(s.man * 5 + (if s.carry != 0 then 3 else 0), 0, s.decf, 1, true));
    }
  }

  /** After one halving */
  lemma LastThree(s: FracState)
    requires s.expf == 1 && s.decf > 0 && s.man < WORD32 / 2 && s.carry <= 1 && !s.digit
    ensures var r := FracScale(s);
            r.decf == s.decf && r.expf == 4 && r.carry <= 1 && r.man + r.carry < 10 * 0x1000_0000
  {
    hide FracScale;
    ScaleStep(s);
    if s.man > FIFTH {
      var s2 := FracState(s.man / 2, s.man % 2, s.decf, 2, false);
      ScaleStep(s2);
      if s2.man > FIFTH {
        LastOne(FracState(s2.man / 2, s2.man % 2, s.decf, 3, false));
      } else {
        Halve(FracState(s2.man * 5 + (if s2.carry != 0 then 3 else 0), 0, s.decf, 3, true));
      }
    } else {
      Halve(FracState(s.man * 5 + (if s.carry != 0 then 3 else 0), 0, s.decf, 2, true));
    }
  }

  lemma LastOne(s: FracState)
    requires s.expf == 3 && s.decf > 0 && s.man < WORD32 / 8 && s.carry <= 1 && !s.digit
    ensures var r := FracScale(s);
            r.decf == s.decf && r.expf == 4 && r.carry <= 1 && r.man + r.carry < 10 * 0x1000_0000
  {
  }

  lemma {:induction false} Halve(s: FracState)
    requires s.digit && 0 < s.expf <= 3 && s.decf > 0 && s.man < WORD32 && s.carry <= 1
    ensures var r := FracScale(s);
            r.decf == s.decf && r.expf == 4 && r.carry <= 1 && r.man + r.carry < 10 * 0x1000_0000
    decreases 4 - s.expf
  {
    var next := FracState(s.man / 2, s.man % 2, s.decf, s.expf + 1, true);
    if s.expf < 3 {
      Halve(next);
    }
  }
}
