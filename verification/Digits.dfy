/** Digit strings, and the integer conversion of nanoprintf (`npf_utoa_rev`, include/nanoprintf.h:555-565). */
module Digits {
  import opened Division

  /** `((d < 10) ? '0' : ('A' - 10 + case_adj)) + d` */
  function DigitChar(d: nat, caseAdjust: nat): char
    requires d < 16 && caseAdjust in {0, 32}
  {
    if d < 10 then (48 + d) as char else (55 + caseAdjust + d) as char
  }

  /** The value of a digit in either case; 16 for any other character */
  function DigitValue(c: char): (d: nat)
    ensures d <= 16
  {
    if '0' <= c <= '9' then c as nat - 48
    else if 'A' <= c <= 'F' then c as nat - 55
    else if 'a' <= c <= 'f' then c as nat - 87
    else 16
  }

  /** The digits of `val`, least significant first */
  function DigitsRev(val: nat, base: nat, caseAdjust: nat): (s: string)
    requires 2 <= base <= 16 && caseAdjust in {0, 32}
    ensures |s| > 0
    decreases val
  {
    DivShrinks(val, base);
    if val < base then [DigitChar(val, caseAdjust)]
    else [DigitChar(val % base, caseAdjust)] + DigitsRev(val / base, base, caseAdjust)
  }

  lemma DivShrinks(val: nat, base: nat)
    requires base >= 2
    ensures val / base * base + val % base == val && 0 <= val / base <= val && val % base < base
    ensures val > 0 ==> val / base < val
    ensures val < base <==> val / base == 0
  {
    AtLeastTwice(val / base, base);
    if val < base {
      Split(0, val, base);
    }
  }

  lemma AtLeastTwice(q: int, base: nat)
    requires base >= 2
    ensures q >= 0 ==> q * base >= 2 * q
    ensures q > 0 ==> q * base >= base
    ensures q < 0 ==> q * base <= -(base as int)
  {
    MultipleGrows(q, base);
    assert q * base == 2 * q + q * (base - 2);
    assert q >= 0 ==> q * (base - 2) >= 0;
  }

  /** The number a digit string, least significant digit first, stands for */
  function EvalRev(s: string, base: nat): nat {
    if s == [] then 0 else DigitValue(s[0]) + base * EvalRev(s[1..], base)
  }

  predicate AllDigits(s: string, base: nat) {
    forall k | 0 <= k < |s| :: DigitValue(s[k]) < base
  }

  lemma DigitCharValue(d: nat, caseAdjust: nat)
    requires d < 16 && caseAdjust in {0, 32}
    ensures DigitValue(DigitChar(d, caseAdjust)) == d && (DigitChar(d, caseAdjust) == '0' <==> d == 0)
  {
  }

  lemma DigitsUnfold(val: nat, base: nat, caseAdjust: nat)
    requires 2 <= base <= 16 && caseAdjust in {0, 32}
    ensures val % base < base && 0 <= val / base && (val < base <==> val / base == 0)
    ensures DigitsRev(val, base, caseAdjust) ==
            [DigitChar(val % base, caseAdjust)] + (if val < base then [] else DigitsRev(val / base, base, caseAdjust))
  {
    DivShrinks(val, base);
    if val < base {
      Split(0, val, base);
    }
  }

  /** Reading the digits back gives the number, in any base, and no leading digit is zero but for zero itself. */
  lemma {:induction false} DigitsRoundTrip(val: nat, base: nat, caseAdjust: nat)
    requires 2 <= base <= 16 && caseAdjust in {0, 32}
    ensures EvalRev(DigitsRev(val, base, caseAdjust), base) == val
    ensures AllDigits(DigitsRev(val, base, caseAdjust), base)
    ensures var s := DigitsRev(val, base, caseAdjust); s[|s| - 1] == '0' <==> val == 0
    decreases val
  {
    hide DigitChar, DigitValue, DigitsRev, EvalRev, AllDigits;
    DivShrinks(val, base);
    DigitsUnfold(val, base, caseAdjust);
    DigitCharValue(val % base, caseAdjust);
    var c, rest := DigitChar(val % base, caseAdjust), if val < base then [] else DigitsRev(val / base, base, caseAdjust);
    assert DigitsRev(val, base, caseAdjust) == [c] + rest;
    OneDigitMore(c, rest, base);
    NoDigits(base);
    if val >= base {
      DigitsRoundTrip(val / base, base, caseAdjust);
    }
  }

  lemma OneDigitMore(c: char, rest: string, base: nat)
    ensures EvalRev([c] + rest, base) == DigitValue(c) + base * EvalRev(rest, base)
    ensures AllDigits([c] + rest, base) <==> DigitValue(c) < base && AllDigits(rest, base)
    ensures var s := [c] + rest; s[|s| - 1] == if rest == [] then c else rest[|rest| - 1]
  {
    var s := [c] + rest;
    assert s[1..] == rest;
    assert forall k | 1 <= k < |s| :: s[k] == rest[k - 1];
    assert AllDigits(s, base) ==> forall k | 0 <= k < |rest| :: rest[k] == s[k + 1];
  }

  lemma NoDigits(base: nat)
    ensures EvalRev([], base) == 0 && AllDigits([], base) && base * 0 == 0
  {
  }

  function Power(base: nat, k: nat): (r: nat)
    ensures base > 0 ==> r > 0
  {
    if k == 0 then 1 else base * Power(base, k - 1)
  }

  lemma PowerStep(base: nat, k: nat)
    ensures Power(base, k) == if k == 0 then 1 else base * Power(base, k - 1)
  {
  }

  /** A number below 8^k has at most k digits in any base from 8 on. */
  lemma {:induction false} DigitsLength(val: nat, base: nat, caseAdjust: nat, k: nat)
    requires 8 <= base <= 16 && caseAdjust in {0, 32} && 0 < k && val < Power(8, k)
    ensures |DigitsRev(val, base, caseAdjust)| <= k
    decreases k
  {
    hide Power, DigitsRev, DigitChar;
    DivShrinks(val, base);
    DigitsUnfold(val, base, caseAdjust);
    PowerStep(8, k);
    PowerStep(8, k - 1);
    if val >= base {
      QuotientBelow(val, base, Power(8, k - 1));
      DigitsLength(val / base, base, caseAdjust, k - 1);
    }
  }

  lemma QuotientBelow(val: nat, base: nat, p: nat)
    requires base >= 8 && val < 8 * p
    ensures 0 <= val / base < p
  {
    DivShrinks(val, base);
    EightTimes(val / base, base);
  }

  lemma EightTimes(q: nat, base: nat)
    requires base >= 8
    ensures q * base >= 8 * q
  {
    assert q * base == q * 8 + q * (base - 8);
  }

  /** Any 64-bit number takes at most 22 digits, so an octal one and its leading 0 fit 23 bytes. */
  lemma DigitsFit(val: nat, base: nat, caseAdjust: nat)
    requires val < 0x1_0000_0000_0000_0000 && 8 <= base <= 16 && caseAdjust in {0, 32}
    ensures |DigitsRev(val, base, caseAdjust)| <= 22
  {
    assert Power(8, 22) == 0x4_0000_0000_0000_0000 by {
      assert Power(8, 6) == 0x4_0000;
      assert Power(8, 12) == 0x10_0000_0000;
      assert Power(8, 18) == 0x40_0000_0000_0000;
    }
    DigitsLength(val, base, caseAdjust, 22);
  }

  /** `npf_utoa_rev`: writes the digits at the start of the buffer and nothing else. */
  method UtoaRev(val: nat, buf: array<char>, base: nat, caseAdjust: nat) returns (n: nat)
    requires val < 0x1_0000_0000_0000_0000 && base in {8, 10, 16} && caseAdjust in {0, 32}
    requires 23 <= buf.Length
    modifies buf
    ensures n <= 22 && buf[..n] == DigitsRev(val, base, caseAdjust)
    ensures buf[n..] == old(buf[n..])
  {
    hide DigitsRev;
    DigitsFit(val, base, caseAdjust);
    ghost var s := DigitsRev(val, base, caseAdjust);
    n := 0;
    var v: nat := val;
    while true
      invariant n < 22 && n + |DigitsRev(v, base, caseAdjust)| == |s|
      invariant s == buf[..n] + DigitsRev(v, base, caseAdjust)
      invariant buf[n..] == old(buf[n..])
      decreases |s| - n
    {
      DivShrinks(v, base);
      DigitsUnfold(v, base, caseAdjust);
      ghost var before := buf[..n];
      buf[n] := DigitChar(v % base, caseAdjust);
      n := n + 1;
      assert buf[..n] == before + [DigitChar(v % base, caseAdjust)];
      v := v / base;
      if v == 0 {
        break;
      }
      assert s == buf[..n] + DigitsRev(v, base, caseAdjust);
    }
  }
}
