/** `npf_ftoa_rev` (include/nanoprintf.h:635-784) on its 64-byte buffer: every write is inside it, and what it leaves is
    what FloatDigits.Convert computes. */
module FloatBuffer {
  import opened Options
  import opened Digits
  import opened FloatDigits

  /** The text for a special value or an error, its letters shifted into the case asked for */
  function CaseText(w: string, caseAdjust: nat): (r: string)
    requires caseAdjust in {0, 32} && forall k | 0 <= k < |w| :: 'A' <= w[k] <= 'Z'
    ensures |r| == |w|
  {
    seq(|w|, k requires 0 <= k < |w| => (w[k] as nat + caseAdjust) as char)
  }

  predicate Letters(w: string) {
    forall k | 0 <= k < |w| :: 'A' <= w[k] <= 'Z'
  }

  /** The exit path: writes the word and returns its length, negated. */
  method PutText(buf: array<char>, w: string, caseAdjust: nat) returns (n: int)
    requires buf.Length == SIZE && |w| <= 3 && Letters(w) && caseAdjust in {0, 32}
    modifies buf
    ensures n == -|w| && buf[..|w|] == CaseText(w, caseAdjust)
  {
    var i: nat := 0;
    while i < |w|
      invariant i <= |w| && buf[..i] == CaseText(w, caseAdjust)[..i]
    {
      buf[i] := (w[i] as nat + caseAdjust) as char;
      i := i + 1;
    }
    n := -(i as int);
  }

  /** Scales the integer mantissa, writing a zero for each division by 10. */
  method ScaleInteger(buf: array<char>, s: IntState, n: nat) returns (r: Option<IntState>)
    requires buf.Length == SIZE && s.man < WORD32 && s.carry <= 1 && s.dec <= SIZE
    modifies buf
    ensures r == IntScale(s, n)
    ensures r.Some? ==>
              && s.dec <= r.value.dec <= SIZE
              && buf[..r.value.dec] == old(buf[..s.dec]) + Zeros(r.value.dec - s.dec)
  {
    var man: nat, carry: nat, dec: nat, expI: nat := s.man, s.carry, s.dec, n;
    while expI > 0
      invariant man < WORD32 && carry <= 1 && s.dec <= dec <= SIZE
      invariant IntScale(IntState(man, carry, dec), expI) == IntScale(s, n)
      invariant buf[..dec] == old(buf[..s.dec]) + Zeros(dec - s.dec)
    {
      if man < WORD32 / 2 {
        man := man * 2 + carry;
        carry := 0;
      } else {
        if dec >= SIZE {
          return None;
        }
        buf[dec] := '0';
        dec := dec + 1;
        carry := if man % 5 + carry > 2 then 1 else 0;
        man := man / 5;
      }
      expI := expI - 1;
    }
    r := Some(IntState(man, carry, dec));
  }

  /** Prints the integer mantissa behind what is there; false if the buffer ends first. */
  method PutInteger(buf: array<char>, dec: nat, man: nat) returns (ok: bool, end: nat)
    requires buf.Length == SIZE && dec <= SIZE
    modifies buf
    ensures ok <==> dec + |IntDigits(man)| <= SIZE
    ensures ok ==> end == dec + |IntDigits(man)| && buf[..end] == old(buf[..dec]) + IntDigits(man)
  {
    hide DigitsRev;
    end := dec;
    var m: nat := man;
    ghost var all := IntDigits(man);
    while true
      invariant dec <= end <= SIZE && end - dec + |IntDigits(m)| == |all|
      invariant buf[..end] + IntDigits(m) == old(buf[..dec]) + all
      decreases |all| - (end - dec)
    {
      if end >= SIZE {
        return false, end;
      }
      DivShrinks(m, 10);
      DigitsUnfold(m, 10, 0);
      ghost var before := buf[..end];
      buf[end] := (48 + m % 10) as char;
      end := end + 1;
      assert buf[..end] == before + [DigitChar(m % 10, 0)];
      m := m / 10;
      if m == 0 {
        break;
      }
      assert buf[..end] + IntDigits(m) == old(buf[..dec]) + all;
    }
    ok := true;
  }

  /** Scales the fraction, writing its leading zeros below position s.decf. */
  method ScaleFraction(buf: array<char>, s: FracState) returns (r: FracState)
    requires buf.Length == SIZE && s.decf <= SIZE && FracFits(s) && s.expf <= 0 && !s.digit
    modifies buf
    ensures r == FracScale(s) && r.decf <= s.decf
    ensures buf[r.decf..s.decf] == Zeros(s.decf - r.decf) && buf[s.decf..] == old(buf[s.decf..])
  {
    r := s;
    while r.decf != 0 && r.expf < 4
      invariant FracScale(r) == FracScale(s) && r.decf <= s.decf
      invariant forall k | r.decf <= k < s.decf :: buf[k] == '0'
      invariant forall k | s.decf <= k < SIZE :: buf[k] == old(buf[k])
      decreases 4 - r.expf
    {
      if r.man > FIFTH || r.digit {
        r := FracState(r.man / 2, r.man % 2, r.decf, r.expf + 1, r.digit);
      } else {
        var m := r.man * 5;
        if r.carry != 0 {
          m := m + 3;
        }
        if r.expf < 0 {
          buf[r.decf - 1] := '0';
          r := FracState(m, 0, r.decf - 1, r.expf + 1, r.digit);
        } else {
          r := FracState(m, 0, r.decf, r.expf + 1, true);
        }
      }
    }
  }

  /** Prints n fraction digits downwards from position n; returns what is left of the mantissa, shifted. */
  method PutFraction(buf: array<char>, n: nat, man: nat) returns (rest: nat)
    requires buf.Length == SIZE && 0 < n <= SIZE && man < 10 * 0x1000_0000
    modifies buf
    ensures buf[..n] == Reverse(FracDigits(man, n)) && buf[n..] == old(buf[n..])
    ensures rest == FracRest(man, n)
  {
    hide FracDigits, FracRest, Reverse;
    ghost var all := FracDigits(man, n);
    var m: nat, k := man, n;
    while true
      invariant 0 < k <= n && m < 10 * 0x1000_0000
      invariant forall j | n - k <= j < n :: all[j] == FracDigits(m, k)[j - (n - k)]
      invariant forall j | k <= j < n :: buf[j] == all[n - 1 - j]
      invariant forall j | n <= j < SIZE :: buf[j] == old(buf[j])
      invariant FracRest(m, k) == FracRest(man, n)
      decreases k
    {
      FracStep(m, k);
      k := k - 1;
      buf[k] := (48 + m / 0x1000_0000) as char;
      m := m % 0x1000_0000;
      if k == 0 {
        break;
      }
      m := m * 10;
    }
    rest := m * 16;
  }

  /** The first digit of a fraction, the others, and what is left */
  lemma FracStep(m: nat, k: nat)
    requires m < 10 * 0x1000_0000 && k > 0
    ensures m / 0x1000_0000 < 10 && m % 0x1000_0000 * 10 < 10 * 0x1000_0000
    ensures FracDigits(m, k)[0] == (48 + m / 0x1000_0000) as char
    ensures forall j | 1 <= j < k :: FracDigits(m, k)[j] == FracDigits(m % 0x1000_0000 * 10, k - 1)[j - 1]
    ensures FracRest(m, k) == if k == 1 then m % 0x1000_0000 * 16 else FracRest(m % 0x1000_0000 * 10, k - 1)
  {
  }

  lemma {:induction false} ReverseSnoc(s: string, c: char)
    ensures Reverse(s + [c]) == [c] + Reverse(s)
  {
    if s != [] {
      ReverseSnoc(s[1..], c);
      assert (s + [c])[1..] == s[1..] + [c];
    }
  }

  ghost function Prepend(p: string, o: Option<string>): Option<string> {
    match o
    case None => None
    case Some(t) => Some(p + t)
  }

  /** What rounding makes of the characters from position i on */
  ghost function RoundFrom(s: string, i: nat): Option<string>
    requires Numeral(s) && i <= |s| <= SIZE
  {
    RoundUp(s[i..], SIZE - i)
  }

  lemma RoundFromStep(s: string, i: nat, p: string)
    requires Numeral(s) && i <= |s| <= SIZE
    ensures i < |s| ==> s[i] == '.' || '0' <= s[i] <= '9'
    ensures i < |s| && (s[i] == '.' || s[i] == '9') ==>
              Prepend(p, RoundFrom(s, i)) == Prepend(p + [if s[i] == '.' then '.' else '0'], RoundFrom(s, i + 1))
    ensures i < |s| && s[i] != '.' && s[i] != '9' ==>
              RoundFrom(s, i) == Some([(s[i] as nat + 1) as char] + s[i + 1..])
    ensures i == |s| ==> RoundFrom(s, i) == if i == SIZE then None else Some("1")
    ensures Prepend(p, None) == None
  {
    if i < |s| {
      assert s[i..][1..] == s[i + 1..];
      match RoundUp(s[i + 1..], SIZE - i - 1)
      case None =>
      case Some(t) =>
        var c := if s[i] == '.' then '.' else '0';
        assert p + ([c] + t) == p + [c] + t;
    }
  }

  /** The rounding loop, from position dec with a carry of one; false if the carry runs off the buffer. */
  method RoundBuffer(buf: array<char>, dec: nat, end: nat) returns (ok: bool, n: nat)
    requires buf.Length == SIZE && dec <= end <= SIZE && Numeral(buf[..end])
    modifies buf
    ensures match Rounded(old(buf[..end]), dec)
            case Message(w) => !ok && w == "RRE"
            case Number(r) => ok && n == |r| <= SIZE && buf[..n] == r
  {
    hide RoundUp, RoundFrom, Prepend, Numeral;
    ghost var s := buf[..end];
    ghost var before: string := [];
    var i := dec;
    n := end;
    PrependNothing(RoundFrom(s, dec));
    RoundedFrom(s, dec);
    while true
      invariant dec <= i <= end == n && |before| == i - dec
      invariant forall k | 0 <= k < dec || i <= k < end :: buf[k] == s[k]
      invariant forall k | dec <= k < i :: buf[k] == before[k - dec]
      invariant RoundFrom(s, dec) == Prepend(before, RoundFrom(s, i))
      decreases end - i
    {
      RoundFromStep(s, i, before);
      if i >= SIZE {
        return false, n;
      }
      if i >= n {
        buf[n] := '0';
        n := n + 1;
      }
      if buf[i] == '.' {
        before, i := before + ['.'], i + 1;
        continue;
      }
      var carry := buf[i] == '9';
      buf[i] := if carry then '0' else (buf[i] as nat + 1) as char;
      if !carry {
        Assembled(buf[..n], s, dec, i, before);
        break;
      }
      before, i := before + ['0'], i + 1;
    }
    ok := true;
  }

  lemma PrependNothing(o: Option<string>)
    ensures Prepend([], o) == o
  {
    match o
    case None =>
    case Some(t) => assert [] + t == t;
  }

  lemma RoundedFrom(s: string, dec: nat)
    requires Numeral(s) && dec <= |s| <= SIZE
    ensures RoundFrom(s, dec) == None <==> Rounded(s, dec).Message?
    ensures Rounded(s, dec).Message? ==> Rounded(s, dec).w == "RRE"
    ensures RoundFrom(s, dec).Some? ==> Rounded(s, dec) == Number(s[..dec] + RoundFrom(s, dec).value)
  {
  }

  /** The buffer when the carry has been absorbed at position i */
  lemma Assembled(t: string, s: string, dec: nat, i: nat, before: string)
    requires Numeral(s) && dec <= i <= |s| <= SIZE && i < SIZE && |t| == (if i < |s| then |s| else i + 1)
    requires |before| == i - dec && forall k | dec <= k < i :: t[k] == before[k - dec]
    requires forall k | 0 <= k < |s| && (k < dec || i < k) :: t[k] == s[k]
    requires i < |s| ==> s[i] != '.' && s[i] != '9' && t[i] == (s[i] as nat + 1) as char
    requires i == |s| ==> t[i] == '1'
    requires RoundFrom(s, dec) == Prepend(before, RoundFrom(s, i))
    ensures Rounded(s, dec) == Number(t)
  {
    hide RoundUp, RoundFrom, Rounded, Numeral;
    RoundFromStep(s, i, before);
    RoundedFrom(s, dec);
    var tail := if i < |s| then [t[i]] + s[i + 1..] else "1";
    assert RoundFrom(s, i) == Some(tail);
    AssembledText(t, s, dec, i, before, tail);
  }

  lemma AssembledText(t: string, s: string, dec: nat, i: nat, before: string, tail: string)
    requires dec <= i <= |s| && |t| == (if i < |s| then |s| else i + 1)
    requires |before| == i - dec && forall k | dec <= k < i :: t[k] == before[k - dec]
    requires forall k | 0 <= k < |s| && (k < dec || i < k) :: t[k] == s[k]
    requires i == |s| ==> t[i] == '1'
    requires tail == if i < |s| then [t[i]] + s[i + 1..] else "1"
    ensures t == s[..dec] + (before + tail)
  {
    assert t[..dec] == s[..dec];
    assert t[dec..i] == before;
    assert t[i..] == tail;
    ThreeParts(t, dec, i);
  }

  lemma ThreeParts(t: string, i: nat, j: nat)
    requires i <= j <= |t|
    ensures t == t[..i] + (t[i..j] + t[j..])
  {
  }

  // ---------- The whole converter ----------

  /** The words a conversion can end in are letters. */
  lemma WordsAreLetters(bits: nat, prec: nat, alt: bool)
    ensures Convert(bits, prec, alt).Message? ==> Letters(Convert(bits, prec, alt).w) && |Convert(bits, prec, alt).w| == 3
  {
    hide IntScale, FracScale, IntDigits, FracText, RoundUp, Reverse;
  }

  /** What `npf_ftoa_rev` leaves for a result: a number and its length, or a word and its length negated */
  predicate Leaves(r: Result, t: string, n: int, caseAdjust: nat)
    requires caseAdjust in {0, 32}
  {
    match r
    case Message(w) => Letters(w) && n == -|w| && |w| <= |t| && t[..|w|] == CaseText(w, caseAdjust)
    case Number(rev) => n == |rev| <= |t| && t[..n] == rev
  }

  /** The state the integer part is printed from: the scaled mantissa, the pending bit and the position */
  ghost function IntegerState(bin: nat, exp: int, dec: nat): Option<IntState> {
    if exp <= 31 then Some(IntState(IntPart(bin, exp), 0, dec))
    else IntScale(IntState(bin / 0x20_0000, bin / 0x10_0000 % 2, dec), exp - 31)
  }

  method IntegerPart(buf: array<char>, bin: nat, exp: int, start: nat) returns (ok: bool, dec: nat, end: nat, carry: nat)
    requires buf.Length == SIZE && start <= SIZE && bin < 2 * MAN
    modifies buf
    ensures match IntegerState(bin, exp, start)
            case None => !ok
            case Some(s) =>
              && (ok <==> s.dec + |IntDigits(s.man)| <= SIZE)
              && (ok ==> start <= s.dec == dec && carry == s.carry)
              && (ok ==> end == dec + |IntDigits(s.man)|)
              && (ok ==> buf[..end] == old(buf[..start]) + Zeros(dec - start) + IntDigits(s.man))
  {
    hide IntDigits, IntScale, IntegerState, ShiftRight, Bit;
    IntegerStart(bin, exp, start);
    var man: nat := 0;
    carry, dec := 0, start;
    if exp >= 0 {
      var shift: nat := 52 - (if exp > 31 then 31 else exp);
      var expI: nat := exp - (52 - shift);
      man := ShiftRight(bin, shift);
      if expI > 0 {
        carry := Bit(bin, shift - 1);
      }
      if expI > 0 {
        var r := ScaleInteger(buf, IntState(man, carry, dec), expI);
        if r.None? {
          return false, dec, dec, carry;
        }
        man, carry, dec := r.value.man, r.value.carry, r.value.dec;
      }
    }
    ok, end := PutInteger(buf, dec, man);
  }

  function ShiftRight(bin: nat, n: nat): nat {
    bin / Power(2, n)
  }

  function Bit(bin: nat, n: nat): nat {
    bin / Power(2, n) % 2
  }

  /** The first state, in shifts as the code takes them */
  lemma IntegerStart(bin: nat, exp: int, dec: nat)
    requires bin < 2 * MAN
    ensures exp <= 31 ==>
              IntegerState(bin, exp, dec) == Some(IntState(if exp < 0 then 0 else ShiftRight(bin, 52 - exp), 0, dec))
    ensures exp > 31 ==>
              IntegerState(bin, exp, dec) == IntScale(IntState(ShiftRight(bin, 21), Bit(bin, 20), dec), exp - 31)
    ensures ShiftRight(bin, 21) < WORD32 && Bit(bin, 20) <= 1
  {
    hide IntScale;
    Powers();
    LargeMantissa(bin);
  }

  lemma Powers()
    ensures Power(2, 21) == 0x20_0000 && Power(2, 20) == 0x10_0000
  {
    assert Power(2, 10) == 0x400;
    assert Power(2, 20) == 0x10_0000;
  }

  lemma LargeMantissa(bin: nat)
    requires bin < 2 * MAN
    ensures bin / 0x20_0000 < WORD32 && bin / 0x10_0000 % 2 <= 1
  {
  }

  /** The carry the fraction hands to the rounding loop */
  ghost function FractionCarry(bin: nat, exp: int, prec: nat, carry: nat): nat {
    if exp > 31 then carry
    else
      FracScaleFits(FracStart(bin, exp, prec));
      var s := FracScale(FracStart(bin, exp, prec));
      if s.expf >= 0 && TopBit(s) then 1 else 0
  }

  ghost function FractionText(bin: nat, exp: int, prec: nat): string {
    if exp > 31 then Zeros(prec)
    else
      FracScaleFits(FracStart(bin, exp, prec));
      Reverse(FracText(FracScale(FracStart(bin, exp, prec)), prec))
  }

  method FractionPart(buf: array<char>, bin: nat, exp: int, prec: nat, carry0: nat) returns (carry: nat)
    requires buf.Length == SIZE && prec <= SIZE && bin < 2 * MAN
    modifies buf
    ensures buf[..prec] == FractionText(bin, exp, prec) && buf[prec..] == old(buf[prec..])
    ensures carry == FractionCarry(bin, exp, prec, carry0)
  {
    hide Reverse, FracDigits, FracRest, FracScale, FracStart, FracFits, FractionText, FractionCarry, Zeros, FracText;
    var man: nat, decF := 0, prec;
    carry := carry0;
    if exp <= 31 {
      var start := FracStart(bin, exp, prec);
      FracScaleFits(start);
      var s := ScaleFraction(buf, start);
      man := (s.man + s.carry) % WORD32;
      carry := if s.expf >= 0 then 1 else 0;
      decF := s.decf;
      FractionByDigits(bin, exp, prec, s, carry0);
    } else {
      ZeroDigits(prec);
    }
    ghost var scaled := buf[..];
    if decF > 0 {
      man := PutFraction(buf, decF, man);
    }
    Below(scaled, buf[..], decF, prec);
    if exp <= 31 {
      carry := if man >= WORD32 / 2 then carry else 0;
    } else {
      LargeFraction(bin, exp, prec, carry0);
    }
  }

  /** The fraction's characters and carry by its scaled state */
  lemma FractionByDigits(bin: nat, exp: int, prec: nat, s: FracState, carry: nat)
    requires exp <= 31 && s == FracScale(FracStart(bin, exp, prec)) && s.decf <= prec
    requires s.decf > 0 ==> s.man + s.carry < 10 * 0x1000_0000
    ensures FractionText(bin, exp, prec) ==
            (if s.decf == 0 then "" else Reverse(FracDigits(FracMan(s), s.decf))) + Zeros(prec - s.decf)
    ensures var rest := if s.decf == 0 then FracMan(s) else FracRest(FracMan(s), s.decf);
            FractionCarry(bin, exp, prec, carry) == if s.expf >= 0 && rest >= WORD32 / 2 then 1 else 0
  {
    hide Reverse, FracDigits, FracRest, FracScale, FracStart, FracText;
    FractionReversed(s, prec);
  }

  lemma LargeFraction(bin: nat, exp: int, prec: nat, carry: nat)
    requires exp > 31
    ensures FractionText(bin, exp, prec) == Zeros(prec) && FractionCarry(bin, exp, prec, carry) == carry
  {
  }

  lemma Below(scaled: string, t: string, k: nat, n: nat)
    requires k <= n <= |t| == |scaled| && t[k..] == scaled[k..]
    ensures t[..n] == t[..k] + scaled[k..n] && t[n..] == scaled[n..]
  {
    assert t[n..] == t[k..][n - k..];
    assert t[k..n] == t[k..][..n - k] == scaled[k..][..n - k] == scaled[k..n];
  }

  lemma FractionReversed(s: FracState, prec: nat)
    requires s.decf <= prec && (s.decf > 0 ==> s.man + s.carry < 10 * 0x1000_0000)
    ensures Reverse(FracText(s, prec)) ==
            (if s.decf == 0 then "" else Reverse(FracDigits(FracMan(s), s.decf))) + Zeros(prec - s.decf)
  {
    hide Reverse, FracDigits;
    var digits := if s.decf == 0 then "" else FracDigits(FracMan(s), s.decf);
    ReverseConcat(Zeros(prec - s.decf), digits);
    ReverseZeros(prec - s.decf);
    assert Reverse("") == "";
  }

  lemma ReverseConcat(x: string, y: string)
    ensures Reverse(x + y) == Reverse(y) + Reverse(x)
  {
    hide Reverse;
    assert forall k | 0 <= k < |x + y| :: Reverse(x + y)[k] == (x + y)[|x + y| - 1 - k];
  }

  lemma ReverseZeros(n: nat)
    ensures Reverse(Zeros(n)) == Zeros(n)
  {
    hide Reverse;
  }

  lemma {:induction false} ZeroDigits(n: nat)
    ensures Reverse(FracDigits(0, n)) == Zeros(n)
  {
    assert forall k | 0 <= k < n :: FracDigits(0, n)[k] == '0' by {
      AllZero(n);
    }
  }

  lemma {:induction false} AllZero(n: nat)
    ensures forall k | 0 <= k < n :: FracDigits(0, n)[k] == '0'
  {
    if n > 0 {
      AllZero(n - 1);
    }
  }

  /** The characters before rounding */
  ghost function Unrounded(bin: nat, exp: int, prec: nat, alt: bool, s: IntState): (t: string)
    requires bin < 2 * MAN && prec + |Point(prec, alt)| <= s.dec
    ensures Numeral(t) && |t| == s.dec + |IntDigits(s.man)|
  {
    FractionDecimals(bin, exp, prec);
    Layout(FractionText(bin, exp, prec), Point(prec, alt), Zeros(s.dec - prec - |Point(prec, alt)|), IntDigits(s.man))
  }

  lemma FractionDecimals(bin: nat, exp: int, prec: nat)
    requires bin < 2 * MAN
    ensures Decimals(FractionText(bin, exp, prec)) && |FractionText(bin, exp, prec)| == prec
  {
    hide FracScale, FracText, Reverse, FracPart;
    if exp <= 31 {
      FracScaleFits(FracStart(bin, exp, prec));
    }
  }

  /** The conversion by its parts: the integer part, the fraction, and rounding */
  lemma ConvertParts(bits: nat, prec: nat, alt: bool)
    requires Finite(bits) && prec <= SIZE - 2
    ensures var bin, exp := Mantissa(bits), Exponent(bits);
            match IntegerState(bin, exp, prec + |Point(prec, alt)|)
            case None => Convert(bits, prec, alt) == Message("RRE")
            case Some(s) =>
              && prec + |Point(prec, alt)| <= s.dec
              && Convert(bits, prec, alt) ==
                 if s.dec + |IntDigits(s.man)| > SIZE then Message("RRE")
                 else if FractionCarry(bin, exp, prec, s.carry) == 0 then Number(Unrounded(bin, exp, prec, alt, s))
                 else Rounded(Unrounded(bin, exp, prec, alt, s), if exp <= 31 then 0 else s.dec)
  {
    hide IntScale, FracScale, IntDigits, FracText, Rounded, Reverse, FracPart;
    var bin, exp := Mantissa(bits), Exponent(bits);
    LargeMantissa(bin);
    if exp <= 31 {
      FracScaleFits(FracStart(bin, exp, prec));
    }
  }

  /** Point, integer part and fraction: all characters before rounding, and where rounding starts; false if the buffer
      ends first. */
  method PutDigits(buf: array<char>, prec: nat, alt: bool, bin: nat, exp: int)
    returns (ok: bool, dec: nat, end: nat, carry: nat)
    requires buf.Length == SIZE && prec <= SIZE - 2 && bin < 2 * MAN
    modifies buf
    ensures match IntegerState(bin, exp, prec + |Point(prec, alt)|)
            case None => !ok
            case Some(s) =>
              && (ok <==> s.dec + |IntDigits(s.man)| <= SIZE)
              && (ok ==> prec + |Point(prec, alt)| <= s.dec && end == s.dec + |IntDigits(s.man)|)
              && (ok ==> dec == (if exp <= 31 then 0 else s.dec) && carry == FractionCarry(bin, exp, prec, s.carry))
              && (ok ==> buf[..end] == Unrounded(bin, exp, prec, alt, s))
  {
    hide IntegerState, IntDigits, FractionText, FractionCarry, Numeral, Decimals, Unrounded, Zeros;
    dec := prec;
    if dec > 0 || alt {
      buf[dec] := '.';
      dec := dec + 1;
    }
    ghost var start, before := dec, buf[..];
    assert before[prec..start] == Point(prec, alt);
    ok, dec, end, carry := IntegerPart(buf, bin, exp, dec);
    if !ok {
      return;
    }
    ghost var s, behind := IntegerState(bin, exp, start).value, buf[..];
    Tail(before, behind, prec, start, end, Zeros(dec - start), IntDigits(s.man));
    carry := FractionPart(buf, bin, exp, prec, carry);
    WholeText(behind, buf[..], bin, exp, prec, alt, s);
    if exp <= 31 {
      dec := 0;
    }
  }

  /** Integer part, fraction and rounding of a finite number; false where the converter gives up. */
  method PutNumber(buf: array<char>, prec: nat, alt: bool, bin: nat, exp: int, ghost bits: nat)
    returns (ok: bool, end: nat)
    requires buf.Length == SIZE && prec <= SIZE - 2
    requires Finite(bits) && bin == Mantissa(bits) < 2 * MAN && exp == Exponent(bits)
    modifies buf
    ensures ok ==> end <= SIZE && Convert(bits, prec, alt) == Number(buf[..end])
    ensures !ok ==> Convert(bits, prec, alt) == Message("RRE")
  {
    hide Convert, IntegerState, IntDigits, FractionCarry, Rounded, Numeral, Mantissa, Exponent, Finite, Unrounded;
    ConvertParts(bits, prec, alt);
    var dec, carry;
    ok, dec, end, carry := PutDigits(buf, prec, alt, bin, exp);
    if ok && carry != 0 {
      ok, end := RoundBuffer(buf, dec, end);
    }
  }

  /** What lies behind the fraction */
  lemma Tail(before: string, t: string, prec: nat, start: nat, end: nat, low: string, ints: string)
    requires prec <= start <= end <= |t| == |before| && t[..end] == before[..start] + low + ints
    ensures t[prec..end] == before[prec..start] + (low + ints)
  {
    assert t[prec..end] == t[..end][prec..];
    assert (before[..start] + low + ints)[prec..] == before[prec..start] + (low + ints);
  }

  lemma WholeText(behind: string, t: string, bin: nat, exp: int, prec: nat, alt: bool, s: IntState)
    requires bin < 2 * MAN && prec + |Point(prec, alt)| <= s.dec && s.dec + |IntDigits(s.man)| <= |t| == |behind|
    requires t[..prec] == FractionText(bin, exp, prec) && t[prec..] == behind[prec..]
    requires behind[prec..s.dec + |IntDigits(s.man)|] ==
             Point(prec, alt) + (Zeros(s.dec - prec - |Point(prec, alt)|) + IntDigits(s.man))
    ensures t[..s.dec + |IntDigits(s.man)|] == Unrounded(bin, exp, prec, alt, s)
  {
    hide FractionText, IntDigits, Point, Zeros;
    var end := s.dec + |IntDigits(s.man)|;
    assert t[prec..end] == t[prec..][..end - prec] == behind[prec..][..end - prec] == behind[prec..end];
    assert t[..end] == t[..prec] + t[prec..end];
  }

  /** `npf_ftoa_rev`: writes only inside the buffer, and leaves what Convert computes. */
  method FtoaRev(buf: array<char>, prec: nat, alt: bool, caseAdjust: nat, bits: nat) returns (n: int)
    requires buf.Length == SIZE && caseAdjust in {0, 32} && bits < WORD64
    modifies buf
    ensures Leaves(Convert(bits, prec, alt), buf[..], n, caseAdjust)
  {
    hide IntScale, FracScale, IntDigits, FracText, Rounded, Small, Large;
    var exp: int := bits / MAN % 2048;
    var bin: nat := bits % MAN;
    if exp == 2047 {
      n := PutText(buf, if bin != 0 then "NAN" else "FNI", caseAdjust);
      return;
    }
    if prec > SIZE - 2 {
      n := PutText(buf, "RRE", caseAdjust);
      return;
    }
    if exp != 0 {
      bin := bin + MAN;
    } else {
      exp := exp + 1;
    }
    var ok, end := PutNumber(buf, prec, alt, bin, exp - 1023, bits);
    if ok {
      n := end;
    } else {
      n := PutText(buf, "RRE", caseAdjust);
    }
  }
}
