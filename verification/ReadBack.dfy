/** What is printed for an integer reads back as that integer: a scanner in the manner of strtol and strtoull, which
    skips spaces, takes a sign and a "0x", and evaluates digits up to the first character that is none, recovers the
    argument from the whole field, whatever flags, width and precision were asked for. */
module ReadBack {
  import opened Digits
  import opened FormatSpec
  import opened FormatGrammar
  import opened Conversions
  import FloatDigits
  import FloatMeaning
  import Printf

  function SkipSpaces(t: string): string {
    if t != "" && t[0] == ' ' then SkipSpaces(t[1..]) else t
  }

  /** The value of the digits at the front of t, after acc */
  function ScanDigits(t: string, base: nat, acc: nat): nat {
    if t == "" || DigitValue(t[0]) >= base then acc
    else ScanDigits(t[1..], base, acc * base + DigitValue(t[0]))
  }

  function ScanUnsigned(t: string, base: nat): nat {
    if base == 16 && |t| >= 2 && t[0] == '0' && (t[1] == 'x' || t[1] == 'X') then ScanDigits(t[2..], base, 0)
    else ScanDigits(t, base, 0)
  }

  function Scan(t: string, base: nat): int {
    var s := SkipSpaces(t);
    if s != "" && s[0] == '-' then -(ScanUnsigned(s[1..], base) as int)
    else if s != "" && s[0] == '+' then ScanUnsigned(s[1..], base)
    else ScanUnsigned(s, base)
  }

  // ---------- Spaces and zeros ----------

  lemma FillStep(n: int, c: char, t: string)
    ensures n > 0 ==> Fill(n, c) + t == [c] + (Fill(n - 1, c) + t)
    ensures n <= 0 ==> Fill(n, c) + t == t
  {
    if n > 0 {
      assert Fill(n, c) == [c] + Fill(n - 1, c);
    }
  }

  lemma {:induction false} SkipFill(n: int, t: string)
    ensures SkipSpaces(Fill(n, ' ') + t) == SkipSpaces(t)
    decreases if n > 0 then n else 0
  {
    FillStep(n, ' ', t);
    if n > 0 {
      SkipFill(n - 1, t);
      assert (Fill(n, ' ') + t)[1..] == Fill(n - 1, ' ') + t;
    }
  }

  lemma {:induction false} ScanZeros(n: int, t: string, base: nat)
    requires base >= 2
    ensures ScanDigits(Fill(n, '0') + t, base, 0) == ScanDigits(t, base, 0)
    decreases if n > 0 then n else 0
  {
    FillStep(n, '0', t);
    if n > 0 {
      ScanZeros(n - 1, t, base);
      assert (Fill(n, '0') + t)[1..] == Fill(n - 1, '0') + t;
      assert 0 * base + DigitValue('0') == 0;
    }
  }

  /** Digits printed from the most significant down are read as their value. */
  lemma {:induction false} ScanReverse(r: string, t: string, base: nat)
    requires AllDigits(r, base)
    ensures ScanDigits(FloatDigits.Reverse(r) + t, base, 0) == ScanDigits(t, base, EvalRev(r, base))
  {
    if r == "" {
      assert FloatDigits.Reverse(r) + t == t;
    } else {
      var d := r[0];
      assert forall k | 0 <= k < |r[1..]| :: r[1..][k] == r[k + 1];
      ScanReverse(r[1..], [d] + t, base);
      assert FloatDigits.Reverse(r) + t == FloatDigits.Reverse(r[1..]) + ([d] + t);
      assert ([d] + t)[1..] == t;
      assert EvalRev(r[1..], base) * base == base * EvalRev(r[1..], base);
    }
  }

  // ---------- The digits of a piece ----------

  /** Behind the digits there is only padding. */
  lemma ScanPadding(n: int, base: nat, acc: nat)
    requires base <= 16
    ensures ScanDigits(Fill(n, ' '), base, acc) == acc
  {
  }

  lemma ScanNumerals(v: nat, base: nat, caseAdjust: nat, n: int)
    requires base in {8, 10, 16} && caseAdjust in {0, LOWER}
    ensures ScanDigits(Numerals(v, base, caseAdjust) + Fill(n, ' '), base, 0) == v
  {
    hide DigitsRev, EvalRev, ScanDigits, AllDigits;
    var r := DigitsRev(v, base, caseAdjust);
    DigitsRoundTrip(v, base, caseAdjust);
    ScanReverse(r, Fill(n, ' '), base);
    ScanPadding(n, base, v);
  }

  lemma NumeralsAreDigits(v: nat, base: nat, caseAdjust: nat)
    requires base in {8, 10, 16} && caseAdjust in {0, LOWER}
    ensures AllDigits(Numerals(v, base, caseAdjust), base)
  {
    hide DigitsRev;
    DigitsRoundTrip(v, base, caseAdjust);
  }

  /** The body stands for v: its digits, in octal perhaps behind a 0, or nothing for a hidden zero. */
  predicate Stands(body: string, v: nat, base: nat, caseAdjust: nat)
    requires base in {8, 10, 16} && caseAdjust in {0, LOWER}
  {
    || body == Numerals(v, base, caseAdjust)
    || body == "0" + Numerals(v, base, caseAdjust)
    || (body == "" && v == 0)
  }

  lemma ScanBody(body: string, v: nat, base: nat, caseAdjust: nat, n: int)
    requires base in {8, 10, 16} && caseAdjust in {0, LOWER} && Stands(body, v, base, caseAdjust)
    ensures ScanDigits(body + Fill(n, ' '), base, 0) == v
    ensures AllDigits(body, base)
  {
    hide ScanDigits, Numerals;
    ScanNumerals(v, base, caseAdjust, n);
    NumeralsAreDigits(v, base, caseAdjust);
    var w := Numerals(v, base, caseAdjust);
    if body == "0" + w {
      assert "0" == Fill(1, '0');
      ScanZeros(1, w + Fill(n, ' '), base);
      assert body + Fill(n, ' ') == Fill(1, '0') + (w + Fill(n, ' '));
    } else if body == "" && v == 0 {
      ScanPadding(n, base, 0);
      assert body + Fill(n, ' ') == Fill(n, ' ');
    }
  }

  /** The part of a field behind sign and prefix */
  function Tail(zeros: int, precision: int, body: string, spaces: int): string {
    Fill(zeros, '0') + (Fill(precision, '0') + (body + Fill(spaces, ' ')))
  }

  /** Where a tail is not empty or blank it starts with a digit, and no 'x' is in it. */
  lemma TailShape(zeros: int, precision: int, body: string, spaces: int, base: nat)
    requires AllDigits(body, base) && base <= 16
    ensures var t := Tail(zeros, precision, body, spaces);
            && (forall k | 0 <= k < |t| :: t[k] == ' ' || DigitValue(t[k]) < 16)
            && (t == Fill(spaces, ' ') || (t != "" && DigitValue(t[0]) < 16))
  {
    hide DigitValue;
    assert DigitValue('0') == 0 by {
      DigitCharValue(0, 0);
    }
    if zeros <= 0 && precision <= 0 && body == "" {
      assert Tail(zeros, precision, body, spaces) == Fill(spaces, ' ');
    }
  }

  /** Scanned as an unsigned number, with or without what blanks it starts with, a tail is its value. */
  lemma ScanTail(zeros: int, precision: int, body: string, spaces: int, v: nat, base: nat, caseAdjust: nat)
    requires base in {8, 10, 16} && caseAdjust in {0, LOWER} && Stands(body, v, base, caseAdjust)
    ensures var t := Tail(zeros, precision, body, spaces);
            && ScanDigits(t, base, 0) == ScanUnsigned(t, base) == Scan(t, base) == v
            && (SkipSpaces(t) == "" || SkipSpaces(t) == t)
  {
    hide Stands, AllDigits, Tail;
    var t := Tail(zeros, precision, body, spaces);
    ScanBody(body, v, base, caseAdjust, spaces);
    TailShape(zeros, precision, body, spaces, base);
    TailValue(zeros, precision, body, spaces, v, base);
    if t == Fill(spaces, ' ') {
      SkipFill(spaces, "");
      ScanPadding(spaces, base, 0);
      assert Fill(spaces, ' ') + "" == Fill(spaces, ' ');
    }
  }

  lemma TailValue(zeros: int, precision: int, body: string, spaces: int, v: nat, base: nat)
    requires base >= 2 && ScanDigits(body + Fill(spaces, ' '), base, 0) == v
    ensures ScanDigits(Tail(zeros, precision, body, spaces), base, 0) == v
  {
    hide ScanDigits;
    ScanZeros(zeros, Fill(precision, '0') + (body + Fill(spaces, ' ')), base);
    ScanZeros(precision, body + Fill(spaces, ' '), base);
  }

  // ---------- The whole field ----------

  /** A field is blanks, sign or prefix, and a tail. */
  lemma FieldByTail(p: Piece)
    ensures Field(p) ==
            Fill(if PadChar(p) != '0' && !p.spec.left then FieldPad(p) else 0, ' ') +
            (Lead(p) +
             Tail(if PadChar(p) == '0' then FieldPad(p) else 0, PrecPad(p), p.body, if p.spec.left then FieldPad(p) else 0))
  {
    hide FieldPad, PrecPad, Lead;
    assert p.body + Fill(0, ' ') == p.body;
    assert Fill(0, '0') + (Fill(PrecPad(p), '0') + p.body) == Fill(PrecPad(p), '0') + p.body;
    assert Fill(0, '0') + (Fill(PrecPad(p), '0') + (p.body + Fill(FieldPad(p), ' '))) ==
           Fill(PrecPad(p), '0') + (p.body + Fill(FieldPad(p), ' '));
    if p.spec.left {
      assert Core(p) + Fill(FieldPad(p), ' ') ==
             Lead(p) + (Fill(PrecPad(p), '0') + (p.body + Fill(FieldPad(p), ' ')));
    } else if PadChar(p) == '0' {
      assert Fill(0, ' ') + Field(p) == Field(p);
    }
  }

  /** A tail behind a sign or a prefix */
  lemma ScanLead(p: Piece, t: string, v: nat, base: nat)
    requires base in {8, 10, 16} && p.sign in {NUL, '+', '-', ' '} && p.hex in {NUL, 'x', 'X'}
    requires p.hex != NUL ==> p.sign == NUL && base == 16
    requires ScanDigits(t, base, 0) == ScanUnsigned(t, base) == Scan(t, base) == v
    ensures Scan(Lead(p) + t, base) == if p.sign == '-' then -(v as int) else v
  {
    hide ScanDigits;
    if p.sign != NUL {
      assert Lead(p) == [p.sign];
      assert (Lead(p) + t)[1..] == t;
    } else if p.hex != NUL {
      assert Lead(p) == ['0', p.hex];
      assert (Lead(p) + t)[2..] == t;
    } else {
      assert Lead(p) + t == t;
    }
  }

  lemma FieldScans(p: Piece, v: nat, base: nat, caseAdjust: nat)
    requires base in {8, 10, 16} && caseAdjust in {0, LOWER} && Stands(p.body, v, base, caseAdjust)
    requires p.sign in {NUL, '+', '-', ' '} && p.hex in {NUL, 'x', 'X'}
    requires p.hex != NUL ==> p.sign == NUL && base == 16
    ensures Scan(Field(p), base) == if p.sign == '-' then -(v as int) else v
  {
    hide Stands, ScanDigits, ScanUnsigned, Tail, Field, Lead, PadChar, FieldPad, PrecPad;
    var zeros := if PadChar(p) == '0' then FieldPad(p) else 0;
    var spaces := if p.spec.left then FieldPad(p) else 0;
    var blanks := if PadChar(p) != '0' && !p.spec.left then FieldPad(p) else 0;
    var t := Tail(zeros, PrecPad(p), p.body, spaces);
    FieldByTail(p);
    ScanTail(zeros, PrecPad(p), p.body, spaces, v, base, caseAdjust);
    ScanLead(p, t, v, base);
    SkipFill(blanks, Lead(p) + t);
  }

  /** The integer a conversion prints */
  function IntegerOf(s: Spec, a: Arg): int
    requires (s.conv == SignedInt || IsUnsigned(s.conv)) && Accepts(s, a)
  {
    if s.conv == SignedInt then SignedOf(s, a) else UnsignedOf(s, a)
  }

  /** Whatever flags, width and precision say, the field of an integer scans back as the argument, from the most negative
      64-bit number to the largest unsigned one. */
  lemma IntegerReadsBack(s: Spec, a: Arg)
    requires (s.conv == SignedInt || IsUnsigned(s.conv)) && Accepts(s, a)
    requires s.prepend in {NUL, '+', ' '} && s.caseAdjust in {0, LOWER}
    ensures Scan(Field(Converted(s, a)), if s.conv == Octal then 8 else if s.conv in {HexInt, Pointer} then 16 else 10) ==
            IntegerOf(s, a)
  {
    hide Numerals, Scan, Field;
    var v := IntegerOf(s, a);
    FieldScans(Converted(s, a), if v < 0 then -v else v, Base(s.conv), s.caseAdjust);
  }

  /** The digits themselves: as many as the number needs, or as the precision asks for; no zero leads but for zero itself,
      the one 0 of the octal form, and zeros of the precision; a zero with precision zero leaves none, but for the octal
      form. */
  lemma DigitCount(s: Spec, a: Arg)
    requires (s.conv == SignedInt || IsUnsigned(s.conv)) && Accepts(s, a) && s.caseAdjust in {0, LOWER}
    ensures var p := Converted(s, a); var v := IntegerOf(s, a);
            var octal := s.conv == Octal && s.alt;
            && AllDigits(p.body, if s.conv == Octal then 8 else if s.conv in {HexInt, Pointer} then 16 else 10)
            && |p.body| <= 23
            && (p.body == "" <==> v == 0 && s.precOpt != OptNone && s.prec == 0)
            && (v != 0 ==> (p.body[0] == '0' <==> octal))
            && (v != 0 && octal ==> |p.body| > 1 && p.body[1] != '0')
            && (s.prec > 0 ==> PrecPad(p) + |p.body| >= s.prec)
            && (PrecPad(p) > 0 ==> PrecPad(p) + |p.body| == (if p.body == "" && octal then 1 else s.prec))
            && (p.body == "" && octal ==> PrecPad(p) == 1)
  {
    hide Numerals, AllDigits, SignedOf, UnsignedOf, PrecPad;
    var v := IntegerOf(s, a);
    NumeralsShape(if v < 0 then -v else v, Base(s.conv), s.caseAdjust);
    PrecPadLaw(Converted(s, a));
  }

  lemma PrecPadLaw(p: Piece)
    requires p.spec.conv != Text && !IsFloat(p.spec.conv)
    ensures PrecPad(p) >= 0 && PrecPad(p) + |p.body| >= p.spec.prec
    ensures PrecPad(p) > 0 ==> PrecPad(p) + |p.body| == p.spec.prec
  {
  }

  lemma NumeralsShape(v: nat, base: nat, caseAdjust: nat)
    requires v < 0x1_0000_0000_0000_0000 && base in {8, 10, 16} && caseAdjust in {0, LOWER}
    ensures var w := Numerals(v, base, caseAdjust);
            && 0 < |w| <= 22 && (w[0] == '0' <==> v == 0)
            && AllDigits("", base) && AllDigits(w, base) && AllDigits("0" + w, base)
  {
    hide DigitsRev, DigitValue, FloatDigits.Reverse, EvalRev;
    DigitsFit(v, base, caseAdjust);
    DigitsRoundTrip(v, base, caseAdjust);
    NumeralsAreDigits(v, base, caseAdjust);
    DigitCharValue(0, 0);
    var w := Numerals(v, base, caseAdjust);
    assert w[0] == DigitsRev(v, base, caseAdjust)[|w| - 1];
  }

  /** End to end: an integer specification of any form, printed as a format of its own and run on its arguments, star
      arguments included, leaves a text that scans back as the number given. */
  lemma FormatReadsBack(t: Spec, args: seq<Arg>)
    requires WellFormed(t) && (t.conv == SignedInt || IsUnsigned(t.conv)) && Printf.ArgsOk(PrintSpec(t), 0, args, 0)
    ensures Supplied(t, args, 0)
    ensures Scan(Printf.Output(PrintSpec(t), 0, args, 0),
                 if t.conv == Octal then 8 else if t.conv in {HexInt, Pointer} then 16 else 10) ==
            IntegerOf(t, ArgOf(t, args, 0))
  {
    hide Scan, Field, Converted, PrintSpec, Supplied, ParseSpec, WithStars, WithDefaults;
    var f := PrintSpec(t);
    assert f[0..|f|] == f;
    PrintedNonEmpty(t);
    Printf.PrintedSpecOutput(t, f, 0, args, 0);
    IntegerReadsBack(Settled(t, args, 0), ArgOf(t, args, 0));
    assert Formatted(t, args, 0) + "" == Formatted(t, args, 0);
  }

  lemma PrintedNonEmpty(t: Spec)
    ensures |PrintSpec(t)| > 0
  {
  }

  /** A float that prints as a number has exactly `prec` digits behind its point, and no point if there are none and the
      alternative form is not asked for; without an explicit precision there are six. */
  lemma FloatPoint(s: Spec, args: seq<Arg>, k: nat, bits: UInt64)
    requires IsFloat(s.conv) && s.caseAdjust in {0, LOWER} && Supplied(s, args, k)
    requires FloatDigits.Convert(bits, Settled(s, args, k).prec, s.alt).Number?
    ensures s.precOpt == OptNone ==> Settled(s, args, k).prec == 6
    ensures var t := Settled(s, args, k); var w := FloatPiece(t, bits).body;
            && t.prec < |w| && FloatDigits.Numeral(w)
            && forall i | 0 <= i < |w| :: w[i] == '.' <==> i == |w| - 1 - t.prec && (t.prec > 0 || t.alt)
  {
    hide FloatDigits.Convert, Supplied, WithStars;
    SettledFlags(s, args, k);
    PointPlace(Settled(s, args, k), bits);
  }

  lemma SettledFlags(s: Spec, args: seq<Arg>, k: nat)
    requires IsFloat(s.conv) && Supplied(s, args, k)
    ensures var t := Settled(s, args, k); t.alt == s.alt && (s.precOpt == OptNone ==> t.prec == 6)
  {
    hide Accepts;
  }

  lemma PointPlace(t: Spec, bits: UInt64)
    requires t.caseAdjust in {0, LOWER} && FloatDigits.Convert(bits, t.prec, t.alt).Number?
    ensures var w := FloatPiece(t, bits).body;
            && t.prec < |w| && FloatDigits.Numeral(w)
            && forall i | 0 <= i < |w| :: w[i] == '.' <==> i == |w| - 1 - t.prec && (t.prec > 0 || t.alt)
  {
    hide FloatDigits.Convert, FloatDigits.Reverse, FloatDigits.Point;
    var rev := FloatDigits.Convert(bits, t.prec, t.alt).rev;
    FloatMeaning.ConvertShape(bits, t.prec, t.alt);
    var w := FloatDigits.Reverse(rev);
    assert forall i | 0 <= i < |w| :: w[i] == rev[|rev| - 1 - i];
  }
}
