/** What the fields of a specification and its arguments decide about the output: which arguments are width and precision,
    what pads a field and where, sign and prefix, the case of letters, and how a string is cut. */
module FieldLaws {
  import opened Options
  import opened Digits
  import opened FormatSpec
  import opened FormatGrammar
  import opened Conversions
  import opened Printf
  import FloatAccuracy
  import FloatBuffer
  import FloatDigits
  import FloatMeaning
  import FloatSmall

  // ---------- Arguments and defaults ----------

  /** A '*' width comes before a '*' precision, and both before the value.  A negative width means '-', a negative
      precision none; without one floats have 6 and pointers 16; an integer with a precision loses its '0' flag. */
  lemma Settles(s: Spec, args: seq<Arg>, k: nat)
    requires Supplied(s, args, k)
    ensures var t := Settled(s, args, k);
            var w: int := if s.widthOpt == Star then args[k].i else s.width;
            && t.width == (if w < 0 then -w else w) && (t.left <==> s.left || w < 0)
    ensures var t := Settled(s, args, k);
            var m: int := if s.precOpt == Star then args[if s.widthOpt == Star then k + 1 else k].i else s.prec;
            && t.precOpt == (if s.precOpt == Star && m < 0 then OptNone else s.precOpt)
            && t.prec == if t.precOpt == OptNone && IsFloat(s.conv) then 6
                         else if t.precOpt == OptNone && s.conv == Pointer then 16
                         else if m < 0 then 0 else m
    ensures var t := Settled(s, args, k);
            && (t.zero <==> s.zero && !(t.precOpt != OptNone && IsInteger(s.conv)))
            && t.alt == s.alt && t.prepend == s.prepend && t.caseAdjust == s.caseAdjust
            && t.conv == s.conv && t.length == s.length && t.widthOpt == s.widthOpt
    ensures var stars := (if s.widthOpt == Star then 1 else 0) + (if s.precOpt == Star then 1 else 0);
            if s.conv == Percent || (IsInteger(s.conv) && s.length == LenLongDouble) then Consumed(s) == stars
            else ArgOf(s, args, k) == args[k + stars] && Consumed(s) == stars + 1
  {
    hide Accepts, Settled, WithStars, WithDefaults, IsFloat, IsInteger;
    SettledWidth(s, args, k);
    SettledPrecision(s, args, k);
    SettledFlags(s, args, k);
  }

  lemma SettledWidth(s: Spec, args: seq<Arg>, k: nat)
    requires Supplied(s, args, k)
    ensures s.widthOpt == Star ==> args[k].IntArg?
    ensures var t := Settled(s, args, k);
            var w: int := if s.widthOpt == Star then args[k].i else s.width;
            t.width == (if w < 0 then -w else w) && (t.left <==> s.left || w < 0)
  {
    hide Accepts, IsFloat, IsInteger;
  }

  lemma SettledPrecision(s: Spec, args: seq<Arg>, k: nat)
    requires Supplied(s, args, k)
    ensures s.precOpt == Star ==> args[if s.widthOpt == Star then k + 1 else k].IntArg?
    ensures var t := Settled(s, args, k);
            var m: int := if s.precOpt == Star then args[if s.widthOpt == Star then k + 1 else k].i else s.prec;
            && t.precOpt == (if s.precOpt == Star && m < 0 then OptNone else s.precOpt)
            && t.prec == if t.precOpt == OptNone && IsFloat(s.conv) then 6
                         else if t.precOpt == OptNone && s.conv == Pointer then 16
                         else if m < 0 then 0 else m
  {
    hide Accepts, IsFloat, IsInteger;
  }

  lemma SettledFlags(s: Spec, args: seq<Arg>, k: nat)
    requires Supplied(s, args, k)
    ensures var t := Settled(s, args, k);
            && (t.zero <==> s.zero && !(t.precOpt != OptNone && IsInteger(s.conv)))
            && t.alt == s.alt && t.prepend == s.prepend && t.caseAdjust == s.caseAdjust
            && t.conv == s.conv && t.length == s.length && t.widthOpt == s.widthOpt
  {
    hide Accepts, IsFloat, IsInteger, Supplied;
  }

  // ---------- The value ----------

  /** r is the value that n bits, taken as signed or unsigned, keep of x. */
  ghost predicate Cast(x: int, n: nat, signed: bool, r: int) {
    && (exists q: int :: x - r == q * Power(2, n))
    && (if signed then -(Power(2, n) as int) <= 2 * r < Power(2, n) else 0 <= r < Power(2, n))
  }

  /** `hh` and `h` convert to eight and sixteen bits, `l` takes a long, and `L` makes 0 of it. */
  lemma CastLaw(s: Spec, a: Arg)
    requires Accepts(s, a)
    ensures s.conv == SignedInt ==>
              var v := SignedOf(s, a);
              match s.length
              case LenNone => v == a.i
              case LenShort => Cast(a.i, 16, true, v)
              case LenChar => Cast(a.i, 8, true, v)
              case LenLong => v == a.l
              case LenLongDouble => v == 0
    ensures s.conv in {Octal, HexInt, UnsignedInt} ==>
              var v := UnsignedOf(s, a);
              match s.length
              case LenNone => v == a.u
              case LenShort => Cast(a.u, 16, false, v)
              case LenChar => Cast(a.u, 8, false, v)
              case LenLong => v == a.ul
              case LenLongDouble => v == 0
    ensures s.conv == Pointer ==> UnsignedOf(s, a) == a.address
  {
    hide Cast, Power;
    if s.conv == SignedInt && s.length in {LenShort, LenChar} {
      SignedCast(a.i, if s.length == LenShort then 16 else 8);
    }
    if s.conv in {Octal, HexInt, UnsignedInt} && s.length in {LenShort, LenChar} {
      UnsignedCast(a.u, if s.length == LenShort then 16 else 8);
    }
  }

  lemma TwoPowers()
    ensures Power(2, 8) == 256 && Power(2, 16) == 0x1_0000
  {
  }

  lemma SignedCast(x: int, n: nat)
    requires n in {8, 16}
    ensures Cast(x, n, true, Wrap(x, if n == 8 then 0x100 else 0x1_0000))
  {
    hide Power;
    TwoPowers();
    var m := if n == 8 then 0x100 else 0x1_0000;
    assert x - Wrap(x, m) == (if x % m < m / 2 then x / m else x / m + 1) * Power(2, n);
  }

  lemma UnsignedCast(x: int, n: nat)
    requires n in {8, 16}
    ensures Cast(x, n, false, if n == 8 then x % 0x100 else x % 0x1_0000)
  {
    hide Power;
    TwoPowers();
    assert x - (if n == 8 then x % 0x100 else x % 0x1_0000) == x / (if n == 8 then 0x100 else 0x1_0000) * Power(2, n);
  }

  // ---------- Sign, prefix, letters ----------

  /** What stands before the digits: '-' for a negative signed integer or a float with its sign bit set, the '+' or ' '
      asked for otherwise; "0x" or "0X" for a hexadecimal other than zero in the alternative form; and nothing else. */
  lemma LeadLaw(s: Spec, a: Arg)
    requires s.caseAdjust in {0, LOWER} && Accepts(s, a)
    ensures var positive := if s.prepend == NUL then "" else [s.prepend];
            var bits := if a.DoubleArg? then a.bits else if a.LongDoubleArg? then a.converted else 0;
            Lead(Converted(s, a)) ==
            if s.conv == SignedInt then (if SignedOf(s, a) < 0 then "-" else positive)
            else if IsFloat(s.conv) then (if bits >= SIGN then "-" else positive)
            else if s.conv in {HexInt, Pointer} && s.alt && UnsignedOf(s, a) != 0 then
              (if s.caseAdjust == 0 then "0X" else "0x")
            else ""
    ensures var p := Converted(s, a);
            && (s.conv == SignedInt ==> (p.zero <==> SignedOf(s, a) == 0))
            && (IsUnsigned(s.conv) ==> (p.zero <==> UnsignedOf(s, a) == 0))
            && (IsFloat(s.conv) ==> (p.zero <==> (if a.DoubleArg? then a.bits else a.converted) in {0, SIGN}))
            && (s.conv in {Percent, Character, Text} ==> !p.zero)
  {
    hide Numerals, SignedOf, UnsignedOf, FloatDigits.Reverse, FloatDigits.Convert;
  }

  predicate Capital(c: char) { 'A' <= c <= 'Z' }
  predicate Small(c: char) { 'a' <= c <= 'z' }

  /** A capital conversion prints capital letters only, any other small ones only. */
  lemma {:induction false} LettersCase(v: nat, base: nat, caseAdjust: nat)
    requires 2 <= base <= 16 && caseAdjust in {0, LOWER}
    ensures forall k | 0 <= k < |DigitsRev(v, base, caseAdjust)| ::
              var c := DigitsRev(v, base, caseAdjust)[k]; if caseAdjust == 0 then !Small(c) else !Capital(c)
    decreases v
  {
    hide DigitsRev;
    DivShrinks(v, base);
    DigitsUnfold(v, base, caseAdjust);
    if v >= base {
      LettersCase(v / base, base, caseAdjust);
    }
  }

  lemma NumeralsCase(v: nat, base: nat, caseAdjust: nat)
    requires base in {8, 10, 16} && caseAdjust in {0, LOWER}
    ensures forall k | 0 <= k < |Numerals(v, base, caseAdjust)| ::
              var c := Numerals(v, base, caseAdjust)[k]; if caseAdjust == 0 then !Small(c) else !Capital(c)
  {
    hide DigitsRev, Small, Capital;
    LettersCase(v, base, caseAdjust);
  }

  /** A string is printed whole or, with a precision, up to that many characters; a null pointer as nothing. */
  lemma TextLaw(s: Spec, a: Arg)
    requires s.conv == Text && Accepts(s, a) && s.caseAdjust in {0, LOWER}
    ensures var body := Converted(s, a).body;
            && Core(Converted(s, a)) == body
            && match a.text
               case None => body == ""
               case Some(t) => body <= t && |body| == if s.precOpt == OptNone || s.prec >= |t| then |t| else s.prec
  {
  }

  // ---------- Padding ----------

  /** Does a float print a word, as an infinity or a number too long for the buffer does? */
  predicate PrintsWord(t: Spec, a: Arg)
    requires Accepts(t, a)
  {
    IsFloat(t.conv) && FloatDigits.Convert(if a.DoubleArg? then a.bits else a.converted, t.prec, t.alt).Message?
  }

  /** The words: "inf" and "nan" for what is not finite, and "err" for a finite number too long for the buffer, in capitals
      for a capital conversion; any other number is printed as the converter's characters, last one first. */
  lemma WordLaw(s: Spec, a: Arg)
    requires IsFloat(s.conv) && Accepts(s, a) && s.caseAdjust in {0, LOWER}
    ensures var bits := if a.DoubleArg? then a.bits else a.converted;
            var body, r := Converted(s, a).body, FloatDigits.Convert(bits, s.prec, s.alt);
            && (!FloatDigits.Finite(bits) && bits % FloatDigits.MAN == 0 ==> body == if s.caseAdjust == 0 then "INF" else "inf")
            && (!FloatDigits.Finite(bits) && bits % FloatDigits.MAN != 0 ==> body == if s.caseAdjust == 0 then "NAN" else "nan")
            && (FloatDigits.Finite(bits) && r.Message? ==> body == if s.caseAdjust == 0 then "ERR" else "err")
            && (PrintsWord(s, a) <==> r.Message?) && (!FloatDigits.Finite(bits) ==> r.Message?)
            && (r.Number? ==> body == FloatDigits.Reverse(r.rev)) && Core(Converted(s, a)) == Lead(Converted(s, a)) + body
  {
    hide FloatDigits.Small, FloatDigits.Large, FloatDigits.Reverse, FloatPiece;
    var bits := if a.DoubleArg? then a.bits else a.converted;
    WordOf(bits, s.prec, s.alt);
    WordBody(s, bits);
    assert forall t: string :: "" + t == t;
  }

  lemma WordOf(bits: nat, prec: nat, alt: bool)
    ensures var r := FloatDigits.Convert(bits, prec, alt);
            r.Message? ==> r.w == if FloatDigits.Finite(bits) then "RRE" else if bits % FloatDigits.MAN != 0 then "NAN" else "FNI"
  {
    hide FloatDigits.IntScale, FloatDigits.FracScale, FloatDigits.IntDigits, FloatDigits.FracText, FloatDigits.RoundUp;
    hide FloatDigits.Reverse;
  }

  lemma WordBody(s: Spec, bits: UInt64)
    requires s.caseAdjust in {0, LOWER}
    ensures var p, r := FloatPiece(s, bits), FloatDigits.Convert(bits, s.prec, s.alt);
            && p.spec.conv == s.conv
            && (r.Number? ==> p.body == FloatDigits.Reverse(r.rev))
            && (r == FloatDigits.Message("RRE") ==> p.body == if s.caseAdjust == 0 then "ERR" else "err")
            && (r == FloatDigits.Message("NAN") ==> p.body == if s.caseAdjust == 0 then "NAN" else "nan")
            && (r == FloatDigits.Message("FNI") ==> p.body == if s.caseAdjust == 0 then "INF" else "inf")
  {
    hide FloatDigits.Convert, FloatDigits.Reverse, FloatBuffer.CaseText;
    FloatBuffer.WordsAreLetters(bits, s.prec, s.alt);
    WordText("RRE", s.caseAdjust);
    WordText("NAN", s.caseAdjust);
    WordText("FNI", s.caseAdjust);
    assert ['E', 'R', 'R'] == "ERR" && ['e', 'r', 'r'] == "err" && ['I', 'N', 'F'] == "INF" && ['i', 'n', 'f'] == "inf";
    assert ['N', 'A', 'N'] == "NAN" && ['n', 'a', 'n'] == "nan";
  }

  lemma WordText(w: string, caseAdjust: nat)
    requires |w| == 3 && caseAdjust in {0, LOWER} && FloatBuffer.Letters(w)
    ensures FloatDigits.Reverse(FloatBuffer.CaseText(w, caseAdjust)) ==
            [(w[2] as nat + caseAdjust) as char, (w[1] as nat + caseAdjust) as char, (w[0] as nat + caseAdjust) as char]
  {
    var t := FloatBuffer.CaseText(w, caseAdjust);
    var r := FloatDigits.Reverse(t);
    assert r[0] == t[2] && r[1] == t[1] && r[2] == t[0];
  }

  /** A float that prints as a number is near the argument, but for a precision of 0 and a fraction within 2^-33 below
      one: `Value` takes the body, point left out, for a decimal number of units of 10^-prec. */
  lemma FloatNear(s: Spec, bits: UInt64)
    requires s.caseAdjust in {0, LOWER} && FloatDigits.Convert(bits, s.prec, s.alt).Number?
    ensures var v := FloatMeaning.Value(FloatDigits.Reverse(FloatPiece(s, bits).body));
            FloatAccuracy.Near(v, bits, s.prec) <==>
            !(FloatDigits.Exponent(bits) <= 31 &&
              FloatSmall.Wraps(FloatDigits.Mantissa(bits), FloatDigits.Exponent(bits), s.prec))
  {
    hide FloatDigits.Convert, FloatDigits.Reverse, FloatAccuracy.Near, FloatSmall.Wraps, FloatMeaning.Value;
    hide FloatDigits.Exponent, FloatDigits.Mantissa, FloatPiece;
    WordBody(s, bits);
    ReverseTwice(FloatDigits.Convert(bits, s.prec, s.alt).rev);
    FloatAccuracy.Accuracy(bits, s.prec, s.alt);
  }

  lemma ReverseTwice(w: string)
    ensures FloatDigits.Reverse(FloatDigits.Reverse(w)) == w
  {
    var r := FloatDigits.Reverse(w);
    assert forall k | 0 <= k < |w| :: FloatDigits.Reverse(r)[k] == w[k];
  }

  /** The '0' flag counts for nothing where an integer has a precision, a float prints a word, or a zero has precision 0. */
  predicate ZeroFlagOff(t: Spec, a: Arg)
    requires Accepts(t, a) && t.caseAdjust in {0, LOWER}
  {
    || (t.precOpt != OptNone && IsInteger(t.conv))
    || PrintsWord(t, a)
    || (t.precOpt != OptNone && t.prec == 0 && Converted(t, a).zero)
  }

  /** A field fills its width: with spaces behind for '-' or a negative '*' width, with zeros behind sign and prefix for
      the '0' flag where it counts, and otherwise with spaces in front. */
  predicate FieldFills(text: string, s: Spec, args: seq<Arg>, k: nat)
    requires s.caseAdjust in {0, LOWER} && Supplied(s, args, k)
  {
    var t, a := Settled(s, args, k), ArgOf(s, args, k);
    var w: int := if s.widthOpt == Star then args[k].i else s.width;
    Fills(text, Converted(t, a), if w < 0 then -w else w, s.left || w < 0, s.zero && !ZeroFlagOff(t, a))
  }

  lemma FormattedFills(s: Spec, args: seq<Arg>, k: nat)
    requires WellFormed(s) && Supplied(s, args, k)
    ensures FieldFills(Formatted(s, args, k), s, args, k)
  {
    hide Supplied, Core, Lead, Field, Fills, Converted, PrintsWord;
    Settles(s, args, k);
    PieceFlags(Settled(s, args, k), ArgOf(s, args, k));
    WidthLaw(Converted(Settled(s, args, k), ArgOf(s, args, k)));
  }

  /** A specification alone in a format, however it is spelled, prints a field that fills its width. */
  lemma PaddedOutput(p: Parts, s: Spec, args: seq<Arg>)
    requires InGrammar(p) && Means(p, s) && WellFormed(s) && Supplied(s, args, 0)
    ensures var f := "%" + PartsText(p); ArgsOk(f, 0, args, 0) && FieldFills(Output(f, 0, args, 0), s, args, 0)
  {
    hide Supplied, FieldFills, PartsText, Output, ArgsOk, InGrammar, Means;
    AloneOutput(p, s, args);
    FormattedFills(s, args, 0);
  }

  /** The conversion keeps the fields of the layout, but for the precision of a hidden octal zero and the '0' flag of a
      word. */
  lemma PieceFlags(t: Spec, a: Arg)
    requires t.caseAdjust in {0, LOWER} && Accepts(t, a)
    ensures var q := Converted(t, a).spec;
            && q.width == t.width && q.widthOpt == t.widthOpt && q.left == t.left && q.precOpt == t.precOpt
            && (q.zero <==> t.zero && !PrintsWord(t, a))
            && (q.prec == t.prec || IsInteger(t.conv))
  {
    hide SignedPiece, UnsignedPiece, FloatPiece, SignedOf, UnsignedOf, FloatDigits.Convert;
    if t.conv == SignedInt {
      SignedFlags(t, SignedOf(t, a));
    } else if IsUnsigned(t.conv) {
      UnsignedFlags(t, UnsignedOf(t, a));
    } else if IsFloat(t.conv) {
      FloatFlags(t, if a.DoubleArg? then a.bits else a.converted);
    }
  }

  lemma UnsignedFlags(t: Spec, v: nat)
    requires t.caseAdjust in {0, LOWER}
    ensures var q := UnsignedPiece(t, v).spec; q == t.(prec := q.prec) && (q.prec == t.prec || t.conv == Octal)
  {
    hide Numerals;
  }

  lemma SignedFlags(t: Spec, v: int)
    requires t.caseAdjust in {0, LOWER}
    ensures SignedPiece(t, v).spec == t
  {
  }

  lemma FloatFlags(t: Spec, bits: UInt64)
    requires t.caseAdjust in {0, LOWER}
    ensures FloatPiece(t, bits).spec == t.(zero := t.zero && FloatDigits.Convert(bits, t.prec, t.alt).Number?)
  {
    hide FloatDigits.Convert, FloatDigits.Reverse;
  }

  // ---------- Examples ----------

  /** `%05d` */
  lemma ZeroExample()
    ensures ArgsOk("%05d", 0, [IntArg(42)], 0) && Output("%05d", 0, [IntArg(42)], 0) == "00042"
  {
    hide Formatted, ArgsOk, Output, Numerals, InGrammar, Means;
    var p := Parts("0", Numeral("5"), Absent, LenNone, 'd');
    var t := EMPTY.(zero := true, width := 5, widthOpt := Literal, conv := SignedInt);
    assert "%" + PartsText(p) == "%05d";
    ZeroParts(p, t);
    ZeroField(t, [IntArg(42)]);
    AloneOutput(p, t, [IntArg(42)]);
  }

  lemma ZeroParts(p: Parts, t: Spec)
    requires p == Parts("0", Numeral("5"), Absent, LenNone, 'd')
    requires t == EMPTY.(zero := true, width := 5, widthOpt := Literal, conv := SignedInt)
    ensures InGrammar(p) && Means(p, t)
  {
    hide NumeralValue;
    OneNumeral();
    assert '0' == FLAGS[1] && '5' == DIGITS[5] && 'd' == LettersOf(SignedInt)[0];
  }

  lemma OneNumeral()
    ensures All("5", DIGITS) && NumeralValue("5") == 5
  {
  }

  lemma ZeroField(t: Spec, args: seq<Arg>)
    requires t == EMPTY.(zero := true, width := 5, widthOpt := Literal, conv := SignedInt) && args == [IntArg(42)]
    ensures Supplied(t, args, 0) && Formatted(t, args, 0) == "00042"
  {
    hide Numerals, Fill;
    FortyTwo();
    FillSome();
    var p := Converted(Settled(t, args, 0), args[0]);
    assert p.body == "42" && PrecPad(p) == 0 && Lead(p) == "" && FieldPad(p) == 3 && PadChar(p) == '0';
  }

  /** `%*.*d` with a negative width */
  lemma StarExample()
    ensures var args := [IntArg(-5), IntArg(4), IntArg(42)];
            ArgsOk("%*.*d", 0, args, 0) && Output("%*.*d", 0, args, 0) == "0042 "
  {
    hide Formatted, ArgsOk, Output, Numerals;
    var p := Parts("", FromArg, FromArg, LenNone, 'd');
    var t := EMPTY.(widthOpt := Star, precOpt := Star, conv := SignedInt);
    var args := [IntArg(-5), IntArg(4), IntArg(42)];
    assert "%" + PartsText(p) == "%*.*d";
    assert 'd' == LettersOf(SignedInt)[0];
    StarField(t, args);
    AloneOutput(p, t, args);
  }

  lemma StarField(t: Spec, args: seq<Arg>)
    requires t == EMPTY.(widthOpt := Star, precOpt := Star, conv := SignedInt)
    requires args == [IntArg(-5), IntArg(4), IntArg(42)]
    ensures Supplied(t, args, 0) && Formatted(t, args, 0) == "0042 "
  {
    hide Numerals, Fill;
    FortyTwo();
    FillSome();
    var p := Converted(Settled(t, args, 0), args[2]);
    assert p.body == "42" && PrecPad(p) == 2 && Lead(p) == "" && FieldPad(p) == 1 && p.spec.left;
    assert Fill(1, ' ') == " " by {
      OneBlank();
    }
  }

  lemma OneBlank()
    ensures Fill(1, ' ') == " "
  {
  }

  /** `%#X` */
  lemma HexExample()
    ensures ArgsOk("%#X", 0, [UIntArg(171)], 0) && Output("%#X", 0, [UIntArg(171)], 0) == "0XAB"
  {
    hide Formatted, ArgsOk, Output, Numerals;
    var p := Parts("#", Absent, Absent, LenNone, 'X');
    var t := EMPTY.(alt := true, caseAdjust := 0, conv := HexInt);
    assert "%" + PartsText(p) == "%#X";
    assert '#' == FLAGS[4] && 'X' == LettersOf(HexInt)[1];
    AloneOutput(p, t, [UIntArg(171)]);
    HexField(t, [UIntArg(171)]);
  }

  lemma HexField(t: Spec, args: seq<Arg>)
    requires t == EMPTY.(alt := true, caseAdjust := 0, conv := HexInt) && args == [UIntArg(171)]
    ensures Supplied(t, args, 0) && Formatted(t, args, 0) == "0XAB"
  {
    hide Numerals, Fill;
    HundredSeventyOne();
    FillSome();
    var p := Converted(Settled(t, args, 0), args[0]);
    assert p.body == "AB" && PrecPad(p) == 0 && Lead(p) == "0X" && FieldPad(p) == 0;
  }

  lemma HundredSeventyOne()
    ensures Numerals(171, 16, 0) == "AB"
  {
    DigitsUnfold(171, 16, 0);
    DigitsUnfold(10, 16, 0);
    assert DigitsRev(171, 16, 0) == "BA";
  }
}
