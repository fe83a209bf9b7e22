/** The language of format specifications, stated without the parser's stages: the parser of FormatSpec accepts exactly
    the texts of the grammar and reads their parts as the grammar says.  And a printer for specifications. */
module FormatGrammar {
  import opened Options
  import opened FormatSpec

  // ---------- The grammar ----------

  /** A width or a precision: none, a '*', digits, or (precisions only) digits behind a '-' */
  datatype Amount = Absent | FromArg | Numeral(digits: string) | Dashed(digits: string)

  /** The parts of a specification behind its '%' */
  datatype Parts = Parts(flags: string, width: Amount, precision: Amount, length: Length, conv: char)

  const FLAGS: string := "-0+ #"
  const DIGITS: string := "0123456789"

  predicate All(w: string, chars: string) {
    forall k | 0 <= k < |w| :: w[k] in chars
  }

  /** The letters of a conversion; capital ones print capitals. */
  function LettersOf(conv: Conv): string {
    match conv
    case Percent => "%"
    case Character => "c"
    case Text => "s"
    case SignedInt => "di"
    case Octal => "o"
    case HexInt => "xX"
    case UnsignedInt => "u"
    case Pointer => "p"
    case FloatDec => "fF"
    case FloatSci => "eE"
    case FloatShortest => "gG"
    case FloatHex => "aA"
  }

  function WidthText(a: Amount): string {
    match a
    case Absent => ""
    case FromArg => "*"
    case Numeral(d) => d
    case Dashed(d) => "-" + d
  }

  function PrecisionText(a: Amount): string {
    if a.Absent? then "" else "." + WidthText(a)
  }

  function LengthText(n: Length): string {
    match n
    case LenNone => ""
    case LenShort => "h"
    case LenChar => "hh"
    case LenLong => "l"
    case LenLongDouble => "L"
  }

  /** The parts in their order, behind the '%' */
  function PartsText(p: Parts): string {
    p.flags + (WidthText(p.width) + (PrecisionText(p.precision) + (LengthText(p.length) + [p.conv])))
  }

  /** A 0 cannot start a width, as it is a flag. */
  predicate IsWidth(a: Amount) {
    match a
    case Absent => true
    case FromArg => true
    case Numeral(d) => d != "" && All(d, DIGITS) && d[0] != '0'
    case Dashed(_) => false
  }

  /** There may be no digits behind the point. */
  predicate IsPrecision(a: Amount) {
    match a
    case Absent => true
    case FromArg => true
    case Numeral(d) => All(d, DIGITS)
    case Dashed(d) => All(d, DIGITS)
  }

  predicate IsLetter(c: char) {
    exists conv :: c in LettersOf(conv)
  }

  predicate InGrammar(p: Parts) {
    All(p.flags, FLAGS) && IsWidth(p.width) && IsPrecision(p.precision) && IsLetter(p.conv)
  }

  /** The number digits stand for, 0 if there are none */
  function NumeralValue(w: string): nat
    requires All(w, DIGITS)
  {
    if w == "" then 0 else NumeralValue(w[..|w| - 1]) * 10 + (w[|w| - 1] as nat - 48)
  }

  function AmountValue(a: Amount): nat
    requires IsPrecision(a) || IsWidth(a)
  {
    if a.Numeral? || a.Dashed? then NumeralValue(a.digits) else 0
  }

  /** Digits behind a '-' are read, but are no precision. */
  function AmountOpt(a: Amount): Opt {
    match a
    case Absent => OptNone
    case FromArg => Star
    case Numeral(_) => Literal
    case Dashed(_) => OptNone
  }

  /** What the parts say: a flag is set if it occurs at all, and '+' overrides ' '. */
  predicate Means(p: Parts, s: Spec)
    requires InGrammar(p)
  {
    && (s.left <==> '-' in p.flags) && (s.zero <==> '0' in p.flags) && (s.alt <==> '#' in p.flags)
    && s.prepend == (if '+' in p.flags then '+' else if ' ' in p.flags then ' ' else NUL)
    && s.widthOpt == AmountOpt(p.width) && s.width == AmountValue(p.width)
    && s.precOpt == AmountOpt(p.precision) && s.prec == AmountValue(p.precision)
    && s.length == p.length
    && p.conv in LettersOf(s.conv) && s.caseAdjust == (if 'A' <= p.conv <= 'Z' then 0 else LOWER)
  }

  // ---------- Characters ----------

  lemma FlagChars(c: char)
    ensures c in FLAGS <==> IsFlag(c)
    ensures c in DIGITS <==> IsDigit(c)
  {
  }

  /** The parser's table of letters is that of the grammar. */
  lemma ConvExactly(c: char)
    ensures forall conv :: c in LettersOf(conv) <==> ConvOf(c).Some? && ConvOf(c).value.0 == conv
    ensures ConvOf(c).Some? ==> ConvOf(c).value.1 == (if 'A' <= c <= 'Z' then 0 else LOWER)
    ensures ConvOf(c).Some? <==> IsLetter(c)
  {
    assert ConvOf(c).Some? ==> c in LettersOf(ConvOf(c).value.0);
  }

  /** A character that can follow width and precision */
  predicate TailChar(c: char) {
    c == 'h' || c == 'l' || c == 'L' || ConvOf(c).Some?
  }

  lemma TailCharPlain(c: char)
    requires TailChar(c)
    ensures !IsFlag(c) && !IsDigit(c) && c != '*' && c != '.' && c != '-'
  {
  }

  /** w lies at position i of f. */
  predicate Reads(f: string, i: nat, w: string) {
    i + |w| <= |f| && f[i..i + |w|] == w
  }

  lemma ReadsSplit(f: string, i: nat, x: string, y: string)
    ensures Reads(f, i, x + y) <==> Reads(f, i, x) && Reads(f, i + |x|, y)
  {
    if i + |x + y| <= |f| {
      var u, v := f[i..i + |x|], f[i + |x|..i + |x| + |y|];
      assert f[i..i + |x + y|] == u + v;
      assert (u + v)[..|x|] == u && (u + v)[|x|..] == v && (x + y)[..|x|] == x && (x + y)[|x|..] == y;
    }
  }

  lemma ReadsFirst(f: string, i: nat, w: string)
    requires Reads(f, i, w)
    ensures forall k | 0 <= k < |w| :: Ch(f, i + k) == w[k]
    ensures i + |w| <= |f|
    ensures w != "" ==> Ch(f, i) == w[0]
  {
    forall k | 0 <= k < |w| ensures Ch(f, i + k) == w[k] {
      assert f[i..i + |w|][k] == w[k];
    }
    assert w != "" ==> Ch(f, i + 0) == w[0];
  }

  lemma ReadsOne(f: string, i: nat, c: char)
    ensures Reads(f, i, [c]) <==> i < |f| && f[i] == c
  {
  }

  // ---------- Every text of the grammar is parsed as it means ----------

  function Prepended(w: string, c: char): char {
    if '+' in w || c == '+' then '+' else if ' ' in w || c == ' ' then ' ' else NUL
  }

  lemma {:induction false} FlagsParse(f: string, i: nat, w: string, s: Spec)
    requires Reads(f, i, w) && All(w, FLAGS) && !IsFlag(Ch(f, i + |w|)) && s.prepend in {NUL, '+', ' '}
    ensures Flags(f, i, s) ==
            Stage(s.(left := s.left || '-' in w, zero := s.zero || '0' in w, alt := s.alt || '#' in w,
                     prepend := Prepended(w, s.prepend)), i + |w|)
    decreases |w|
  {
    hide Reads, Prepended, WithFlag, IsFlag, All, FLAGS;
    ReadsFirst(f, i, w);
    if w == "" {
      NoFlags(s.prepend);
    } else {
      var c, v := w[0], w[1..];
      assert w == [c] + v;
      ReadsSplit(f, i, [c], v);
      FirstFlag(c, v, s);
      FlagsParse(f, i + 1, v, WithFlag(s, c));
    }
  }

  lemma NoFlags(c: char)
    requires c in {NUL, '+', ' '}
    ensures Prepended("", c) == c
  {
  }

  lemma InCons(x: char, c: char, v: string)
    ensures x in [c] + v <==> x == c || x in v
  {
    var w := [c] + v;
    assert w[0] == c && w[1..] == v;
  }

  /** What one flag adds to those behind it */
  lemma FirstFlag(c: char, v: string, s: Spec)
    requires All([c] + v, FLAGS) && s.prepend in {NUL, '+', ' '}
    ensures IsFlag(c) && All(v, FLAGS) && WithFlag(s, c).prepend in {NUL, '+', ' '}
    ensures var t, w := WithFlag(s, c), [c] + v;
            && (t.left || '-' in v <==> s.left || '-' in w) && (t.zero || '0' in v <==> s.zero || '0' in w)
            && (t.alt || '#' in v <==> s.alt || '#' in w) && Prepended(v, t.prepend) == Prepended(w, s.prepend)
            && t == s.(left := t.left, zero := t.zero, alt := t.alt, prepend := t.prepend)
  {
    var w := [c] + v;
    assert w[0] == c && forall k | 0 <= k < |v| :: v[k] == w[k + 1];
    FlagChars(c);
    InCons('-', c, v); InCons('0', c, v); InCons('#', c, v); InCons('+', c, v); InCons(' ', c, v);
  }

  lemma {:induction false} NumberParse(f: string, i: nat, w: string)
    requires Reads(f, i, w) && All(w, DIGITS)
    ensures i + |w| <= |f| && Number(f, i, 0) == Number(f, i + |w|, NumeralValue(w))
    decreases |w|
  {
    hide Reads, Ch, FLAGS;
    ReadsFirst(f, i, w);
    if w != "" {
      var v, d := w[..|w| - 1], w[|w| - 1];
      assert w == v + [d];
      ReadsSplit(f, i, v, [d]);
      NumberParse(f, i, v);
      FlagChars(d);
      assert Ch(f, i + |v|) == w[|v|];
    }
  }

  /** Digits, and then none */
  lemma NumberWhole(f: string, i: nat, w: string)
    requires Reads(f, i, w) && All(w, DIGITS) && !IsDigit(Ch(f, i + |w|))
    ensures Number(f, i, 0) == (NumeralValue(w), i + |w|)
  {
    hide Reads, NumeralValue, All, IsDigit;
    NumberParse(f, i, w);
  }

  lemma WidthParse(f: string, s: Stage, a: Amount)
    requires IsWidth(a) && Reads(f, s.at, WidthText(a)) && s.spec.width == 0 && s.spec.widthOpt == OptNone
    requires var c := Ch(f, s.at + |WidthText(a)|); c == '.' || TailChar(c)
    ensures Width(f, s) ==
            Stage(s.spec.(width := AmountValue(a), widthOpt := AmountOpt(a)), s.at + |WidthText(a)|)
    ensures !IsFlag(Ch(f, s.at))
  {
    hide TailChar, Number, Reads, NumeralValue;
    var w := WidthText(a);
    var end := s.at + |w|;
    ReadsFirst(f, s.at, w);
    if Ch(f, end) != '.' {
      TailCharPlain(Ch(f, end));
    }
    if a.Numeral? {
      FlagChars(w[0]);
      NumberWhole(f, s.at, w);
    }
  }

  lemma PrecisionParse(f: string, s: Stage, a: Amount)
    requires IsPrecision(a) && Reads(f, s.at, PrecisionText(a)) && s.spec.prec == 0 && s.spec.precOpt == OptNone
    requires TailChar(Ch(f, s.at + |PrecisionText(a)|))
    ensures Precision(f, s) ==
            Stage(s.spec.(prec := AmountValue(a), precOpt := AmountOpt(a)), s.at + |PrecisionText(a)|)
    ensures Ch(f, s.at) == '.' || TailChar(Ch(f, s.at))
  {
    hide TailChar, Number, Reads, NumeralValue, IsDigit, FLAGS, DIGITS, All;
    var w, end := PrecisionText(a), s.at + |PrecisionText(a)|;
    ReadsFirst(f, s.at, w);
    TailCharPlain(Ch(f, end));
    match a {
      case Absent =>
      case FromArg =>
        assert w == ".*";
        assert Ch(f, s.at + 1) == w[1];
      case Numeral(d) =>
        ReadsSplit(f, s.at, ".", d);
        DigitsFirst(f, s.at + 1, d);
        NumberWhole(f, s.at + 1, d);
      case Dashed(d) =>
        assert w == ".-" + d;
        assert Ch(f, s.at + 1) == w[1];
        ReadsSplit(f, s.at, ".-", d);
        NumberWhole(f, s.at + 2, d);
    }
  }

  /** The character at digits, or behind none, is neither a '*' nor a '-' unless that follows. */
  lemma DigitsFirst(f: string, i: nat, d: string)
    requires Reads(f, i, d) && All(d, DIGITS) && Ch(f, i + |d|) != '*' && Ch(f, i + |d|) != '-'
    ensures i <= |f| && Ch(f, i) != '*' && Ch(f, i) != '-'
  {
    hide Reads;
    ReadsFirst(f, i, d);
    if d != "" {
      FlagChars(d[0]);
    }
  }

  lemma LengthParse(f: string, s: Stage, n: Length)
    requires Reads(f, s.at, LengthText(n)) && s.spec.length == LenNone
    requires ConvOf(Ch(f, s.at + |LengthText(n)|)).Some?
    ensures LengthOf(f, s) == Stage(s.spec.(length := n), s.at + |LengthText(n)|)
    ensures TailChar(Ch(f, s.at))
  {
    hide Reads;
    var w := LengthText(n);
    ReadsFirst(f, s.at, w);
    if |w| == 2 {
      assert Ch(f, s.at + 1) == w[1];
    }
  }

  /** Where the parts lie */
  lemma PartsRead(f: string, p1: nat, p: Parts) returns (p2: nat, p3: nat, p4: nat, p5: nat)
    ensures p2 == p1 + |p.flags| && p3 == p2 + |WidthText(p.width)|
    ensures p4 == p3 + |PrecisionText(p.precision)| && p5 == p4 + |LengthText(p.length)|
    ensures p1 + |PartsText(p)| == p5 + 1
    ensures Reads(f, p1, PartsText(p)) <==>
              && p5 < |f| && Reads(f, p1, p.flags) && Reads(f, p2, WidthText(p.width))
              && Reads(f, p3, PrecisionText(p.precision)) && Reads(f, p4, LengthText(p.length)) && f[p5] == p.conv
  {
    hide Reads, WidthText, PrecisionText, LengthText;
    var w1, w2, w3, w4, w5 := p.flags, WidthText(p.width), PrecisionText(p.precision), LengthText(p.length), [p.conv];
    p2 := p1 + |w1|;
    p3 := p2 + |w2|;
    p4 := p3 + |w3|;
    p5 := p4 + |w4|;
    ReadsSplit(f, p1, w1, w2 + (w3 + (w4 + w5)));
    ReadsSplit(f, p2, w2, w3 + (w4 + w5));
    ReadsSplit(f, p3, w3, w4 + w5);
    ReadsSplit(f, p4, w4, w5);
    ReadsOne(f, p5, p.conv);
  }

  /** What the parser yields on parts that lie where they should */
  function SpecOf(p: Parts): (s: Spec)
    requires InGrammar(p)
    ensures Means(p, s)
  {
    ConvExactly(p.conv);
    Spec(
      AmountValue(p.width), AmountOpt(p.width), AmountValue(p.precision), AmountOpt(p.precision),
      '-' in p.flags, '0' in p.flags, Prepended(p.flags, NUL), '#' in p.flags,
      if 'A' <= p.conv <= 'Z' then 0 else LOWER, p.length, ConvOf(p.conv).value.0)
  }

  /** Wherever a text of the grammar lies, the parser takes exactly it, and reads the parts as they mean. */
  lemma PartsParse(f: string, i: nat, p: Parts)
    requires InGrammar(p) && Reads(f, i + 1, PartsText(p)) && i < |f|
    ensures ParseSpec(f, i) == Some(Stage(SpecOf(p), i + 1 + |PartsText(p)|))
  {
    hide Reads, Flags, Number, Width, Precision, LengthOf, ConvOf, PartsText, LettersOf, AmountValue, AmountOpt;
    hide WidthText, PrecisionText, LengthText, IsLetter, IsWidth, IsPrecision, All, FLAGS, TailChar, IsFlag, Prepended;
    var p2, p3, p4, p5 := PartsRead(f, i + 1, p);
    ConvExactly(p.conv);
    var s1 := EMPTY.(left := '-' in p.flags, zero := '0' in p.flags, alt := '#' in p.flags,
                     prepend := Prepended(p.flags, NUL));
    var s2 := s1.(width := AmountValue(p.width), widthOpt := AmountOpt(p.width));
    var s3 := s2.(prec := AmountValue(p.precision), precOpt := AmountOpt(p.precision));
    LengthParse(f, Stage(s3, p4), p.length);
    PrecisionParse(f, Stage(s2, p3), p.precision);
    WidthParse(f, Stage(s1, p2), p.width);
    FlagsParse(f, i + 1, p.flags, EMPTY);
  }

  // ---------- And no other text is ----------

  lemma {:induction false} FlagsSpan(f: string, i: nat, s: Spec)
    requires i <= |f|
    ensures All(f[i..Flags(f, i, s).at], FLAGS) && !IsFlag(Ch(f, Flags(f, i, s).at))
    decreases |f| - i
  {
    if IsFlag(Ch(f, i)) {
      var j := Flags(f, i, s).at;
      FlagsSpan(f, i + 1, WithFlag(s, Ch(f, i)));
      FlagChars(f[i]);
      assert f[i..j] == [f[i]] + f[i + 1..j];
    }
  }

  lemma {:induction false} NumberSpan(f: string, i: nat, n: nat)
    requires i <= |f|
    ensures All(f[i..Number(f, i, n).1], DIGITS) && !IsDigit(Ch(f, Number(f, i, n).1))
    decreases |f| - i
  {
    if IsDigit(Ch(f, i)) {
      var j := Number(f, i, n).1;
      NumberSpan(f, i + 1, n * 10 + (Ch(f, i) as nat - 48));
      FlagChars(f[i]);
      assert f[i..j] == [f[i]] + f[i + 1..j];
    }
  }

  lemma SliceRead(f: string, i: nat, j: nat)
    requires i <= j <= |f|
    ensures Reads(f, i, f[i..j])
  {
  }

  lemma WidthSpan(f: string, s: Stage) returns (a: Amount)
    requires s.at <= |f| && !IsFlag(Ch(f, s.at))
    ensures IsWidth(a) && Reads(f, s.at, WidthText(a)) && Width(f, s).at == s.at + |WidthText(a)|
  {
    hide All, FLAGS, DIGITS;
    a := Absent;
    if Ch(f, s.at) == '*' {
      a := FromArg;
    } else if IsDigit(Ch(f, s.at)) {
      var j := Number(f, s.at, 0).1;
      NumberSpan(f, s.at, 0);
      a := Numeral(f[s.at..j]);
    }
  }

  lemma PrecisionSpan(f: string, s: Stage) returns (a: Amount)
    requires s.at <= |f|
    ensures IsPrecision(a) && Reads(f, s.at, PrecisionText(a)) && Precision(f, s).at == s.at + |PrecisionText(a)|
  {
    hide All, FLAGS, DIGITS, IsDigit, Number, Reads;
    a := Absent;
    SliceRead(f, s.at, s.at);
    assert f[s.at..s.at] == "";
    if Ch(f, s.at) == '.' {
      var i := s.at + 1;
      if Ch(f, i) == '*' {
        a := FromArg;
        TwoRead(f, s.at, '.', '*');
        assert PrecisionText(a) == ['.', '*'];
      } else if Ch(f, i) == '-' {
        var j := Number(f, i + 1, 0).1;
        NumberSpan(f, i + 1, 0);
        SliceRead(f, i + 1, j);
        a := Dashed(f[i + 1..j]);
        CharAnd(f, i, '-', f[i + 1..j]);
        CharAnd(f, s.at, '.', WidthText(a));
      } else {
        var j := Number(f, i, 0).1;
        NumberSpan(f, i, 0);
        SliceRead(f, i, j);
        a := Numeral(f[i..j]);
        CharAnd(f, s.at, '.', f[i..j]);
      }
    }
  }

  lemma CharAnd(f: string, i: nat, c: char, w: string)
    requires i < |f| && f[i] == c && Reads(f, i + 1, w)
    ensures Reads(f, i, [c] + w)
  {
    hide Reads;
    ReadsOne(f, i, c);
    ReadsSplit(f, i, [c], w);
  }

  lemma TwoRead(f: string, i: nat, c: char, d: char)
    requires i + 1 < |f| && f[i] == c && f[i + 1] == d
    ensures Reads(f, i, [c, d])
  {
  }

  lemma LengthSpan(f: string, s: Stage) returns (n: Length)
    requires s.at <= |f|
    ensures Reads(f, s.at, LengthText(n)) && LengthOf(f, s).at == s.at + |LengthText(n)|
  {
    n := LenNone;
    if Ch(f, s.at) == 'h' {
      n := if Ch(f, s.at + 1) == 'h' then LenChar else LenShort;
    } else if Ch(f, s.at) == 'l' {
      n := LenLong;
    } else if Ch(f, s.at) == 'L' {
      n := LenLongDouble;
    }
  }

  /** The parts of a text the parser accepts */
  lemma PartsOfParsed(f: string, i: nat) returns (p: Parts)
    requires i < |f| && ParseSpec(f, i).Some?
    ensures InGrammar(p) && Reads(f, i + 1, PartsText(p))
  {
    hide Reads, Flags, Number, Width, Precision, LengthOf, ConvOf, PartsText;
    hide WidthText, PrecisionText, LengthText, IsLetter, IsWidth, IsPrecision, All, FLAGS, IsFlag;
    var s1 := Flags(f, i + 1, EMPTY);
    var s2 := Width(f, s1);
    var s3 := Precision(f, s2);
    var s4 := LengthOf(f, s3);
    FlagsSpan(f, i + 1, EMPTY);
    SliceRead(f, i + 1, s1.at);
    var width := WidthSpan(f, s1);
    var precision := PrecisionSpan(f, s2);
    var length := LengthSpan(f, s3);
    ConvExactly(Ch(f, s4.at));
    p := Parts(f[i + 1..s1.at], width, precision, length, Ch(f, s4.at));
    var p2, p3, p4, p5 := PartsRead(f, i + 1, p);
  }

  /** At a '%' the parser finds a specification if and only if a text of the grammar follows; it takes exactly that text,
      and its fields are what the parts mean. */
  lemma GrammarExactly(f: string, i: nat)
    requires i < |f| && f[i] == '%'
    ensures ParseSpec(f, i).Some? <==> exists p :: InGrammar(p) && Reads(f, i + 1, PartsText(p))
    ensures forall p | InGrammar(p) && Reads(f, i + 1, PartsText(p)) ::
              var r := ParseSpec(f, i); r.Some? && r.value.at == i + 1 + |PartsText(p)| && Means(p, r.value.spec)
  {
    hide ParseSpec, InGrammar, Reads, PartsText, Means;
    if ParseSpec(f, i).Some? {
      var p := PartsOfParsed(f, i);
    }
    forall p | InGrammar(p) && Reads(f, i + 1, PartsText(p))
      ensures var r := ParseSpec(f, i); r.Some? && r.value.at == i + 1 + |PartsText(p)| && Means(p, r.value.spec)
    {
      PartsParse(f, i, p);
    }
  }

  // ---------- Spellings ----------

  /** Flags may come in any order and more than once, and 'd' and 'i' are the same; parts that differ in nothing else mean
      the same specification, and only that. */
  lemma Spelling(p: Parts, q: Parts, s: Spec, t: Spec)
    requires InGrammar(p) && InGrammar(q) && Means(p, s) && Means(q, t)
    requires forall c | c in FLAGS :: c in p.flags <==> c in q.flags
    requires p.width == q.width && p.precision == q.precision && p.length == q.length
    requires p.conv == q.conv || (p.conv in "di" && q.conv in "di")
    ensures s == t
  {
    hide ConvOf, AmountValue, IsLetter, LettersOf;
    assert '-' in FLAGS && '0' in FLAGS && '+' in FLAGS && ' ' in FLAGS && '#' in FLAGS;
    ConvExactly(p.conv);
    ConvExactly(q.conv);
    if p.conv != q.conv {
      LetterOfSigned('d');
      LetterOfSigned('i');
    }
  }

  lemma LetterOfSigned(c: char)
    ensures c in "di" <==> c in LettersOf(SignedInt)
  {
  }

  /** Behind a whole length modifier only a conversion makes a specification: `%lld` and `%hhhd` are none. */
  lemma NothingElse(f: string, i: nat, p: Parts)
    requires All(p.flags, FLAGS) && IsWidth(p.width) && IsPrecision(p.precision) && !IsLetter(p.conv)
    requires p.length in {LenChar, LenLong, LenLongDouble} && i < |f| && Reads(f, i + 1, PartsText(p))
    ensures ParseSpec(f, i) == None
  {
    hide Reads, Flags, Number, Width, Precision, ConvOf, PartsText, AmountValue, AmountOpt;
    hide WidthText, PrecisionText, IsLetter, IsWidth, IsPrecision, All, FLAGS, IsFlag, Prepended;
    var p2, p3, p4, p5 := PartsRead(f, i + 1, p);
    ConvExactly(p.conv);
    ReadsFirst(f, p4, LengthText(p.length));
    assert p.length == LenChar ==> Ch(f, p4 + 1) == LengthText(p.length)[1];
    var s1 := EMPTY.(left := '-' in p.flags, zero := '0' in p.flags, alt := '#' in p.flags,
                     prepend := Prepended(p.flags, NUL));
    var s2 := s1.(width := AmountValue(p.width), widthOpt := AmountOpt(p.width));
    PrecisionParse(f, Stage(s2, p3), p.precision);
    WidthParse(f, Stage(s1, p2), p.width);
    FlagsParse(f, i + 1, p.flags, EMPTY);
  }

  // ---------- Printing a specification ----------

  /** The specifications the parser can yield */
  predicate WellFormed(s: Spec) {
    && (s.widthOpt == Literal <==> 0 < s.width)
    && (s.precOpt == Star ==> s.prec == 0)
    && s.prepend in {NUL, '+', ' '}
    && s.caseAdjust in {0, LOWER}
    && (s.caseAdjust == 0 ==> s.conv in {HexInt, FloatDec, FloatSci, FloatShortest, FloatHex})
  }

  function FlagIf(on: bool, c: char): string {
    if on then [c] else ""
  }

  function PrintFlags(s: Spec): string {
    FlagIf(s.left, '-') + (FlagIf(s.zero, '0') + (FlagIf(s.prepend != NUL, s.prepend) + FlagIf(s.alt, '#')))
  }

  /** A number in decimal, most significant digit first */
  function Decimal(n: nat): (w: string)
    ensures |w| > 0
    decreases n
  {
    if n < 10 then [(48 + n) as char] else Decimal(n / 10) + [(48 + n % 10) as char]
  }

  function PrintWidth(s: Spec): Amount {
    match s.widthOpt
    case OptNone => Absent
    case Star => FromArg
    case Literal => Numeral(Decimal(s.width))
  }

  function PrintPrecision(s: Spec): Amount {
    match s.precOpt
    case OptNone => if s.prec == 0 then Absent else Dashed(Decimal(s.prec))
    case Star => FromArg
    case Literal => Numeral(Decimal(s.prec))
  }

  function PrintLetter(conv: Conv, caseAdjust: nat): char {
    var letters := LettersOf(conv);
    if caseAdjust == 0 && |letters| == 2 then letters[1] else letters[0]
  }

  function PrintParts(s: Spec): Parts {
    Parts(PrintFlags(s), PrintWidth(s), PrintPrecision(s), s.length, PrintLetter(s.conv, s.caseAdjust))
  }

  function PrintSpec(s: Spec): string {
    "%" + PartsText(PrintParts(s))
  }

  // ---------- Parser and printer undo each other ----------

  lemma {:induction false} DecimalValue(n: nat)
    ensures All(Decimal(n), DIGITS) && NumeralValue(Decimal(n)) == n
    ensures Decimal(n)[0] == '0' <==> n == 0
    decreases n
  {
    hide DIGITS;
    var w, c := Decimal(n), (48 + n % 10) as char;
    FlagChars(c);
    if n < 10 {
      assert w[..0] == "";
    } else {
      DecimalValue(n / 10);
      assert w[..|w| - 1] == Decimal(n / 10);
    }
  }

  lemma FlagMember(on: bool, c: char, rest: string, x: char)
    ensures x in FlagIf(on, c) + rest <==> (on && x == c) || x in rest
  {
    if on {
      InCons(x, c, rest);
    } else {
      assert FlagIf(on, c) + rest == rest;
    }
  }

  lemma PrintedFlags(s: Spec, x: char)
    ensures x in PrintFlags(s) <==>
              (s.left && x == '-') || (s.zero && x == '0') || (s.prepend != NUL && x == s.prepend) || (s.alt && x == '#')
  {
    hide FlagIf;
    var w4 := FlagIf(s.alt, '#');
    var w3 := FlagIf(s.prepend != NUL, s.prepend) + w4;
    var w2 := FlagIf(s.zero, '0') + w3;
    FlagMember(s.left, '-', w2, x);
    FlagMember(s.zero, '0', w3, x);
    FlagMember(s.prepend != NUL, s.prepend, w4, x);
    FlagMember(s.alt, '#', "", x);
    assert w4 + "" == w4;
  }

  lemma PrintedFlagsShape(s: Spec)
    requires s.prepend in {NUL, '+', ' '}
    ensures All(PrintFlags(s), FLAGS)
    ensures ('-' in PrintFlags(s) <==> s.left) && ('0' in PrintFlags(s) <==> s.zero) && ('#' in PrintFlags(s) <==> s.alt)
    ensures s.prepend == if '+' in PrintFlags(s) then '+' else if ' ' in PrintFlags(s) then ' ' else NUL
  {
    hide PrintFlags;
    var w := PrintFlags(s);
    forall k | 0 <= k < |w| ensures w[k] in FLAGS {
      PrintedFlags(s, w[k]);
      FlagChars(w[k]);
    }
    PrintedFlags(s, '-'); PrintedFlags(s, '0'); PrintedFlags(s, '#'); PrintedFlags(s, '+'); PrintedFlags(s, ' ');
  }

  lemma PrintedLetter(s: Spec)
    requires WellFormed(s)
    ensures var c := PrintLetter(s.conv, s.caseAdjust);
            c in LettersOf(s.conv) && s.caseAdjust == if 'A' <= c <= 'Z' then 0 else LOWER
  {
  }

  lemma PrintedMeans(s: Spec)
    requires WellFormed(s)
    ensures InGrammar(PrintParts(s)) && Means(PrintParts(s), s)
  {
    hide PrintFlags, PrintLetter, LettersOf, Decimal, NumeralValue, All, FLAGS, DIGITS;
    PrintedFlagsShape(s);
    PrintedLetter(s);
    DecimalValue(s.width);
    DecimalValue(s.prec);
  }

  /** Parsing a printed specification, whatever surrounds it, takes exactly its characters and gives its fields back. */
  lemma ParsePrinted(f: string, i: nat, t: Spec)
    requires WellFormed(t) && Reads(f, i, PrintSpec(t))
    ensures ParseSpec(f, i) == Some(Stage(t, i + |PrintSpec(t)|))
  {
    hide Reads, ParseSpec, WellFormed, PrintParts, PartsText, InGrammar, Means;
    var p := PrintParts(t);
    PrintedMeans(t);
    ReadsSplit(f, i, "%", PartsText(p));
    ReadsOne(f, i, '%');
    PartsParse(f, i, p);
    Spelling(p, p, SpecOf(p), t);
  }

  lemma NumeralPositive(d: string)
    requires d != "" && All(d, DIGITS) && d[0] != '0'
    ensures NumeralValue(d) > 0
  {
    hide DIGITS;
    if |d| == 1 {
      FlagChars(d[0]);
      assert d[..0] == "";
    } else {
      NumeralPositive(d[..|d| - 1]);
      FlagChars(d[|d| - 1]);
    }
  }

  lemma SpecShape(p: Parts)
    requires InGrammar(p)
    ensures WellFormed(SpecOf(p))
  {
    hide NumeralValue, All, FLAGS, DIGITS, IsLetter;
    if p.width.Numeral? {
      NumeralPositive(p.width.digits);
    }
    ConvExactly(p.conv);
  }

  /** Every specification the parser yields is one the printer can print. */
  lemma ParsedIsWellFormed(f: string, i: nat)
    requires i < |f| && ParseSpec(f, i).Some?
    ensures WellFormed(ParseSpec(f, i).value.spec)
  {
    hide ParseSpec, WellFormed, InGrammar, Reads, PartsText, SpecOf;
    var p := PartsOfParsed(f, i);
    PartsParse(f, i, p);
    SpecShape(p);
  }

  /** Printing and parsing again is the identity on everything the parser yields. */
  lemma PrintParsed(f: string, i: nat)
    requires i < |f| && ParseSpec(f, i).Some?
    ensures var s := ParseSpec(f, i).value.spec;
            ParseSpec(PrintSpec(s), 0) == Some(Stage(s, |PrintSpec(s)|))
  {
    hide ParseSpec, PrintSpec;
    ParsedIsWellFormed(f, i);
    var s := ParseSpec(f, i).value.spec;
    SliceRead(PrintSpec(s), 0, |PrintSpec(s)|);
    assert PrintSpec(s)[0..|PrintSpec(s)|] == PrintSpec(s);
    ParsePrinted(PrintSpec(s), 0, s);
  }
}
