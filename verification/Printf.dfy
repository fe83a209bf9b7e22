/** `npf_vpprintf` and `npf_vsnprintf` (include/nanoprintf.h:827-1222): the loop over a format, the conversions, the
    padding, and the bounded buffer in front of them. */
module Printf {
  import opened Options
  import opened Digits
  import opened FormatSpec
  import opened FormatGrammar
  import opened Conversions
  import FloatBuffer
  import FloatDigits

  // ---------- What a format prints ----------

  /** The arguments from position k on are of the types the format takes from position i on; excess ones are allowed. */
  predicate ArgsOk(f: string, i: nat, args: seq<Arg>, k: nat)
    requires i <= |f|
    decreases |f| - i
  {
    i < |f| ==>
      if f[i] != '%' || ParseSpec(f, i).None? then ArgsOk(f, i + 1, args, k)
      else
        var s := ParseSpec(f, i).value;
        Supplied(s.spec, args, k) && ArgsOk(f, s.at, args, k + Consumed(s.spec))
  }

  lemma ParsedCase(f: string, i: nat)
    requires i < |f| && ParseSpec(f, i).Some?
    ensures ParseSpec(f, i).value.spec.caseAdjust in {0, LOWER}
  {
    hide ParseSpec;
    ParsedIsWellFormed(f, i);
  }

  /** The output of an unbounded printer: other characters stand for themselves, and so does a '%' that starts no
      specification. */
  function Output(f: string, i: nat, args: seq<Arg>, k: nat): string
    requires i <= |f| && ArgsOk(f, i, args, k)
    decreases |f| - i
  {
    if i == |f| then ""
    else if f[i] != '%' || ParseSpec(f, i).None? then [f[i]] + Output(f, i + 1, args, k)
    else
      var s := ParseSpec(f, i).value;
      ParsedCase(f, i);
      Formatted(s.spec, args, k) + Output(f, s.at, args, k + Consumed(s.spec))
  }

  /** The sum of the lengths: one for a character, and for a conversion the width or what stands in the field */
  function Counted(f: string, i: nat, args: seq<Arg>, k: nat): nat
    requires i <= |f| && ArgsOk(f, i, args, k)
    decreases |f| - i
  {
    if i == |f| then 0
    else if f[i] != '%' || ParseSpec(f, i).None? then 1 + Counted(f, i + 1, args, k)
    else
      var s := ParseSpec(f, i).value;
      ParsedCase(f, i);
      FieldLength(s.spec, args, k) + Counted(f, s.at, args, k + Consumed(s.spec))
  }

  /** The width or, if more, the characters that stand in the field */
  function FieldLength(s: Spec, args: seq<Arg>, k: nat): nat
    requires s.caseAdjust in {0, LOWER} && Supplied(s, args, k)
  {
    var t := Settled(s, args, k);
    var core := |Core(Converted(t, ArgOf(s, args, k)))|;
    if t.width > core then t.width else core
  }

  lemma {:induction false} CountIsSum(f: string, i: nat, args: seq<Arg>, k: nat)
    requires i <= |f| && ArgsOk(f, i, args, k)
    ensures |Output(f, i, args, k)| == Counted(f, i, args, k)
    decreases |f| - i
  {
    hide ParseSpec, Field, Core, Converted, Supplied, WellFormed;
    if i < |f| {
      if f[i] != '%' || ParseSpec(f, i).None? {
        CountIsSum(f, i + 1, args, k);
      } else {
        var s := ParseSpec(f, i).value;
        FormattedLength(f, i, args, k);
        CountIsSum(f, s.at, args, k + Consumed(s.spec));
      }
    }
  }

  /** The width law for a parsed specification: unset widths are 0. */
  lemma FormattedLength(f: string, i: nat, args: seq<Arg>, k: nat)
    requires i < |f| && ParseSpec(f, i).Some? && Supplied(ParseSpec(f, i).value.spec, args, k)
    ensures WellFormed(ParseSpec(f, i).value.spec)
    ensures var s := ParseSpec(f, i).value.spec; |Formatted(s, args, k)| == FieldLength(s, args, k)
  {
    hide ParseSpec, Field, Core, Converted;
    ParsedIsWellFormed(f, i);
    var s := ParseSpec(f, i).value.spec;
    var t := Settled(s, args, k);
    NeverBoth(t, ArgOf(s, args, k));
    WidthLaw(Converted(t, ArgOf(s, args, k)));
  }

  /** The output from i on is that of specification t, and then that of the format from j on. */
  predicate Splits(f: string, i: nat, args: seq<Arg>, k: nat, t: Spec, j: nat)
    requires i <= |f| && ArgsOk(f, i, args, k)
  {
    && j <= |f| && t.caseAdjust in {0, LOWER} && Supplied(t, args, k) && ArgsOk(f, j, args, k + Consumed(t))
    && Output(f, i, args, k) == Formatted(t, args, k) + Output(f, j, args, k + Consumed(t))
  }

  /** Any text of the grammar behind a '%' is converted by what its parts mean, and the rest of the format by the
      arguments left. */
  lemma SpecOutput(p: Parts, t: Spec, f: string, i: nat, args: seq<Arg>, k: nat)
    requires InGrammar(p) && Means(p, t) && i < |f| && f[i] == '%' && Reads(f, i + 1, PartsText(p)) && ArgsOk(f, i, args, k)
    ensures Splits(f, i, args, k, t, i + 1 + |PartsText(p)|)
  {
    hide ParseSpec, PartsText, InGrammar, Means, Reads, Formatted, Supplied;
    PartsParse(f, i, p);
    Spelling(p, p, SpecOf(p), t);
    ParsedCase(f, i);
  }

  /** A '%' that no text of the grammar follows prints itself. */
  lemma LonePercent(f: string, i: nat, args: seq<Arg>, k: nat)
    requires i < |f| && f[i] == '%' && ArgsOk(f, i, args, k)
    requires !exists p :: InGrammar(p) && Reads(f, i + 1, PartsText(p))
    ensures ArgsOk(f, i + 1, args, k) && Output(f, i, args, k) == "%" + Output(f, i + 1, args, k)
  {
    hide ParseSpec, PartsText, InGrammar, Reads, Formatted, Supplied;
    GrammarExactly(f, i);
  }

  /** A printed specification in a format is converted by its fields, and the rest of the format by the arguments left. */
  lemma PrintedSpecOutput(t: Spec, f: string, i: nat, args: seq<Arg>, k: nat)
    requires WellFormed(t) && Reads(f, i, PrintSpec(t)) && i < |f| && ArgsOk(f, i, args, k)
    ensures Splits(f, i, args, k, t, i + |PrintSpec(t)|)
  {
    hide ParseSpec, PartsText, PrintParts, InGrammar, Means, Reads, WellFormed, Output, Splits;
    PrintedMeans(t);
    ReadsSplit(f, i, "%", PartsText(PrintParts(t)));
    ReadsOne(f, i, '%');
    SpecOutput(PrintParts(t), t, f, i, args, k);
  }

  /** A format without '%' prints itself. */
  lemma {:induction false} PlainOutput(f: string, i: nat, args: seq<Arg>, k: nat)
    requires i <= |f| && '%' !in f[i..]
    ensures ArgsOk(f, i, args, k) && Output(f, i, args, k) == f[i..]
    decreases |f| - i
  {
    if i < |f| {
      assert f[i..] == [f[i]] + f[i + 1..];
      PlainOutput(f, i + 1, args, k);
    }
  }

  // ---------- Precision where none is called for ----------

  /** A precision pads `%c` and `%%` with zeros: one character is printed if and only if the precision is at most 1. */
  lemma PrecisionPadsCharacters(s: Spec, a: Arg)
    requires s.conv in {Character, Percent} && s.caseAdjust in {0, LOWER} && Accepts(s, a)
    ensures var core := Core(Converted(s, a));
            && (|core| == 1 <==> s.prec <= 1)
            && core == Fill(s.prec - 1, '0') + [if s.conv == Percent then '%' else (a.i % 0x100) as char]
  {
    hide SignedPiece, UnsignedPiece, FloatPiece;
    var p := Converted(s, a);
    assert Core(p) == Fill(PrecPad(p), '0') + p.body;
  }

  /** `%.3c` */
  lemma PaddedCharacter()
    ensures ArgsOk("%.3c", 0, [IntArg(97)], 0) && Output("%.3c", 0, [IntArg(97)], 0) == "00a"
  {
    hide Formatted, ArgsOk, Output;
    var t := EMPTY.(prec := 3, precOpt := Literal, conv := Character);
    var args := [IntArg(97)];
    var p := Parts("", Absent, Numeral("3"), LenNone, 'c');
    assert "%" + PartsText(p) == "%.3c";
    assert NumeralValue("3") == 3 && 'c' == LettersOf(Character)[0];
    AloneOutput(p, t, args);
    PaddedField(t, args);
  }

  lemma PaddedField(t: Spec, args: seq<Arg>)
    requires t == EMPTY.(prec := 3, precOpt := Literal, conv := Character) && args == [IntArg(97)]
    ensures Supplied(t, args, 0) && Formatted(t, args, 0) == "00a"
  {
    hide Fill;
    PrecisionPadsCharacters(Settled(t, args, 0), args[0]);
    FillSome();
  }

  lemma FillSome()
    ensures Fill(3, '0') == "000" && Fill(2, '0') == "00" && Fill(0, ' ') == "" && Fill(0, '0') == ""
  {
  }

  /** A specification alone in a format, however it is spelled, prints the field of what it means. */
  lemma AloneOutput(p: Parts, t: Spec, args: seq<Arg>)
    requires InGrammar(p) && Means(p, t) && Supplied(t, args, 0) && t.caseAdjust in {0, LOWER}
    ensures var f := "%" + PartsText(p);
            ArgsOk(f, 0, args, 0) && Output(f, 0, args, 0) == Formatted(t, args, 0)
  {
    hide PartsText, ParseSpec, Formatted, Supplied, InGrammar, Means;
    var f := "%" + PartsText(p);
    assert f[1..1 + |PartsText(p)|] == PartsText(p);
    PartsParse(f, 0, p);
    Spelling(p, p, SpecOf(p), t);
    assert Formatted(t, args, 0) + "" == Formatted(t, args, 0);
  }

  /** `%i` prints what `%d` prints. */
  lemma LetterI()
    ensures ArgsOk("%i", 0, [IntArg(42)], 0) && Output("%i", 0, [IntArg(42)], 0) == "42"
  {
    hide Formatted, ArgsOk, Output, Numerals;
    var p, t := Parts("", Absent, Absent, LenNone, 'i'), EMPTY.(conv := SignedInt);
    assert "%" + PartsText(p) == "%i";
    assert 'i' == LettersOf(SignedInt)[1];
    AloneOutput(p, t, [IntArg(42)]);
    PlainField(t, [IntArg(42)]);
  }

  lemma PlainField(t: Spec, args: seq<Arg>)
    requires t == EMPTY.(conv := SignedInt) && args == [IntArg(42)]
    ensures Supplied(t, args, 0) && Formatted(t, args, 0) == "42"
  {
    hide Numerals, Fill;
    FortyTwo();
    var p := Converted(Settled(t, args, 0), args[0]);
    assert p.body == "42" && PrecPad(p) == 0 && Lead(p) == "" && FieldPad(p) == 0;
    FillSome();
  }

  /** The digits n of a `.-n` set no precision, and strings, floats and pointers ignore them; but they stay in the field
      that pads integers: the padding differs from none if and only if n is more than the number of digits. */
  lemma DashPrecision(s: Spec, args: seq<Arg>, k: nat)
    requires s.precOpt == OptNone && s.caseAdjust in {0, LOWER} && Supplied(s, args, k)
    ensures var t, a := Settled(s, args, k), ArgOf(s, args, k);
            var p := Converted(t, a);
            && (IsFloat(s.conv) ==> t.prec == 6)
            && (s.conv == Pointer ==> t.prec == 16)
            && (s.conv == Text && a.text.Some? ==> p.body == a.text.value)
            && (IsInteger(s.conv) ==>
                  && p.body == Converted(t.(prec := 0), a).body
                  && PrecPad(p) + |p.body| == (if s.prec > |p.body| then s.prec else |p.body|)
                  && (PrecPad(p) == 0 <==> s.prec <= |p.body|)
                  && PrecPad(Converted(t.(prec := 0), a)) == 0)
  {
    hide Supplied, SignedPiece, UnsignedPiece, FloatPiece, WithStars, Fill, PrecPad;
    SettledDash(s, args, k);
    if IsInteger(s.conv) {
      var t := Settled(s, args, k);
      DashInteger(t, t.(prec := 0), ArgOf(s, args, k));
    }
  }

  lemma SettledDash(s: Spec, args: seq<Arg>, k: nat)
    requires s.precOpt == OptNone && Supplied(s, args, k)
    ensures var t := Settled(s, args, k);
            && t.precOpt == OptNone
            && t.prec == if IsFloat(s.conv) then 6 else if s.conv == Pointer then 16 else s.prec
  {
    hide Accepts;
  }

  lemma DashInteger(t: Spec, u: Spec, a: Arg)
    requires t.precOpt == OptNone && IsInteger(t.conv) && t.caseAdjust in {0, LOWER}
    requires u == t.(prec := 0) && Accepts(t, a) && Accepts(u, a)
    ensures var p, q := Converted(t, a), Converted(u, a);
            && p.body == q.body && PrecPad(q) == 0
            && PrecPad(p) + |p.body| == (if t.prec > |p.body| then t.prec else |p.body|)
            && (PrecPad(p) == 0 <==> t.prec <= |p.body|)
  {
    hide Numerals, SignedOf, UnsignedOf, Accepts;
    SameArgument(t, u, a);
  }

  lemma SameArgument(t: Spec, u: Spec, a: Arg)
    requires t.conv == u.conv && t.length == u.length && IsInteger(t.conv) && Accepts(t, a) && Accepts(u, a)
    ensures t.conv == SignedInt ==> SignedOf(t, a) == SignedOf(u, a)
    ensures IsUnsigned(t.conv) ==> UnsignedOf(t, a) == UnsignedOf(u, a)
  {
  }

  /** `%.-5d` */
  lemma DashExample()
    ensures ArgsOk("%.-5d", 0, [IntArg(42)], 0) && Output("%.-5d", 0, [IntArg(42)], 0) == "00042"
  {
    hide Formatted, ArgsOk, Output, Numerals;
    var t := EMPTY.(prec := 5, conv := SignedInt);
    var args := [IntArg(42)];
    var p := Parts("", Absent, Dashed("5"), LenNone, 'd');
    assert "%" + PartsText(p) == "%.-5d";
    assert NumeralValue("5") == 5 && 'd' == LettersOf(SignedInt)[0];
    AloneOutput(p, t, args);
    DashField(t, args);
  }

  lemma DashField(t: Spec, args: seq<Arg>)
    requires t == EMPTY.(prec := 5, conv := SignedInt) && args == [IntArg(42)]
    ensures Supplied(t, args, 0) && Formatted(t, args, 0) == "00042"
  {
    hide Numerals, Fill;
    FortyTwo();
    var p := Converted(Settled(t, args, 0), args[0]);
    assert p.body == "42" && PrecPad(p) == 3 && Lead(p) == "" && FieldPad(p) == 0;
    FillSome();
  }

  lemma FortyTwo()
    ensures Numerals(42, 10, LOWER) == "42"
  {
    DigitsUnfold(42, 10, LOWER);
    DigitsUnfold(4, 10, LOWER);
    assert DigitsRev(42, 10, LOWER) == "24";
  }

  // ---------- The character sinks ----------

  function Min(a: nat, b: nat): nat {
    if a <= b then a else b
  }

  /** The counting wrapper `npf_cnt_putc_ctx_t` and the buffer `npf_bufputc_ctx_t` it forwards to; without a buffer the
      characters go to `npf_bufputc_nop`. */
  class Sink {
    const dst: array?<char>
    const len: nat
    var cur: nat
    var n: nat
    ghost var emitted: string
    ghost var start: nat
    ghost const before: string

    ghost predicate Valid()
      reads this, dst
    {
      && start + n == |emitted|
      && (dst != null ==>
            && len <= dst.Length == |before| && cur == Min(|emitted|, len)
            && dst[..] == emitted[..cur] + before[cur..])
    }

    constructor (dst: array?<char>, len: nat)
      requires dst != null ==> len <= dst.Length
      ensures Valid() && this.dst == dst && this.len == len && emitted == "" && (dst != null ==> before == dst[..])
    {
      this.dst, this.len, cur, n := dst, len, 0, 0;
      emitted, start := "", 0;
      before := if dst == null then "" else dst[..];
    }

    /** Starts counting anew. */
    method Restart()
      requires Valid()
      modifies `n, `start
      ensures Valid() && start == |emitted|
    {
      n, start := 0, |emitted|;
    }

    method Count() returns (count: nat)
      requires Valid()
      ensures start + count == |emitted|
    {
      count := n;
    }

    /** `npf_putc_cnt`, and behind it `npf_bufputc` or `npf_bufputc_nop` */
    method PutC(c: char)
      requires Valid()
      modifies `cur, `n, `emitted, dst
      ensures Valid() && emitted == old(emitted) + [c]
    {
      n := n + 1;
      emitted := emitted + [c];
      if dst != null {
        if cur < len {
          dst[cur] := c;
          cur := cur + 1;
        }
      }
    }

    /** `while (pad-- > 0) { NPF_PUTC(c); }` */
    method PutFill(c: char, count: int)
      requires Valid()
      modifies `cur, `n, `emitted, dst
      ensures Valid() && emitted == old(emitted) + Fill(count, c)
    {
      var pad := count;
      while pad > 0
        invariant Valid() && (pad <= count || pad <= 0)
        invariant emitted == old(emitted) + Fill(count - (if pad > 0 then pad else 0), c)
      {
        PutC(c);
        pad := pad - 1;
      }
    }

    /** The first `count` characters of a string */
    method PutText(text: string, count: nat)
      requires Valid() && count <= |text|
      modifies `cur, `n, `emitted, dst
      ensures Valid() && emitted == old(emitted) + text[..count]
    {
      var i := 0;
      while i < count
        invariant Valid() && i <= count && emitted == old(emitted) + text[..i]
      {
        PutC(text[i]);
        i := i + 1;
      }
    }

    /** The payload, last character first */
    method PutReversed(cbuf: array<char>, count: nat)
      requires Valid() && count <= cbuf.Length && cbuf != dst
      modifies `cur, `n, `emitted, dst
      ensures Valid() && emitted == old(emitted) + FloatDigits.Reverse(cbuf[..count])
    {
      var k: nat := count;
      ghost var w := FloatDigits.Reverse(cbuf[..count]);
      while k > 0
        invariant Valid() && k <= count && cbuf[..count] == old(cbuf[..count])
        invariant emitted == old(emitted) + w[..count - k]
      {
        k := k - 1;
        PutC(cbuf[k]);
      }
    }
  }

  // ---------- Laying out a field ----------

  /** What the padding code writes before the payload */
  ghost function Before(p: Piece): string {
    if p.spec.left then Prefix(p)
    else if PadChar(p) == '0' then Sign(p) + (Prefix(p) + Fill(FieldPad(p), '0'))
    else Fill(FieldPad(p), ' ') + Prefix(p)
  }

  ghost function Payload(p: Piece): string {
    (if PadChar(p) == '0' then "" else Sign(p)) + (Fill(PrecPad(p), '0') + p.body)
  }

  ghost function After(p: Piece): string {
    if p.spec.left then Fill(FieldPad(p), ' ') else ""
  }

  /** The three parts, in the code's order, are the field. */
  lemma FieldInOrder(p: Piece)
    requires p.sign == NUL || p.hex == NUL
    ensures Field(p) == Before(p) + (Payload(p) + After(p))
  {
    hide PadChar, FieldPad, PrecPad;
    PadCharCases(p);
    if p.spec.left {
      assert Field(p) == Lead(p) + (Fill(PrecPad(p), '0') + p.body) + Fill(FieldPad(p), ' ');
    } else if PadChar(p) == '0' {
      assert Field(p) == (Sign(p) + Prefix(p)) + (Fill(FieldPad(p), '0') + (Fill(PrecPad(p), '0') + p.body));
    } else {
      assert Field(p) == Fill(FieldPad(p), ' ') + ((Sign(p) + Prefix(p)) + (Fill(PrecPad(p), '0') + p.body));
    }
  }

  lemma PadCharCases(p: Piece)
    ensures PadChar(p) == '0' ==> !p.spec.left
    ensures PadChar(p) in {NUL, ' ', '0'} && (PadChar(p) == NUL ==> FieldPad(p) == 0)
  {
  }

  /** The field of a converted argument: pad character, paddings, and the three parts.  The reversed payload is in cbuf,
      that of a string in text. */
  method PutField(sink: Sink, fs: SpecBuffer, cbuf: array<char>, text: string, size: nat, sign: char, hex: char, zero: bool,
                  ghost p: Piece)
    requires sink.Valid() && cbuf != sink.dst && fs.Value() == p.spec
    requires sign == p.sign && hex == p.hex && zero == p.zero && size == |p.body| && (sign == NUL || hex == NUL)
    requires Holds(p, cbuf[..], text) && (fs.conv == Text ==> sign == NUL)
    modifies sink`cur, sink`n, sink`emitted, sink.dst
    ensures sink.Valid() && sink.emitted == old(sink.emitted) + Field(p)
  {
    hide Field, Before, Payload, PadChar, PrecPad, FieldPad, Holds;
    var padC, precPad, fieldPad := Paddings(fs, size, sign, hex, zero, p);
    PutBefore(sink, fs.left, padC, fieldPad, sign, hex, p);
    PutPayload(sink, fs.conv, padC, precPad, sign, cbuf, text, size, p);
    if fs.left && padC != NUL {
      sink.PutFill(padC, fieldPad);
    }
    PadCharCases(p);
    FieldInOrder(p);
    assert sink.emitted == old(sink.emitted) + (Before(p) + (Payload(p) + After(p)));
  }

  /** The pad character, and the numbers of zeros and of pad characters */
  method Paddings(fs: SpecBuffer, size: nat, sign: char, hex: char, zero: bool, ghost p: Piece)
    returns (padC: char, precPad: int, fieldPad: int)
    requires fs.Value() == p.spec
    requires sign == p.sign && hex == p.hex && zero == p.zero && size == |p.body|
    ensures padC == PadChar(p) && precPad == PrecPad(p) && (padC != NUL ==> fieldPad == FieldPad(p))
  {
    padC, precPad := NUL, 0;
    if fs.widthOpt != OptNone {
      if fs.zero && !fs.left {
        padC := if fs.precOpt != OptNone && fs.prec == 0 && zero then ' ' else '0';
      } else {
        padC := ' ';
      }
    }
    if fs.conv != Text && !IsFloat(fs.conv) {
      precPad := if fs.prec > size then fs.prec - size else 0;
    }
    fieldPad := fs.width - size - (if sign != NUL then 1 else 0);
    if hex != NUL {
      fieldPad := fieldPad - 2;
    }
    fieldPad := fieldPad - precPad;
    fieldPad := if fieldPad > 0 then fieldPad else 0;
  }

  /** Where the payload of a piece is */
  ghost predicate Holds(p: Piece, cbuf: string, text: string) {
    if p.spec.conv == Text then |p.body| <= |text| && text[..|p.body|] == p.body
    else |p.body| <= |cbuf| && FloatDigits.Reverse(cbuf[..|p.body|]) == p.body
  }

  method PutBefore(sink: Sink, left: bool, padC: char, fieldPad: int, sign: char, hex: char, ghost p: Piece)
    requires sink.Valid() && left == p.spec.left && padC == PadChar(p) && (padC != NUL ==> fieldPad == FieldPad(p))
    requires sign == p.sign && hex == p.hex
    modifies sink`cur, sink`n, sink`emitted, sink.dst
    ensures sink.Valid() && sink.emitted == old(sink.emitted) + Before(p)
  {
    hide PadChar, FieldPad, Sink.Valid;
    PadCharCases(p);
    if !left && padC != NUL {
      if padC == '0' {
        if sign != NUL {
          sink.PutC(sign);
        }
        PutPrefix(sink, hex, p);
      }
      sink.PutFill(padC, fieldPad);
      if padC != '0' {
        PutPrefix(sink, hex, p);
      }
    } else {
      PutPrefix(sink, hex, p);
    }
  }

  method PutPrefix(sink: Sink, hex: char, ghost p: Piece)
    requires sink.Valid() && hex == p.hex
    modifies sink`cur, sink`n, sink`emitted, sink.dst
    ensures sink.Valid() && sink.emitted == old(sink.emitted) + Prefix(p)
  {
    if hex != NUL {
      sink.PutC('0');
      sink.PutC(hex);
    }
  }

  method PutPayload(sink: Sink, conv: Conv, padC: char, precPad: int, sign: char, cbuf: array<char>, text: string, size: nat,
                    ghost p: Piece)
    requires sink.Valid() && cbuf != sink.dst && conv == p.spec.conv && padC == PadChar(p) && precPad == PrecPad(p)
    requires sign == p.sign && size == |p.body| && Holds(p, cbuf[..], text)
    requires conv == Text ==> sign == NUL
    modifies sink`cur, sink`n, sink`emitted, sink.dst
    ensures sink.Valid() && sink.emitted == old(sink.emitted) + Payload(p)
  {
    hide PadChar, Sink.Valid, FloatDigits.Reverse;
    if conv == Text {
      sink.PutText(text, size);
      TextPayload(p);
    } else {
      // A sign put in front of padding zeros has been cleared.
      PutReversedPayload(sink, if padC == '0' then NUL else sign, precPad, cbuf, size);
      assert cbuf[..size] == cbuf[..][..size];
    }
  }

  lemma TextPayload(p: Piece)
    requires p.spec.conv == Text && p.sign == NUL
    ensures Payload(p) == p.body
  {
  }

  /** Sign, precision zeros and the reversed buffer */
  method PutReversedPayload(sink: Sink, sign: char, precPad: int, cbuf: array<char>, size: nat)
    requires sink.Valid() && cbuf != sink.dst && size <= cbuf.Length
    modifies sink`cur, sink`n, sink`emitted, sink.dst
    ensures sink.Valid() && cbuf[..] == old(cbuf[..])
    ensures sink.emitted ==
            old(sink.emitted) + ((if sign == NUL then "" else [sign]) + (Fill(precPad, '0') + FloatDigits.Reverse(cbuf[..size])))
  {
    hide Sink.Valid, Fill, FloatDigits.Reverse;
    ghost var s := if sign == NUL then "" else [sign];
    if sign != NUL {
      sink.PutC(sign);
    }
    assert sink.emitted == old(sink.emitted) + s;
    sink.PutFill('0', precPad);
    sink.PutReversed(cbuf, size);
    Behind(old(sink.emitted), s, Fill(precPad, '0'), FloatDigits.Reverse(cbuf[..size]));
  }

  lemma Behind(a: string, b: string, c: string, d: string)
    ensures a + b + c + d == a + (b + (c + d))
  {
  }

  // ---------- Star arguments, defaults, conversions ----------

  /** Reads the arguments of a '*' width and precision. */
  method ReadStars(fs: SpecBuffer, args: seq<Arg>, start: nat) returns (k: nat)
    requires Supplied(fs.Value(), args, start)
    modifies fs
    ensures fs.Value() == WithStars(old(fs.Value()), args, start) && k == start + StarCount(old(fs.Value()))
  {
    k := start;
    if fs.widthOpt == Star {
      var w: int := args[k].i;
      k := k + 1;
      if w < 0 {
        fs.width, fs.left := -w, true;
      } else {
        fs.width := w;
      }
    }
    if fs.precOpt == Star {
      var p: int := args[k].i;
      k := k + 1;
      if p < 0 {
        fs.prec, fs.precOpt := 0, OptNone;
      } else {
        fs.prec := p;
      }
    }
  }

  method SetDefaults(fs: SpecBuffer)
    modifies fs
    ensures fs.Value() == WithDefaults(old(fs.Value()))
  {
    if fs.precOpt == OptNone && IsFloat(fs.conv) {
      fs.prec := 6;
    }
    if fs.precOpt == OptNone && fs.conv == Pointer {
      fs.prec := 16;
    }
    if fs.precOpt != OptNone && IsInteger(fs.conv) {
      fs.zero := false;
    }
  }

  /** The number of characters of a string to print: up to its NUL, and to the precision if there is one */
  method MeasureText(fs: SpecBuffer, text: Option<CString>) returns (size: nat)
    ensures size == |TextOf(fs.Value(), text)|
  {
    size := 0;
    if text.None? {
      return;
    }
    while (fs.precOpt == OptNone || size < fs.prec) && Ch(text.value, size) != NUL
      invariant size <= |text.value| && (fs.precOpt == OptNone || size <= fs.prec)
      decreases |text.value| - size
    {
      size := size + 1;
    }
  }

  /** `0 - (npf_uint_t)val`, modulo 2^64 */
  function Negated(val: int): (u: nat)
    requires -(SIGN as int) <= val < 0
    ensures u == -val
  {
    (0x1_0000_0000_0000_0000 - val % 0x1_0000_0000_0000_0000) % 0x1_0000_0000_0000_0000
  }

  /** The payload of a piece other than a string, from what lies at the front of the buffer */
  lemma ReversedHolds(p: Piece, cbuf: string, size: nat)
    requires p.spec.conv != Text && size <= |cbuf| && p.body == FloatDigits.Reverse(cbuf[..size])
    ensures |p.body| == size && Holds(p, cbuf, "")
  {
  }

  method ConvertSigned(fs: SpecBuffer, cbuf: array<char>, val: int) returns (sign: char, zero: bool, size: nat)
    requires cbuf.Length == 64 && fs.conv == SignedInt && fs.caseAdjust in {0, LOWER} && -(SIGN as int) <= val < SIGN
    modifies cbuf
    ensures var p := SignedPiece(fs.Value(), val);
            && p.spec == fs.Value() && sign == p.sign && p.hex == NUL && zero == p.zero && size == |p.body| <= 64
            && p.spec.conv == old(fs.conv) && Holds(p, cbuf[..], "")
  {
    hide DigitsRev, Holds, Negated;
    sign := if val < 0 then '-' else fs.prepend;
    zero := val == 0;
    if val == 0 && fs.precOpt != OptNone && fs.prec == 0 {
      size := 0;
    } else {
      var uval: nat := if val < 0 then Negated(val) else val;
      size := UtoaRev(uval, cbuf, 10, fs.caseAdjust);
    }
    assert cbuf[..][..size] == cbuf[..size];
    ReversedHolds(SignedPiece(fs.Value(), val), cbuf[..], size);
  }

  method ConvertUnsigned(fs: SpecBuffer, cbuf: array<char>, val: nat) returns (hex: char, zero: bool, size: nat)
    requires cbuf.Length == 64 && fs.caseAdjust in {0, LOWER} && val < 0x1_0000_0000_0000_0000 && IsUnsigned(fs.conv)
    modifies fs, cbuf
    ensures var p := UnsignedPiece(old(fs.Value()), val);
            && fs.Value() == p.spec && p.sign == NUL && hex == p.hex && zero == p.zero && size == |p.body| <= 64
            && p.spec.conv == old(fs.conv) && Holds(p, cbuf[..], "")
  {
    hide DigitsRev, Holds, FloatDigits.Reverse;
    ghost var was := fs.Value();
    hex, zero, size := NUL, val == 0, 0;
    if val == 0 && fs.precOpt != OptNone && fs.prec == 0 {
      if fs.conv == Octal && fs.alt {
        fs.prec := 1;
      }
    } else {
      size := UtoaRev(val, cbuf, if fs.conv == Octal then 8 else if fs.conv == UnsignedInt then 10 else 16, fs.caseAdjust);
    }
    if val != 0 && fs.alt && fs.conv == Octal {
      ghost var digits := cbuf[..size];
      cbuf[size] := '0';
      size := size + 1;
      FloatBuffer.ReverseSnoc(digits, '0');
      assert cbuf[..size] == digits + ['0'];
    }
    if val != 0 && fs.alt && fs.conv in {HexInt, Pointer} {
      hex := ('X' as nat + fs.caseAdjust) as char;
    }
    assert cbuf[..][..size] == cbuf[..size];
    ReversedHolds(UnsignedPiece(was, val), cbuf[..], size);
  }

  method ConvertFloat(fs: SpecBuffer, cbuf: array<char>, bits: UInt64) returns (sign: char, zero: bool, size: nat)
    requires cbuf.Length == 64 && IsFloat(fs.conv) && fs.caseAdjust in {0, LOWER}
    modifies fs, cbuf
    ensures var p := FloatPiece(old(fs.Value()), bits);
            && fs.Value() == p.spec && sign == p.sign && p.hex == NUL && zero == p.zero && size == |p.body| <= 64
            && p.spec.conv == old(fs.conv) && Holds(p, cbuf[..], "")
  {
    hide FloatDigits.Convert, FloatBuffer.Leaves, FloatPiece, Holds;
    ghost var was := fs.Value();
    FloatSign(was, bits);
    sign := if bits / SIGN != 0 then '-' else fs.prepend;
    zero := bits % SIGN == 0;
    var n := FloatBuffer.FtoaRev(cbuf, fs.prec, fs.alt, fs.caseAdjust, bits);
    FloatHolds(was, bits, cbuf[..], n);
    if n < 0 {
      n := -n;
      fs.zero := false;
    }
    size := n;
  }

  lemma FloatSign(s: Spec, bits: UInt64)
    requires s.caseAdjust in {0, LOWER}
    ensures var p := FloatPiece(s, bits);
            && p.sign == (if bits / SIGN != 0 then '-' else s.prepend) && p.zero == (bits % SIGN == 0) && p.hex == NUL
            && p.spec.conv == s.conv
  {
    hide FloatDigits.Convert, FloatDigits.Reverse;
  }

  /** What the converter leaves in the buffer is the body of the piece. */
  lemma FloatHolds(s: Spec, bits: UInt64, t: string, n: int)
    requires s.caseAdjust in {0, LOWER} && s.conv != Text && |t| == 64
    requires FloatBuffer.Leaves(FloatDigits.Convert(bits, s.prec, s.alt), t, n, s.caseAdjust)
    ensures var p := FloatPiece(s, bits);
            && p.spec == (if n < 0 then s.(zero := false) else s)
            && |p.body| == (if n < 0 then -n else n) <= 64 && Holds(p, t, "")
  {
    hide FloatDigits.Convert, FloatDigits.Reverse, FloatBuffer.CaseText;
    FloatBuffer.WordsAreLetters(bits, s.prec, s.alt);
  }

  /** The conversion switch: what it leaves in the specification, the buffer and the local variables is the piece. */
  method Convert(fs: SpecBuffer, cbuf: array<char>, a: Arg)
    returns (sign: char, hex: char, zero: bool, size: nat, text: string)
    requires cbuf.Length == 64 && fs.caseAdjust in {0, LOWER} && Accepts(fs.Value(), a)
    modifies fs, cbuf
    ensures var p := Converted(old(fs.Value()), a);
            && fs.Value() == p.spec && sign == p.sign && hex == p.hex && zero == p.zero && size == |p.body|
            && Holds(p, cbuf[..], text) && (fs.conv == Text ==> sign == NUL) && (sign == NUL || hex == NUL)
  {
    hide SignedPiece, UnsignedPiece, FloatPiece, SignedOf, UnsignedOf;
    sign, hex, zero, size, text := NUL, NUL, false, 0, "";
    if fs.conv == Percent {
      cbuf[0], size := '%', 1;
      assert cbuf[..][..1] == "%";
    } else if fs.conv == Character {
      cbuf[0], size := (a.i % 0x100) as char, 1;
      assert cbuf[..][..1] == [(a.i % 0x100) as char];
    } else if fs.conv == Text {
      size := MeasureText(fs, a.text);
      text := if a.text.None? then "" else a.text.value;
    } else if fs.conv == SignedInt {
      sign, zero, size := ConvertSigned(fs, cbuf, SignedOf(fs.Value(), a));
    } else if IsUnsigned(fs.conv) {
      hex, zero, size := ConvertUnsigned(fs, cbuf, UnsignedOf(fs.Value(), a));
    } else {
      sign, zero, size := ConvertFloat(fs, cbuf, if a.DoubleArg? then a.bits else a.converted);
    }
  }

  // ---------- npf_vpprintf and npf_vsnprintf ----------

  /** One conversion: arguments, defaults, conversion, field */
  method PutConversion(sink: Sink, fs: SpecBuffer, cbuf: array<char>, args: seq<Arg>, start: nat) returns (k: nat)
    requires sink.Valid() && cbuf.Length == 64 && cbuf != sink.dst
    requires fs.caseAdjust in {0, LOWER} && Supplied(fs.Value(), args, start)
    modifies sink`cur, sink`n, sink`emitted, sink.dst, fs, cbuf
    ensures sink.Valid() && k == start + Consumed(old(fs.Value()))
    ensures sink.emitted == old(sink.emitted) + Formatted(old(fs.Value()), args, start)
  {
    hide Converted, Field, Sink.Valid, WithStars, WithDefaults, Holds;
    ghost var was := fs.Value();
    ghost var settled := Settled(was, args, start);
    k := ReadStars(fs, args, start);
    SetDefaults(fs);
    var a := IntArg(0);
    if TakesArg(fs.Value()) {
      a := args[k];
      k := k + 1;
    }
    var sign, hex, zero, size, text := Convert(fs, cbuf, a);
    PutField(sink, fs, cbuf, text, size, sign, hex, zero, Converted(settled, a));
  }

  /** One turn of the loop: what is printed so far grows by the next character or field. */
  lemma OutputStep(f: string, i: nat, args: seq<Arg>, k: nat, before: string)
    requires i < |f| && ArgsOk(f, i, args, k)
    ensures f[i] != '%' || ParseSpec(f, i).None? ==>
              && ArgsOk(f, i + 1, args, k)
              && before + Output(f, i, args, k) == before + [f[i]] + Output(f, i + 1, args, k)
    ensures f[i] == '%' && ParseSpec(f, i).Some? ==>
              var s := ParseSpec(f, i).value;
              && WellFormed(s.spec) && Supplied(s.spec, args, k) && ArgsOk(f, s.at, args, k + Consumed(s.spec))
              && before + Output(f, i, args, k) ==
                 before + Formatted(s.spec, args, k) + Output(f, s.at, args, k + Consumed(s.spec))
  {
    hide ParseSpec, Formatted, Supplied, Consumed;
    if f[i] != '%' || ParseSpec(f, i).None? {
      assert before + ([f[i]] + Output(f, i + 1, args, k)) == before + [f[i]] + Output(f, i + 1, args, k);
    } else {
      ParsedIsWellFormed(f, i);
      var s := ParseSpec(f, i).value;
      var field, rest := Formatted(s.spec, args, k), Output(f, s.at, args, k + Consumed(s.spec));
      assert before + (field + rest) == before + field + rest;
    }
  }

  lemma OutputEnd(f: string, args: seq<Arg>, k: nat)
    ensures ArgsOk(f, |f|, args, k) && Output(f, |f|, args, k) == ""
  {
  }

  /** `npf_vpprintf`: every character goes to the sink, and the result counts them. */
  method VPrintf(sink: Sink, f: string, args: seq<Arg>) returns (n: nat)
    requires CFormat(f) && ArgsOk(f, 0, args, 0) && sink.Valid()
    modifies sink, sink.dst
    ensures sink.Valid() && n == |Output(f, 0, args, 0)|
    ensures sink.emitted == old(sink.emitted) + Output(f, 0, args, 0)
  {
    hide Sink.Valid, ParseSpec, Formatted, Supplied, Consumed, Output, ArgsOk;
    var fs := new SpecBuffer();
    var cbuf := new char[64];
    sink.Restart();
    var cur: nat, k: nat := 0, 0;
    OutputEnd(f, args, k);
    while cur < |f|
      invariant sink.Valid() && sink.start == |old(sink.emitted)|
      invariant cur <= |f| && ArgsOk(f, cur, args, k)
      invariant old(sink.emitted) + Output(f, 0, args, 0) == sink.emitted + Output(f, cur, args, k)
      decreases |f| - cur
    {
      OutputStep(f, cur, args, k, sink.emitted);
      var length: nat := 0;
      if f[cur] == '%' {
        length := fs.ParseFormatSpec(f, cur);
      }
      if length == 0 {
        sink.PutC(f[cur]);
        cur := cur + 1;
        continue;
      }
      k := PutConversion(sink, fs, cbuf, args, k);
      cur := cur + length;
    }
    OutputEnd(f, args, k);
    n := sink.Count();
  }

  /** `npf_vsnprintf`: the result is the full length; a buffer of positive size holds as much of the output as leaves room
      for the NUL behind it, and nothing else of it changes. */
  method VSnprintf(buffer: array?<char>, bufsz: nat, f: string, args: seq<Arg>) returns (n: nat)
    requires buffer != null ==> bufsz <= buffer.Length
    requires CFormat(f) && ArgsOk(f, 0, args, 0)
    modifies buffer
    ensures n == |Output(f, 0, args, 0)|
    ensures buffer != null && bufsz > 0 ==>
              var m := Min(n, bufsz - 1);
              buffer[..] == Output(f, 0, args, 0)[..m] + [NUL] + old(buffer[m + 1..])
    ensures buffer != null && bufsz == 0 ==> buffer[..] == old(buffer[..])
  {
    hide Output;
    var sink := new Sink(buffer, bufsz);
    n := VPrintf(sink, f, args);
    assert sink.emitted == Output(f, 0, args, 0);
    if buffer != null {
      ghost var t := buffer[..];
      if bufsz > 0 {
        var m := Min(n, bufsz - 1);
        Terminated(t, sink.emitted, sink.before, sink.cur, bufsz);
        buffer[m] := NUL;
        assert buffer[..] == t[m := NUL];
        assert old(buffer[m + 1..]) == sink.before[m + 1..];
      }
    }
  }

  /** The NUL goes behind the output or, if that has filled the buffer, over its last character. */
  lemma Terminated(t: string, output: string, before: string, cur: nat, bufsz: nat)
    requires 0 < bufsz <= |before| && cur == Min(|output|, bufsz) && t == output[..cur] + before[cur..]
    ensures var m := Min(|output|, bufsz - 1); t[m := NUL] == output[..m] + [NUL] + before[m + 1..]
  {
  }
}
