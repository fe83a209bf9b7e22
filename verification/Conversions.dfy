/** What each conversion of `npf_vpprintf` (include/nanoprintf.h:854-1195) prints: star arguments, defaults, the text or
    digits of the argument, and their layout in the field.  Header defaults, LP64 integers.

    Arguments are a typed list read by position; a `double` is its 64-bit pattern, and a `long double` the pattern of
    its conversion to double. */
module Conversions {
  import opened Options
  import opened Digits
  import opened FormatSpec
  import FloatBuffer
  import FloatDigits

  type Int32 = x: int | -0x8000_0000 <= x < 0x8000_0000
  type Int64 = x: int | -0x8000_0000_0000_0000 <= x < 0x8000_0000_0000_0000
  type UInt32 = x: int | 0 <= x < 0x1_0000_0000
  type UInt64 = x: int | 0 <= x < 0x1_0000_0000_0000_0000
  type CString = s: string | NUL !in s

  datatype Arg =
    | IntArg(i: Int32)
    | LongArg(l: Int64)
    | UIntArg(u: UInt32)
    | ULongArg(ul: UInt64)
    | TextArg(text: Option<CString>)
    | PointerArg(address: UInt64)
    | DoubleArg(bits: UInt64)
    | LongDoubleArg(converted: UInt64)

  const SIGN: nat := 0x8000_0000_0000_0000

  predicate IsFloat(c: Conv) { c in {FloatDec, FloatSci, FloatShortest, FloatHex} }
  predicate IsInteger(c: Conv) { c in {SignedInt, Octal, HexInt, UnsignedInt} }

  // ---------- The arguments a specification takes ----------

  function StarCount(s: Spec): nat {
    (if s.widthOpt == Star then 1 else 0) + (if s.precOpt == Star then 1 else 0)
  }

  /** `%%` takes no argument, and neither does an integer conversion with the modifier L, whose value is 0. */
  predicate TakesArg(s: Spec) {
    s.conv != Percent && !(IsInteger(s.conv) && s.length == LenLongDouble)
  }

  predicate Accepts(s: Spec, a: Arg) {
    TakesArg(s) ==>
      match s.conv
      case Percent => true
      case Character => a.IntArg?
      case Text => a.TextArg?
      case SignedInt => if s.length == LenLong then a.LongArg? else a.IntArg?
      case Octal => if s.length == LenLong then a.ULongArg? else a.UIntArg?
      case HexInt => if s.length == LenLong then a.ULongArg? else a.UIntArg?
      case UnsignedInt => if s.length == LenLong then a.ULongArg? else a.UIntArg?
      case Pointer => a.PointerArg?
      case FloatDec => if s.length == LenLongDouble then a.LongDoubleArg? else a.DoubleArg?
      case FloatSci => if s.length == LenLongDouble then a.LongDoubleArg? else a.DoubleArg?
      case FloatShortest => if s.length == LenLongDouble then a.LongDoubleArg? else a.DoubleArg?
      case FloatHex => if s.length == LenLongDouble then a.LongDoubleArg? else a.DoubleArg?
  }

  function Consumed(s: Spec): nat {
    StarCount(s) + (if TakesArg(s) then 1 else 0)
  }

  /** The arguments from position k on are those the specification takes. */
  predicate Supplied(s: Spec, args: seq<Arg>, k: nat) {
    && k + Consumed(s) <= |args|
    && (forall j | k <= j < k + StarCount(s) :: args[j].IntArg?)
    && (TakesArg(s) ==> Accepts(s, args[k + StarCount(s)]))
  }

  /** The argument of the conversion itself */
  function ArgOf(s: Spec, args: seq<Arg>, k: nat): (a: Arg)
    requires Supplied(s, args, k)
    ensures Accepts(s, a)
  {
    if TakesArg(s) then args[k + StarCount(s)] else IntArg(0)
  }

  /** Star arguments: a negative width means left-justified, a negative precision none. */
  function WithStars(s: Spec, args: seq<Arg>, k: nat): (r: Spec)
    requires Supplied(s, args, k)
    ensures r == s.(width := r.width, left := r.left, prec := r.prec, precOpt := r.precOpt)
    ensures s.widthOpt != Star ==> r.width == s.width
  {
    var s1 :=
      if s.widthOpt == Star then
        var w: int := args[k].i;
        if w < 0 then s.(width := -w, left := true) else s.(width := w)
      else s;
    if s.precOpt == Star then
      var p := args[k + StarCount(s) - 1].i;
      if p < 0 then s1.(prec := 0, precOpt := OptNone) else s1.(prec := p)
    else s1
  }

  /** Default precisions, and the '0' flag that an explicit precision of an integer switches off */
  function WithDefaults(s: Spec): (r: Spec)
    ensures r == s.(prec := r.prec, zero := r.zero)
  {
    if s.precOpt == OptNone then
      if IsFloat(s.conv) then s.(prec := 6) else if s.conv == Pointer then s.(prec := 16) else s
    else if IsInteger(s.conv) then s.(zero := false)
    else s
  }

  /** The specification the conversion is done with */
  function Settled(s: Spec, args: seq<Arg>, k: nat): (r: Spec)
    requires Supplied(s, args, k)
    ensures r.conv == s.conv && r.length == s.length && r.caseAdjust == s.caseAdjust && r.prepend == s.prepend
    ensures r.widthOpt == s.widthOpt && (s.widthOpt != Star ==> r.width == s.width)
  {
    hide Supplied, WithStars, WithDefaults;
    WithDefaults(WithStars(s, args, k))
  }

  // ---------- The converted argument ----------

  /** Conversion to a signed type of m values */
  function Wrap(x: int, m: nat): int
    requires m > 0
  {
    if x % m < m / 2 then x % m else x % m - m
  }

  function SignedOf(s: Spec, a: Arg): (v: int)
    requires s.conv == SignedInt && Accepts(s, a)
    ensures -(SIGN as int) <= v < SIGN
  {
    match s.length
    case LenNone => a.i
    case LenShort => Wrap(a.i, 0x1_0000)
    case LenChar => Wrap(a.i, 0x100)
    case LenLong => a.l
    case LenLongDouble => 0
  }

  predicate IsUnsigned(c: Conv) { c in {Octal, HexInt, UnsignedInt, Pointer} }

  function UnsignedOf(s: Spec, a: Arg): (v: nat)
    requires IsUnsigned(s.conv) && Accepts(s, a)
    ensures v < 0x1_0000_0000_0000_0000
  {
    if s.conv == Pointer then a.address
    else
      match s.length
      case LenNone => a.u
      case LenShort => a.u % 0x1_0000
      case LenChar => a.u % 0x100
      case LenLong => a.ul
      case LenLongDouble => 0
  }

  function Base(c: Conv): nat {
    if c == Octal then 8 else if c == HexInt || c == Pointer then 16 else 10
  }

  /** A zero with an explicit precision of zero prints no digit. */
  predicate Hidden(s: Spec, v: int) {
    v == 0 && s.precOpt != OptNone && s.prec == 0
  }

  /** A converted argument: the specification as the layout sees it, sign and 'x' of a "0x" or NUL, whether the value is
      zero, and the text or digits */
  datatype Piece = Piece(spec: Spec, sign: char, hex: char, zero: bool, body: string)

  function Numerals(v: nat, base: nat, caseAdjust: nat): string
    requires base in {8, 10, 16} && caseAdjust in {0, LOWER}
  {
    FloatDigits.Reverse(DigitsRev(v, base, caseAdjust))
  }

  function SignedPiece(s: Spec, v: int): Piece
    requires s.caseAdjust in {0, LOWER}
  {
    Piece(s, if v < 0 then '-' else s.prepend, NUL, v == 0,
          if Hidden(s, v) then "" else Numerals(if v < 0 then -v else v, 10, s.caseAdjust))
  }

  /** The alternative form: a leading 0 in octal, even for a hidden zero; "0x" for a hexadecimal other than zero */
  function UnsignedPiece(s: Spec, v: nat): Piece
    requires s.caseAdjust in {0, LOWER}
  {
    var digits := if Hidden(s, v) then "" else Numerals(v, Base(s.conv), s.caseAdjust);
    Piece(
      if Hidden(s, v) && s.conv == Octal && s.alt then s.(prec := 1) else s,
      NUL,
      if v != 0 && s.alt && Base(s.conv) == 16 then ('X' as nat + s.caseAdjust) as char else NUL,
      v == 0,
      if v != 0 && s.alt && s.conv == Octal then "0" + digits else digits)
  }

  /** Words switch the '0' flag off. */
  function FloatPiece(s: Spec, bits: UInt64): Piece
    requires s.caseAdjust in {0, LOWER}
  {
    var sign := if bits / SIGN == 1 then '-' else s.prepend;
    FloatBuffer.WordsAreLetters(bits, s.prec, s.alt);
    match FloatDigits.Convert(bits, s.prec, s.alt)
    case Number(rev) => Piece(s, sign, NUL, bits % SIGN == 0, FloatDigits.Reverse(rev))
    case Message(w) =>
      Piece(s.(zero := false), sign, NUL, bits % SIGN == 0, FloatDigits.Reverse(FloatBuffer.CaseText(w, s.caseAdjust)))
  }

  /** At most precision characters of a string; nothing for a null pointer */
  function TextOf(s: Spec, text: Option<CString>): string {
    match text
    case None => ""
    case Some(t) => if s.precOpt != OptNone && s.prec < |t| then t[..s.prec] else t
  }

  function Converted(s: Spec, a: Arg): Piece
    requires s.caseAdjust in {0, LOWER} && Accepts(s, a)
  {
    if s.conv == Percent then Piece(s, NUL, NUL, false, "%")
    else if s.conv == Character then Piece(s, NUL, NUL, false, [(a.i % 0x100) as char])
    else if s.conv == Text then Piece(s, NUL, NUL, false, TextOf(s, a.text))
    else if s.conv == SignedInt then SignedPiece(s, SignedOf(s, a))
    else if IsUnsigned(s.conv) then UnsignedPiece(s, UnsignedOf(s, a))
    else FloatPiece(s, if a.DoubleArg? then a.bits else a.converted)
  }

  // ---------- The field ----------

  function Fill(n: int, c: char): (s: string)
    ensures |s| == if n > 0 then n else 0
    ensures forall k | 0 <= k < |s| :: s[k] == c
  {
    if n <= 0 then "" else seq(n, _ => c)
  }

  function Sign(p: Piece): string {
    if p.sign == NUL then "" else [p.sign]
  }

  function Prefix(p: Piece): string {
    if p.hex == NUL then "" else ['0', p.hex]
  }

  function Lead(p: Piece): string {
    Sign(p) + Prefix(p)
  }

  /** Zeros the precision adds in front of anything but strings and floats */
  function PrecPad(p: Piece): int {
    if p.spec.conv == Text || IsFloat(p.spec.conv) then 0
    else if p.spec.prec > |p.body| then p.spec.prec - |p.body| else 0
  }

  /** What stands in the field: sign, prefix, zeros and body */
  function Core(p: Piece): string {
    Lead(p) + (Fill(PrecPad(p), '0') + p.body)
  }

  /** The character the field is padded with; NUL if there is no width */
  function PadChar(p: Piece): char {
    if p.spec.widthOpt == OptNone then NUL
    else if p.spec.zero && !p.spec.left && !(p.spec.precOpt != OptNone && p.spec.prec == 0 && p.zero) then '0'
    else ' '
  }

  function FieldPad(p: Piece): int {
    if PadChar(p) == NUL then 0
    else
      var n := p.spec.width - |p.body| - |Lead(p)| - PrecPad(p);
      if n > 0 then n else 0
  }

  /** The characters of one conversion */
  function Field(p: Piece): string {
    if p.spec.left then Core(p) + Fill(FieldPad(p), ' ')
    else if PadChar(p) == '0' then Lead(p) + (Fill(FieldPad(p), '0') + (Fill(PrecPad(p), '0') + p.body))
    else Fill(FieldPad(p), ' ') + Core(p)
  }

  /** Everything one specification prints for the arguments from position k */
  function Formatted(s: Spec, args: seq<Arg>, k: nat): string
    requires s.caseAdjust in {0, LOWER} && Supplied(s, args, k)
  {
    Field(Converted(Settled(s, args, k), ArgOf(s, args, k)))
  }

  // ---------- The width law ----------

  /** A text has the width or, if that is larger, the length of sign, prefix, zeros and body; what is missing is filled
      with spaces behind them, with zeros behind sign and prefix, or with spaces in front. */
  predicate Fills(text: string, p: Piece, width: nat, left: bool, zeros: bool) {
    var n := |text| - |Core(p)|;
    && |text| == (if width > |Core(p)| then width else |Core(p)|)
    && text == if left then Core(p) + Fill(n, ' ')
               else if zeros then Core(p)[..|Lead(p)|] + Fill(n, '0') + Core(p)[|Lead(p)|..]
               else Fill(n, ' ') + Core(p)
  }

  /** The number of characters is the field width or, if larger, that of sign, prefix, zeros and body.  With the '0' flag
      and no '-', but for a zero with an explicit precision of zero, the padding is zeros behind sign and prefix; otherwise
      it is spaces, on the side that '-' says. */
  lemma WidthLaw(p: Piece)
    requires p.spec.widthOpt == OptNone ==> p.spec.width == 0
    ensures |Core(p)| == |Lead(p)| + PrecPad(p) + |p.body|
    ensures Fills(Field(p), p, p.spec.width, p.spec.left,
                  p.spec.zero && !(p.zero && p.spec.precOpt != OptNone && p.spec.prec == 0))
  {
    assert Core(p)[..|Lead(p)|] == Lead(p);
    assert Core(p)[|Lead(p)|..] == Fill(PrecPad(p), '0') + p.body;
  }

  /** Sign and "0x" exclude each other, so their order does not matter. */
  lemma NeverBoth(s: Spec, a: Arg)
    requires s.caseAdjust in {0, LOWER} && Accepts(s, a)
    ensures var p := Converted(s, a); p.sign == NUL || p.hex == NUL
    ensures var p := Converted(s, a); p.spec.conv == s.conv && p.spec.width == s.width && p.spec.widthOpt == s.widthOpt
  {
    hide DigitsRev;
  }
}
