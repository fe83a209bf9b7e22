/** Format specifications of nanoprintf and their parser (`npf_parse_format_spec`, include/nanoprintf.h:392-553), in
    the header's default configuration: field width, precision, float, small and alternative forms on; large, binary
    and write-back forms off.

    A format string is the sequence of its characters before the NUL; reading at its length yields the NUL.  Width and
    precision are unbounded here: in C a literal above INT_MAX overflows. */
module FormatSpec {
  import opened Options

  datatype Opt = OptNone | Literal | Star
  datatype Length = LenNone | LenShort | LenChar | LenLong | LenLongDouble
  datatype Conv =
    | Percent | Character | Text | SignedInt | Octal | HexInt | UnsignedInt | Pointer
    | FloatDec | FloatSci | FloatShortest | FloatHex

  /** The values an `npf_format_spec_t` can hold; `prepend` is NUL, '+' or ' ', `caseAdjust` 0 or 'a' - 'A'. */
  datatype Spec = Spec(
    width: nat, widthOpt: Opt, prec: nat, precOpt: Opt, left: bool, zero: bool, prepend: char, alt: bool,
    caseAdjust: nat, length: Length, conv: Conv)

  const NUL: char := '\0'
  const LOWER: nat := 32

  function Ch(s: string, i: nat): char
    requires i <= |s|
  {
    if i < |s| then s[i] else NUL
  }

  /** A format string has no NUL before its end. */
  predicate CFormat(s: string) {
    NUL !in s
  }

  // ---------- The grammar, stage by stage ----------

  predicate IsFlag(c: char) { c == '-' || c == '0' || c == '+' || c == ' ' || c == '#' }
  predicate IsDigit(c: char) { '0' <= c <= '9' }

  function WithFlag(s: Spec, c: char): Spec {
    if c == '-' then s.(left := true)
    else if c == '0' then s.(zero := true)
    else if c == '+' then s.(prepend := '+')
    else if c == ' ' then (if s.prepend == NUL then s.(prepend := ' ') else s)
    else if c == '#' then s.(alt := true)
    else s
  }

  const EMPTY: Spec := Spec(0, OptNone, 0, OptNone, false, false, NUL, false, LOWER, LenNone, Percent)

  /** What a stage of the parser leaves: the specification so far and the position after it */
  datatype Stage = Stage(spec: Spec, at: nat)

  function Flags(f: string, i: nat, s: Spec): (r: Stage)
    requires i <= |f|
    ensures i <= r.at <= |f|
    decreases |f| - i
  {
    if IsFlag(Ch(f, i)) then Flags(f, i + 1, WithFlag(s, Ch(f, i))) else Stage(s, i)
  }

  /** Reads decimal digits onto n. */
  function Number(f: string, i: nat, n: nat): (r: (nat, nat))
    requires i <= |f|
    ensures i <= r.1 <= |f|
    decreases |f| - i
  {
    if IsDigit(Ch(f, i)) then Number(f, i + 1, n * 10 + (Ch(f, i) as nat - 48)) else (n, i)
  }

  function Width(f: string, s: Stage): (r: Stage)
    requires s.at <= |f|
    ensures s.at <= r.at <= |f|
  {
    if Ch(f, s.at) == '*' then Stage(s.spec.(widthOpt := Star), s.at + 1)
    else if IsDigit(Ch(f, s.at)) then
      var (n, j) := Number(f, s.at, 0);
      Stage(s.spec.(widthOpt := Literal, width := n), j)
    else s
  }

  /** A '-' after the '.' leaves the option unset but keeps the digits. */
  function Precision(f: string, s: Stage): (r: Stage)
    requires s.at <= |f|
    ensures s.at <= r.at <= |f|
  {
    if Ch(f, s.at) != '.' then s
    else if Ch(f, s.at + 1) == '*' then Stage(s.spec.(precOpt := Star), s.at + 2)
    else if Ch(f, s.at + 1) == '-' then
      var (n, j) := Number(f, s.at + 2, 0);
      Stage(s.spec.(prec := n), j)
    else
      var (n, j) := Number(f, s.at + 1, 0);
      Stage(s.spec.(precOpt := Literal, prec := n), j)
  }

  function LengthOf(f: string, s: Stage): (r: Stage)
    requires s.at <= |f|
    ensures s.at <= r.at <= |f|
  {
    if Ch(f, s.at) == 'h' then
      if Ch(f, s.at + 1) == 'h' then Stage(s.spec.(length := LenChar), s.at + 2)
      else Stage(s.spec.(length := LenShort), s.at + 1)
    else if Ch(f, s.at) == 'l' then Stage(s.spec.(length := LenLong), s.at + 1)
    else if Ch(f, s.at) == 'L' then Stage(s.spec.(length := LenLongDouble), s.at + 1)
    else s
  }

  /** The conversion a character stands for, and the case of its letters */
  function ConvOf(c: char): Option<(Conv, nat)> {
    if c == '%' then Some((Percent, LOWER))
    else if c == 'c' then Some((Character, LOWER))
    else if c == 's' then Some((Text, LOWER))
    else if c == 'i' || c == 'd' then Some((SignedInt, LOWER))
    else if c == 'o' then Some((Octal, LOWER))
    else if c == 'u' then Some((UnsignedInt, LOWER))
    else if c == 'X' then Some((HexInt, 0))
    else if c == 'x' then Some((HexInt, LOWER))
    else if c == 'F' then Some((FloatDec, 0))
    else if c == 'f' then Some((FloatDec, LOWER))
    else if c == 'E' then Some((FloatSci, 0))
    else if c == 'e' then Some((FloatSci, LOWER))
    else if c == 'G' then Some((FloatShortest, 0))
    else if c == 'g' then Some((FloatShortest, LOWER))
    else if c == 'A' then Some((FloatHex, 0))
    else if c == 'a' then Some((FloatHex, LOWER))
    else if c == 'p' then Some((Pointer, LOWER))
    else None
  }

  /** The whole specification from its '%' at position i: the fields and the position after it; None where the parser
      returns 0 */
  function ParseSpec(f: string, i: nat): (r: Option<Stage>)
    requires i < |f|
    ensures r.Some? ==> i + 1 < r.value.at <= |f|
  {
    var s := LengthOf(f, Precision(f, Width(f, Flags(f, i + 1, EMPTY))));
    match ConvOf(Ch(f, s.at))
    case None => None
    case Some((conv, adjust)) => Some(Stage(s.spec.(conv := conv, caseAdjust := adjust), s.at + 1))
  }

  // ---------- npf_parse_format_spec ----------

  /** The struct the parser fills in place */
  class SpecBuffer {
    var width: nat
    var widthOpt: Opt
    var prec: nat
    var precOpt: Opt
    var left: bool
    var zero: bool
    var prepend: char
    var alt: bool
    var caseAdjust: nat
    var length: Length
    var conv: Conv

    constructor ()
    {
      width, widthOpt, prec, precOpt := 0, OptNone, 0, OptNone;
      left, zero, prepend, alt := false, false, NUL, false;
      caseAdjust, length, conv := 0, LenNone, Percent;
    }

    function Value(): Spec
      reads this
    {
      Spec(width, widthOpt, prec, precOpt, left, zero, prepend, alt, caseAdjust, length, conv)
    }

    /** The loop over the flags */
    method ParseFlags(f: string, start: nat) returns (cur: nat)
      requires start < |f|
      modifies this
      ensures cur <= |f| && Stage(Value(), cur) == Flags(f, start + 1, old(Value()))
    {
      cur := start + 1;
      while IsFlag(Ch(f, cur))
        invariant cur <= |f| && Flags(f, cur, Value()) == Flags(f, start + 1, old(Value()))
        decreases |f| - cur
      {
        var c := Ch(f, cur);
        if c == '-' {
          left := true;
        } else if c == '0' {
          zero := true;
        } else if c == '+' {
          prepend := '+';
        } else if c == ' ' {
          if prepend == NUL {
            prepend := ' ';
          }
        } else {
          alt := true;
        }
        cur := cur + 1;
      }
    }

    method ParseWidth(f: string, start: nat) returns (cur: nat)
      requires start <= |f|
      modifies this
      ensures cur <= |f| && Stage(Value(), cur) == Width(f, Stage(old(Value()), start))
    {
      cur := start;
      if Ch(f, cur) == '*' {
        widthOpt, cur := Star, cur + 1;
      } else if IsDigit(Ch(f, cur)) {
        widthOpt := Literal;
        width, cur := ParseNumber(f, cur);
      }
    }

    method ParsePrecision(f: string, start: nat) returns (cur: nat)
      requires start <= |f|
      modifies this
      ensures cur <= |f| && Stage(Value(), cur) == Precision(f, Stage(old(Value()), start))
    {
      cur := start;
      if Ch(f, cur) == '.' {
        cur := cur + 1;
        if Ch(f, cur) == '*' {
          precOpt, cur := Star, cur + 1;
        } else {
          if Ch(f, cur) == '-' {
            cur := cur + 1;
          } else {
            precOpt := Literal;
          }
          prec, cur := ParseNumber(f, cur);
        }
      }
    }

    method ParseLength(f: string, start: nat) returns (cur: nat)
      requires start <= |f|
      modifies this
      ensures cur <= |f| && Stage(Value(), cur) == LengthOf(f, Stage(old(Value()), start))
    {
      cur := start;
      if Ch(f, cur) == 'h' {
        length, cur := LenShort, cur + 1;
        if Ch(f, cur) == 'h' {
          length, cur := LenChar, cur + 1;
        }
      } else if Ch(f, cur) == 'l' {
        length, cur := LenLong, cur + 1;
      } else if Ch(f, cur) == 'L' {
        length, cur := LenLongDouble, cur + 1;
      }
    }

    /** `npf_parse_format_spec`: the number of characters of the specification, or 0 if it is none */
    method ParseFormatSpec(f: string, start: nat) returns (n: nat)
      requires start < |f| && f[start] == '%' && CFormat(f)
      modifies this
      ensures start + n <= |f|
      ensures match ParseSpec(f, start)
              case None => n == 0
              case Some(s) => n == s.at - start && Value() == s.spec
    {
      hide Flags, Number, Width, Precision, LengthOf;
      left, zero, caseAdjust, prepend, alt := false, false, LOWER, NUL, false;
      width, widthOpt, prec, precOpt, length, conv := 0, OptNone, 0, OptNone, LenNone, Percent;
      assert Value() == EMPTY;
      var cur := ParseFlags(f, start);
      cur := ParseWidth(f, cur);
      cur := ParsePrecision(f, cur);
      cur := ParseLength(f, cur);
      match ConvOf(Ch(f, cur)) {
        case None =>
          return 0;
        case Some((c, adjust)) =>
          conv, caseAdjust := c, adjust;
          n := cur + 1 - start;
      }
    }
  }

  method ParseNumber(f: string, start: nat) returns (n: nat, cur: nat)
    requires start <= |f|
    ensures (n, cur) == Number(f, start, 0) && cur <= |f|
  {
    n, cur := 0, start;
    while IsDigit(Ch(f, cur))
      invariant cur <= |f| && Number(f, cur, n) == Number(f, start, 0)
      decreases |f| - cur
    {
      n, cur := n * 10 + (Ch(f, cur) as nat - 48), cur + 1;
    }
  }
}
