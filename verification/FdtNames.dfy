/** Names and paths of device tree nodes (src/drivers/devicetree.c:335-430; Devicetree Specification v0.4, sections
    2.2.1 and 2.2.3).

    A C string argument is the sequence of its characters; reading at its length yields the NUL. */
module FdtNames {
  import opened Options
  import opened FdtFormat

  const SLASH: Byte := 47
  const AT: Byte := 64

  /** `s[i]` of a C string, whose last readable character is the NUL */
  function CharAt(s: Bytes, i: nat): Byte
    requires i <= |s|
  {
    if i < |s| then s[i] else 0
  }

  // ---------- The grammar ----------

  predicate IsAlpha(c: Byte) { 97 <= c <= 122 || 65 <= c <= 90 }
  predicate IsNumeral(c: Byte) { 48 <= c <= 57 }
  // letters, digits and . , _ + -
  predicate IsNameChar(c: Byte) { IsAlpha(c) || IsNumeral(c) || c == 46 || c == 44 || c == 95 || c == 43 || c == 45 }
  predicate IsHex(c: Byte) { 97 <= c <= 102 || 65 <= c <= 70 || IsNumeral(c) }

  /** The longest prefix without a stop character */
  ghost function Until(s: Bytes, stop: Byte): (r: Bytes)
    ensures |r| <= |s| && r == s[..|r|] && stop !in r
    ensures |r| < |s| ==> s[|r|] == stop
  {
    if s == [] || s[0] == stop then [] else [s[0]] + Until(s[1..], stop)
  }

  lemma UntilIs(s: Bytes, stop: Byte, k: nat)
    requires k <= |s| && (forall j | 0 <= j < k :: s[j] != stop) && (k < |s| ==> s[k] == stop)
    ensures Until(s, stop) == s[..k]
  {
    var r := Until(s, stop);
    assert forall j | 0 <= j < |r| :: r[j] == s[j] && r[j] in r;
  }

  /** The part of a path component before its `@`, and its unit address after it */
  ghost function Base(c: Bytes): Bytes { Until(c, AT) }

  ghost predicate HasUnit(c: Bytes) { |Base(c)| < |c| }

  ghost function Unit(c: Bytes): Bytes
    requires HasUnit(c)
  {
    c[|Base(c)| + 1..]
  }

  /** What `fdt_name_iter` accepts: at most 31 name characters, a letter first, and then, after an `@`, any number of
      hexadecimal digits, none included.  The comment at line 336 allows one character more and demands a digit. */
  ghost predicate ValidName(c: Bytes) {
    && 1 <= |Base(c)| <= 31
    && IsAlpha(c[0])
    && (forall k | 1 <= k < |Base(c)| :: IsNameChar(c[k]))
    && (forall k | |Base(c)| < k < |c| :: IsHex(c[k]))
  }

  /** What the comment at lines 335 to 340 promises */
  ghost predicate Documented(c: Bytes) {
    && 1 <= |Base(c)| <= 32
    && IsAlpha(c[0])
    && (forall k | 1 <= k < |Base(c)| :: IsNameChar(c[k]))
    && (forall k | |Base(c)| < k < |c| :: IsHex(c[k]))
    && (HasUnit(c) ==> Unit(c) != [])
  }

  /** The characters code and comment ask for: a letter first, name characters, hexadecimal digits after the `@` */
  ghost predicate RightChars(c: Bytes) {
    && 1 <= |Base(c)|
    && IsAlpha(c[0])
    && (forall k | 1 <= k < |Base(c)| :: IsNameChar(c[k]))
    && (forall k | |Base(c)| < k < |c| :: IsHex(c[k]))
  }

  ghost predicate EmptyUnit(c: Bytes) {
    HasUnit(c) && Unit(c) == []
  }

  /** Code and comment agree on a component if and only if it is neither a name of 32 characters, which the code refuses,
      nor a shorter one that ends in its `@`, which the code accepts, each otherwise in order. */
  lemma DocumentedExactly(c: Bytes)
    ensures (ValidName(c) <==> Documented(c)) <==>
            !(RightChars(c) && ((|Base(c)| == 32 && !EmptyUnit(c)) || (|Base(c)| <= 31 && EmptyUnit(c))))
  {
  }

  /** An example of either kind */
  lemma DocumentedExamples()
    ensures ValidName([97, AT]) && !Documented([97, AT])
    ensures Documented(Letters(32)) && !ValidName(Letters(32))
  {
    var d: Bytes := [97, AT];
    UntilIs(d, AT, 1);
    UntilIs(Letters(32), AT, 32);
  }

  function Letters(n: nat): Bytes {
    seq(n, _ => 97)
  }

  /** The components of a path after its first slash; a trailing slash adds none. */
  ghost function Components(s: Bytes): seq<Bytes>
    decreases |s|
  {
    if s == [] then []
    else
      var c := Until(s, SLASH);
      [c] + Components(s[Step(s)..])
  }

  /** The length of the first component with its slash */
  ghost function Step(s: Bytes): (n: nat)
    requires s != []
    ensures 0 < n <= |s|
  {
    var c := Until(s, SLASH);
    if |c| < |s| then |c| + 1 else |c|
  }

  ghost predicate AllValid(cs: seq<Bytes>) {
    cs == [] || (ValidName(cs[0]) && AllValid(cs[1..]))
  }

  ghost predicate PathOk(path: Bytes) {
    |path| > 0 && path[0] == SLASH && ValidFrom(path, 1)
  }

  /** What `fdt_name_iter` returns: 0 for an invalid component */
  ghost function NameLength(s: Bytes): (n: nat)
    ensures n <= |s|
  {
    if ValidName(Until(s, SLASH)) then Step(s) else 0
  }

  ghost function LengthAt(s: Bytes, at: nat): (n: nat)
    requires at <= |s|
    ensures at + n <= |s|
  {
    NameLength(s[at..])
  }

  /** All components from position `at` on are valid. */
  ghost predicate ValidFrom(s: Bytes, at: nat)
    requires at <= |s|
  {
    AllValid(Components(s[at..]))
  }

  // ---------- fdt_name_iter ----------

  /** `fdt_name_iter` at position `at` of a path: the length of the component there, with the slash after it, or 0 if
      it is invalid.  The name loop gives up after 31 characters. */
  method NameIter(path: Bytes, at: nat) returns (length: nat)
    requires 0 !in path && at <= |path|
    ensures length == LengthAt(path, at)
  {
    hide Until;
    ghost var s := path[at..];
    ghost var c := Until(s, SLASH);
    if CharAt(path, at) == 0 {
      return 0;
    }
    assert CharAt(path, at) == s[0];
    if !IsAlpha(CharAt(path, at)) {
      assert c != [] ==> c[0] == s[0];
      return 0;
    }
    length := 1;
    while length < 31 && CharAt(path, at + length) != 0 && CharAt(path, at + length) != SLASH && CharAt(path, at + length) != AT
      invariant 1 <= length <= 31 && at + length <= |path|
      invariant forall k | 1 <= k < length :: IsNameChar(s[k])
      invariant forall k | 0 <= k < length :: s[k] != SLASH && s[k] != AT
    {
      if !IsNameChar(CharAt(path, at + length)) {
        BadNameChar(s, length);
        return 0;
      }
      length := length + 1;
    }
    ghost var n := length;
    if CharAt(path, at + length) == 0 || CharAt(path, at + length) == SLASH {
      UntilIs(s, SLASH, n);
      UntilIs(c, AT, n);
      return length + (if CharAt(path, at + length) == SLASH then 1 else 0);
    }
    if CharAt(path, at + length) != AT {
      NameTooLong(s);
      return 0;
    }
    length := length + 1;
    UnitStarts(s, n);
    while CharAt(path, at + length) != 0 && CharAt(path, at + length) != SLASH
      invariant n < length && at + length <= |path|
      invariant forall k | n < k < length :: IsHex(s[k])
      invariant forall k | 0 <= k < length :: s[k] != SLASH
      decreases |path| - at - length
    {
      if !IsHex(CharAt(path, at + length)) {
        BadUnit(s, n, length);
        return 0;
      }
      length := length + 1;
    }
    UntilIs(s, SLASH, length);
    length := length + (if CharAt(path, at + length) == SLASH then 1 else 0);
  }

  lemma BadNameChar(s: Bytes, k: nat)
    requires 1 <= k < |s| && !IsNameChar(s[k]) && s[k] != AT && s[k] != SLASH
    requires forall j | 0 <= j < k :: s[j] != SLASH && s[j] != AT
    ensures !ValidName(Until(s, SLASH))
  {
    var c := Until(s, SLASH);
    assert k < |c|;
    assert c[k] == s[k] && |Base(c)| != k;
    assert |Base(c)| < k ==> c[|Base(c)|] == AT;
  }

  lemma NameTooLong(s: Bytes)
    requires 31 < |s| && s[31] != SLASH && s[31] != AT
    requires forall j | 0 <= j < 31 :: s[j] != SLASH && s[j] != AT
    ensures !ValidName(Until(s, SLASH))
  {
    var c := Until(s, SLASH);
    assert 31 < |c|;
    assert |Base(c)| <= 31 ==> c[|Base(c)|] == AT;
  }

  lemma UnitStarts(s: Bytes, n: nat)
    requires n < |s| && s[n] == AT && forall j | 0 <= j < n :: s[j] != SLASH && s[j] != AT
    ensures n < |Until(s, SLASH)| && |Base(Until(s, SLASH))| == n
  {
    var c := Until(s, SLASH);
    assert n < |c|;
    UntilIs(c, AT, n);
  }

  lemma BadUnit(s: Bytes, n: nat, k: nat)
    requires n < k < |s| && !IsHex(s[k]) && s[k] != SLASH
    requires forall j | 0 <= j < k :: s[j] != SLASH
    requires n < |Until(s, SLASH)| && |Base(Until(s, SLASH))| == n
    ensures !ValidName(Until(s, SLASH))
  {
    var c := Until(s, SLASH);
    assert k < |c|;
    assert c[k] == s[k];
  }

  // ---------- fdt_validate_path ----------

  /** `fdt_validate_path` accepts exactly a slash followed by valid components, with or without a trailing slash. */
  method ValidatePath(path: Option<Bytes>) returns (ok: bool)
    requires path.Some? ==> 0 !in path.value
    ensures ok <==> path.Some? && PathOk(path.value)
  {
    hide ValidFrom, LengthAt;
    if path == None || path.value == [] || path.value[0] != SLASH {
      return false;
    }
    var s := path.value;
    var at := 1;
    ValidAtEnd(s);
    if at == |s| {
      return true;
    }
    var length := NameIter(s, at);
    while CharAt(s, at) != 0 && length != 0
      invariant 1 <= at <= |s|
      invariant ValidFrom(s, 1) <==> ValidFrom(s, at)
      invariant length == LengthAt(s, at)
      decreases |s| - at
    {
      ValidStep(s, at);
      at := at + length;
      length := NameIter(s, at);
    }
    if at < |s| {
      ValidStep(s, at);
    }
    ok := CharAt(s, at) == 0;
  }

  lemma ValidAtEnd(s: Bytes)
    ensures ValidFrom(s, |s|)
  {
    assert s[|s|..] == [];
  }

  lemma ValidStep(s: Bytes, at: nat)
    requires at < |s|
    ensures ValidFrom(s, at) <==> LengthAt(s, at) != 0 && ValidFrom(s, at + LengthAt(s, at))
  {
    var t := s[at..];
    assert Components(t)[1..] == Components(t[Step(t)..]);
    assert LengthAt(s, at) != 0 ==> t[Step(t)..] == s[at + LengthAt(s, at)..];
  }

  /** What the comment at line 385 promises: valid names with single slashes between them, after the first slash */
  ghost predicate Separated(path: Bytes) {
    |path| > 0 && path[0] == SLASH && (|path| == 1 || Names(path[1..]))
  }

  ghost predicate Names(s: Bytes)
    decreases |s|
  {
    var c := Until(s, SLASH);
    ValidName(c) && (|c| < |s| ==> Names(s[|c| + 1..]))
  }

  /** Code and comment agree on a path if and only if it is not one of such names with a slash after the last: those the
      code accepts, too. */
  lemma TrailingSlashExactly(path: Bytes)
    ensures (PathOk(path) <==> Separated(path)) <==>
            !(|path| > 2 && path[|path| - 1] == SLASH && Separated(path[..|path| - 1]))
    ensures Separated(path) ==> PathOk(path)
  {
    hide Until, ValidName, Names, Components, AllValid;
    ValidAtEnd(path);
    NoEmptyName();
    if |path| > 1 && path[0] == SLASH {
      NamesOrTrailing(path[1..]);
      var front := path[..|path| - 1];
      assert |path| > 2 ==> front[1..] == path[1..][..|path| - 2];
    }
  }

  /** The components of s are valid if s is a list of names, or one with a slash after it, but not both. */
  lemma {:induction false} NamesOrTrailing(s: Bytes)
    requires s != []
    ensures AllValid(Components(s)) <==> Names(s) || (s[|s| - 1] == SLASH && Names(s[..|s| - 1]))
    ensures Names(s) ==> s[|s| - 1] != SLASH
    decreases |s|
  {
    hide ValidName, Until;
    var c := Until(s, SLASH);
    var rest, front := s[Step(s)..], s[..|s| - 1];
    FirstComponent(s);
    if |c| == |s| {
      OneName(s);
    } else {
      FrontNames(s);
      NoEmptyName();
      if rest != [] {
        NamesOrTrailing(rest);
      }
    }
  }

  lemma FirstComponent(s: Bytes)
    requires s != []
    ensures var c, rest := Until(s, SLASH), s[Step(s)..];
            && (AllValid(Components(s)) <==> ValidName(c) && AllValid(Components(rest)))
            && AllValid(Components([]))
  {
    hide Until, ValidName;
    assert Components(s)[1..] == Components(s[Step(s)..]);
  }

  /** A list of names without its last character */
  lemma FrontNames(s: Bytes)
    requires s != [] && |Until(s, SLASH)| < |s|
    ensures var c, rest, front := Until(s, SLASH), s[Step(s)..], s[..|s| - 1];
            && (rest == [] ==> s[|s| - 1] == SLASH && (Names(front) <==> ValidName(c)))
            && (rest != [] ==> rest[|rest| - 1] == s[|s| - 1])
            && (rest != [] ==> (Names(front) <==> ValidName(c) && Names(rest[..|rest| - 1])))
            && (Names(s) <==> ValidName(c) && Names(rest))
  {
    hide ValidName, Until;
    var c, rest, front := Until(s, SLASH), s[Step(s)..], s[..|s| - 1];
    UntilIs(front, SLASH, |c|);
    assert front[..|c|] == c;
    assert rest == s[|c| + 1..];
    if rest == [] {
      assert front == c;
    } else {
      assert front[|c| + 1..] == rest[..|rest| - 1];
    }
  }

  lemma NoEmptyName()
    ensures !Names([])
  {
  }

  lemma OneName(s: Bytes)
    requires s != [] && |Until(s, SLASH)| == |s|
    ensures s[|s| - 1] != SLASH && s[Step(s)..] == []
  {
    assert s[|s| - 1] in Until(s, SLASH);
  }

  /** "/a/" */
  lemma TrailingSlashExample()
    ensures PathOk([SLASH, 97, SLASH]) && !Separated([SLASH, 97, SLASH])
  {
    var path: Bytes := [SLASH, 97, SLASH];
    var name: Bytes := [97];
    UntilIs(name, SLASH, 1);
    UntilIs(name, AT, 1);
    assert path[..2][1..] == name;
    TrailingSlashExactly(path);
  }

  /** The lengths by which `fdt_name_iter` walks over a path */
  ghost function Steps(s: Bytes): seq<nat>
    decreases |s|
  {
    if s == [] then [] else [Step(s)] + Steps(s[Step(s)..])
  }

  ghost function Sum(ns: seq<nat>): nat {
    if ns == [] then 0 else ns[0] + Sum(ns[1..])
  }

  /** They partition the path after its first slash, one part a component: the component and the slash after it. */
  lemma {:induction false} StepsPartition(s: Bytes)
    ensures Sum(Steps(s)) == |s| && |Steps(s)| == |Components(s)|
    ensures forall k | 0 <= k < |Steps(s)| ::
              Steps(s)[k] == |Components(s)[k]| + 1
              || (k == |Steps(s)| - 1 && Steps(s)[k] == |Components(s)[k]| && s[|s| - 1] != SLASH)
    decreases |s|
  {
    if s != [] {
      var rest := s[Step(s)..];
      StepsPartition(rest);
      assert Steps(s)[1..] == Steps(rest);
      forall k | 0 <= k < |Steps(s)|
        ensures Steps(s)[k] == |Components(s)[k]| + 1
                || (k == |Steps(s)| - 1 && Steps(s)[k] == |Components(s)[k]| && s[|s| - 1] != SLASH)
      {
        var c := Until(s, SLASH);
        if k > 0 {
          assert Steps(s)[k] == Steps(rest)[k - 1] && Components(s)[k] == Components(rest)[k - 1];
          assert rest[|rest| - 1] == s[|s| - 1];
        } else if |c| == |s| {
          assert rest == [] && s[|s| - 1] in c;
        }
      }
    }
  }

  // ---------- fdt_name_equal ----------

  /** What `fdt_name_equal` decides about a node name and a path component: equal bases and, if the component has a
      unit address, that address too.  A node's address is compared up to a second `@`, which no well-formed name has
      (see EqualUnits). */
  ghost predicate NameMatches(name: Bytes, c: Bytes) {
    && Base(name) == Base(c)
    && (HasUnit(c) ==> HasUnit(name) && UnitMatches(Unit(name), Unit(c)))
  }

  ghost predicate UnitMatches(u: Bytes, a: Bytes) {
    a <= u && (|a| < |u| ==> u[|a|] == AT)
  }

  lemma EqualUnits(u: Bytes, a: Bytes)
    requires AT !in u
    ensures UnitMatches(u, a) <==> u == a
  {
  }

  /** `fdt_name_equal` on the node name at offset n of the blob and the path component at position `at` */
  method NameEqual(b: Bytes, n: nat, path: Bytes, at: nat, ghost name: Bytes) returns (equal: bool)
    requires CString(b, n, name) && 0 !in path && at <= |path|
    ensures equal <==> NameMatches(Until(name, SLASH), Until(path[at..], SLASH))
  {
    hide Until, NameMatches;
    ghost var u, c := Until(name, SLASH), Until(path[at..], SLASH);
    Readable(b, n, name);
    var i := 0;
    while b[n + i] != 0 && b[n + i] != SLASH && b[n + i] != AT
          && CharAt(path, at + i) != 0 && CharAt(path, at + i) != SLASH && CharAt(path, at + i) != AT
      invariant i <= |Base(u)| && i <= |Base(c)| && SameFrom(u, c, 0, i)
      decreases |u| - i
    {
      if b[n + i] != CharAt(path, at + i) {
        BasesDiffer(u, c, i);
        return false;
      }
      i := i + 1;
    }
    if b[n + i] == AT && CharAt(path, at + i) == AT {
      ghost var m := i;
      i := i + 1;
      while b[n + i] != 0 && b[n + i] != SLASH && CharAt(path, at + i) != 0 && CharAt(path, at + i) != SLASH
        invariant m < i <= |u| && i <= |c| && SameFrom(u, c, 0, i)
        decreases |u| - i
      {
        if b[n + i] != CharAt(path, at + i) {
          UnitsDiffer(u, c, m, i);
          return false;
        }
        i := i + 1;
      }
      UnitVerdict(u, c, m, i);
    } else {
      BaseVerdict(u, c, i);
    }
    equal := (b[n + i] == 0 || b[n + i] == SLASH || b[n + i] == AT) && (CharAt(path, at + i) == 0 || CharAt(path, at + i) == SLASH);
  }

  ghost predicate SameFrom(u: Bytes, c: Bytes, from: nat, to: nat) {
    to <= |u| && to <= |c| && forall j | from <= j < to :: u[j] == c[j]
  }

  lemma BasesDiffer(u: Bytes, c: Bytes, i: nat)
    requires i < |Base(u)| && i < |Base(c)| && u[i] != c[i]
    ensures !NameMatches(u, c)
  {
    assert Base(u)[i] == u[i] && Base(c)[i] == c[i];
  }

  /** The verdict where at most one of the two has a unit address to compare */
  lemma BaseVerdict(u: Bytes, c: Bytes, i: nat)
    requires i <= |Base(u)| && i <= |Base(c)| && (i == |Base(u)| || i == |Base(c)|) && SameFrom(u, c, 0, i)
    requires !(i < |u| && u[i] == AT && i < |c| && c[i] == AT)
    ensures NameMatches(u, c) <==> i == |Base(u)| && i == |c|
  {
    assert AT !in Base(u) && AT !in Base(c);
    if i == |Base(u)| && i == |Base(c)| {
      assert Base(u) == Base(c);
    }
  }

  lemma UnitsDiffer(u: Bytes, c: Bytes, m: nat, i: nat)
    requires m == |Base(u)| == |Base(c)| && m < i < |u| && i < |c| && u[i] != c[i]
    ensures !NameMatches(u, c)
  {
    assert Unit(u)[i - m - 1] == u[i] && Unit(c)[i - m - 1] == c[i];
  }

  lemma UnitVerdict(u: Bytes, c: Bytes, m: nat, i: nat)
    requires m == |Base(u)| == |Base(c)| && m < i && (i == |u| || i == |c|) && SameFrom(u, c, 0, i)
    ensures NameMatches(u, c) <==> i == |c| && (i == |u| || u[i] == AT)
  {
    assert Base(u) == Base(c);
    assert Unit(u)[..i - m - 1] == Unit(c)[..i - m - 1];
    if i == |c| {
      assert Unit(c)[..i - m - 1] == Unit(c);
      assert i < |u| ==> Unit(u)[i - m - 1] == u[i];
    }
  }

  lemma Readable(b: Bytes, n: nat, name: Bytes)
    requires CString(b, n, name)
    ensures forall i | 0 <= i < |name| :: b[n + i] == name[i] != 0
    ensures b[n + |name|] == 0
  {
    forall i | 0 <= i < |name| ensures b[n + i] == name[i] != 0 {
      assert b[n..n + |name|][i] == name[i] && name[i] in name;
    }
  }
}
