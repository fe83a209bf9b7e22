/** Searching a device tree (src/drivers/devicetree.c:432-514): `fdt_node_path`, `fdt_node_search_iter` and
    `fdt_node_prop` against lookups on the abstract tree. */
module FdtLookup {
  import opened Options
  import opened FdtFormat
  import opened FdtCursor
  import opened FdtIterators
  import opened FdtTraversal
  import opened FdtNames

  // ---------- Lookups on the abstract tree ----------

  /** Does node r answer to path component c?  A C string ends at a slash, too, for `fdt_name_equal`. */
  ghost predicate Named(r: Ref, c: Bytes) {
    NameMatches(Until(r.node.name, SLASH), c)
  }

  ghost function FirstNamed(s: seq<Ref>, c: Bytes): Option<Ref> {
    if s == [] then None else if Named(s[0], c) then Some(s[0]) else FirstNamed(s[1..], c)
  }

  /** At each component, the first child in definition order that answers to it */
  ghost function Lookup(r: Ref, cs: seq<Bytes>): Option<Ref>
    decreases |cs|
  {
    if cs == [] then Some(r)
    else
      match FirstNamed(Children(r), cs[0])
      case None => None
      case Some(x) => Lookup(x, cs[1..])
  }

  ghost function Handle(r: Option<Ref>): Option<nat> {
    match r
    case None => None
    case Some(x) => Some(x.at)
  }

  // ---------- fdt_node_path ----------

  /** What is left of a lookup when the children s of the current node and the path from `at` on are left */
  ghost function Remaining(s: seq<Ref>, path: Bytes, at: nat): Option<Ref>
    requires at < |path|
  {
    match FirstNamed(s, Until(path[at..], SLASH))
    case None => None
    case Some(x) => LookupFrom(x, path, at + Step(path[at..]))
  }

  ghost function LookupFrom(r: Ref, path: Bytes, at: nat): Option<Ref>
    requires at <= |path|
  {
    Lookup(r, Components(path[at..]))
  }

  lemma LookupFromStep(r: Ref, path: Bytes, at: nat)
    requires at <= |path|
    ensures at < |path| ==> LookupFrom(r, path, at) == Remaining(Children(r), path, at)
    ensures at == |path| ==> LookupFrom(r, path, at) == Some(r)
  {
    hide Until, Children, FirstNamed;
    var t := path[at..];
    if at < |path| {
      assert Components(t)[1..] == Components(t[Step(t)..]);
      assert t[Step(t)..] == path[at + Step(t)..];
    }
  }

  lemma RemainingStep(s: seq<Ref>, path: Bytes, at: nat)
    requires at < |path| && s != [] && ValidFrom(path, at)
    ensures 0 < LengthAt(path, at) <= |path| - at && ValidFrom(path, at + LengthAt(path, at))
    ensures Remaining(s, path, at) ==
            if Named(s[0], Until(path[at..], SLASH)) then LookupFrom(s[0], path, at + LengthAt(path, at))
            else Remaining(s[1..], path, at)
  {
    ValidStep(path, at);
  }

  lemma SuffixStep(s: seq<Ref>, i: nat)
    requires i < |s|
    ensures s[i..] != [] && s[i..][0] == s[i] && s[i..][1..] == s[i + 1..]
  {
  }

  /** `fdt_node_path`: for a valid path, the node the lookup on the tree reaches from `start`, or from the root of the
      blob if no valid start is given; NULL if a layer has no match or the path is invalid. */
  method NodePath(b: Bytes, start: Option<nat>, path: Option<Bytes>, ghost root: Ref, ghost from: Ref)
      returns (node: Option<nat>)
    requires Blob(b, root) && (path.Some? ==> 0 !in path.value)
    requires NodeValid(b, start) ==> start == Some(from.at) && from.at % 4 == 0 && NodeAt(b, from.at, from.node)
    ensures node == if path.Some? && PathOk(path.value)
                    then Handle(Lookup(if NodeValid(b, start) then from else root, Components(path.value[1..])))
                    else None
  {
    hide ReadBig32, HeadSize, PropSize, PropAt, NodeAt, ItemsAt, Children, Remaining, Until, LengthAt, ValidFrom, NodeSize,
         CString, Components, Blob, NameMatches;
    var ok := ValidatePath(path);
    if !ok {
      return None;
    }
    var s := path.value;
    var at := 1;
    ghost var top := if NodeValid(b, start) then from else root;
    var cur := start;
    if !NodeValid(b, cur) {
      cur := RootNode(b, root);
    }
    if !NodeValid(b, cur) {
      return None;
    }
    LookupFromStep(top, s, at);
    if at == |s| {
      return cur;
    }
    ghost var r, i := top, 0;
    BlobRoot(b, root);
    ChildrenValid(b, r);
    var child := ChildIter(b, cur, None, r, 0);
    while NodeValid(b, child) && CharAt(s, at) != 0
      invariant 1 <= at < |s| && ValidFrom(s, at)
      invariant cur == Some(r.at) && r.at % 4 == 0 && NodeAt(b, r.at, r.node) && NodeValid(b, cur)
      invariant i <= |Children(r)| && child == First(Children(r)[i..])
      invariant forall k | 0 <= k < |Children(r)| ::
                  var x := Children(r)[k]; x.at % 4 == 0 && NodeAt(b, x.at, x.node) && NodeValid(b, Some(x.at))
      invariant Remaining(Children(r)[i..], s, at) == Lookup(top, Components(s[1..]))
      decreases |s| - at, |Children(r)| - i
    {
      ghost var x := Children(r)[i];
      SuffixStep(Children(r), i);
      RemainingStep(Children(r)[i..], s, at);
      InNode(b, x);
      var equal := NameEqual(b, child.value + 4, s, at, x.node.name);
      i := i + 1;
      if equal {
        var length := NameIter(s, at);
        at := at + length;
        LookupFromStep(x, s, at);
        if CharAt(s, at) == 0 {
          return child;
        }
        r, i := x, 0;
        ChildrenValid(b, r);
        cur, child := child, None;
      }
      child := ChildIter(b, cur, child, r, i);
    }
    NothingLeft(Children(r)[i..], s, at);
    node := None;
  }

  lemma NothingLeft(s: seq<Ref>, path: Bytes, at: nat)
    requires at < |path|
    ensures s == [] ==> Remaining(s, path, at) == None
  {
  }

  lemma BlobRoot(b: Bytes, root: Ref)
    requires Blob(b, root)
    ensures root.at % 4 == 0 && NodeAt(b, root.at, root.node)
  {
  }

  // ---------- fdt_node_search_iter ----------

  /** The nodes of a list, from index i on, that answer to a name */
  ghost function Matching(s: seq<Ref>, c: Bytes, i: nat): seq<Ref>
    requires i <= |s|
    decreases |s| - i
  {
    if i == |s| then []
    else if Named(s[i], c) then [s[i]] + Matching(s, c, i + 1)
    else Matching(s, c, i + 1)
  }

  /** The index in s, from i on, of the first node that answers to c; |s| if there is none */
  ghost function NextNamed(s: seq<Ref>, c: Bytes, i: nat): (j: nat)
    requires i <= |s|
    ensures i <= j <= |s|
    decreases |s| - i
  {
    if i == |s| || Named(s[i], c) then i else NextNamed(s, c, i + 1)
  }

  lemma {:induction false} NextNamedIsFirst(s: seq<Ref>, c: Bytes, i: nat)
    requires i <= |s|
    ensures var j := NextNamed(s, c, i);
            && Matching(s, c, i) == (if j == |s| then [] else [s[j]] + Matching(s, c, j + 1))
            && (forall k | i <= k < j :: !Named(s[k], c))
            && (j < |s| ==> Named(s[j], c))
    decreases |s| - i
  {
    hide Named;
    if i < |s| && !Named(s[i], c) {
      NextNamedIsFirst(s, c, i + 1);
    }
  }

  /** `fdt_node_search_iter`: from a node, the next one in preorder that answers to `name`; from NULL, the first one
      other than the root. */
  method SearchIter(b: Bytes, from: Option<nat>, name: Bytes, ghost root: Ref, ghost i: nat)
      returns (node: Option<nat>)
    requires Blob(b, root) && 0 !in name
    requires i < |Preorder(root)| && (from == Some(Preorder(root)[i].at) || (from == None && i == 0))
    ensures var pre := Preorder(root);
            var j := NextNamed(pre, Until(name, SLASH), i + 1);
            node == if j < |pre| then Some(pre[j].at) else None
  {
    hide ReadBig32, HeadSize, PropSize, PropAt, NodeAt, Until, Preorder, NodeSize;
    ghost var pre, c := Preorder(root), Until(name, SLASH);
    node := from;
    if !NodeValid(b, node) {
      node := RootNode(b, root);
    }
    ghost var j := i;
    NodeOfPreorder(b, root, i);
    assert name[0..] == name;
    node := NodeIter(b, node, root, j);
    j := j + 1;
    while NodeValid(b, node)
      invariant i < j <= |pre| && node == First(pre[j..])
      invariant NextNamed(pre, c, i + 1) == NextNamed(pre, c, j)
      decreases |pre| - j
    {
      NodeOfPreorder(b, root, j);
      InNode(b, pre[j]);
      var equal := NameEqual(b, node.value + 4, name, 0, pre[j].node.name);
      if equal {
        return;
      }
      node := NodeIter(b, node, root, j);
      j := j + 1;
    }
    if j < |pre| {
      NodeOfPreorder(b, root, j);
      assert false;
    }
    node := None;
  }

  lemma NodeOfPreorder(b: Bytes, root: Ref, i: nat)
    requires Blob(b, root) && i < |Preorder(root)|
    ensures var x := Preorder(root)[i];
            x.at % 4 == 0 && NodeAt(b, x.at, x.node) && NodeValid(b, Some(x.at))
    ensures Preorder(root)[0] == root
  {
    hide ReadBig32, HeadSize, PropSize, PropAt;
    var st := InsideNode(b, root, i);
  }

  /** The offsets of the nodes that answer to c, from index i on */
  ghost function Found(s: seq<Ref>, c: Bytes, i: nat): seq<nat>
    requires i <= |s|
  {
    Offsets(Matching(s, c, i))
  }

  lemma FoundStep(s: seq<Ref>, c: Bytes, i: nat, before: seq<nat>)
    requires i <= |s|
    ensures var j := NextNamed(s, c, i);
            before + Found(s, c, i) == if j == |s| then before else before + [s[j].at] + Found(s, c, j + 1)
  {
    hide Named, Matching;
    NextNamedIsFirst(s, c, i);
    var j := NextNamed(s, c, i);
    if j < |s| {
      OffsetsConcat([s[j]], Matching(s, c, j + 1));
      assert Offsets([s[j]]) == [s[j].at];
    }
  }

  /** The loop of lines 472 to 476: all nodes but the root that answer to the name, in preorder */
  method SearchAll(b: Bytes, name: Bytes, ghost root: Ref) returns (nodes: seq<nat>)
    requires Blob(b, root) && 0 !in name
    ensures nodes == Offsets(Matching(Preorder(root), Until(name, SLASH), 1))
  {
    hide ReadBig32, HeadSize, PropSize, PropAt, NodeAt, Until, Preorder, Matching, NextNamed, Blob, Named, Offsets;
    ghost var pre, c := Preorder(root), Until(name, SLASH);
    ghost var i: nat := 0;
    nodes := [];
    var node := SearchIter(b, None, name, root, 0);
    while NodeValid(b, node)
      invariant 0 <= i < |pre|
      invariant var j := NextNamed(pre, c, i + 1); node == if j < |pre| then Some(pre[j].at) else None
      invariant nodes + Found(pre, c, i + 1) == Found(pre, c, 1)
      decreases |pre| - i
    {
      FoundStep(pre, c, i + 1, nodes);
      nodes := nodes + [node.value];
      i := NextNamed(pre, c, i + 1);
      node := SearchIter(b, node, name, root, i);
    }
    FoundStep(pre, c, i + 1, nodes);
    if NextNamed(pre, c, i + 1) < |pre| {
      NodeOfPreorder(b, root, NextNamed(pre, c, i + 1));
      assert false;
    }
  }

  // ---------- fdt_node_prop ----------

  /** A string runs from p to a NUL inside the blob. */
  ghost predicate Terminated(b: Bytes, p: nat)
    decreases |b| - p
  {
    p < |b| && (b[p] == 0 || Terminated(b, p + 1))
  }

  /** The C string at p */
  ghost function StringAt(b: Bytes, p: nat): (s: Bytes)
    requires Terminated(b, p)
    ensures CString(b, p, s)
    decreases |b| - p
  {
    if b[p] == 0 then []
    else
      var rest := StringAt(b, p + 1);
      assert b[p..p + 1 + |rest|] == [b[p]] + b[p + 1..p + 1 + |rest|];
      [b[p]] + rest
  }

  /** The name of a property, in the strings block (`fdt_prop_name`) */
  ghost function PropName(b: Bytes, x: PropRef): Bytes
    requires 40 <= |b| && Terminated(b, ReadBig32(b, 12) + x.nameoff)
  {
    StringAt(b, ReadBig32(b, 12) + x.nameoff)
  }

  /** The names of a node's properties end inside the blob. */
  ghost predicate NamesTerminated(b: Bytes, r: Ref) {
    40 <= |b| && forall k | 0 <= k < |Props(r)| :: Terminated(b, ReadBig32(b, 12) + Props(r)[k].nameoff)
  }

  /** `streq` (src/string.c:10-17) on a C string argument and one in the blob */
  method StringsEqual(a: Bytes, b: Bytes, p: nat, ghost s: Bytes) returns (equal: bool)
    requires 0 !in a && CString(b, p, s)
    ensures equal <==> a == s
  {
    Readable(b, p, s);
    var i := 0;
    while CharAt(a, i) != 0 && b[p + i] != 0
      invariant i <= |a| && i <= |s| && a[..i] == s[..i]
      decreases |a| - i
    {
      if CharAt(a, i) != b[p + i] {
        return false;
      }
      i := i + 1;
    }
    equal := CharAt(a, i) == b[p + i];
    assert equal ==> a[..i] == a && s[..i] == s;
  }

  /** The first property of a list with the given name */
  ghost function FirstWithName(b: Bytes, s: seq<PropRef>, name: Bytes): Option<nat>
    requires 40 <= |b| && forall k | 0 <= k < |s| :: Terminated(b, ReadBig32(b, 12) + s[k].nameoff)
  {
    if s == [] then None
    else if PropName(b, s[0]) == name then Some(s[0].at)
    else FirstWithName(b, s[1..], name)
  }

  /** `fdt_node_prop`: the first own property of the node with the given name */
  method NodeProp(b: Bytes, node: Option<nat>, name: Bytes, ghost r: Ref) returns (prop: Option<nat>)
    requires 0 !in name
    requires NodeValid(b, node) ==>
               node == Some(r.at) && r.at % 4 == 0 && NodeAt(b, r.at, r.node) && NamesTerminated(b, r)
    ensures prop == if NodeValid(b, node) then FirstWithName(b, Props(r), name) else None
  {
    hide ReadBig32, HeadSize, PropSize, NodeAt, Props;
    if !NodeValid(b, node) {
      return None;
    }
    ghost var all, i := Props(r), 0;
    PropsValid(b, r);
    prop := PropIter(b, node, None, r, 0);
    while PropValid(b, prop)
      invariant i <= |all| && prop == FirstProp(all[i..])
      invariant FirstWithName(b, all, name) == FirstWithName(b, all[i..], name)
      decreases |all| - i
    {
      PropWords(b, r, i);
      var at := ReadBig32(b, 12) + ReadBig32(b, prop.value + 4);
      var equal := StringsEqual(name, b, at, PropName(b, all[i]));
      assert all[i..][1..] == all[i + 1..];
      if equal {
        return;
      }
      i := i + 1;
      prop := PropIter(b, node, prop, r, i);
    }
    prop := None;
  }

  lemma PropWords(b: Bytes, r: Ref, i: nat)
    requires NodeAt(b, r.at, r.node) && r.at % 4 == 0 && i < |Props(r)|
    ensures var x := Props(r)[i]; Token(b, x.at + 4, x.nameoff)
  {
    hide ReadBig32, HeadSize, PropSize;
    StepsAligned(r.at, r.node.name, [], r.node);
    var rest := LocateProp(b, r.at + HeadSize(r.node.name), r.node.items, r.at + NodeSize(r.node) - 4, i);
  }
}
