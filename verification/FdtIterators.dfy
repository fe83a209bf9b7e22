/** The iterators of `src/drivers/devicetree.c` against the abstract tree: all nodes in preorder, the children of a
    node, and the properties of a node. */
module FdtIterators {
  import opened Options
  import opened FdtFormat
  import opened FdtCursor

  // ---------- What the iterators should yield ----------

  /** All nodes of a subtree in preorder, with their offsets */
  ghost function Preorder(r: Ref): (s: seq<Ref>)
    ensures |s| > 0 && s[0] == r
    decreases r.node
  {
    [r] + PreorderItems(r.at + HeadSize(r.node.name), r.node.items)
  }

  ghost function PreorderItems(p: nat, items: Items): seq<Ref>
    decreases items
  {
    match items
    case Done => []
    case Nop(rest) => PreorderItems(p + 4, rest)
    case Prop(_, val, rest) => PreorderItems(p + PropSize(val), rest)
    case Child(n, rest) => Preorder(Ref(p, n)) + PreorderItems(p + NodeSize(n), rest)
  }

  /** The direct children of a node in definition order */
  ghost function Children(r: Ref): seq<Ref> {
    ChildItems(r.at + HeadSize(r.node.name), r.node.items)
  }

  ghost function ChildItems(p: nat, items: Items): seq<Ref>
    decreases items
  {
    match items
    case Done => []
    case Nop(rest) => ChildItems(p + 4, rest)
    case Prop(_, val, rest) => ChildItems(p + PropSize(val), rest)
    case Child(n, rest) => [Ref(p, n)] + ChildItems(p + NodeSize(n), rest)
  }

  /** A property with its handle, the offset just after its token */
  datatype PropRef = PropRef(at: nat, nameoff: nat, val: Bytes)

  /** A node's own properties in definition order, those after child nodes included */
  ghost function Props(r: Ref): seq<PropRef> {
    PropItems(r.at + HeadSize(r.node.name), r.node.items)
  }

  ghost function PropItems(p: nat, items: Items): seq<PropRef>
    decreases items
  {
    match items
    case Done => []
    case Nop(rest) => PropItems(p + 4, rest)
    case Prop(nameoff, val, rest) => [PropRef(p + 4, nameoff, val)] + PropItems(p + PropSize(val), rest)
    case Child(n, rest) => PropItems(p + NodeSize(n), rest)
  }

  ghost function PreorderStack(p: nat, st: Stack): seq<Ref>
    decreases st
  {
    match st
    case Unknown(_) => []
    case Tail => []
    case Open(items, end, up) => PreorderItems(p, items) + PreorderStack(end + 4, up)
  }

  // ---------- Where a yielded node lies ----------

  lemma ConcatSuffix<T>(x: seq<T>, y: seq<T>, z: seq<T>, i: nat)
    requires i <= |x + y|
    ensures i <= |x| ==> (x + y)[i..] + z == x[i..] + (y + z)
    ensures i >= |x| ==> (x + y)[i..] == y[i - |x|..]
  {
  }

  lemma DropFirst<T>(s: seq<T>, i: nat, x: T, y: seq<T>, z: seq<T>)
    requires i < |s| && s[i..] + [] == ([x] + y) + z
    ensures s[i + 1..] == y + z
  {
    assert s[i + 1..] == (s[i..] + [])[1..];
    assert (([x] + y) + z)[1..] == y + z;
  }

  /** The stack below the i-th node of a preorder: what follows it in the blob is what follows it in the preorder. */
  lemma {:induction false} LocateNode(b: Bytes, r: Ref, up: Stack, i: nat) returns (st: Stack)
    requires NodeAt(b, r.at, r.node) && StackAt(b, r.at + NodeSize(r.node), up)
    requires r.at % 4 == 0 && i < |Preorder(r)|
    ensures EndsInTail(up) ==> EndsInTail(st)
    ensures var x := Preorder(r)[i];
            && x.at % 4 == 0 && NodeAt(b, x.at, x.node)
            && StackAt(b, x.at + NodeSize(x.node), st)
            && Preorder(r)[i..] + PreorderStack(r.at + NodeSize(r.node), up) ==
               Preorder(x) + PreorderStack(x.at + NodeSize(x.node), st)
    decreases r.node
  {
    hide ReadBig32, HeadSize, PropSize, PropAt, CString;
    if i == 0 {
      st := up;
    } else {
      var p, end := r.at + HeadSize(r.node.name), r.at + NodeSize(r.node) - 4;
      StepsAligned(r.at, r.node.name, [], r.node);
      st := LocateItem(b, p, r.node.items, end, up, i - 1);
      ConcatSuffix([r], PreorderItems(p, r.node.items), [], i);
    }
  }

  lemma {:induction false} LocateItem(b: Bytes, p: nat, items: Items, end: nat, up: Stack, i: nat) returns (st: Stack)
    requires ItemsAt(b, p, items, end) && Token(b, end, FDT_END_NODE) && StackAt(b, end + 4, up)
    requires p % 4 == 0 && i < |PreorderItems(p, items)|
    ensures EndsInTail(up) ==> EndsInTail(st)
    ensures var x := PreorderItems(p, items)[i];
            && x.at % 4 == 0 && NodeAt(b, x.at, x.node)
            && StackAt(b, x.at + NodeSize(x.node), st)
            && PreorderItems(p, items)[i..] + PreorderStack(end + 4, up) ==
               Preorder(x) + PreorderStack(x.at + NodeSize(x.node), st)
    decreases items
  {
    hide ReadBig32, HeadSize, PropSize, PropAt, NodeAt, Preorder, NodeSize, CString;
    match items {
      case Nop(rest) => st := LocateItem(b, p + 4, rest, end, up, i);
      case Prop(_, val, rest) =>
        StepsAligned(p, [], val, Node([], Done));
        st := LocateItem(b, p + PropSize(val), rest, end, up, i);
      case Child(n, rest) =>
        StepsAligned(p, [], [], n);
        var first, others := Preorder(Ref(p, n)), PreorderItems(p + NodeSize(n), rest);
        ConcatSuffix(first, others, PreorderStack(end + 4, up), i);
        if i < |first| {
          st := LocateNode(b, Ref(p, n), Open(rest, end, up), i);
        } else {
          st := LocateItem(b, p + NodeSize(n), rest, end, up, i - |first|);
        }
    }
  }

  /** Just inside the i-th node of a blob, the rest of the preorder is still to come. */
  lemma InsideNode(b: Bytes, root: Ref, i: nat) returns (st: Stack)
    requires Blob(b, root) && i < |Preorder(root)|
    ensures var x := Preorder(root)[i];
            && x.at % 4 == 0 && NodeAt(b, x.at, x.node) && EndsInTail(st)
            && StackAt(b, x.at + HeadSize(x.node.name), st)
            && PreorderStack(x.at + HeadSize(x.node.name), st) == Preorder(root)[i + 1..]
  {
    hide ReadBig32, HeadSize, PropSize, PropAt, CString, PreorderItems, NodeSize;
    var x := Preorder(root)[i];
    var up := LocateNode(b, root, Tail, i);
    st := Open(x.node.items, x.at + NodeSize(x.node) - 4, up);
    DropFirst(Preorder(root), i, x, PreorderItems(x.at + HeadSize(x.node.name), x.node.items),
              PreorderStack(x.at + NodeSize(x.node), up));
  }

  // ---------- fdt_node_iter ----------

  /** The handle of the first node of s, or NULL */
  ghost function First(s: seq<Ref>): Option<nat> {
    if s == [] then None else Some(s[0].at)
  }

  /** `fdt_node_iter` goes from each node of the blob to the next one in preorder, and from the last to NULL. */
  method NodeIter(b: Bytes, node: Option<nat>, ghost root: Ref, ghost i: nat) returns (next: Option<nat>)
    requires Blob(b, root)
    requires NodeValid(b, node) ==> i < |Preorder(root)| && node == Some(Preorder(root)[i].at)
    ensures next == if NodeValid(b, node) then First(Preorder(root)[i + 1..]) else node
  {
    hide ReadBig32, HeadSize, PropSize, PropAt, Preorder, Blob;
    if !NodeValid(b, node) {
      return node;
    }
    ghost var x := Preorder(root)[i];
    ghost var st := InsideNode(b, root, i);
    var p := SkipName(b, node.value, x.node.name);
    AnyInside(b, p, st);
    while ReadBig32(b, p) != FDT_BEGIN_NODE
      invariant p % 4 == 0 && p + 4 <= |b|
      invariant StackAt(b, p, st) && EndsInTail(st)
      invariant PreorderStack(p, st) == Preorder(root)[i + 1..]
      decreases |b| - p
    {
      AnyToken(b, p, st);
      var token := ReadBig32(b, p);
      if token == FDT_END_NODE || token == FDT_NOP {
        p := p + 4;
        st := if st.Tail? then st else if st.items.Done? then st.up else Open(st.items.rest, st.end, st.up);
      } else if token == FDT_PROP {
        p := SkipProperty(b, p, st.items.nameoff, st.items.val);
        st := Open(st.items.rest, st.end, st.up);
      } else {
        // FDT_END; a well-formed blob holds no other token
        return None;
      }
      AnyInside(b, p, st);
    }
    AnyToken(b, p, st);
    next := Some(p);
  }

  // ---------- fdt_node_child_iter ----------

  /** The i-th child of a node, and the items that follow it */
  lemma {:induction false} LocateChild(b: Bytes, p: nat, items: Items, end: nat, i: nat) returns (rest: Items)
    requires ItemsAt(b, p, items, end) && p % 4 == 0 && i < |ChildItems(p, items)|
    ensures var x := ChildItems(p, items)[i];
            && x.at % 4 == 0 && NodeAt(b, x.at, x.node)
            && ItemsAt(b, x.at + NodeSize(x.node), rest, end)
            && ChildItems(x.at + NodeSize(x.node), rest) == ChildItems(p, items)[i + 1..]
    decreases items
  {
    hide ReadBig32, HeadSize, PropSize, PropAt, NodeAt;
    match items {
      case Nop(rest') => rest := LocateChild(b, p + 4, rest', end, i);
      case Prop(_, val, rest') =>
        StepsAligned(p, [], val, Node([], Done));
        rest := LocateChild(b, p + PropSize(val), rest', end, i);
      case Child(n, rest') =>
        StepsAligned(p, [], [], n);
        if i == 0 {
          rest := rest';
        } else {
          rest := LocateChild(b, p + NodeSize(n), rest', end, i - 1);
        }
    }
  }

  lemma InNode(b: Bytes, r: Ref)
    requires NodeAt(b, r.at, r.node) && r.at % 4 == 0
    ensures NodeValid(b, Some(r.at)) && CString(b, r.at + 4, r.node.name)
    ensures (r.at + HeadSize(r.node.name)) % 4 == 0
    ensures ItemsAt(b, r.at + HeadSize(r.node.name), r.node.items, r.at + NodeSize(r.node) - 4)
    ensures Token(b, r.at + NodeSize(r.node) - 4, FDT_END_NODE)
  {
    hide ReadBig32, HeadSize;
    StepsAligned(r.at, r.node.name, [], r.node);
  }

  /** The handle yielded last when i items of s have been yielded */
  ghost function Last(s: seq<Ref>, i: nat): Option<nat>
    requires i <= |s|
  {
    if i == 0 then None else Some(s[i - 1].at)
  }

  /** Where the items lie that follow the first i children */
  lemma ChildrenFrom(b: Bytes, r: Ref, i: nat) returns (items: Items, p: nat)
    requires NodeAt(b, r.at, r.node) && r.at % 4 == 0 && i <= |Children(r)|
    ensures ItemsAt(b, p, items, r.at + NodeSize(r.node) - 4) && ChildItems(p, items) == Children(r)[i..]
    ensures i == 0 ==> p == r.at + HeadSize(r.node.name)
    ensures i > 0 ==> (var x := Children(r)[i - 1]; p == x.at + NodeSize(x.node) && x.at % 4 == 0 && NodeAt(b, x.at, x.node)
                                                    && NodeValid(b, Some(x.at)))
  {
    hide ReadBig32, HeadSize, PropSize, PropAt, NodeAt, CString, NodeSize, ItemsAt;
    InNode(b, r);
    items, p := r.node.items, r.at + HeadSize(r.node.name);
    if i > 0 {
      items := LocateChild(b, p, r.node.items, r.at + NodeSize(r.node) - 4, i - 1);
      var x := Children(r)[i - 1];
      InNode(b, x);
      p := x.at + NodeSize(x.node);
    }
  }

  /** `fdt_node_child_iter`: after i children of `parent` it yields the next one, and NULL after the last. */
  method ChildIter(b: Bytes, parent: Option<nat>, child: Option<nat>, ghost r: Ref, ghost i: nat)
      returns (next: Option<nat>)
    requires NodeValid(b, parent) ==>
               && parent == Some(r.at) && r.at % 4 == 0 && NodeAt(b, r.at, r.node)
               && i <= |Children(r)| && child == Last(Children(r), i)
    ensures next == if NodeValid(b, parent) then First(Children(r)[i..]) else parent
  {
    hide ReadBig32, HeadSize, PropSize, PropAt, NodeAt, CString, NodeSize, PropItems, ItemsAt, Children;
    if !NodeValid(b, parent) {
      return parent;
    }
    ghost var end := r.at + NodeSize(r.node) - 4;
    InNode(b, r);
    ghost var items, at := ChildrenFrom(b, r, i);
    var p;
    if !NodeValid(b, child) {
      p := SkipName(b, parent.value, r.node.name);
    } else {
      p := SkipNode(b, child.value, Children(r)[i - 1].node);
    }
    NextInside(b, p, items, end);
    while ReadBig32(b, p) != FDT_BEGIN_NODE
      invariant p % 4 == 0 && ItemsAt(b, p, items, end) && p + 4 <= |b|
      invariant ChildItems(p, items) == Children(r)[i..]
      decreases |b| - p
    {
      NextToken(b, p, items, end);
      var token := ReadBig32(b, p);
      if token == FDT_END_NODE || token == FDT_END {
        return None;
      } else if token == FDT_NOP {
        p, items := p + 4, items.rest;
      } else if token == FDT_PROP {
        p := SkipProperty(b, p, items.nameoff, items.val);
        items := items.rest;
      } else {
        return None;
      }
      NextInside(b, p, items, end);
    }
    NextToken(b, p, items, end);
    next := Some(p);
  }

  // ---------- fdt_prop_iter ----------

  /** The i-th own property of a node, and the items that follow it */
  lemma {:induction false} LocateProp(b: Bytes, p: nat, items: Items, end: nat, i: nat) returns (rest: Items)
    requires ItemsAt(b, p, items, end) && p % 4 == 0 && i < |PropItems(p, items)|
    ensures var x := PropItems(p, items)[i];
            && x.at >= 4 && (x.at - 4) % 4 == 0 && PropAt(b, x.at - 4, x.nameoff, x.val)
            && ItemsAt(b, x.at - 4 + PropSize(x.val), rest, end)
            && PropItems(x.at - 4 + PropSize(x.val), rest) == PropItems(p, items)[i + 1..]
    decreases items
  {
    hide ReadBig32, HeadSize, PropSize, PropAt, NodeAt;
    match items {
      case Nop(rest') => rest := LocateProp(b, p + 4, rest', end, i);
      case Prop(_, val, rest') =>
        StepsAligned(p, [], val, Node([], Done));
        if i == 0 {
          rest := rest';
        } else {
          rest := LocateProp(b, p + PropSize(val), rest', end, i - 1);
        }
      case Child(n, rest') =>
        StepsAligned(p, [], [], n);
        rest := LocateProp(b, p + NodeSize(n), rest', end, i);
    }
  }

  ghost function FirstProp(s: seq<PropRef>): Option<nat> {
    if s == [] then None else Some(s[0].at)
  }

  ghost function LastProp(s: seq<PropRef>, i: nat): Option<nat>
    requires i <= |s|
  {
    if i == 0 then None else Some(s[i - 1].at)
  }

  lemma PropToken(b: Bytes, p: nat, nameoff: nat, val: Bytes)
    requires PropAt(b, p, nameoff, val)
    ensures Token(b, p, FDT_PROP)
  {
  }

  /** Where the items lie that follow the first i own properties */
  lemma PropsFrom(b: Bytes, r: Ref, i: nat) returns (items: Items, p: nat)
    requires NodeAt(b, r.at, r.node) && r.at % 4 == 0 && i <= |Props(r)|
    ensures ItemsAt(b, p, items, r.at + NodeSize(r.node) - 4) && PropItems(p, items) == Props(r)[i..]
    ensures i == 0 ==> p == r.at + HeadSize(r.node.name)
    ensures i > 0 ==> (var x := Props(r)[i - 1];
                       p == x.at - 4 + PropSize(x.val) && x.at >= 4 && (x.at - 4) % 4 == 0
                       && PropAt(b, x.at - 4, x.nameoff, x.val) && PropValid(b, Some(x.at)))
  {
    hide ReadBig32, HeadSize, PropSize, PropAt, NodeAt, CString, NodeSize, ItemsAt;
    InNode(b, r);
    items, p := r.node.items, r.at + HeadSize(r.node.name);
    if i > 0 {
      items := LocateProp(b, p, r.node.items, r.at + NodeSize(r.node) - 4, i - 1);
      var x := Props(r)[i - 1];
      PropToken(b, x.at - 4, x.nameoff, x.val);
      p := x.at - 4 + PropSize(x.val);
    }
  }

  /** `fdt_prop_iter`: after i properties of `node` it yields the next own one, skipping whole child nodes. */
  method PropIter(b: Bytes, node: Option<nat>, prop: Option<nat>, ghost r: Ref, ghost i: nat)
      returns (next: Option<nat>)
    requires NodeValid(b, node) ==>
               && node == Some(r.at) && r.at % 4 == 0 && NodeAt(b, r.at, r.node)
               && i <= |Props(r)| && prop == LastProp(Props(r), i)
    ensures next == if NodeValid(b, node) then FirstProp(Props(r)[i..]) else None
  {
    hide ReadBig32, HeadSize, PropSize, PropAt, NodeAt, CString, NodeSize, ChildItems, ItemsAt, Props;
    if !NodeValid(b, node) {
      return None;
    }
    ghost var end := r.at + NodeSize(r.node) - 4;
    InNode(b, r);
    ghost var items, at := PropsFrom(b, r, i);
    var p;
    if !PropValid(b, prop) {
      p := SkipName(b, node.value, r.node.name);
    } else {
      p := SkipProperty(b, prop.value - 4, Props(r)[i - 1].nameoff, Props(r)[i - 1].val);
    }
    NextInside(b, p, items, end);
    while ReadBig32(b, p) != FDT_PROP
      invariant p % 4 == 0 && ItemsAt(b, p, items, end) && p + 4 <= |b|
      invariant PropItems(p, items) == Props(r)[i..]
      decreases |b| - p
    {
      NextToken(b, p, items, end);
      var token := ReadBig32(b, p);
      if token == FDT_BEGIN_NODE {
        p := SkipNode(b, p, items.node);
        items := items.rest;
      } else if token == FDT_END_NODE || token == FDT_END {
        return None;
      } else if token == FDT_NOP {
        p, items := p + 4, items.rest;
      } else {
        return None;
      }
      NextInside(b, p, items, end);
    }
    NextToken(b, p, items, end);
    next := Some(p + 4);
  }

  // ---------- fdt_root_node ----------

  /** `fdt_root_node` */
  method RootNode(b: Bytes, ghost root: Ref) returns (node: Option<nat>)
    requires Blob(b, root)
    ensures node == Some(root.at) && NodeValid(b, node)
  {
    hide HeadSize, PropSize, PropAt;
    var p := ReadBig32(b, 8);
    while ReadBig32(b, p) == FDT_NOP
      invariant NopsUpTo(b, p, root.at) && p + 4 <= |b|
      decreases root.at - p
    {
      p := p + 4;
    }
    if ReadBig32(b, p) != FDT_BEGIN_NODE {
      return None;
    }
    node := Some(p);
  }
}
