/** Whole traversals of a device tree: the loops that the iterators' documentation prescribes, and the recursion of
    `fdt_dump_helper` (src/drivers/devicetree.c:530-580), whose output is kept as the list of nodes and properties it
    visits. */
module FdtTraversal {
  import opened Options
  import opened FdtFormat
  import opened FdtCursor
  import opened FdtIterators

  ghost function Offsets(s: seq<Ref>): (r: seq<nat>)
    ensures |r| == |s| && forall k | 0 <= k < |s| :: r[k] == s[k].at
  {
    if s == [] then [] else [s[0].at] + Offsets(s[1..])
  }

  // ---------- The documented loops ----------

  /** The loop of lines 123 to 127: every node once, in preorder */
  method AllNodes(b: Bytes, ghost root: Ref) returns (nodes: seq<nat>)
    requires Blob(b, root)
    ensures nodes == Offsets(Preorder(root))
  {
    hide ReadBig32, HeadSize, PropSize, PropAt, Preorder, Blob;
    var node := RootNode(b, root);
    nodes := [];
    ghost var pre := Preorder(root);
    while NodeValid(b, node)
      invariant |nodes| <= |pre| && nodes == Offsets(pre)[..|nodes|]
      invariant node == First(pre[|nodes|..])
      decreases |pre| - |nodes|
    {
      ghost var i := |nodes|;
      nodes := nodes + [node.value];
      node := NodeIter(b, node, root, i);
    }
    if |nodes| < |pre| {
      ghost var st := InsideNode(b, root, |nodes|);
      assert false;
    }
  }

  /** The loop of lines 195 to 199: the children of a node, each once, in definition order */
  method AllChildren(b: Bytes, parent: nat, ghost r: Ref) returns (children: seq<nat>)
    requires parent == r.at && r.at % 4 == 0 && NodeAt(b, r.at, r.node)
    ensures children == Offsets(Children(r))
  {
    hide ReadBig32, HeadSize, PropSize, PropAt, NodeAt, NodeSize, Children;
    ChildrenValid(b, r);
    ghost var all := Children(r);
    var child := ChildIter(b, Some(parent), None, r, 0);
    children := [];
    while NodeValid(b, child)
      invariant |children| <= |all| && children == Offsets(all)[..|children|]
      invariant child == First(all[|children|..])
      decreases |all| - |children|
    {
      children := children + [child.value];
      child := ChildIter(b, Some(parent), child, r, |children|);
    }
  }

  /** The loop of lines 274 to 278: a node's own properties, each once, in definition order */
  method AllProps(b: Bytes, node: nat, ghost r: Ref) returns (props: seq<nat>)
    requires node == r.at && r.at % 4 == 0 && NodeAt(b, r.at, r.node)
    ensures |props| == |Props(r)| && forall k | 0 <= k < |props| :: props[k] == Props(r)[k].at
  {
    hide ReadBig32, HeadSize, PropSize, PropAt;
    ghost var all := Props(r);
    var prop := PropIter(b, Some(node), None, r, 0);
    props := [];
    while PropValid(b, prop)
      invariant |props| <= |all| && forall k | 0 <= k < |props| :: props[k] == all[k].at
      invariant prop == FirstProp(all[|props|..])
      decreases |all| - |props|
    {
      props := props + [prop.value];
      prop := PropIter(b, Some(node), prop, r, |props|);
    }
    PropsValid(b, r);
  }

  /** Handles of children are valid, word-aligned and smaller nodes. */
  lemma ChildrenValid(b: Bytes, r: Ref)
    requires NodeAt(b, r.at, r.node) && r.at % 4 == 0
    ensures forall k | 0 <= k < |Children(r)| ::
              var x := Children(r)[k];
              && x.at % 4 == 0 && NodeAt(b, x.at, x.node) && NodeValid(b, Some(x.at))
              && NodeSize(x.node) < NodeSize(r.node)
    ensures NodeValid(b, Some(r.at))
  {
    hide ReadBig32, HeadSize, PropSize, PropAt;
    StepsAligned(r.at, r.node.name, [], r.node);
    var p := r.at + HeadSize(r.node.name);
    forall k | 0 <= k < |Children(r)|
      ensures var x := Children(r)[k];
              x.at % 4 == 0 && NodeAt(b, x.at, x.node) && NodeSize(x.node) < NodeSize(r.node)
    {
      var rest := LocateChild(b, p, r.node.items, r.at + NodeSize(r.node) - 4, k);
      ChildIsSmaller(p, r.node.items, k);
    }
  }

  lemma {:induction false} ChildIsSmaller(p: nat, items: Items, k: nat)
    requires k < |ChildItems(p, items)|
    ensures NodeSize(ChildItems(p, items)[k].node) <= ItemsSize(items)
    decreases items
  {
    hide HeadSize, PropSize, NodeSize;
    match items {
      case Nop(rest) => ChildIsSmaller(p + 4, rest, k);
      case Prop(_, val, rest) => ChildIsSmaller(p + PropSize(val), rest, k);
      case Child(n, rest) =>
        if k > 0 {
          ChildIsSmaller(p + NodeSize(n), rest, k - 1);
        }
    }
  }

  lemma PropsValid(b: Bytes, r: Ref)
    requires NodeAt(b, r.at, r.node) && r.at % 4 == 0
    ensures forall k | 0 <= k < |Props(r)| :: PropValid(b, Some(Props(r)[k].at))
    ensures NodeValid(b, Some(r.at))
  {
    hide ReadBig32, HeadSize, PropSize;
    StepsAligned(r.at, r.node.name, [], r.node);
    forall k | 0 <= k < |Props(r)| ensures PropValid(b, Some(Props(r)[k].at)) {
      var rest := LocateProp(b, r.at + HeadSize(r.node.name), r.node.items, r.at + NodeSize(r.node) - 4, k);
    }
  }

  // ---------- Each once ----------

  ghost predicate Ascending(s: seq<nat>, lo: nat, hi: nat) {
    && (forall k | 0 <= k < |s| :: lo <= s[k] < hi)
    && (forall j, k | 0 <= j < k < |s| :: s[j] < s[k])
  }

  lemma AscendingConcat(x: seq<nat>, lo: nat, mid: nat, y: seq<nat>, hi: nat)
    requires lo <= mid <= hi && (x == [] || Ascending(x, lo, mid)) && Ascending(y, mid, hi)
    ensures Ascending(x + y, lo, hi) && (x == [] ==> Ascending(y, lo, hi))
  {
  }

  lemma Nothing(p: nat)
    ensures Ascending([], p, p)
  {
  }

  /** Offsets grow along the preorder, so no node is yielded twice, and all lie inside the subtree's bytes. */
  lemma {:induction false} PreorderAscends(r: Ref)
    ensures Ascending(Offsets(Preorder(r)), r.at, r.at + NodeSize(r.node))
    decreases r.node
  {
    var p := r.at + HeadSize(r.node.name);
    PreorderItemsAscend(p, r.node.items);
    OffsetsConcat([r], PreorderItems(p, r.node.items));
    AscendingConcat([r.at], r.at, p, Offsets(PreorderItems(p, r.node.items)), r.at + NodeSize(r.node));
  }

  lemma {:induction false} PreorderItemsAscend(p: nat, items: Items)
    ensures Ascending(Offsets(PreorderItems(p, items)), p, p + ItemsSize(items))
    decreases items
  {
    hide HeadSize, PropSize, NodeSize, Preorder, Ascending;
    Nothing(p);
    match items {
      case Done =>
      case Nop(rest) =>
        PreorderItemsAscend(p + 4, rest);
        AscendingConcat([], p, p + 4, Offsets(PreorderItems(p + 4, rest)), p + 4 + ItemsSize(rest));
      case Prop(_, val, rest) =>
        var q := p + PropSize(val);
        PreorderItemsAscend(q, rest);
        AscendingConcat([], p, q, Offsets(PreorderItems(q, rest)), q + ItemsSize(rest));
      case Child(n, rest) =>
        var q := p + NodeSize(n);
        PreorderAscends(Ref(p, n));
        PreorderItemsAscend(q, rest);
        OffsetsConcat(Preorder(Ref(p, n)), PreorderItems(q, rest));
        AscendingConcat(Offsets(Preorder(Ref(p, n))), p, q, Offsets(PreorderItems(q, rest)), q + ItemsSize(rest));
    }
  }

  // ---------- fdt_dump_helper ----------

  /** What the dump visits: it opens a node, lists its properties, dumps its children and closes the node. */
  datatype Visit = OpenNode(at: nat) | Property(at: nat) | CloseNode(at: nat)

  ghost function DumpOf(r: Ref): seq<Visit>
    decreases r.node
  {
    [OpenNode(r.at)] + PropVisits(Props(r)) + DumpItems(r.at + HeadSize(r.node.name), r.node.items) + [CloseNode(r.at)]
  }

  ghost function PropVisits(s: seq<PropRef>): seq<Visit> {
    if s == [] then [] else [Property(s[0].at)] + PropVisits(s[1..])
  }

  ghost function DumpItems(p: nat, items: Items): seq<Visit>
    decreases items
  {
    match items
    case Done => []
    case Nop(rest) => DumpItems(p + 4, rest)
    case Prop(_, val, rest) => DumpItems(p + PropSize(val), rest)
    case Child(n, rest) => DumpOf(Ref(p, n)) + DumpItems(p + NodeSize(n), rest)
  }

  ghost function DumpList(s: seq<Ref>): seq<Visit> {
    if s == [] then [] else DumpList(s[..|s| - 1]) + DumpOf(s[|s| - 1])
  }

  /** The dump of a node's items is the dump of its children one after the other. */
  lemma {:induction false} DumpByChildren(p: nat, items: Items, before: seq<Ref>)
    ensures DumpList(before) + DumpItems(p, items) == DumpList(before + ChildItems(p, items))
    decreases items
  {
    hide HeadSize, PropSize, NodeSize, DumpOf, DumpList;
    match items {
      case Done =>
        assert before + [] == before;
      case Nop(rest) => DumpByChildren(p + 4, rest, before);
      case Prop(_, val, rest) => DumpByChildren(p + PropSize(val), rest, before);
      case Child(n, rest) =>
        var x, others := Ref(p, n), ChildItems(p + NodeSize(n), rest);
        DumpByChildren(p + NodeSize(n), rest, before + [x]);
        OneMore(before, x);
        assert before + ([x] + others) == before + [x] + others;
    }
  }

  lemma OneMore(before: seq<Ref>, x: Ref)
    ensures DumpList(before + [x]) == DumpList(before) + DumpOf(x)
  {
    assert (before + [x])[..|before|] == before;
  }

  lemma DumpIsList(r: Ref)
    ensures DumpOf(r) == [OpenNode(r.at)] + PropVisits(Props(r)) + DumpList(Children(r)) + [CloseNode(r.at)]
  {
    var p := r.at + HeadSize(r.node.name);
    DumpByChildren(p, r.node.items, []);
    assert [] + ChildItems(p, r.node.items) == Children(r);
    assert DumpList([]) + DumpItems(p, r.node.items) == DumpItems(p, r.node.items);
  }

  /** The property loop of `fdt_dump_helper` */
  method DumpProps(b: Bytes, node: nat, ghost r: Ref) returns (out: seq<Visit>)
    requires node == r.at && r.at % 4 == 0 && NodeAt(b, r.at, r.node)
    ensures out == PropVisits(Props(r))
  {
    hide ReadBig32, HeadSize, PropSize, PropAt, NodeSize, NodeAt, Props;
    ghost var props := Props(r);
    ghost var i: nat := 0;
    PropsValid(b, r);
    var prop := PropIter(b, Some(node), None, r, 0);
    out := [];
    while PropValid(b, prop)
      invariant i <= |props| && prop == FirstProp(props[i..])
      invariant out + PropVisits(props[i..]) == PropVisits(props)
      decreases |props| - i
    {
      out := out + [Property(prop.value)];
      assert props[i..][1..] == props[i + 1..];
      i := i + 1;
      prop := PropIter(b, Some(node), prop, r, i);
    }
  }

  /** `fdt_dump_helper` on a valid node */
  method Dump(b: Bytes, node: nat, ghost r: Ref) returns (out: seq<Visit>)
    requires node == r.at && r.at % 4 == 0 && NodeAt(b, r.at, r.node)
    ensures out == DumpOf(r)
    decreases NodeSize(r.node)
  {
    hide ReadBig32, HeadSize, PropSize, PropAt, NodeSize, NodeAt, Props, Children;
    ghost var children := Children(r);
    ChildrenValid(b, r);
    var props := DumpProps(b, node, r);
    out := [OpenNode(node)] + props;
    ghost var head := out;
    ghost var i: nat := 0;
    var child := ChildIter(b, Some(node), None, r, 0);
    while NodeValid(b, child)
      invariant i <= |children| && child == First(children[i..])
      invariant out == head + DumpList(children[..i])
      decreases |children| - i
    {
      var part := Dump(b, child.value, children[i]);
      out := out + part;
      assert children[..i + 1][..i] == children[..i];
      i := i + 1;
      child := ChildIter(b, Some(node), child, r, i);
    }
    assert children[..i] == children;
    DumpIsList(r);
    out := out + [CloseNode(node)];
  }

  /** The nodes a dump opens, in order */
  ghost function Opened(out: seq<Visit>): seq<nat> {
    if out == [] then []
    else Opened(out[..|out| - 1]) + (if out[|out| - 1].OpenNode? then [out[|out| - 1].at] else [])
  }

  lemma NothingOpened()
    ensures Opened([]) == [] && Offsets([]) == []
  {
  }

  lemma OpenedOne(v: Visit)
    ensures Opened([v]) == if v.OpenNode? then [v.at] else []
  {
    assert [v][..0] == [];
  }

  lemma {:induction false} OpenedConcat(x: seq<Visit>, y: seq<Visit>)
    ensures Opened(x + y) == Opened(x) + Opened(y)
    decreases |y|
  {
    if y == [] {
      assert x + y == x;
    } else {
      OpenedConcat(x, y[..|y| - 1]);
      assert (x + y)[..|x + y| - 1] == x + y[..|y| - 1];
    }
  }

  lemma {:induction false} PropVisitsOpenNothing(s: seq<PropRef>)
    ensures Opened(PropVisits(s)) == []
  {
    if s != [] {
      PropVisitsOpenNothing(s[1..]);
      OpenedConcat([Property(s[0].at)], PropVisits(s[1..]));
    }
  }

  lemma OffsetsConcat(x: seq<Ref>, y: seq<Ref>)
    ensures Offsets(x + y) == Offsets(x) + Offsets(y)
  {
    var o := Offsets(x) + Offsets(y);
    assert forall k | 0 <= k < |x + y| :: Offsets(x + y)[k] == (x + y)[k].at == o[k];
  }

  /** The two traversals agree: the recursive dump opens exactly the nodes that `fdt_node_iter` yields, in the same
      order. */
  lemma {:induction false} DumpOpensPreorder(r: Ref)
    ensures Opened(DumpOf(r)) == Offsets(Preorder(r))
    decreases r.node
  {
    hide HeadSize, PropSize, Props, PropVisits, DumpItems, PreorderItems, Opened;
    var p := r.at + HeadSize(r.node.name);
    var a, c, d, e := [OpenNode(r.at)], PropVisits(Props(r)), DumpItems(p, r.node.items), [CloseNode(r.at)];
    OpenedConcat(a + c + d, e);
    OpenedConcat(a + c, d);
    OpenedConcat(a, c);
    OpenedOne(OpenNode(r.at));
    OpenedOne(CloseNode(r.at));
    PropVisitsOpenNothing(Props(r));
    DumpItemsOpenPreorder(p, r.node.items);
    OffsetsConcat([r], PreorderItems(p, r.node.items));
  }

  lemma {:induction false} DumpItemsOpenPreorder(p: nat, items: Items)
    ensures Opened(DumpItems(p, items)) == Offsets(PreorderItems(p, items))
    decreases items
  {
    hide HeadSize, PropSize, NodeSize, DumpOf, Preorder, Opened, Offsets;
    NothingOpened();
    match items {
      case Done =>
      case Nop(rest) => DumpItemsOpenPreorder(p + 4, rest);
      case Prop(_, val, rest) => DumpItemsOpenPreorder(p + PropSize(val), rest);
      case Child(n, rest) =>
        DumpOpensPreorder(Ref(p, n));
        DumpItemsOpenPreorder(p + NodeSize(n), rest);
        OpenedConcat(DumpOf(Ref(p, n)), DumpItems(p + NodeSize(n), rest));
        OffsetsConcat(Preorder(Ref(p, n)), PreorderItems(p + NodeSize(n), rest));
    }
  }

  /** The properties a dump lists, in order */
  ghost function Listed(out: seq<Visit>): seq<nat> {
    if out == [] then []
    else Listed(out[..|out| - 1]) + (if out[|out| - 1].Property? then [out[|out| - 1].at] else [])
  }

  ghost function PropOffsets(s: seq<PropRef>): (r: seq<nat>)
    ensures |r| == |s| && forall k | 0 <= k < |s| :: r[k] == s[k].at
  {
    if s == [] then [] else [s[0].at] + PropOffsets(s[1..])
  }

  /** The offsets of the properties of all nodes of a list, one node after the other */
  ghost function AllOffsets(nodes: seq<Ref>): seq<nat> {
    if nodes == [] then [] else PropOffsets(Props(nodes[0])) + AllOffsets(nodes[1..])
  }

  lemma ListedOne(v: Visit)
    ensures Listed([v]) == (if v.Property? then [v.at] else []) && Listed([]) == []
  {
    assert [v][..0] == [];
  }

  lemma {:induction false} ListedConcat(x: seq<Visit>, y: seq<Visit>)
    ensures Listed(x + y) == Listed(x) + Listed(y)
    decreases |y|
  {
    if y == [] {
      assert x + y == x;
    } else {
      ListedConcat(x, y[..|y| - 1]);
      assert (x + y)[..|x + y| - 1] == x + y[..|y| - 1];
    }
  }

  lemma {:induction false} PropVisitsListed(s: seq<PropRef>)
    ensures Listed(PropVisits(s)) == PropOffsets(s)
  {
    hide Listed;
    ListedOne(OpenNode(0));
    if s != [] {
      PropVisitsListed(s[1..]);
      ListedOne(Property(s[0].at));
      ListedConcat([Property(s[0].at)], PropVisits(s[1..]));
    }
  }

  lemma NoOffsets()
    ensures AllOffsets([]) == []
  {
  }

  lemma AllOffsetsStep(x: Ref, s: seq<Ref>)
    ensures AllOffsets([x] + s) == PropOffsets(Props(x)) + AllOffsets(s)
  {
    hide Props, PropOffsets;
    assert ([x] + s)[1..] == s;
  }

  lemma {:induction false} AllOffsetsConcat(x: seq<Ref>, y: seq<Ref>)
    ensures AllOffsets(x + y) == AllOffsets(x) + AllOffsets(y)
  {
    hide AllOffsets, Props, PropOffsets;
    if x == [] {
      NoOffsets();
      assert x + y == y;
    } else {
      var v := x[1..];
      AllOffsetsConcat(v, y);
      AllOffsetsStep(x[0], v);
      AllOffsetsStep(x[0], v + y);
      assert x == [x[0]] + v && x + y == [x[0]] + (v + y);
    }
  }

  /** The dump lists every property of every node: those of the nodes in preorder, each node's in definition order. */
  lemma {:induction false} DumpListsProperties(r: Ref)
    ensures Listed(DumpOf(r)) == AllOffsets(Preorder(r))
    decreases r.node
  {
    hide HeadSize, PropSize, Props, PropVisits, DumpItems, PreorderItems, Listed, PropOffsets;
    var p := r.at + HeadSize(r.node.name);
    var a, c, d, e := [OpenNode(r.at)], PropVisits(Props(r)), DumpItems(p, r.node.items), [CloseNode(r.at)];
    ListedConcat(a + c + d, e);
    ListedConcat(a + c, d);
    ListedConcat(a, c);
    ListedOne(OpenNode(r.at));
    ListedOne(CloseNode(r.at));
    PropVisitsListed(Props(r));
    DumpItemsListProperties(p, r.node.items);
    assert Preorder(r)[1..] == PreorderItems(p, r.node.items);
  }

  lemma {:induction false} DumpItemsListProperties(p: nat, items: Items)
    ensures Listed(DumpItems(p, items)) == AllOffsets(PreorderItems(p, items))
    decreases items
  {
    hide HeadSize, PropSize, NodeSize, DumpOf, Preorder, Listed, Props;
    ListedOne(OpenNode(0));
    match items {
      case Done =>
      case Nop(rest) => DumpItemsListProperties(p + 4, rest);
      case Prop(_, val, rest) => DumpItemsListProperties(p + PropSize(val), rest);
      case Child(n, rest) =>
        DumpListsProperties(Ref(p, n));
        DumpItemsListProperties(p + NodeSize(n), rest);
        ListedConcat(DumpOf(Ref(p, n)), DumpItems(p + NodeSize(n), rest));
        AllOffsetsConcat(Preorder(Ref(p, n)), PreorderItems(p + NodeSize(n), rest));
    }
  }

  // ---------- Reading a dump back ----------

  /** What a dump shows of a node: where it is, where its properties are, and its children */
  datatype Outline = Outline(at: nat, props: seq<nat>, children: seq<Outline>)

  ghost function OutlineOf(r: Ref): Outline
    decreases r.node
  {
    Outline(r.at, PropOffsets(Props(r)), OutlineItems(r.at + HeadSize(r.node.name), r.node.items))
  }

  ghost function OutlineItems(p: nat, items: Items): seq<Outline>
    decreases items
  {
    match items
    case Done => []
    case Nop(rest) => OutlineItems(p + 4, rest)
    case Prop(_, val, rest) => OutlineItems(p + PropSize(val), rest)
    case Child(n, rest) => [OutlineOf(Ref(p, n))] + OutlineItems(p + NodeSize(n), rest)
  }

  /** The properties at the front */
  function Leading(v: seq<Visit>): (s: seq<nat>)
    ensures |s| <= |v|
  {
    if v == [] || !v[0].Property? then [] else [v[0].at] + Leading(v[1..])
  }

  /** Reads one node: an open, properties, nodes, and the close of the same node. */
  function ReadNode(v: seq<Visit>): (r: Option<(Outline, seq<Visit>)>)
    ensures r.Some? ==> |r.value.1| < |v|
    decreases |v|, 0
  {
    if v == [] || !v[0].OpenNode? then None
    else
      var props := Leading(v[1..]);
      match ReadNodes(v[1 + |props|..])
      case None => None
      case Some((children, rest)) =>
        if rest == [] || rest[0] != CloseNode(v[0].at) then None
        else Some((Outline(v[0].at, props, children), rest[1..]))
  }

  function ReadNodes(v: seq<Visit>): (r: Option<(seq<Outline>, seq<Visit>)>)
    ensures r.Some? ==> |r.value.1| <= |v|
    decreases |v|, 1
  {
    if v == [] || !v[0].OpenNode? then Some(([], v))
    else
      match ReadNode(v)
      case None => None
      case Some((first, rest)) =>
        match ReadNodes(rest)
        case None => None
        case Some((others, end)) => Some(([first] + others, end))
  }

  lemma OneLeading(first: Visit, v: seq<Visit>)
    requires first.Property?
    ensures Leading([first] + v) == [first.at] + Leading(v)
  {
    assert ([first] + v)[1..] == v;
  }

  lemma {:induction false} LeadingProps(s: seq<PropRef>, v: seq<Visit>)
    requires v == [] || !v[0].Property?
    ensures |PropVisits(s)| == |s| && Leading(PropVisits(s) + v) == PropOffsets(s)
  {
    if s == [] {
      assert PropVisits(s) + v == v;
    } else {
      var w := PropVisits(s[1..]);
      LeadingProps(s[1..], v);
      assert PropVisits(s) + v == [Property(s[0].at)] + (w + v);
      OneLeading(Property(s[0].at), w + v);
    }
  }

  lemma {:induction false} DumpItemsStart(p: nat, items: Items)
    ensures DumpItems(p, items) == [] || DumpItems(p, items)[0].OpenNode?
    decreases items
  {
    match items {
      case Done =>
      case Nop(rest) => DumpItemsStart(p + 4, rest);
      case Prop(_, val, rest) => DumpItemsStart(p + PropSize(val), rest);
      case Child(n, rest) =>
    }
  }

  /** The dump read back is the node's outline, whatever follows it: its own properties right behind its open, its
      children's dumps behind them, and its own close. */
  lemma {:induction false} DumpReadsBack(r: Ref, rest: seq<Visit>)
    ensures ReadNode(DumpOf(r) + rest) == Some((OutlineOf(r), rest))
    decreases r.node
  {
    hide HeadSize, Props, PropVisits, DumpItems, Leading, PropOffsets, OutlineItems, ReadNodes;
    var p := r.at + HeadSize(r.node.name);
    var props, children, close := PropVisits(Props(r)), DumpItems(p, r.node.items), [CloseNode(r.at)] + rest;
    var v := DumpOf(r) + rest;
    assert v[1..] == props + (children + close);
    DumpItemsStart(p, r.node.items);
    LeadingProps(Props(r), children + close);
    assert v[1 + |props|..] == children + close;
    DumpItemsReadBack(p, r.node.items, close);
    assert close[1..] == rest;
  }

  lemma {:induction false} DumpItemsReadBack(p: nat, items: Items, rest: seq<Visit>)
    requires rest == [] || !rest[0].OpenNode?
    ensures ReadNodes(DumpItems(p, items) + rest) == Some((OutlineItems(p, items), rest))
    decreases items
  {
    hide HeadSize, PropSize, NodeSize, DumpOf, OutlineOf, ReadNode;
    match items {
      case Done =>
        assert [] + rest == rest;
      case Nop(next) => DumpItemsReadBack(p + 4, next, rest);
      case Prop(_, val, next) => DumpItemsReadBack(p + PropSize(val), next, rest);
      case Child(n, next) =>
        var others := DumpItems(p + NodeSize(n), next) + rest;
        DumpStart(Ref(p, n));
        assert DumpItems(p, items) + rest == DumpOf(Ref(p, n)) + others;
        DumpReadsBack(Ref(p, n), others);
        DumpItemsReadBack(p + NodeSize(n), next, rest);
    }
  }

  lemma DumpStart(r: Ref)
    ensures DumpOf(r) != [] && DumpOf(r)[0] == OpenNode(r.at)
  {
  }

  /** The outline shows exactly the node's own properties and children. */
  lemma OutlineShows(r: Ref)
    ensures var o := OutlineOf(r);
            && o.at == r.at && |o.props| == |Props(r)| && |o.children| == |Children(r)|
            && (forall k | 0 <= k < |o.props| :: o.props[k] == Props(r)[k].at)
            && (forall k | 0 <= k < |o.children| :: o.children[k] == OutlineOf(Children(r)[k]))
  {
    hide Props, OutlineItems, ChildItems;
    OutlineItemsShow(r.at + HeadSize(r.node.name), r.node.items);
  }

  lemma {:induction false} OutlineItemsShow(p: nat, items: Items)
    ensures var o, c := OutlineItems(p, items), ChildItems(p, items);
            |o| == |c| && forall k | 0 <= k < |o| :: o[k] == OutlineOf(c[k])
    decreases items
  {
    hide HeadSize, PropSize, NodeSize, OutlineOf;
    match items {
      case Done =>
      case Nop(rest) => OutlineItemsShow(p + 4, rest);
      case Prop(_, val, rest) => OutlineItemsShow(p + PropSize(val), rest);
      case Child(n, rest) => OutlineItemsShow(p + NodeSize(n), rest);
    }
  }
}
