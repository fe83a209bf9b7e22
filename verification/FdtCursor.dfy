/** The cursor loops of `src/drivers/devicetree.c` that move over one name, one property or one whole node.

    Handles are offsets into the blob; the readers keep no stack, so the proofs carry one as a ghost. */
module FdtCursor {
  import opened Options
  import opened FdtFormat

  /** `fdt_node_valid`, for a handle whose token may be read */
  predicate NodeValid(b: Bytes, node: Option<nat>) {
    node.Some? && Token(b, node.value, FDT_BEGIN_NODE)
  }

  /** `fdt_prop_valid`: a property handle points just after its token. */
  predicate PropValid(b: Bytes, prop: Option<nat>) {
    prop.Some? && prop.value >= 4 && Token(b, prop.value - 4, FDT_PROP)
  }

  // ---------- What is left to read ----------

  /** The rest of each open node and the offset of its end token, innermost first.  Below the outermost one lies, from
      a given offset on, either something unknown or the tail of the structure block. */
  datatype Stack = Unknown(from: nat) | Tail | Open(items: Items, end: nat, up: Stack)

  ghost predicate StackAt(b: Bytes, p: nat, st: Stack)
    decreases st
  {
    match st
    case Unknown(q) => p == q
    case Tail => TailAt(b, p)
    case Open(items, end, up) =>
      && ItemsAt(b, p, items, end)
      && Token(b, end, FDT_END_NODE)
      && StackAt(b, end + 4, up)
  }

  ghost predicate OnlyUnknown(st: Stack) {
    st.Unknown? || (st.Open? && OnlyUnknown(st.up))
  }

  ghost function Bottom(st: Stack): nat
    requires OnlyUnknown(st)
  {
    if st.Unknown? then st.from else Bottom(st.up)
  }

  /** There is a token to read before the end token. */
  lemma NextInside(b: Bytes, p: nat, items: Items, end: nat)
    requires ItemsAt(b, p, items, end) && Token(b, end, FDT_END_NODE)
    ensures p + 4 <= |b|
  {
    hide ReadBig32;
    NextToken(b, p, items, end);
  }

  lemma AnyInside(b: Bytes, p: nat, st: Stack)
    requires StackAt(b, p, st) && EndsInTail(st)
    ensures p + 4 <= |b|
  {
    hide ReadBig32;
    AnyToken(b, p, st);
  }

  /** A position inside the tree of a whole blob */
  ghost predicate EndsInTail(st: Stack) {
    st.Tail? || (st.Open? && EndsInTail(st.up))
  }

  /** What the next token says anywhere in the structure block */
  lemma AnyToken(b: Bytes, p: nat, st: Stack)
    requires StackAt(b, p, st) && EndsInTail(st)
    ensures p + 4 <= |b|
    ensures st.Open? ==> NextIs(b, p, st.items, st.end)
    ensures st.Tail? ==> ReadBig32(b, p) == FDT_END || (ReadBig32(b, p) == FDT_NOP && TailAt(b, p + 4))
  {
    hide ReadBig32;
    if st.Open? {
      NextToken(b, p, st.items, st.end);
    }
  }

  ghost function Depth(st: Stack): nat {
    if st.Open? then 1 + Depth(st.up) else 0
  }

  lemma {:induction false} ItemsEnd(b: Bytes, p: nat, items: Items, q: nat)
    requires ItemsAt(b, p, items, q)
    ensures p <= q
    decreases items
  {
    hide ReadBig32, HeadSize, PropSize, NodeAt, PropAt;
    match items {
      case Done =>
      case Nop(rest) => ItemsEnd(b, p + 4, rest, q);
      case Prop(_, val, rest) => ItemsEnd(b, p + PropSize(val), rest, q);
      case Child(n, rest) => ItemsEnd(b, p + NodeSize(n), rest, q);
    }
  }

  /** What the next token says about the innermost open node */
  ghost predicate NextIs(b: Bytes, p: nat, items: Items, end: nat) {
    && p + 4 <= |b|
    && p <= end
    && match items
       case Done => ReadBig32(b, p) == FDT_END_NODE && p == end
       case Nop(rest) => ReadBig32(b, p) == FDT_NOP && ItemsAt(b, p + 4, rest, end) && p + 4 <= end
       case Prop(nameoff, val, rest) =>
         && ReadBig32(b, p) == FDT_PROP
         && PropAt(b, p, nameoff, val)
         && ItemsAt(b, p + PropSize(val), rest, end) && p + PropSize(val) <= end
       case Child(n, rest) =>
         && ReadBig32(b, p) == FDT_BEGIN_NODE
         && NodeAt(b, p, n)
         && CString(b, p + 4, n.name)
         && ItemsAt(b, p + HeadSize(n.name), n.items, p + NodeSize(n) - 4)
         && Token(b, p + NodeSize(n) - 4, FDT_END_NODE)
         && ItemsAt(b, p + NodeSize(n), rest, end) && p + NodeSize(n) <= end
  }

  lemma NextToken(b: Bytes, p: nat, items: Items, end: nat)
    requires ItemsAt(b, p, items, end) && Token(b, end, FDT_END_NODE)
    ensures NextIs(b, p, items, end)
  {
    hide ReadBig32, HeadSize, PropSize;
    ItemsEnd(b, p, items, end);
    match items {
      case Done =>
      case Nop(rest) => ItemsEnd(b, p + 4, rest, end);
      case Prop(_, val, rest) => ItemsEnd(b, p + PropSize(val), rest, end);
      case Child(n, rest) => ItemsEnd(b, p + NodeSize(n), rest, end);
    }
  }

  // ---------- fdt_skip_name, fdt_skip_property ----------

  /** `fdt_skip_name`: the first word after a node's name */
  method SkipName(b: Bytes, node: nat, ghost name: Bytes) returns (p: nat)
    requires node % 4 == 0 && CString(b, node + 4, name)
    ensures p == node + HeadSize(name) && p % 4 == 0
  {
    var c := node + 4;
    assert forall i | 0 <= i < |name| :: b[node + 4 + i] == name[i] && name[i] in name;
    while b[c] != 0
      invariant node + 4 <= c <= node + 4 + |name|
      decreases node + 4 + |name| - c
    {
      c := c + 1;
    }
    p := Align4(c + 1);
    AlignShift(node, 4 + |name| + 1);
    AlignShift(4, |name| + 1);
  }

  /** `fdt_skip_property`: the first word after a property's value */
  method SkipProperty(b: Bytes, prop: nat, ghost nameoff: nat, ghost val: Bytes) returns (p: nat)
    requires prop % 4 == 0 && PropAt(b, prop, nameoff, val)
    ensures p == prop + PropSize(val) && p % 4 == 0
  {
    p := prop + 4;
    p := p + 8 + ReadBig32(b, p);
    p := Align4(p);
    AlignShift(prop, 12 + |val|);
    AlignShift(12, |val|);
  }

  // ---------- fdt_skip_node ----------

  lemma InsideBrackets(b: Bytes, node: nat, n: Node)
    requires NodeAt(b, node, n)
    ensures CString(b, node + 4, n.name)
    ensures ItemsAt(b, node + HeadSize(n.name), n.items, node + NodeSize(n) - 4)
    ensures Token(b, node + NodeSize(n) - 4, FDT_END_NODE)
  {
  }

  /** `fdt_skip_node` stops exactly after the matching end token of the node it is given, whatever the node's names
      and property values contain. */
  method SkipNode(b: Bytes, node: nat, ghost n: Node) returns (p: nat)
    requires node % 4 == 0 && NodeAt(b, node, n)
    ensures p == node + NodeSize(n) && p % 4 == 0
  {
    hide ReadBig32, HeadSize, PropSize, PropAt, CString, ItemsAt, NodeSize;
    InsideBrackets(b, node, n);
    ghost var st := Open(n.items, node + NodeSize(n) - 4, Unknown(node + NodeSize(n)));
    p := SkipName(b, node, n.name);
    var deep := 1;
    while deep > 0
      invariant p % 4 == 0 && deep == Depth(st)
      invariant StackAt(b, p, st) && OnlyUnknown(st) && Bottom(st) == node + NodeSize(n)
      decreases node + NodeSize(n) - p
    {
      NextToken(b, p, st.items, st.end);
      BelowBottom(b, st.end + 4, st.up);
      ghost var items, end, up := st.items, st.end, st.up;
      var token := ReadBig32(b, p);
      if token == FDT_BEGIN_NODE {
        st := Open(items.node.items, p + NodeSize(items.node) - 4, Open(items.rest, end, up));
        p := SkipName(b, p, items.node.name);
        deep := deep + 1;
      } else if token == FDT_END_NODE {
        deep, p, st := deep - 1, p + 4, up;
      } else if token == FDT_NOP {
        p, st := p + 4, Open(items.rest, end, up);
      } else if token == FDT_PROP {
        p := SkipProperty(b, p, items.nameoff, items.val);
        st := Open(items.rest, end, up);
      } else {
        return;
      }
    }
  }

  lemma {:induction false} BelowBottom(b: Bytes, p: nat, st: Stack)
    requires StackAt(b, p, st) && OnlyUnknown(st)
    ensures p <= Bottom(st)
    decreases st
  {
    if st.Open? {
      ItemsEnd(b, p, st.items, st.end);
      BelowBottom(b, st.end + 4, st.up);
    }
  }
}
