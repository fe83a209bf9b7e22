/** The structure block of a flattened device tree (Devicetree Specification v0.4, sections 5.2 to 5.6): abstract
    trees, what it means that a tree lies at an offset of a blob, and a function that flattens a tree.

    A blob is a sequence of bytes that starts on an 8-byte boundary, so offsets and addresses are aligned alike. */
module FdtFormat {
  type Byte = n: nat | n < 256
  type Bytes = seq<Byte>

  const FDT_BEGIN_NODE: nat := 1
  const FDT_END_NODE: nat := 2
  const FDT_PROP: nat := 3
  const FDT_NOP: nat := 4
  const FDT_END: nat := 9

  // ---------- Abstract trees ----------

  /** A node's name and what follows it up to its end token: properties, child nodes and NOPs in any order. */
  datatype Node = Node(name: Bytes, items: Items)
  datatype Items =
    | Done
    | Nop(rest: Items)
    | Prop(nameoff: nat, val: Bytes, rest: Items)
    | Child(node: Node, rest: Items)

  /** A node together with the offset of its begin token, which is what an `fdt_node` handle holds */
  datatype Ref = Ref(at: nat, node: Node)

  // ---------- Sizes ----------

  function Align4(n: nat): (r: nat)
    ensures n <= r < n + 4 && r % 4 == 0
  {
    (n + 3) / 4 * 4
  }

  lemma AlignedSum(m: nat, n: nat)
    requires m % 4 == 0 && n % 4 == 0
    ensures (m + n) % 4 == 0
  {
  }

  lemma AlignShift(p: nat, n: nat)
    requires p % 4 == 0
    ensures Align4(p + n) == p + Align4(n)
  {
  }

  /** Begin token and name */
  function HeadSize(name: Bytes): (r: nat)
    ensures r >= 8
  {
    4 + Align4(|name| + 1)
  }

  function PropSize(val: Bytes): (r: nat)
    ensures r >= 12
  {
    12 + Align4(|val|)
  }

  function NodeSize(n: Node): (r: nat)
    ensures r >= 12
  {
    HeadSize(n.name) + ItemsSize(n.items) + 4
  }

  function ItemsSize(items: Items): nat {
    match items
    case Done => 0
    case Nop(rest) => 4 + ItemsSize(rest)
    case Prop(_, val, rest) => PropSize(val) + ItemsSize(rest)
    case Child(n, rest) => NodeSize(n) + ItemsSize(rest)
  }

  lemma {:induction false} NodeSizeAligned(n: Node)
    ensures NodeSize(n) % 4 == 0
    decreases n
  {
    ItemsSizeAligned(n.items);
    AlignedSum(HeadSize(n.name), ItemsSize(n.items));
    AlignedSum(HeadSize(n.name) + ItemsSize(n.items), 4);
  }

  lemma {:induction false} ItemsSizeAligned(items: Items)
    ensures ItemsSize(items) % 4 == 0
    decreases items
  {
    match items {
      case Done =>
      case Nop(rest) =>
        ItemsSizeAligned(rest);
        AlignedSum(4, ItemsSize(rest));
      case Prop(_, val, rest) =>
        ItemsSizeAligned(rest);
        AlignedSum(PropSize(val), ItemsSize(rest));
      case Child(n, rest) =>
        NodeSizeAligned(n);
        ItemsSizeAligned(rest);
        AlignedSum(NodeSize(n), ItemsSize(rest));
    }
  }

  /** Sizes keep offsets on word boundaries. */
  lemma StepsAligned(p: nat, name: Bytes, val: Bytes, n: Node)
    requires p % 4 == 0
    ensures (p + HeadSize(name)) % 4 == 0 && (p + PropSize(val)) % 4 == 0 && (p + NodeSize(n)) % 4 == 0
  {
    NodeSizeAligned(n);
    AlignedSum(p, NodeSize(n));
    AlignedSum(4, Align4(|name| + 1));
    AlignedSum(p, HeadSize(name));
    AlignedSum(12, Align4(|val|));
    AlignedSum(p, PropSize(val));
  }

  // ---------- Reading the blob ----------

  /** The big-endian 32-bit word at p */
  function ReadBig32(b: Bytes, p: nat): nat
    requires p + 4 <= |b|
  {
    b[p] as nat * 0x100_0000 + b[p + 1] as nat * 0x1_0000 + b[p + 2] as nat * 0x100 + b[p + 3] as nat
  }

  predicate Token(b: Bytes, p: nat, token: nat) {
    p + 4 <= |b| && ReadBig32(b, p) == token
  }

  /** A NUL-terminated string */
  predicate CString(b: Bytes, p: nat, s: Bytes) {
    p + |s| < |b| && b[p..p + |s|] == s && b[p + |s|] == 0 && 0 !in s
  }

  // ---------- A tree in a blob ----------

  /** Node n lies at p: its begin token, name, items and matching end token. */
  ghost predicate NodeAt(b: Bytes, p: nat, n: Node)
    decreases n
  {
    && Token(b, p, FDT_BEGIN_NODE)
    && CString(b, p + 4, n.name)
    && ItemsAt(b, p + HeadSize(n.name), n.items, p + NodeSize(n) - 4)
    && Token(b, p + NodeSize(n) - 4, FDT_END_NODE)
  }

  /** The items fill the blob from p up to q. */
  ghost predicate ItemsAt(b: Bytes, p: nat, items: Items, q: nat)
    decreases items
  {
    match items
    case Done => p == q
    case Nop(rest) => Token(b, p, FDT_NOP) && ItemsAt(b, p + 4, rest, q)
    case Prop(nameoff, val, rest) => PropAt(b, p, nameoff, val) && ItemsAt(b, p + PropSize(val), rest, q)
    case Child(n, rest) => NodeAt(b, p, n) && ItemsAt(b, p + NodeSize(n), rest, q)
  }

  ghost predicate PropAt(b: Bytes, p: nat, nameoff: nat, val: Bytes) {
    && Token(b, p, FDT_PROP)
    && Token(b, p + 4, |val|)
    && Token(b, p + 8, nameoff)
    && p + PropSize(val) <= |b|
    && b[p + 12..p + 12 + |val|] == val
  }

  /** After the root node: NOPs, then the end token */
  ghost predicate TailAt(b: Bytes, p: nat)
    decreases |b| - p
  {
    Token(b, p, FDT_END) || (Token(b, p, FDT_NOP) && TailAt(b, p + 4))
  }

  /** From p, NOPs only up to offset q */
  ghost predicate NopsUpTo(b: Bytes, p: nat, q: nat)
    decreases q - p
  {
    p == q || (p < q && Token(b, p, FDT_NOP) && NopsUpTo(b, p + 4, q))
  }

  /** A device tree blob: the header's offset leads, past NOPs, to the root node, and FDT_END follows it. */
  ghost predicate Blob(b: Bytes, root: Ref) {
    && 40 <= |b|
    && root.at % 4 == 0
    && NopsUpTo(b, ReadBig32(b, 8), root.at)
    && NodeAt(b, root.at, root.node)
    && TailAt(b, root.at + NodeSize(root.node))
  }

  // ---------- Flattening ----------

  function Big32(n: nat): (r: Bytes)
    requires n < 0x1_0000_0000
    ensures |r| == 4
  {
    [n / 0x100_0000, n / 0x1_0000 % 0x100, n / 0x100 % 0x100, n % 0x100]
  }

  function ZeroBytes(n: nat): (r: Bytes)
    ensures |r| == n
  {
    seq(n, _ => 0)
  }

  /** Trees a blob can hold: names without NUL, numbers of 32 bits */
  predicate Flattenable(n: Node) {
    0 !in n.name && FlattenableItems(n.items)
  }

  predicate FlattenableItems(items: Items) {
    match items
    case Done => true
    case Nop(rest) => FlattenableItems(rest)
    case Prop(nameoff, val, rest) => nameoff < 0x1_0000_0000 && |val| < 0x1_0000_0000 && FlattenableItems(rest)
    case Child(n, rest) => Flattenable(n) && FlattenableItems(rest)
  }

  function HeadBytes(name: Bytes): (r: Bytes)
    ensures |r| == HeadSize(name)
  {
    Big32(FDT_BEGIN_NODE) + (name + ZeroBytes(Align4(|name| + 1) - |name|))
  }

  function PropBytes(nameoff: nat, val: Bytes): (r: Bytes)
    requires nameoff < 0x1_0000_0000 && |val| < 0x1_0000_0000
    ensures |r| == PropSize(val)
  {
    Big32(FDT_PROP) + (Big32(|val|) + (Big32(nameoff) + (val + ZeroBytes(Align4(|val|) - |val|))))
  }

  function Flatten(n: Node): (r: Bytes)
    requires Flattenable(n)
    ensures |r| == NodeSize(n)
  {
    HeadBytes(n.name) + (FlattenItems(n.items) + Big32(FDT_END_NODE))
  }

  function FlattenItems(items: Items): (r: Bytes)
    requires FlattenableItems(items)
    ensures |r| == ItemsSize(items)
  {
    match items
    case Done => []
    case Nop(rest) => Big32(FDT_NOP) + FlattenItems(rest)
    case Prop(nameoff, val, rest) =>
      PropBytes(nameoff, val) + FlattenItems(rest)
    case Child(n, rest) => Flatten(n) + FlattenItems(rest)
  }

  lemma Big32Word(n: nat)
    requires n < 0x1_0000_0000
    ensures ReadBig32(Big32(n), 0) == n
  {
    assert n / 0x1_0000 == n / 0x100_0000 * 0x100 + n / 0x1_0000 % 0x100;
    assert n / 0x100 == n / 0x1_0000 * 0x100 + n / 0x100 % 0x100;
  }

  /** `part` lies at offset p of b. */
  predicate At(b: Bytes, p: nat, part: Bytes) {
    p + |part| <= |b| && b[p..p + |part|] == part
  }

  lemma AtSplit(b: Bytes, p: nat, x: Bytes, y: Bytes)
    requires At(b, p, x + y)
    ensures At(b, p, x) && At(b, p + |x|, y)
  {
    assert b[p..p + |x|] == b[p..p + |x + y|][..|x|] == x;
    assert b[p + |x|..p + |x + y|] == b[p..p + |x + y|][|x|..] == y;
  }

  lemma AtBig32(b: Bytes, p: nat, n: nat)
    requires n < 0x1_0000_0000 && At(b, p, Big32(n))
    ensures Token(b, p, n)
  {
    Big32Word(n);
    var w := Big32(n);
    forall i | 0 <= i < 4 ensures b[p + i] == w[i] {
      assert b[p..p + 4][i] == w[i];
    }
  }

  lemma HeadBytesAt(b: Bytes, p: nat, name: Bytes)
    requires At(b, p, HeadBytes(name)) && 0 !in name
    ensures Token(b, p, FDT_BEGIN_NODE) && CString(b, p + 4, name)
  {
    var pad := ZeroBytes(Align4(|name| + 1) - |name|);
    AtSplit(b, p, Big32(FDT_BEGIN_NODE), name + pad);
    AtSplit(b, p + 4, name, pad);
    AtBig32(b, p, FDT_BEGIN_NODE);
    assert b[p + 4 + |name|..p + 4 + |name| + |pad|][0] == pad[0];
  }

  lemma PropBytesAt(b: Bytes, p: nat, nameoff: nat, val: Bytes)
    requires nameoff < 0x1_0000_0000 && |val| < 0x1_0000_0000
    requires At(b, p, PropBytes(nameoff, val))
    ensures PropAt(b, p, nameoff, val)
  {
    var pad := ZeroBytes(Align4(|val|) - |val|);
    AtSplit(b, p, Big32(FDT_PROP), Big32(|val|) + (Big32(nameoff) + (val + pad)));
    AtSplit(b, p + 4, Big32(|val|), Big32(nameoff) + (val + pad));
    AtSplit(b, p + 8, Big32(nameoff), val + pad);
    AtSplit(b, p + 12, val, pad);
    AtBig32(b, p, FDT_PROP);
    AtBig32(b, p + 4, |val|);
    AtBig32(b, p + 8, nameoff);
  }

  /** Wherever the flattened bytes of a tree lie, the tree lies there: whatever bytes its names and property values
      hold, and whatever surrounds it. */
  lemma {:induction false} FlattenedNodeAt(b: Bytes, p: nat, n: Node)
    requires Flattenable(n) && At(b, p, Flatten(n))
    ensures NodeAt(b, p, n)
    decreases n
  {
    hide At, Big32, ReadBig32, HeadBytes, CString;
    var items := FlattenItems(n.items);
    AtSplit(b, p, HeadBytes(n.name), items + Big32(FDT_END_NODE));
    AtSplit(b, p + HeadSize(n.name), items, Big32(FDT_END_NODE));
    HeadBytesAt(b, p, n.name);
    AtBig32(b, p + HeadSize(n.name) + ItemsSize(n.items), FDT_END_NODE);
    FlattenedItemsAt(b, p + HeadSize(n.name), n.items);
  }

  lemma {:induction false} FlattenedItemsAt(b: Bytes, p: nat, items: Items)
    requires FlattenableItems(items) && At(b, p, FlattenItems(items))
    ensures ItemsAt(b, p, items, p + ItemsSize(items))
    decreases items
  {
    hide At, ReadBig32, Big32, HeadSize, PropSize, NodeSize, NodeAt, PropAt, Flatten, PropBytes;
    match items {
      case Done =>
      case Nop(rest) =>
        AtSplit(b, p, Big32(FDT_NOP), FlattenItems(rest));
        AtBig32(b, p, FDT_NOP);
        FlattenedItemsAt(b, p + 4, rest);
      case Prop(nameoff, val, rest) =>
        FlattenedPropAt(b, p, nameoff, val, rest);
      case Child(n, rest) =>
        FlattenedChildAt(b, p, n, rest);
    }
  }

  lemma {:induction false} FlattenedPropAt(b: Bytes, p: nat, nameoff: nat, val: Bytes, rest: Items)
    requires FlattenableItems(Prop(nameoff, val, rest)) && At(b, p, FlattenItems(Prop(nameoff, val, rest)))
    ensures ItemsAt(b, p, Prop(nameoff, val, rest), p + ItemsSize(Prop(nameoff, val, rest)))
    decreases Prop(nameoff, val, rest), 0
  {
    hide At, ReadBig32, PropSize, PropAt, PropBytes;
    AtSplit(b, p, PropBytes(nameoff, val), FlattenItems(rest));
    PropBytesAt(b, p, nameoff, val);
    FlattenedItemsAt(b, p + PropSize(val), rest);
  }

  lemma {:induction false} FlattenedChildAt(b: Bytes, p: nat, n: Node, rest: Items)
    requires FlattenableItems(Child(n, rest)) && At(b, p, FlattenItems(Child(n, rest)))
    ensures ItemsAt(b, p, Child(n, rest), p + ItemsSize(Child(n, rest)))
    decreases Child(n, rest), 0
  {
    hide At, ReadBig32, NodeSize, NodeAt, Flatten;
    AtSplit(b, p, Flatten(n), FlattenItems(rest));
    FlattenedNodeAt(b, p, n);
    FlattenedItemsAt(b, p + NodeSize(n), rest);
  }

  function Nops(k: nat): (r: Bytes)
    ensures |r| == 4 * k
  {
    if k == 0 then [] else Big32(FDT_NOP) + Nops(k - 1)
  }

  lemma {:induction false} NopsAt(b: Bytes, p: nat, k: nat)
    requires At(b, p, Nops(k))
    ensures NopsUpTo(b, p, p + 4 * k)
    ensures TailAt(b, p + 4 * k) ==> TailAt(b, p)
    decreases k
  {
    if k > 0 {
      AtSplit(b, p, Big32(FDT_NOP), Nops(k - 1));
      AtBig32(b, p, FDT_NOP);
      NopsAt(b, p + 4, k - 1);
    }
  }

  /** A header that points at k NOPs, a flattened tree, l NOPs and the end token make a blob of that tree. */
  lemma FlattenedBlob(b: Bytes, p: nat, k: nat, n: Node, l: nat)
    requires 40 <= |b| && ReadBig32(b, 8) == p && p % 4 == 0 && Flattenable(n)
    requires At(b, p, Nops(k) + (Flatten(n) + (Nops(l) + Big32(FDT_END))))
    ensures Blob(b, Ref(p + 4 * k, n))
  {
    hide At, ReadBig32, TailAt, NopsUpTo, NodeAt, Flatten, Nops, NodeSize, Big32;
    var q := p + 4 * k + NodeSize(n);
    AtSplit(b, p, Nops(k), Flatten(n) + (Nops(l) + Big32(FDT_END)));
    AtSplit(b, p + 4 * k, Flatten(n), Nops(l) + Big32(FDT_END));
    AtSplit(b, q, Nops(l), Big32(FDT_END));
    NopsAt(b, p, k);
    FlattenedNodeAt(b, p + 4 * k, n);
    AtBig32(b, q + 4 * l, FDT_END);
    EndIsTail(b, q + 4 * l);
    NopsAt(b, q, l);
    AlignedSum(p, 4 * k);
  }

  /** The bytes of a node "a" with a NOP, a property of five bytes and a child "bcde", and of the end token */
  lemma FlattenedExample()
    ensures var n := Node([97], Nop(Prop(7, [1, 2, 3, 4, 9], Child(Node([98, 99, 100, 101], Done), Done))));
            && Flattenable(n)
            && Flatten(n) ==
               [0, 0, 0, 1, 97, 0, 0, 0] + ([0, 0, 0, 4] +
               ([0, 0, 0, 3, 0, 0, 0, 5, 0, 0, 0, 7, 1, 2, 3, 4, 9, 0, 0, 0] +
               ([0, 0, 0, 1, 98, 99, 100, 101, 0, 0, 0, 0, 0, 0, 0, 2] + [0, 0, 0, 2])))
    ensures Big32(FDT_END) == [0, 0, 0, 9]
  {
    hide HeadBytes, PropBytes, Big32, FlattenItems, FlattenableItems, HeadSize, PropSize, NodeSize;
    TokenBytes();
    ChildExample();
    PropExample();
    ItemsExample(Node([98, 99, 100, 101], Done));
    Nested(Big32(FDT_NOP), PropBytes(7, [1, 2, 3, 4, 9]), Flatten(Node([98, 99, 100, 101], Done)), Big32(FDT_END_NODE));
  }

  lemma TokenBytes()
    ensures Big32(FDT_NOP) == [0, 0, 0, 4] && Big32(FDT_END_NODE) == [0, 0, 0, 2] && Big32(FDT_END) == [0, 0, 0, 9]
  {
  }

  lemma ItemsExample(child: Node)
    requires Flattenable(child)
    ensures var items := Nop(Prop(7, [1, 2, 3, 4, 9], Child(child, Done)));
            && FlattenableItems(items)
            && FlattenItems(items) == Big32(FDT_NOP) + (PropBytes(7, [1, 2, 3, 4, 9]) + Flatten(child))
  {
    hide PropBytes, Big32, HeadSize, PropSize, NodeSize, Flattenable, Flatten;
    var one := Child(child, Done);
    var two := Prop(7, [1, 2, 3, 4, 9], one);
    assert FlattenableItems(one) && FlattenableItems(two);
    assert Flatten(child) + [] == Flatten(child);
    assert FlattenItems(one) == Flatten(child);
    assert FlattenItems(two) == PropBytes(7, [1, 2, 3, 4, 9]) + FlattenItems(one);
  }

  lemma Nested(x: Bytes, y: Bytes, z: Bytes, w: Bytes)
    ensures x + (y + z) + w == x + (y + (z + w))
  {
  }

  lemma ChildExample()
    ensures var child := Node([98, 99, 100, 101], Done);
            Flattenable(child) && Flatten(child) == [0, 0, 0, 1, 98, 99, 100, 101, 0, 0, 0, 0, 0, 0, 0, 2]
    ensures HeadBytes([97]) == [0, 0, 0, 1, 97, 0, 0, 0]
  {
    assert ZeroBytes(4) == [0, 0, 0, 0] && ZeroBytes(3) == [0, 0, 0];
  }

  lemma PropExample()
    ensures PropBytes(7, [1, 2, 3, 4, 9]) == [0, 0, 0, 3, 0, 0, 0, 5, 0, 0, 0, 7, 1, 2, 3, 4, 9, 0, 0, 0]
  {
    assert ZeroBytes(3) == [0, 0, 0];
  }

  lemma EndIsTail(b: Bytes, p: nat)
    requires Token(b, p, FDT_END)
    ensures TailAt(b, p)
  {
  }

  // ---------- A blob holds one tree ----------

  lemma CStringUnique(b: Bytes, p: nat, x: Bytes, y: Bytes)
    requires CString(b, p, x) && CString(b, p, y)
    ensures x == y
  {
    assert forall i | 0 <= i < |x| :: b[p + i] == b[p..p + |x|][i] == x[i] && x[i] in x;
    assert forall i | 0 <= i < |y| :: b[p + i] == b[p..p + |y|][i] == y[i] && y[i] in y;
  }

  /** No two trees lie at the same place: what the readers are verified against is fixed by the bytes. */
  lemma {:induction false} NodeUnique(b: Bytes, p: nat, x: Node, y: Node)
    requires NodeAt(b, p, x) && NodeAt(b, p, y)
    ensures x == y
    decreases x
  {
    hide ReadBig32, HeadSize, PropSize, PropAt, CString;
    CStringUnique(b, p + 4, x.name, y.name);
    ItemsUnique(b, p + HeadSize(x.name), x.items, p + NodeSize(x) - 4, y.items, p + NodeSize(y) - 4);
  }

  lemma {:induction false} ItemsUnique(b: Bytes, p: nat, x: Items, xEnd: nat, y: Items, yEnd: nat)
    requires ItemsAt(b, p, x, xEnd) && Token(b, xEnd, FDT_END_NODE)
    requires ItemsAt(b, p, y, yEnd) && Token(b, yEnd, FDT_END_NODE)
    ensures x == y
    decreases x
  {
    hide ReadBig32, HeadSize, PropSize, NodeSize;
    match (x, y) {
      case (Nop(x'), Nop(y')) => ItemsUnique(b, p + 4, x', xEnd, y', yEnd);
      case (Prop(_, val, x'), Prop(_, _, y')) => ItemsUnique(b, p + PropSize(val), x', xEnd, y', yEnd);
      case (Child(n, x'), Child(m, y')) =>
        NodeUnique(b, p, n, m);
        ItemsUnique(b, p + NodeSize(n), x', xEnd, y', yEnd);
      case _ =>
    }
  }

  /** So the flattened bytes of a tree hold that tree and no other. */
  lemma FlattenRoundTrip(b: Bytes, p: nat, n: Node, m: Node)
    requires Flattenable(n) && At(b, p, Flatten(n))
    ensures NodeAt(b, p, m) <==> m == n
  {
    FlattenedNodeAt(b, p, n);
    if NodeAt(b, p, m) {
      NodeUnique(b, p, n, m);
    }
  }
}
