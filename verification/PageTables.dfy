/** Three-level page tables in flat memory: the walk `mmu_entry` makes, and the forest of tables it makes it in.

    The theory is stated on index triples (k2, k1, k0) below 512, so it holds for any way of cutting indices out of
    an address; PageIndices says what the code's own masks make of one. */
module PageTables {
  import opened Options
  import opened Division
  import opened PhysicalMemory

  // ---------- Page table entries (include/mmu.h:11-19) ----------

  const M_VALID: nat := 1
  const M_READ: nat := 2
  const M_WRITE: nat := 4
  const M_EXEC: nat := 8
  const M_GLOBAL: nat := 32

  predicate Valid(e: Word) { e % 2 == 1 }
  predicate Readable(e: Word) { e / 2 % 2 == 1 }
  predicate Writable(e: Word) { e / 4 % 2 == 1 }
  predicate Executable(e: Word) { e / 8 % 2 == 1 }

  /** The test of `mmu_entry` for "no entry": not valid, or writable but not readable */
  predicate Absent(e: Word) {
    !Valid(e) || (!Readable(e) && Writable(e))
  }

  predicate Leaf(e: Word) {
    !Absent(e) && (Readable(e) || Executable(e))
  }

  predicate Pointer(e: Word) {
    !Absent(e) && !Leaf(e)
  }

  /** `(entry << 2) & ~PAGE_MASK`, the shift truncating to 64 bits */
  function Target(e: Word): (t: Word)
    ensures Aligned(t)
  {
    PageOf(e * 4 % 0x1_0000_0000_0000_0000)
  }

  /** `(page >> 2) | M_VALID` for a page-aligned address */
  function PointerTo(page: Word): Word
    requires Aligned(page)
  {
    page / 4 + M_VALID
  }

  /** `(flags & M_FLAG_MASK) | M_VALID` */
  function LeafFlags(flags: nat): nat {
    flags % 256 - flags % 2 + M_VALID
  }

  /** `(PAGE_ALIGN_PREV(phys) >> 2) | flags` for the masked flags */
  function LeafFor(phys: Word, flags: nat): Word {
    PageOf(phys) / 4 + LeafFlags(flags)
  }

  /** The word with physical page number n and low ten bits f */
  lemma EntryTarget(n: nat, f: nat, e: Word)
    requires e == n * 1024 + f && f < 256 && n < 0x10_0000_0000_0000
    ensures Target(e) == n * PAGE_SIZE && e % 256 == f
  {
    assert e * 4 == n * PAGE_SIZE + f * 4;
    Split(n, f * 4, PAGE_SIZE);
    Split(n * 4, f, 256);
  }

  lemma FlagBit(n: nat, f: nat)
    ensures (n * 2 + f) % 2 == f % 2
  {
    Split(n + f / 2, f % 2, 2);
  }

  lemma EntryBits(n: nat, f: nat, e: Word)
    requires e == n * 1024 + f && f < 256
    ensures e % 2 == f % 2 && e / 2 % 2 == f / 2 % 2 && e / 4 % 2 == f / 4 % 2 && e / 8 % 2 == f / 8 % 2
  {
    assert e / 2 == n * 512 + f / 2 && e / 4 == n * 256 + f / 4 && e / 8 == n * 128 + f / 8;
    FlagBit(n * 512, f);
    FlagBit(n * 256, f / 2);
    FlagBit(n * 128, f / 4);
    FlagBit(n * 64, f / 8);
  }

  lemma PointerRoundTrip(page: Word)
    requires Aligned(page)
    ensures Pointer(PointerTo(page)) && Target(PointerTo(page)) == page
    ensures PointerTo(page) == page / PAGE_SIZE * 1024 + 1
  {
    assert page == page / PAGE_SIZE * 4096;
    EntryTarget(page / PAGE_SIZE, 1, PointerTo(page));
    EntryBits(page / PAGE_SIZE, 1, PointerTo(page));
  }

  /** Translating through a leaf gives back the page it was made for, and its low byte the flags. */
  lemma LeafRoundTrip(phys: Word, flags: nat)
    ensures LeafFlags(flags) < 256
    ensures LeafFor(phys, flags) == phys / PAGE_SIZE * 1024 + LeafFlags(flags)
    ensures Target(LeafFor(phys, flags)) == PageOf(phys)
    ensures LeafFor(phys, flags) % 256 == LeafFlags(flags)
    ensures Valid(LeafFor(phys, flags))
  {
    var n, f := phys / PAGE_SIZE, LeafFlags(flags);
    LeafFlagsOdd(flags);
    var e := LeafFor(phys, flags);
    assert e == n * 1024 + f;
    EntryTarget(n, f, e);
    FlagBit(n * 512, f);
  }

  lemma LeafFlagsOdd(flags: nat)
    ensures LeafFlags(flags) < 256 && LeafFlags(flags) % 2 == 1
  {
    var r := flags % 256;
    assert flags == flags / 256 * 256 + r;
    FlagBit(flags / 256 * 128, r);
    assert LeafFlags(flags) == r / 2 * 2 + 1;
  }

  /** The entry `mmu_map` stores, bit by bit: valid; bits 1 to 7 as in the flags asked for; bits 8 and 9 clear; above them
      the page number. */
  lemma LeafBits(phys: Word, flags: nat)
    ensures var e := LeafFor(phys, flags);
            && e % 2 == 1
            && e / 2 % 2 == flags / 2 % 2 && e / 4 % 2 == flags / 4 % 2 && e / 8 % 2 == flags / 8 % 2
            && e / 16 % 2 == flags / 16 % 2 && e / 32 % 2 == flags / 32 % 2 && e / 64 % 2 == flags / 64 % 2
            && e / 128 % 2 == flags / 128 % 2
            && e / 256 % 4 == 0 && e / 1024 == phys / PAGE_SIZE
  {
    var n, q, r := phys / PAGE_SIZE, flags / 256, flags % 256;
    LeafRoundTrip(phys, flags);
    FlagsKept(flags);
    assert flags == q * 256 + r;
    hide LeafFor, LeafFlags;
    LowBits(n, LeafFlags(flags), q, r);
    HighBits(n, LeafFlags(flags), q, r);
  }

  lemma LowBits(n: nat, f: nat, q: nat, r: nat)
    requires f < 256 && f % 2 == 1 && f / 2 == r / 2
    ensures var e, flags := n * 1024 + f, q * 256 + r;
            && e % 2 == 1
            && e / 2 % 2 == flags / 2 % 2 && e / 4 % 2 == flags / 4 % 2 && e / 8 % 2 == flags / 8 % 2
            && e / 256 % 4 == 0 && e / 1024 == n
  {
    SameBit(n * 512, q * 128, f, r, 1);
    SameBit(n * 256, q * 64, f, r, 2);
    SameBit(n * 128, q * 32, f, r, 4);
    SameBit(n * 64, q * 16, f, r, 8);
    Split(n * 4, f, 256);
    Split(n, 0, 4);
    Split(n, f, 1024);
  }

  lemma HighBits(n: nat, f: nat, q: nat, r: nat)
    requires f / 2 == r / 2
    ensures var e, flags := n * 1024 + f, q * 256 + r;
            && e / 16 % 2 == flags / 16 % 2 && e / 32 % 2 == flags / 32 % 2 && e / 64 % 2 == flags / 64 % 2
            && e / 128 % 2 == flags / 128 % 2
  {
    SameBit(n * 32, q * 8, f, r, 16);
    SameBit(n * 16, q * 4, f, r, 32);
    SameBit(n * 8, q * 2, f, r, 64);
    SameBit(n * 4, q, f, r, 128);
  }

  lemma FlagsKept(flags: nat)
    ensures LeafFlags(flags) / 2 == flags % 256 / 2 && LeafFlags(flags) % 2 == 1
  {
    LeafFlagsOdd(flags);
    FlagBit(flags / 256 * 128, flags % 256);
    assert flags == flags / 256 * 256 + flags % 256;
  }

  /** Bit d of a word depends on what lies below 2 * d only. */
  lemma BitBelow(x: nat, f: nat, d: nat)
    requires d > 0
    ensures (x * (2 * d) + f) / d % 2 == f / d % 2
  {
    var q, s := f / d, f % d;
    assert f == q * d + s;
    assert x * (2 * d) + f == (x * 2 + q) * d + s;
    Split(x * 2 + q, s, d);
    FlagBit(x, q);
  }

  /** Two words whose low bits f and r agree from bit 1 on agree in bit d. */
  lemma SameBit(x: nat, y: nat, f: nat, r: nat, d: nat)
    requires d in {1, 2, 4, 8, 16, 32, 64, 128} && f / 2 == r / 2
    ensures d > 1 ==> (x * (2 * d) + f) / d % 2 == (y * (2 * d) + r) / d % 2
    ensures d == 1 ==> (x * 2 + f) % 2 == f % 2
  {
    BitBelow(x, f, d);
    BitBelow(y, r, d);
    if d > 1 {
      assert f / d == f / 2 / (d / 2) && r / d == r / 2 / (d / 2);
    }
  }

  lemma ZeroIsAbsent()
    ensures Absent(0) && !Leaf(0) && !Pointer(0) && !Valid(0)
  {
  }

  // ---------- The walk of `mmu_entry` with `alloc` false ----------

  function Entry(m: Mem, table: Word, k: nat): Word
    requires Aligned(table) && k < ENTRY_COUNT
  {
    Read(m, Slot(table, k))
  }

  /** The physical address of the table an entry points to */
  function Next(mmuOn: bool, e: Word): (t: Word)
    ensures Aligned(t)
  {
    Phys(mmuOn, Target(e))
  }

  /** The slot the walk ends at, or None where `mmu_entry` returns NULL. */
  function SlotAt(m: Mem, mmuOn: bool, root: Word, k2: nat, k1: nat, k0: nat): Option<Word>
    requires Aligned(root) && k2 < ENTRY_COUNT && k1 < ENTRY_COUNT && k0 < ENTRY_COUNT
  {
    var e2 := Entry(m, root, k2);
    if Absent(e2) then None
    else if Leaf(e2) then Some(Slot(root, k2))
    else
      var t1 := Next(mmuOn, e2);
      var e1 := Entry(m, t1, k1);
      if Absent(e1) then None
      else if Leaf(e1) then Some(Slot(t1, k1))
      else Some(Slot(Next(mmuOn, e1), k0))
  }

  /** The valid entry the walk finds, if it finds one. */
  function EntryAt(m: Mem, mmuOn: bool, root: Word, k2: nat, k1: nat, k0: nat): Option<Word>
    requires Aligned(root) && k2 < ENTRY_COUNT && k1 < ENTRY_COUNT && k0 < ENTRY_COUNT
  {
    match SlotAt(m, mmuOn, root, k2, k1, k0)
    case None => None
    case Some(s) => if Valid(Read(m, s)) then Some(Read(m, s)) else None
  }

  // ---------- The forest of page tables ----------

  /** Where a table hangs: a root, or below entry k2 of a root, or below entry k1 of such a table. */
  datatype Path = Root(base: Word) | Mid(base: Word, k2: nat) | Low(base: Word, k2: nat, k1: nat)

  function Child(p: Path, k: nat): Path
    requires !p.Low?
  {
    match p
    case Root(r) => Mid(r, k)
    case Mid(r, k2) => Low(r, k2, k)
  }

  function Parent(p: Path): Path
    requires !p.Root?
  {
    match p
    case Mid(r, _) => Root(r)
    case Low(r, k2, _) => Mid(r, k2)
  }

  function LastIndex(p: Path): nat
    requires !p.Root?
  {
    match p
    case Mid(_, k2) => k2
    case Low(_, _, k1) => k1
  }

  ghost predicate AllFrames(tables: map<Path, Word>) {
    forall p | p in tables :: Frame(tables[p])
  }

  /** What `alloc_page` returns for `page` with the MMU on */
  function Alias(page: Word): (a: Word)
    requires Frame(page)
    ensures Aligned(a) && a == page + HALF
  {
    assert page + HALF == (page / PAGE_SIZE + 0x400_0000) * PAGE_SIZE;
    page + HALF
  }

  /** Entry e is what `mmu_entry` stores for a new table `page`: the page's address, or with the MMU on the alias
      `alloc_page` then returns. */
  ghost predicate PointsTo(mmuOn: bool, e: Word, page: Word)
    requires Frame(page)
  {
    && Pointer(e)
    && Next(mmuOn, e) == page
    && (e == PointerTo(page) || (mmuOn && e == PointerTo(Alias(page))))
  }

  /** The entry a non-root table hangs below is a pointer to it. */
  ghost predicate Linked(m: Mem, mmuOn: bool, tables: map<Path, Word>, p: Path)
    requires p in tables && AllFrames(tables)
  {
    if p.Root? then tables[p] == p.base
    else
      && Parent(p) in tables
      && LastIndex(p) < ENTRY_COUNT
      && Frame(tables[Parent(p)])
      && var e := Entry(m, tables[Parent(p)], LastIndex(p));
         PointsTo(mmuOn, e, tables[p])
  }

  /** Entry k of the table at p points nowhere but to a listed table; the upper half of a root holds no pointers, and
      only there may be superpage leaves. */
  ghost predicate Closed(m: Mem, tables: map<Path, Word>, p: Path, k: nat)
    requires p in tables && AllFrames(tables) && k < ENTRY_COUNT
  {
    assert Frame(tables[p]);
    var e := Entry(m, tables[p], k);
    !p.Low? ==>
      && (Pointer(e) ==> Child(p, k) in tables && (p.Root? ==> k < ENTRY_COUNT / 2))
      && (Leaf(e) ==> p.Root? && ENTRY_COUNT / 2 <= k)
  }

  ghost predicate Injective(tables: map<Path, Word>) {
    forall p, q | p in tables && q in tables && tables[p] == tables[q] :: p == q
  }

  /** `tables` lists every table that can be reached from its roots, each hanging below one entry, and no page
      serves as two tables. */
  ghost predicate Forest(m: Mem, mmuOn: bool, tables: map<Path, Word>) {
    && AllFrames(tables)
    && Injective(tables)
    && (forall p | p in tables :: Linked(m, mmuOn, tables, p))
    && (forall p, k: nat | p in tables && k < ENTRY_COUNT :: Closed(m, tables, p, k))
  }

  /** All table entries but entry k of the table at p read as before. */
  ghost predicate SameBut(m: Mem, m': Mem, tables: map<Path, Word>, p: Path, k: nat)
    requires AllFrames(tables)
  {
    forall q, j: nat | q in tables && j < ENTRY_COUNT && !(q == p && j == k) ::
      (assert Frame(tables[q]); Entry(m', tables[q], j) == Entry(m, tables[q], j))
  }

  ghost predicate SameTables(m: Mem, m': Mem, tables: map<Path, Word>)
    requires AllFrames(tables)
  {
    forall q, j: nat | q in tables && j < ENTRY_COUNT ::
      (assert Frame(tables[q]); Entry(m', tables[q], j) == Entry(m, tables[q], j))
  }

  /** What the walk finds in a forest: it only has to look whether the lowest table exists. */
  ghost function EntryIn(m: Mem, tables: map<Path, Word>, root: Word, k2: nat, k1: nat, k0: nat): Option<Word>
    requires AllFrames(tables) && k0 < ENTRY_COUNT
  {
    var p := Low(root, k2, k1);
    if p !in tables then None
    else
      assert Frame(tables[p]);
      var e := Entry(m, tables[p], k0);
      if Valid(e) then Some(e) else None
  }

  lemma WalkFollowsForest(m: Mem, mmuOn: bool, tables: map<Path, Word>, root: Word, k2: nat, k1: nat, k0: nat)
    requires Forest(m, mmuOn, tables) && Root(root) in tables
    requires k2 < ENTRY_COUNT / 2 && k1 < ENTRY_COUNT && k0 < ENTRY_COUNT
    ensures Frame(root) && tables[Root(root)] == root
    ensures EntryAt(m, mmuOn, root, k2, k1, k0) == EntryIn(m, tables, root, k2, k1, k0)
    ensures SlotAt(m, mmuOn, root, k2, k1, k0) ==
              if Low(root, k2, k1) in tables then Some(Slot(tables[Low(root, k2, k1)], k0)) else None
  {
    assert Linked(m, mmuOn, tables, Root(root));
    var mid, low := Mid(root, k2), Low(root, k2, k1);
    assert Closed(m, tables, Root(root), k2);
    if mid in tables {
      assert Linked(m, mmuOn, tables, mid);
      assert Closed(m, tables, mid, k1);
      assert low in tables ==> Linked(m, mmuOn, tables, low);
    } else {
      assert low in tables ==> Linked(m, mmuOn, tables, low);
    }
  }

  /** Memory that changes in no table keeps the forest. */
  lemma ForestFrame(m: Mem, m': Mem, mmuOn: bool, tables: map<Path, Word>)
    requires Forest(m, mmuOn, tables) && SameTables(m, m', tables)
    ensures Forest(m', mmuOn, tables)
  {
    forall p | p in tables ensures Linked(m', mmuOn, tables, p) {
      assert Linked(m, mmuOn, tables, p);
    }
    forall p, k: nat | p in tables && k < ENTRY_COUNT ensures Closed(m', tables, p, k) {
      assert Closed(m, tables, p, k);
    }
  }

  /** Turning the MMU on keeps a forest built with it off. */
  lemma ForestSwitchedOn(m: Mem, tables: map<Path, Word>)
    requires Forest(m, false, tables)
    ensures Forest(m, true, tables)
  {
    forall p | p in tables ensures Linked(m, true, tables, p) {
      assert Linked(m, false, tables, p);
    }
  }

  /** Hanging a cleared page below an absent entry extends the forest by that one table. */
  lemma LinkTable(m: Mem, m': Mem, mmuOn: bool, tables: map<Path, Word>, p: Path, k: nat, page: Word, e: Word)
    requires Forest(m, mmuOn, tables) && p in tables && !p.Low? && k < ENTRY_COUNT
    requires Frame(tables[p]) && Absent(Entry(m, tables[p], k)) && (p.Root? ==> k < ENTRY_COUNT / 2)
    requires Frame(page) && page !in tables.Values
    requires PointsTo(mmuOn, e, page)
    requires Entry(m', tables[p], k) == e && SameBut(m, m', tables, p, k)
    requires forall j: nat | j < ENTRY_COUNT :: Entry(m', page, j) == 0
    ensures Child(p, k) !in tables
    ensures Forest(m', mmuOn, tables[Child(p, k) := page])
  {
    var c := Child(p, k);
    assert c in tables ==> Linked(m, mmuOn, tables, c);
    hide Linked, Closed, PointsTo, Absent;
    assert forall q | q in tables :: tables[q] in tables.Values;
    LinkedAfter(m, m', mmuOn, tables, tables[c := page], p, k, page, e);
    ClosedAfter(m, m', mmuOn, tables, tables[c := page], p, k, page, e);
  }

  lemma LinkedAfter(m: Mem, m': Mem, mmuOn: bool, tables: map<Path, Word>, tables': map<Path, Word>,
                    p: Path, k: nat, page: Word, e: Word)
    requires Forest(m, mmuOn, tables) && p in tables && !p.Low? && k < ENTRY_COUNT && Frame(tables[p])
    requires Child(p, k) !in tables && tables' == tables[Child(p, k) := page] && Frame(page) && PointsTo(mmuOn, e, page)
    requires Entry(m', tables[p], k) == e && SameBut(m, m', tables, p, k)
    ensures AllFrames(tables')
    ensures forall q | q in tables' :: Linked(m', mmuOn, tables', q)
  {
    hide PointsTo, Closed, Injective;
    var c := Child(p, k);
    forall q | q in tables' ensures Linked(m', mmuOn, tables', q) {
      if q != c {
        assert Linked(m, mmuOn, tables, q);
        assert !q.Root? ==> !(Parent(q) == p && LastIndex(q) == k);
      }
    }
  }

  lemma ClosedAfter(m: Mem, m': Mem, mmuOn: bool, tables: map<Path, Word>, tables': map<Path, Word>,
                    p: Path, k: nat, page: Word, e: Word)
    requires Forest(m, mmuOn, tables) && p in tables && !p.Low? && k < ENTRY_COUNT && Frame(tables[p])
    requires Child(p, k) !in tables && tables' == tables[Child(p, k) := page] && Frame(page) && PointsTo(mmuOn, e, page) && (p.Root? ==> k < ENTRY_COUNT / 2)
    requires Entry(m', tables[p], k) == e && SameBut(m, m', tables, p, k)
    requires forall j: nat | j < ENTRY_COUNT :: Entry(m', page, j) == 0
    ensures AllFrames(tables')
    ensures forall q, j: nat | q in tables' && j < ENTRY_COUNT :: Closed(m', tables', q, j)
  {
    hide Linked, Injective, Absent, Readable, Executable, Next;
    ZeroIsAbsent();
    var c := Child(p, k);
    forall q, j: nat | q in tables' && j < ENTRY_COUNT ensures Closed(m', tables', q, j) {
      if q != c {
        assert Closed(m, tables, q, j);
      }
    }
  }

  /** A cleared page becomes a root of its own. */
  lemma AddRoot(m: Mem, mmuOn: bool, tables: map<Path, Word>, page: Word)
    requires Forest(m, mmuOn, tables)
    requires Frame(page) && page !in tables.Values
    requires forall j: nat | j < ENTRY_COUNT :: Entry(m, page, j) == 0
    ensures Root(page) !in tables
    ensures Forest(m, mmuOn, tables[Root(page) := page])
  {
    assert forall q | q in tables :: tables[q] in tables.Values;
    ZeroIsAbsent();
    var tables' := tables[Root(page) := page];
    forall q | q in tables' ensures Linked(m, mmuOn, tables', q) {
      if q != Root(page) {
        assert Linked(m, mmuOn, tables, q);
      }
    }
    forall q, j: nat | q in tables' && j < ENTRY_COUNT ensures Closed(m, tables', q, j) {
      if q != Root(page) {
        assert Closed(m, tables, q, j);
      }
    }
  }

  /** A base that is no root has no tables at all. */
  lemma NoRootNoTables(m: Mem, mmuOn: bool, tables: map<Path, Word>, base: Word, k2: nat, k1: nat)
    requires Forest(m, mmuOn, tables) && Root(base) !in tables
    ensures Mid(base, k2) !in tables && Low(base, k2, k1) !in tables
  {
    assert Mid(base, k2) in tables ==> Linked(m, mmuOn, tables, Mid(base, k2));
    assert Low(base, k2, k1) in tables ==> Linked(m, mmuOn, tables, Low(base, k2, k1));
  }

  /** Writing an entry of a lowest table, or a leaf to an upper root entry, keeps the forest. */
  lemma WriteEntry(m: Mem, m': Mem, mmuOn: bool, tables: map<Path, Word>, p: Path, k: nat, e: Word)
    requires Forest(m, mmuOn, tables) && p in tables && k < ENTRY_COUNT && Frame(tables[p])
    requires p.Low? || (p.Root? && ENTRY_COUNT / 2 <= k && Leaf(e))
    requires Entry(m', tables[p], k) == e && SameBut(m, m', tables, p, k)
    ensures Forest(m', mmuOn, tables)
  {
    forall q | q in tables ensures Linked(m', mmuOn, tables, q) {
      assert Linked(m, mmuOn, tables, q);
      assert !q.Root? ==> Closed(m, tables, Parent(q), LastIndex(q));
    }
    forall q, j: nat | q in tables && j < ENTRY_COUNT ensures Closed(m', tables, q, j) {
      assert Closed(m, tables, q, j);
    }
  }

  // ---------- What the walk finds, before and after ----------

  /** Every walk through the lower half of every root finds what it found before. */
  ghost predicate SameEntries(m: Mem, tables: map<Path, Word>, m': Mem, tables': map<Path, Word>)
    requires AllFrames(tables) && AllFrames(tables')
  {
    forall r, k2, k1, k0: nat | k0 < ENTRY_COUNT ::
      EntryIn(m', tables', r, k2, k1, k0) == EntryIn(m, tables, r, k2, k1, k0)
  }

  lemma EntriesSame(m: Mem, tables: map<Path, Word>)
    requires AllFrames(tables)
    ensures SameEntries(m, tables, m, tables)
  {
  }

  lemma SameEntriesTransitive(m0: Mem, tables0: map<Path, Word>, m1: Mem, tables1: map<Path, Word>, m2: Mem,
                              tables2: map<Path, Word>)
    requires AllFrames(tables0) && AllFrames(tables1) && AllFrames(tables2)
    requires SameEntries(m0, tables0, m1, tables1) && SameEntries(m1, tables1, m2, tables2)
    ensures SameEntries(m0, tables0, m2, tables2)
  {
    forall r, k2, k1, k0: nat | k0 < ENTRY_COUNT
      ensures EntryIn(m2, tables2, r, k2, k1, k0) == EntryIn(m0, tables0, r, k2, k1, k0)
    {
      assert EntryIn(m2, tables2, r, k2, k1, k0) == EntryIn(m1, tables1, r, k2, k1, k0);
    }
  }

  // ---------- What `mmu_entry` and `mmu_map` leave alone ----------

  /** Word a lies in no table below `root`. */
  ghost predicate Outside(tables: map<Path, Word>, root: Word, a: Word) {
    forall p | p in tables && p.base == root :: tables[p] != PageOf(a)
  }

  /** Table p is listed with the entry it hangs below. */
  ghost predicate HasLink(tables: map<Path, Word>, p: Path) {
    p in tables && !p.Root? && Parent(p) in tables && LastIndex(p) < ENTRY_COUNT
  }

  /** The entry table p hangs below */
  ghost function LinkOf(m: Mem, tables: map<Path, Word>, p: Path): Word
    requires AllFrames(tables) && HasLink(tables, p)
  {
    assert Frame(tables[Parent(p)]);
    Entry(m, tables[Parent(p)], LastIndex(p))
  }

  /** What `alloc_page` returns for a page */
  function Returned(mmuOn: bool, page: Word): (a: Word)
    requires Frame(page)
    ensures Aligned(a)
  {
    if mmuOn then Alias(page) else page
  }

  ghost predicate TablesGrow(tables: map<Path, Word>, tables': map<Path, Word>) {
    forall p | p in tables :: p in tables' && tables'[p] == tables[p]
  }

  /** Only words of tables below `root` differ. */
  ghost predicate OnlyBelow(root: Word, m: Mem, m': Mem, tables': map<Path, Word>) {
    forall a: Word | Outside(tables', root, a) :: Read(m', a) == Read(m, a)
  }

  /** Old tables hang below the entries they hung below; a new one hangs below the address `alloc_page` returned. */
  ghost predicate LinksKept(mmuOn: bool, m: Mem, tables: map<Path, Word>, m': Mem, tables': map<Path, Word>)
    requires AllFrames(tables) && AllFrames(tables')
  {
    forall p | HasLink(tables', p) ::
      (assert Frame(tables'[p]);
       LinkOf(m', tables', p) ==
       if HasLink(tables, p) then LinkOf(m, tables, p) else PointerTo(Returned(mmuOn, tables'[p])))
  }

  /** The upper half of every root reads as before. */
  ghost predicate UpperKept(m: Mem, m': Mem, tables: map<Path, Word>)
    requires AllFrames(tables)
  {
    forall r: Word, k: nat | Root(r) in tables && ENTRY_COUNT / 2 <= k < ENTRY_COUNT ::
      (assert Frame(tables[Root(r)]); Entry(m', tables[Root(r)], k) == Entry(m, tables[Root(r)], k))
  }

  /** All that mapping below `root` leaves alone */
  ghost predicate Keeps(mmuOn: bool, root: Word, m: Mem, tables: map<Path, Word>, m': Mem, tables': map<Path, Word>)
    requires AllFrames(tables) && AllFrames(tables')
  {
    && TablesGrow(tables, tables')
    && OnlyBelow(root, m, m', tables')
    && LinksKept(mmuOn, m, tables, m', tables')
    && UpperKept(m, m', tables)
  }

  lemma KeepsAll(mmuOn: bool, root: Word, m: Mem, tables: map<Path, Word>)
    requires AllFrames(tables)
    ensures Keeps(mmuOn, root, m, tables, m, tables)
  {
  }

  lemma LinksTransitive(mmuOn: bool, m0: Mem, tables0: map<Path, Word>, m1: Mem, tables1: map<Path, Word>,
                        m2: Mem, tables2: map<Path, Word>)
    requires AllFrames(tables0) && AllFrames(tables1) && AllFrames(tables2)
    requires TablesGrow(tables0, tables1) && TablesGrow(tables1, tables2)
    requires LinksKept(mmuOn, m0, tables0, m1, tables1) && LinksKept(mmuOn, m1, tables1, m2, tables2)
    ensures LinksKept(mmuOn, m0, tables0, m2, tables2)
  {
    forall p | HasLink(tables2, p)
      ensures Frame(tables2[p])
      ensures LinkOf(m2, tables2, p) ==
              if HasLink(tables0, p) then LinkOf(m0, tables0, p) else PointerTo(Returned(mmuOn, tables2[p]))
    {
      assert HasLink(tables0, p) ==> HasLink(tables1, p);
    }
  }

  lemma KeepsTransitive(mmuOn: bool, root: Word, m0: Mem, tables0: map<Path, Word>, m1: Mem, tables1: map<Path, Word>,
                        m2: Mem, tables2: map<Path, Word>)
    requires AllFrames(tables0) && AllFrames(tables1) && AllFrames(tables2)
    requires Keeps(mmuOn, root, m0, tables0, m1, tables1) && Keeps(mmuOn, root, m1, tables1, m2, tables2)
    ensures Keeps(mmuOn, root, m0, tables0, m2, tables2)
  {
    hide LinksKept;
    LinksTransitive(mmuOn, m0, tables0, m1, tables1, m2, tables2);
    forall a: Word | Outside(tables2, root, a) ensures Read(m2, a) == Read(m0, a) {
      assert Outside(tables1, root, a);
    }
  }

  /** A new table below entry k of the table at p: only the new page and that entry are written. */
  lemma LinkKeeps(mmuOn: bool, m: Mem, m1: Mem, tables: map<Path, Word>, p: Path, k: nat, page: Word)
    requires Forest(m, mmuOn, tables) && p in tables && !p.Low? && k < ENTRY_COUNT && Frame(tables[p])
    requires (p.Root? ==> k < ENTRY_COUNT / 2) && Child(p, k) !in tables && Frame(page)
    requires forall a: Word | PageOf(a) != page :: Read(m1, a) == Read(m, a)
    requires var m' := m1[Slot(tables[p], k) := PointerTo(Returned(mmuOn, page))];
             SameBut(m, m', tables, p, k)
    ensures var m' := m1[Slot(tables[p], k) := PointerTo(Returned(mmuOn, page))];
            Keeps(mmuOn, p.base, m, tables, m', tables[Child(p, k) := page])
  {
    hide Injective, Closed, LinksKept, PointerTo, Returned, PageOf;
    var e := PointerTo(Returned(mmuOn, page));
    var m', tables' := m1[Slot(tables[p], k) := e], tables[Child(p, k) := page];
    SlotsDiffer(tables[p], k, tables[p], k);
    forall a: Word | Outside(tables', p.base, a) ensures Read(m', a) == Read(m, a) {
      assert tables'[Child(p, k)] == page && tables'[p] == tables[p];
    }
    NewLink(mmuOn, m, tables, m', p, k, page);
  }

  lemma NewLink(mmuOn: bool, m: Mem, tables: map<Path, Word>, m': Mem, p: Path, k: nat, page: Word)
    requires Forest(m, mmuOn, tables) && p in tables && !p.Low? && k < ENTRY_COUNT && Frame(tables[p])
    requires Child(p, k) !in tables && Frame(page)
    requires SameBut(m, m', tables, p, k) && Entry(m', tables[p], k) == PointerTo(Returned(mmuOn, page))
    ensures LinksKept(mmuOn, m, tables, m', tables[Child(p, k) := page])
  {
    hide Injective, Closed, PointsTo, Returned, PointerTo;
    var tables' := tables[Child(p, k) := page];
    forall q | HasLink(tables', q)
      ensures Frame(tables'[q])
      ensures LinkOf(m', tables', q) ==
              if HasLink(tables, q) then LinkOf(m, tables, q) else PointerTo(Returned(mmuOn, tables'[q]))
    {
      if q != Child(p, k) {
        assert Linked(m, mmuOn, tables, q);
        assert !(Parent(q) == p && LastIndex(q) == k);
      }
    }
  }

  /** Writing entry k of a lowest table keeps all the rest. */
  lemma LeafKeeps(mmuOn: bool, m: Mem, tables: map<Path, Word>, p: Path, k: nat, e: Word)
    requires AllFrames(tables) && p in tables && p.Low? && k < ENTRY_COUNT && Aligned(tables[p])
    requires SameBut(m, m[Slot(tables[p], k) := e], tables, p, k)
    ensures Keeps(mmuOn, p.base, m, tables, m[Slot(tables[p], k) := e], tables)
  {
    SlotsDiffer(tables[p], k, tables[p], k);
  }

  /** What the entry of a table says about the table below it. */
  lemma EntryChild(m: Mem, mmuOn: bool, tables: map<Path, Word>, path: Path, k: nat)
    requires Forest(m, mmuOn, tables) && path in tables && !path.Low? && k < ENTRY_COUNT
    requires path.Root? ==> k < ENTRY_COUNT / 2
    ensures Frame(tables[path])
    ensures var e := Entry(m, tables[path], k);
            && !Leaf(e)
            && (Absent(e) <==> Child(path, k) !in tables)
            && (Child(path, k) in tables ==> Next(mmuOn, e) == tables[Child(path, k)])
  {
    assert Closed(m, tables, path, k);
    assert Child(path, k) in tables ==> Linked(m, mmuOn, tables, Child(path, k));
  }

  /** The zero fill of a new table, and the pointer to it, change no translation. */
  lemma LinkKeepsEntries(m: Mem, m': Mem, mmuOn: bool, tables: map<Path, Word>, p: Path, k: nat, page: Word, e: Word)
    requires Forest(m, mmuOn, tables) && p in tables && !p.Low? && k < ENTRY_COUNT
    requires Frame(tables[p]) && Absent(Entry(m, tables[p], k)) && (p.Root? ==> k < ENTRY_COUNT / 2)
    requires Frame(page) && page !in tables.Values
    requires PointsTo(mmuOn, e, page)
    requires Entry(m', tables[p], k) == e && SameBut(m, m', tables, p, k)
    requires forall j: nat | j < ENTRY_COUNT :: Entry(m', page, j) == 0
    ensures Forest(m', mmuOn, tables[Child(p, k) := page])
    ensures SameEntries(m, tables, m', tables[Child(p, k) := page])
  {
    LinkTable(m, m', mmuOn, tables, p, k, page, e);
    ZeroIsAbsent();
  }
}
