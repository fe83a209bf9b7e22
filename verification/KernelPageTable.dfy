/** Address spaces as finite maps from virtual pages to entries, and the page table the kernel starts with
    (`identity_map` and `mmu_new_page_table` of src/mmu.c). */
module KernelPageTable {
  import opened Options
  import opened PhysicalMemory
  import opened PageIndices
  import opened FreeList
  import opened PageTables
  import opened KernelMemory
  import Sv39

  // ---------- An address space as a map ----------

  /** Page numbers of the domain */
  ghost predicate DomainPage(n: nat) {
    n < 0x10_0000 && InDomain(n * PAGE_SIZE)
  }

  /** The address space below `root`: each page of the domain that translates, with its entry */
  ghost function AddressSpace(m: Mem, tables: map<Path, Word>, root: Word): (space: imap<nat, Word>)
    requires AllFrames(tables)
  {
    imap n: nat | DomainPage(n) && PageEntry(m, tables, root, n).Some? :: PageEntry(m, tables, root, n).value
  }

  /** The entry of page n */
  ghost function PageEntry(m: Mem, tables: map<Path, Word>, root: Word, n: nat): Option<Word>
    requires AllFrames(tables) && DomainPage(n)
  {
    FoundEntry(m, tables, root, n * PAGE_SIZE)
  }

  /** All addresses of a page translate through its entry. */
  lemma LookupByPage(m: Mem, tables: map<Path, Word>, root: Word, v: Word)
    requires AllFrames(tables) && InDomain(v)
    ensures DomainPage(v / PAGE_SIZE)
    ensures FoundEntry(m, tables, root, v) ==
            if v / PAGE_SIZE in AddressSpace(m, tables, root) then Some(AddressSpace(m, tables, root)[v / PAGE_SIZE])
            else None
  {
    var w := v / PAGE_SIZE * PAGE_SIZE;
    assert w / 0x20_0000 == v / 0x20_0000 && w / 0x400_0000 == v / 0x400_0000 && w / PAGE_SIZE == v / PAGE_SIZE;
    IndicesInjective(v, w);
  }

  /** What the entries of all pages become when one is mapped */
  lemma EntriesAfterMap(m: Mem, tables: map<Path, Word>, m': Mem, tables': map<Path, Word>,
                        root: Word, v: Word, e: Word, r: Word, n: nat)
    requires AllFrames(tables) && AllFrames(tables') && InDomain(v) && DomainPage(n)
    requires MapsEntry(m, tables, m', tables', root, Index2(v), Index1(v), Index0(v), e)
    ensures PageEntry(m', tables', r, n) ==
            if r == root && n == v / PAGE_SIZE then Some(e) else PageEntry(m, tables, r, n)
  {
    hide Index2, Index1, Index0, EntryIn;
    var w: Word := n * PAGE_SIZE;
    PageStart(n);
    IndicesInjective(w, v);
    IndicesAreSv39(w);
  }

  lemma PageStart(n: nat)
    requires n < 0x10_0000
    ensures n * PAGE_SIZE / PAGE_SIZE == n
  {
  }

  /** `mmu_map` is one update of the map: it enters the page of `v`, and changes no other page and no other space. */
  lemma MapUpdatesSpace(m: Mem, tables: map<Path, Word>, m': Mem, tables': map<Path, Word>,
                        root: Word, v: Word, e: Word)
    requires AllFrames(tables) && AllFrames(tables') && InDomain(v)
    requires MapsEntry(m, tables, m', tables', root, Index2(v), Index1(v), Index0(v), e)
    ensures AddressSpace(m', tables', root) == AddressSpace(m, tables, root)[v / PAGE_SIZE := e]
    ensures forall r: Word | r != root :: AddressSpace(m', tables', r) == AddressSpace(m, tables, r)
  {
    hide Index2, Index1, Index0, PageEntry, FoundEntry, MapsEntry, InDomain, DomainPage;
    LookupByPage(m, tables, root, v);
    forall r: Word, n: nat | DomainPage(n)
      ensures PageEntry(m', tables', r, n) ==
              if r == root && n == v / PAGE_SIZE then Some(e) else PageEntry(m, tables, r, n)
    {
      EntriesAfterMap(m, tables, m', tables', root, v, e, r, n);
    }
  }

  /** The address in the page of `phys` at the offset of w */
  function WithOffset(phys: Word, w: Word): Word {
    phys / PAGE_SIZE * PAGE_SIZE + w % PAGE_SIZE
  }

  /** The page table is a map: once `mmu_map` has mapped the page of v to that of `phys`, `mmu_walk` of any address w of
      the domain gives that page and the offset of w if w lies in the page of v, and what it gave before if not. */
  lemma WalkAfterMap(m: Mem, tables: map<Path, Word>, m': Mem, tables': map<Path, Word>,
                     mmuOn: bool, root: Word, v: Word, phys: Word, flags: nat, w: Word)
    requires AllFrames(tables) && AllFrames(tables') && InDomain(v) && InDomain(w)
    requires MapsEntry(m, tables, m', tables', root, Index2(v), Index1(v), Index0(v), LeafFor(phys, flags))
    ensures Reached(mmuOn, FoundEntry(m', tables', root, w), w) ==
            if SamePage(v, w) then Some(MakeAccessible(mmuOn, WithOffset(phys, w)))
            else Reached(mmuOn, FoundEntry(m, tables, root, w), w)
  {
    LeafRoundTrip(phys, flags);
    IndicesInjective(v, w);
    IndicesAreSv39(w);
  }

  /** The hardware sees a mapping made below a root whose tables hang below their own addresses. */
  lemma HardwareSeesMap(m: Mem, tables: map<Path, Word>, m': Mem, mmuOn: bool, tables': map<Path, Word>,
                        root: Word, v: Word, phys: Word, flags: nat, w: Word)
    requires AllFrames(tables) && Forest(m', mmuOn, tables') && Root(root) in tables' && Sv39.Plain(m', tables', root)
    requires InDomain(v) && InDomain(w)
    requires MapsEntry(m, tables, m', tables', root, Index2(v), Index1(v), Index0(v), LeafFor(phys, flags))
    ensures Aligned(root)
    ensures SamePage(v, w) ==> Sv39.Walk(m', root, w) == Sv39.Final(LeafFor(phys, flags), w)
  {
    hide Sv39.Walk, Sv39.Final, LeafFor;
    Sv39.WalkAgrees(m', mmuOn, tables', root, w);
    IndicesInjective(v, w);
    IndicesAreSv39(w);
  }

  // ---------- identity_map ----------

  /** `space` with every page of [start, end) mapped to itself with the given flags */
  ghost function WithIdentity(space: imap<nat, Word>, start: Word, end: Word, flags: nat): imap<nat, Word>
    requires end < 0x1_0000_0000
  {
    imap n: nat | n in space || start <= n * PAGE_SIZE < end ::
      if start <= n * PAGE_SIZE < end then LeafFor(n * PAGE_SIZE, flags) else space[n]
  }

  lemma WithIdentityStep(space: imap<nat, Word>, start: Word, p: Word, flags: nat)
    requires Aligned(start) && Aligned(p) && start <= p && p + PAGE_SIZE < 0x1_0000_0000
    ensures WithIdentity(space, start, p, flags)[p / PAGE_SIZE := LeafFor(p, flags)] ==
            WithIdentity(space, start, p + PAGE_SIZE, flags)
  {
    var k := p / PAGE_SIZE;
    assert p == k * PAGE_SIZE;
    forall n: nat ensures start <= n * PAGE_SIZE < p + PAGE_SIZE <==> start <= n * PAGE_SIZE < p || n == k {
    }
  }

  /** The address spaces of all roots, before and after pages [start, end) are identity mapped below one root */
  ghost predicate IdentityMapped(m: Mem, tables: map<Path, Word>, m': Mem, tables': map<Path, Word>,
                                 root: Word, start: Word, end: Word, flags: nat)
    requires AllFrames(tables) && AllFrames(tables') && end < 0x1_0000_0000
  {
    && AddressSpace(m', tables', root) == WithIdentity(AddressSpace(m, tables, root), start, end, flags)
    && forall r: Word | r != root :: AddressSpace(m', tables', r) == AddressSpace(m, tables, r)
  }

  lemma OnePageMore(m: Mem, tables: map<Path, Word>, m1: Mem, tables1: map<Path, Word>, m2: Mem,
                    tables2: map<Path, Word>, root: Word, start: Word, p: Word, flags: nat)
    requires AllFrames(tables) && AllFrames(tables1) && AllFrames(tables2)
    requires Aligned(start) && Aligned(p) && start <= p && p + PAGE_SIZE < 0x1_0000_0000 && InDomain(p)
    requires IdentityMapped(m, tables, m1, tables1, root, start, p, flags)
    requires MapsEntry(m1, tables1, m2, tables2, root, Index2(p), Index1(p), Index0(p), LeafFor(p, flags))
    ensures IdentityMapped(m, tables, m2, tables2, root, start, p + PAGE_SIZE, flags)
  {
    MapUpdatesSpace(m1, tables1, m2, tables2, root, p, LeafFor(p, flags));
    WithIdentityStep(AddressSpace(m, tables, root), start, p, flags);
  }

  /** The 2 MiB region of the domain that one lowest table serves */
  predicate InRegion(region: Word, start: Word, end: Word) {
    && region % 0x20_0000 == 0 && region < 0x1_0000_0000 && InDomain(region)
    && region <= start && end <= region + 0x20_0000
  }

  lemma RegionPage(region: Word, start: Word, end: Word, p: Word)
    requires InRegion(region, start, end) && Aligned(end) && Aligned(p) && start <= p < end
    ensures InDomain(p) && Index2(p) == Index2(region) && Index1(p) == Index1(region)
    ensures p + PAGE_SIZE <= end < 0x1_0000_0000 && Aligned(p + PAGE_SIZE)
  {
    OneRegion(region, region + 0x20_0000, p);
    NextPage(p, end);
    LastRegion(region);
  }

  lemma NextPage(p: Word, end: Word)
    requires Aligned(p) && Aligned(end) && p < end < 0x1_0000_0000_0000_0000
    ensures p + PAGE_SIZE <= end && Aligned(p + PAGE_SIZE)
  {
    assert p / PAGE_SIZE < end / PAGE_SIZE;
  }

  lemma LastRegion(region: Word)
    requires region % 0x20_0000 == 0 && region < 0x1_0000_0000 && InDomain(region)
    ensures region + 0x20_0000 < 0x1_0000_0000
  {
    var n := region / 0x20_0000;
    assert n != 0x7ff;
  }

  lemma AlreadyAligned(a: Word)
    requires Aligned(a) && a + 0xfff < 0x1_0000_0000_0000_0000
    ensures PageOf(a) == a && PageOf(a + 0xfff) == a
    ensures a < 0x1_0000_0000 ==> PageUp(a) == a
  {
  }

  /** `PAGE_ALIGN(a)` */
  function PageUp(a: Word): (p: Word)
    requires a < 0x1_0000_0000
  {
    PageOf(a + 0xfff)
  }

  /** The pages that a range touches lie in one region. */
  predicate RangeFits(region: Word, from: Word, to: Word) {
    from <= to < 0x1_0000_0000 && PageUp(to) < 0x1_0000_0000 && InRegion(region, PageOf(from), PageUp(to))
  }

  lemma Outwards(from: Word, to: Word)
    requires from <= to < 0x1_0000_0000
    ensures Aligned(PageOf(from)) && Aligned(PageUp(to)) && PageOf(from) <= PageUp(to)
  {
  }

  lemma TablesThere(k: Kernel, root: Word, k2: nat, k1: nat)
    requires k.Missing(root, k2, k1) <= |k.free|
    ensures var k' := k.WithTables(root, k2, k1); k'.Missing(root, k2, k1) == 0 && k'.WithTables(root, k2, k1) == k'
  {
  }

  /** The loop of `identity_map` */
  method MapPages(k: Machine, mmu: Word, start: Word, end: Word, flags: nat, ghost region: Word)
    requires k.Valid() && !k.mmuOn && Root(mmu) in k.tables
    requires Aligned(start) && Aligned(end) && start <= end < 0x1_0000_0000 && InRegion(region, start, end)
    requires start < end ==> k.Missing(mmu, region) <= |k.free|
    modifies k`mem, k`freeList, k`free, k`held, k`tables
    ensures k.Valid() && k.TheKernel() == WithRange(old(k.TheKernel()), mmu, region, start < end)
    ensures Keeps(false, mmu, old(k.mem), old(k.tables), k.mem, k.tables)
    ensures IdentityMapped(old(k.mem), old(k.tables), k.mem, k.tables, mmu, start, end, flags)
  {
    hide Index2, Index1, Index0, Aligned, InRegion, Keeps, Kernel.WithTables, Kernel.Missing, Forest, IdentityMapped;
    ghost var kernel0 := k.TheKernel();
    if start < end {
      TablesThere(kernel0, mmu, Index2(region), Index1(region));
    }
    KeepsAll(false, mmu, k.mem, k.tables);
    NothingMapped(k.mem, k.tables, mmu, start, flags);
    var p := start;
    while p < end
      invariant start <= p <= end && Aligned(p)
      invariant k.Valid() && Root(mmu) in k.tables
      invariant k.TheKernel() == WithRange(kernel0, mmu, region, start < p)
      invariant Keeps(false, mmu, old(k.mem), old(k.tables), k.mem, k.tables)
      invariant IdentityMapped(old(k.mem), old(k.tables), k.mem, k.tables, mmu, start, p, flags)
    {
      RegionPage(region, start, end, p);
      ghost var m, tables := k.mem, k.tables;
      k.MmuMap(mmu, p, p, flags);
      KeepsTransitive(false, mmu, old(k.mem), old(k.tables), m, tables, k.mem, k.tables);
      UpperOfKeeps(false, mmu, old(k.mem), old(k.tables), k.mem, k.tables);
      OnePageMore(old(k.mem), old(k.tables), m, tables, k.mem, k.tables, mmu, start, p, flags);
      p := p + PAGE_SIZE;
    }
  }

  /** The kernel with the tables for a region below `root`, if any page of it is mapped */
  ghost function WithRange(k: Kernel, root: Word, region: Word, some: bool): Kernel
    requires some ==> k.Missing(root, Index2(region), Index1(region)) <= |k.free|
  {
    if some then k.WithTables(root, Index2(region), Index1(region)) else k
  }

  lemma NothingMapped(m: Mem, tables: map<Path, Word>, root: Word, start: Word, flags: nat)
    requires AllFrames(tables) && start < 0x1_0000_0000
    ensures IdentityMapped(m, tables, m, tables, root, start, start, flags)
  {
  }

  /** `identity_map`: every page that the range [from, to) touches, for a range in one 2 MiB region of the domain */
  method IdentityMap(k: Machine, mmu: Word, from: Word, to: Word, flags: nat, ghost region: Word)
    requires k.Valid() && !k.mmuOn && Root(mmu) in k.tables
    requires RangeFits(region, from, to)
    requires PageOf(from) < PageUp(to) ==> k.Missing(mmu, region) <= |k.free|
    modifies k`mem, k`freeList, k`free, k`held, k`tables
    ensures k.Valid()
    ensures k.TheKernel() == WithRange(old(k.TheKernel()), mmu, region, PageOf(from) < PageUp(to))
    ensures Keeps(false, mmu, old(k.mem), old(k.tables), k.mem, k.tables)
    ensures IdentityMapped(old(k.mem), old(k.tables), k.mem, k.tables, mmu, PageOf(from), PageUp(to), flags)
  {
    Outwards(from, to);
    MapPages(k, mmu, PageOf(from), PageUp(to), flags, region);
  }

  // ---------- mmu_new_page_table ----------

  const TEXT_FLAGS: nat := M_GLOBAL + M_EXEC
  const RODATA_FLAGS: nat := M_GLOBAL + M_READ
  const DATA_FLAGS: nat := M_GLOBAL + M_READ + M_WRITE

  /** Where the linker puts the sections: on page boundaries, in this order */
  ghost predicate Linkable(text: Word, rodata: Word, data: Word, bottom: Word, region: Word) {
    && Aligned(text) && Aligned(rodata) && Aligned(data) && Aligned(bottom)
    && text <= rodata <= data <= bottom < 0x1_0000_0000
    && InRegion(region, text, bottom)
  }

  /** The flags of the section an address lies in */
  function SectionFlags(rodata: Word, data: Word, v: Word): nat {
    if v < rodata then TEXT_FLAGS else if v < data then RODATA_FLAGS else DATA_FLAGS
  }

  /** The flag byte of each section's entries: valid and global, and text to execute, rodata to read, data to read and
      write */
  function SectionByte(rodata: Word, data: Word, v: Word): nat {
    if v < rodata then 0x29 else if v < data then 0x23 else 0x27
  }

  /** What the hardware does with the new page table: the kernel's addresses stay where they are with the flags of
      their section, the rest of the low domain faults, and physical memory shows in the upper half. */
  ghost predicate KernelView(m: Mem, root: Word, text: Word, rodata: Word, data: Word, bottom: Word)
    requires Aligned(root)
  {
    && (forall v: Word | text <= v < bottom ::
          Sv39.Walk(m, root, v) == Sv39.Reach(v, SectionByte(rodata, data, v)))
    && (forall v: Word | InDomain(v) && !(text <= v < bottom) :: Sv39.Walk(m, root, v) == Sv39.Fault)
    && (forall p: Word | p < HALF ::
          Sv39.Walk(m, root, Phys2Virt(p)) == Sv39.Reach(p, 0x27))
  }

  ghost function KernelSpace(text: Word, rodata: Word, data: Word, bottom: Word): imap<nat, Word>
    requires text <= rodata <= data <= bottom < 0x1_0000_0000
  {
    WithIdentity(WithIdentity(WithIdentity(imap[], text, rodata, TEXT_FLAGS), rodata, data, RODATA_FLAGS),
                 data, bottom, DATA_FLAGS)
  }

  lemma KernelPageWalk(m: Mem, tables: map<Path, Word>, root: Word,
                       text: Word, rodata: Word, data: Word, bottom: Word, region: Word, v: Word)
    requires Forest(m, false, tables) && Root(root) in tables
    requires Linkable(text, rodata, data, bottom, region)
    requires AddressSpace(m, tables, root) == KernelSpace(text, rodata, data, bottom)
    requires InDomain(v)
    ensures Aligned(root)
    ensures Sv39.Walk(m, root, v) ==
            if text <= v < bottom then Sv39.Reach(v, SectionByte(rodata, data, v)) else Sv39.Fault
  {
    Sv39.PlainWhenOff(m, tables, root);
    Sv39.WalkAgrees(m, false, tables, root, v);
    LookupByPage(m, tables, root, v);
    KernelSpaceAt(text, rodata, data, bottom, v);
    if text <= v < bottom {
      SectionLeaf(SectionFlags(rodata, data, v), v);
    }
  }

  lemma SectionLeaf(flags: nat, v: Word)
    requires v < 0x1_0000_0000 && flags in {TEXT_FLAGS, RODATA_FLAGS, DATA_FLAGS}
    ensures Sv39.Final(LeafFor(v / PAGE_SIZE * PAGE_SIZE, flags), v) == Sv39.Reach(v, LeafFlags(flags))
    ensures LeafFlags(TEXT_FLAGS) == 0x29 && LeafFlags(RODATA_FLAGS) == 0x23 && LeafFlags(DATA_FLAGS) == 0x27
  {
    var p: Word := v / PAGE_SIZE * PAGE_SIZE;
    Sv39.FinalLeaf(p, flags, v);
    AlreadyAligned(p);
  }

  lemma KernelSpaceAt(text: Word, rodata: Word, data: Word, bottom: Word, v: Word)
    requires Aligned(text) && Aligned(rodata) && Aligned(data) && Aligned(bottom)
    requires text <= rodata <= data <= bottom < 0x1_0000_0000
    ensures var n := v / PAGE_SIZE;
            var space := KernelSpace(text, rodata, data, bottom);
            && (n in space <==> text <= v < bottom)
            && (n in space ==> space[n] == LeafFor(n * PAGE_SIZE, SectionFlags(rodata, data, v)))
  {
    PageBounds(text, v);
    PageBounds(rodata, v);
    PageBounds(data, v);
    PageBounds(bottom, v);
  }

  /** A page boundary does not cut a page. */
  lemma PageBounds(a: Word, v: Word)
    requires Aligned(a)
    ensures a <= v <==> a <= v / PAGE_SIZE * PAGE_SIZE
    ensures v < a <==> v / PAGE_SIZE * PAGE_SIZE < a
  {
  }

  lemma KernelTranslates(m: Mem, tables: map<Path, Word>, root: Word,
                         text: Word, rodata: Word, data: Word, bottom: Word, region: Word)
    requires Forest(m, false, tables) && Root(root) in tables && Frame(root)
    requires Linkable(text, rodata, data, bottom, region)
    requires AddressSpace(m, tables, root) == KernelSpace(text, rodata, data, bottom)
    requires Sv39.MapsPhysicalMemory(m, root)
    ensures KernelView(m, root, text, rodata, data, bottom)
  {
    forall v: Word | text <= v < bottom ensures InDomain(v) {
      OneRegion(region, region + 0x20_0000, v);
    }
    forall v: Word | InDomain(v)
      ensures Sv39.Walk(m, root, v) ==
              if text <= v < bottom then Sv39.Reach(v, SectionByte(rodata, data, v)) else Sv39.Fault
    {
      KernelPageWalk(m, tables, root, text, rodata, data, bottom, region, v);
    }
    forall p: Word | p < HALF
      ensures Sv39.Walk(m, root, Phys2Virt(p)) == Sv39.Reach(p, 0x27)
    {
      Sv39.HighHalf(m, root, p);
    }
  }

  /** The loop of `mmu_new_page_table` that fills the upper half of the root with gigapages */
  method MapUpperHalf(k: Machine, mmu: Word)
    requires k.Valid() && !k.mmuOn && Root(mmu) in k.tables && Frame(mmu)
    modifies k`mem
    ensures k.Valid() && Sv39.MapsPhysicalMemory(k.mem, mmu)
    ensures SameEntries(old(k.mem), k.tables, k.mem, k.tables)
    ensures SameOutside(old(k.mem), k.mem, mmu)
  {
    assert Linked(k.mem, false, k.tables, Root(mmu));
    EntriesSame(k.mem, k.tables);
    var i: nat := ENTRY_COUNT / 2;
    while i < ENTRY_COUNT
      invariant ENTRY_COUNT / 2 <= i <= ENTRY_COUNT
      invariant k.Valid()
      invariant forall j: nat | ENTRY_COUNT / 2 <= j < i :: Entry(k.mem, mmu, j) == Sv39.Gigapage(j)
      invariant SameEntries(old(k.mem), k.tables, k.mem, k.tables)
      invariant SameOutside(old(k.mem), k.mem, mmu)
    {
      Sv39.GigapageIsLeaf(i);
      EntryWritten(k.mem, false, k.freeList, k.TheKernel(), Root(mmu), i, Sv39.Gigapage(i));
      ghost var m := k.mem;
      SlotsDiffer(mmu, i, mmu, i);
      k.mem := k.mem[Slot(mmu, i) := Sv39.Gigapage(i)];
      SameEntriesTransitive(old(k.mem), k.tables, m, k.tables, k.mem, k.tables);
      i := i + 1;
    }
  }

  lemma EmptySpace(m: Mem, tables: map<Path, Word>, root: Word)
    requires AllFrames(tables) && forall k2, k1 :: Low(root, k2, k1) !in tables
    ensures AddressSpace(m, tables, root) == imap[]
  {
  }

  lemma SameEntriesSameSpaces(m: Mem, tables: map<Path, Word>, m': Mem, tables': map<Path, Word>, root: Word)
    requires AllFrames(tables) && AllFrames(tables') && SameEntries(m, tables, m', tables')
    ensures AddressSpace(m', tables', root) == AddressSpace(m, tables, root)
  {
    forall n: nat | DomainPage(n) ensures PageEntry(m', tables', root, n) == PageEntry(m, tables, root, n) {
      IndicesAreSv39(n * PAGE_SIZE);
    }
  }

  /** The allocation of a root: an empty address space of its own, all others as they were */
  method NewRoot(k: Machine) returns (mmu: Word)
    requires k.Valid() && k.free != []
    modifies k`mem, k`freeList, k`free, k`held, k`tables
    ensures k.Valid() && Frame(old(k.free[0]))
    ensures mmu == Returned(k.mmuOn, old(k.free[0])) && Phys(k.mmuOn, mmu) == old(k.free[0])
    ensures Root(old(k.free[0])) !in old(k.tables)
    ensures k.TheKernel() == old(k.TheKernel()).With(Root(old(k.free[0])))
    ensures SameEntries(old(k.mem), old(k.tables), k.mem, k.tables) && SameOutside(old(k.mem), k.mem, old(k.free[0]))
    ensures forall k2, k1 :: Mid(old(k.free[0]), k2) !in k.tables && Low(old(k.free[0]), k2, k1) !in k.tables
  {
    ghost var p := k.free[0];
    AllocKeepsPool(k.TheKernel().ThePool());
    mmu := k.AllocPage(true);
    HeadIsNoTable(old(k.TheKernel()));
    OutsideTables(old(k.mem), k.mem, k.tables, p);
    RootAdded(k.mem, k.mmuOn, k.freeList, k.TheKernel(), p);
    forall k2, k1 ensures Mid(p, k2) !in k.tables && Low(p, k2, k1) !in k.tables {
      NoRootNoTables(k.mem, k.mmuOn, k.tables, p, k2, k1);
    }
    ghost var tables := k.tables;
    SameEntriesTransitive(old(k.mem), tables, k.mem, tables, k.mem, tables[Root(p) := p]);
    k.tables := tables[Root(p) := p];
  }

  lemma HeadIsNoTable(k: Kernel)
    requires k.ThePool().Valid() && k.free != []
    ensures k.free[0] !in k.tables.Values
  {
    assert k.free[0] in Elements(k.free);
  }

  lemma OutsideTables(m: Mem, m': Mem, tables: map<Path, Word>, page: Word)
    requires AllFrames(tables) && page !in tables.Values && Frame(page) && SameOutside(m, m', page)
    ensures SameEntries(m, tables, m', tables)
  {
    forall q, j: nat | q in tables && j < ENTRY_COUNT
      ensures Frame(tables[q]) && Entry(m', tables[q], j) == Entry(m, tables[q], j)
    {
      assert tables[q] in tables.Values;
      SlotsDiffer(tables[q], j, page, 0);
    }
  }

  /** The kernel after `mmu_new_page_table`: a root, and the two tables for the kernel's region if it is not empty */
  ghost function WithKernelTables(k: Kernel, region: Word, some: bool): Kernel
    requires (if some then 3 else 1) <= |k.free|
  {
    WithRange(k.With(Root(k.free[0])), k.free[0], region, some)
  }

  /** Mapping three adjacent ranges takes the tables of one. */
  lemma ThreeRanges(k: Kernel, root: Word, region: Word, a: bool, b: bool, c: bool)
    requires a || b || c ==> k.Missing(root, Index2(region), Index1(region)) <= |k.free|
    ensures var k1 := WithRange(k, root, region, a);
            && (b || c ==> k1.Missing(root, Index2(region), Index1(region)) <= |k1.free|)
            && var k2 := WithRange(k1, root, region, b);
               && (c ==> k2.Missing(root, Index2(region), Index1(region)) <= |k2.free|)
               && WithRange(k2, root, region, c) == WithRange(k, root, region, a || b || c)
  {
    hide Index2, Index1, Kernel.WithTables, Kernel.Missing;
    if a || b || c {
      TablesThere(k, root, Index2(region), Index1(region));
    }
  }

  /** The three calls of `identity_map` in `mmu_new_page_table` */
  method MapKernel(k: Machine, mmu: Word, text: Word, rodata: Word, data: Word, bottom: Word, ghost region: Word)
    requires k.Valid() && !k.mmuOn && Root(mmu) in k.tables
    requires Linkable(text, rodata, data, bottom, region) && (text < bottom ==> k.Missing(mmu, region) <= |k.free|)
    requires AddressSpace(k.mem, k.tables, mmu) == imap[]
    modifies k`mem, k`freeList, k`free, k`held, k`tables
    ensures k.Valid() && k.TheKernel() == WithRange(old(k.TheKernel()), mmu, region, text < bottom)
    ensures Keeps(false, mmu, old(k.mem), old(k.tables), k.mem, k.tables)
    ensures AddressSpace(k.mem, k.tables, mmu) == KernelSpace(text, rodata, data, bottom)
    ensures forall r: Word | r != mmu :: AddressSpace(k.mem, k.tables, r) == old(AddressSpace(k.mem, k.tables, r))
  {
    hide Keeps, WithIdentity, AddressSpace, PageOf, PageUp, Index2, Index1, WithRange, Forest, Chain, Kernel.Missing;
    AlreadyAligned(text);
    AlreadyAligned(rodata);
    AlreadyAligned(data);
    AlreadyAligned(bottom);
    ghost var m0, tables0 := k.mem, k.tables;
    ThreeRanges(k.TheKernel(), mmu, region, text < rodata, rodata < data, data < bottom);
    IdentityMap(k, mmu, text, rodata, TEXT_FLAGS, region);
    ghost var m1, tables1 := k.mem, k.tables;
    UpperOfKeeps(false, mmu, m0, tables0, m1, tables1);
    IdentityMap(k, mmu, rodata, data, RODATA_FLAGS, region);
    ghost var m2, tables2 := k.mem, k.tables;
    UpperOfKeeps(false, mmu, m1, tables1, m2, tables2);
    KeepsTransitive(false, mmu, m0, tables0, m1, tables1, m2, tables2);
    IdentityMap(k, mmu, data, bottom, DATA_FLAGS, region);
    KeepsTransitive(false, mmu, m0, tables0, m2, tables2, k.mem, k.tables);
  }

  /** `mmu_new_page_table`.  It takes three pages: the root and the two tables below it for the kernel's region. */
  method MmuNewPageTable(k: Machine, text: Word, rodata: Word, data: Word, bottom: Word, ghost region: Word)
      returns (mmu: Word)
    requires k.Valid() && !k.mmuOn && (if text < bottom then 3 else 1) <= |k.free|
    requires Linkable(text, rodata, data, bottom, region)
    modifies k`mem, k`freeList, k`free, k`held, k`tables
    ensures k.Valid() && mmu == old(k.free[0]) && Frame(mmu) && Root(mmu) in k.tables && Root(mmu) !in old(k.tables)
    ensures k.TheKernel() == WithKernelTables(old(k.TheKernel()), region, text < bottom)
    ensures OnlyBelow(mmu, old(k.mem), k.mem, k.tables)
    ensures AddressSpace(k.mem, k.tables, mmu) == KernelSpace(text, rodata, data, bottom)
    ensures forall r: Word | r != mmu :: AddressSpace(k.mem, k.tables, r) == old(AddressSpace(k.mem, k.tables, r))
    ensures Sv39.MapsPhysicalMemory(k.mem, mmu)
    ensures KernelView(k.mem, mmu, text, rodata, data, bottom)
  {
    hide SameEntries, KernelView, Keeps, AddressSpace, PageOf, Index2, Index1, Chain, KernelSpace;
    mmu := NewRoot(k);
    ghost var m0, tables0 := k.mem, k.tables;
    EmptySpace(k.mem, k.tables, mmu);
    RootHasNoTables(k.TheKernel(), mmu, region);
    MapKernel(k, mmu, text, rodata, data, bottom, region);
    ghost var m, tables := k.mem, k.tables;
    UpperOfKeeps(false, mmu, m0, tables0, m, tables);
    MapUpperHalf(k, mmu);
    OnlyNewTables(mmu, old(k.mem), m0, m, k.mem, tables0, tables);
    forall r: Word
      ensures AddressSpace(k.mem, k.tables, r) == AddressSpace(m, tables, r)
      ensures AddressSpace(m0, tables0, r) == old(AddressSpace(k.mem, k.tables, r))
    {
      SameEntriesSameSpaces(m, tables, k.mem, k.tables, r);
      SameEntriesSameSpaces(old(k.mem), old(k.tables), m0, tables0, r);
    }
    KernelTranslates(k.mem, k.tables, mmu, text, rodata, data, bottom, region);
  }

  lemma RootHasNoTables(k: Kernel, root: Word, region: Word)
    ensures k.Missing(root, Index2(region), Index1(region)) <= 2
  {
  }

  lemma OnlyNewTables(root: Word, m: Mem, m0: Mem, m1: Mem, m2: Mem, tables0: map<Path, Word>, tables: map<Path, Word>)
    requires AllFrames(tables0) && AllFrames(tables) && Root(root) in tables && tables[Root(root)] == root
    requires SameOutside(m, m0, root) && Keeps(false, root, m0, tables0, m1, tables) && SameOutside(m1, m2, root)
    ensures OnlyBelow(root, m, m2, tables)
  {
  }

  // ---------- The kernel's start (src/kernel.c:28-37) ----------

  /** What the kernel's tables take from the free list */
  lemma KernelTablesTaken(k: Kernel, region: Word, some: bool)
    requires k.ThePool().Valid() && (if some then 3 else 1) <= |k.free| && k.held == {} && k.tables == map[]
    ensures var k' := WithKernelTables(k, region, some); var n := if some then 3 else 1;
            && k'.ThePool().Valid() && k'.ThePool().Pages() == Elements(k.free)
            && |k'.held| == n && |k'.free| == |k.free| - n && k'.held == k'.tables.Values
  {
    hide Index2, Index1, Elements, Pool.Valid;
    var root := k.free[0];
    var k1 := k.With(Root(root));
    assert k.ThePool().Pages() == Elements(k.free);
    WithTaken(k, Root(root));
    if some {
      var k2, k3 := Index2(region), Index1(region);
      WithTaken(k1, Mid(root, k2));
      WithTaken(k1.With(Mid(root, k2)), Low(root, k2, k3));
    }
  }

  lemma WithTaken(k: Kernel, path: Path)
    requires k.ThePool().Valid() && path !in k.tables && k.free != [] && k.held == k.tables.Values
    ensures var k' := k.With(path);
            && k'.ThePool().Valid() && k'.ThePool().Pages() == k.ThePool().Pages()
            && |k'.held| == |k.held| + 1 && |k'.free| == |k.free| - 1 && k'.held == k'.tables.Values
  {
    hide Pool.Valid, Elements;
    WithKeepsPool(k, path);
    AllocKeepsPool(k.ThePool());
    ValuesGrow(k.tables, path, k.free[0]);
  }

  /** The allocator over the memory from `start` on, the first page table, and the MMU: afterwards the kernel runs where
      it ran, the page tables have taken three pages of the region and the allocator still has all others, and the
      hardware reaches each of those through the pointer the allocator uses. */
  method Boot(m: Mem, start: Word, size: Word, text: Word, rodata: Word, data: Word, bottom: Word, ghost region: Word)
      returns (k: Machine, mmu: Word)
    requires Region(start, size) && (if text < bottom then 3 else 1) <= PageCount(start, size)
    requires Linkable(text, rodata, data, bottom, region)
    ensures fresh(k) && k.Valid() && k.mmuOn && k.active == mmu && Root(mmu) in k.tables && Frame(mmu)
    ensures k.held == k.tables.Values && |k.held| == (if text < bottom then 3 else 1)
    ensures |k.free| == PageCount(start, size) - |k.held|
    ensures forall p: Word :: p in k.free || p in k.held <==> Aligned(p) && start <= p && p + PAGE_SIZE <= start + size
    ensures forall a: Word :: start <= a < start + size || Read(k.mem, a) == Read(m, a)
    ensures KernelView(k.mem, mmu, text, rodata, data, bottom)
    ensures forall p | p in k.free :: Sv39.Walk(k.mem, mmu, MakeAccessible(true, p)) ==
                                      Sv39.Reach(p, 0x27)
  {
    hide KernelView, WithKernelTables, OnlyBelow, Chain, Forest, Served, Pool.Valid, Sv39.Walk, Sv39.MapsPhysicalMemory;
    k := new Machine.InitPageAlloc(m, start, size);
    ghost var kernel, m0 := k.TheKernel(), k.mem;
    KernelTablesTaken(kernel, region, text < bottom);
    mmu := MmuNewPageTable(k, text, rodata, data, bottom, region);
    RegionShared(kernel, k.TheKernel());
    RegionOnly(m, m0, k.mem, kernel, k.TheKernel(), mmu, start, size);
    k.SetMmu(mmu);
    AllReached(k.mem, mmu, text, rodata, data, bottom, k.TheKernel());
  }

  lemma RegionShared(kernel: Kernel, k: Kernel)
    requires k.ThePool().Pages() == Elements(kernel.free)
    ensures forall p: Word :: p in k.free || p in k.held <==> p in kernel.free
  {
    forall p: Word ensures p in k.free || p in k.held <==> p in kernel.free {
      assert p in k.ThePool().Pages() <==> p in Elements(kernel.free);
    }
  }

  /** Table pages lie inside the region, so nothing outside it is written. */
  lemma RegionOnly(m: Mem, m0: Mem, m1: Mem, kernel: Kernel, k: Kernel, root: Word, start: Word, size: Word)
    requires start + size <= HALF && k.held == k.tables.Values
    requires forall p: Word :: p in kernel.free <==> Aligned(p) && start <= p && p + PAGE_SIZE <= start + size
    requires forall p: Word :: p in k.free || p in k.held <==> p in kernel.free
    requires forall a: Word | a !in kernel.free :: Read(m0, a) == Read(m, a)
    requires OnlyBelow(root, m0, m1, k.tables)
    ensures forall a: Word :: start <= a < start + size || Read(m1, a) == Read(m, a)
  {
    forall a: Word | !(start <= a < start + size) ensures Read(m1, a) == Read(m, a) {
      forall p | p in k.tables && p.base == root ensures k.tables[p] != PageOf(a) {
        assert k.tables[p] in k.tables.Values;
        assert k.tables[p] in kernel.free;
      }
      assert Outside(k.tables, root, a);
    }
  }

  lemma AllReached(m: Mem, root: Word, text: Word, rodata: Word, data: Word, bottom: Word, k: Kernel)
    requires Aligned(root) && KernelView(m, root, text, rodata, data, bottom) && k.ThePool().Valid()
    ensures forall p | p in k.free :: Sv39.Walk(m, root, MakeAccessible(true, p)) ==
                                      Sv39.Reach(p, 0x27)
  {
    hide Sv39.Walk;
  }
}
