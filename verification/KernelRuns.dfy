/** Runs of the kernel's memory: any sequence of allocations, frees, new address spaces and mappings, as the machine
    executes it and as what it amounts to. */
module KernelRuns {
  import opened PhysicalMemory
  import opened PageIndices
  import opened FreeList
  import opened PageTables
  import opened KernelMemory
  import opened KernelPageTable

  /** Requests made of the kernel: allocate a page, free one, allocate the root of an address space, map a page. */
  datatype Request =
    | Alloc(clear: bool)
    | Free(page: Word)
    | NewSpace
    | Map(root: Word, v: Word, phys: Word, flags: nat)

  /** What the callers owe: the pages needed are left (the allocator panics otherwise), and only pages that were handed
      out and are no page tables are freed. */
  ghost predicate Legal(k: Kernel, r: Request) {
    match r
    case Alloc(_) => k.free != []
    case Free(p) => k.Data(p)
    case NewSpace => k.free != []
    case Map(root, v, _, _) =>
      Root(root) in k.tables && InDomain(v) && k.Missing(root, Index2(v), Index1(v)) <= |k.free|
  }

  ghost function After(k: Kernel, r: Request): Kernel
    requires Legal(k, r)
  {
    match r
    case Alloc(_) => k.Allocated()
    case Free(p) => k.Freed(p)
    case NewSpace => k.With(Root(k.free[0]))
    case Map(root, v, _, _) => k.WithTables(root, Index2(v), Index1(v))
  }

  ghost predicate LegalRun(k: Kernel, rs: seq<Request>)
    decreases |rs|
  {
    rs == [] || (Legal(k, rs[0]) && LegalRun(After(k, rs[0]), rs[1..]))
  }

  ghost function AfterRun(k: Kernel, rs: seq<Request>): Kernel
    requires LegalRun(k, rs)
    decreases |rs|
  {
    if rs == [] then k else AfterRun(After(k, rs[0]), rs[1..])
  }

  /** The address space of `root` after a request: a mapping below it is one update. */
  ghost function SpaceAfter(space: imap<nat, Word>, root: Word, r: Request): imap<nat, Word> {
    if r.Map? && r.root == root then space[r.v / PAGE_SIZE := LeafFor(r.phys, r.flags)] else space
  }

  ghost function SpaceAfterRun(space: imap<nat, Word>, root: Word, rs: seq<Request>): imap<nat, Word>
    decreases |rs|
  {
    if rs == [] then space else SpaceAfterRun(SpaceAfter(space, root, rs[0]), root, rs[1..])
  }

  // ---------- What every run keeps ----------

  lemma StepKeepsPool(k: Kernel, r: Request)
    requires k.ThePool().Valid() && Legal(k, r)
    ensures After(k, r).ThePool().Valid()
    ensures After(k, r).ThePool().Pages() == k.ThePool().Pages()
    ensures TablesGrow(k.tables, After(k, r).tables)
    ensures forall q | k.Data(q) && r != Free(q) :: After(k, r).Data(q)
  {
    match r {
      case Alloc(_) => AllocKeepsPool(k.ThePool());
      case Free(p) => FreeKeepsPool(k.ThePool(), p);
      case NewSpace => WithKeepsPool(k, Root(k.free[0]));
      case Map(root, v, _, _) => WithTablesKeepsPool(k, root, Index2(v), Index1(v));
    }
  }

  /** Page conservation and separation over every run: free and held pages always partition the same region, the list
      stays duplicate-free, tables stay where they are, and no page in use as a table is ever free. */
  lemma {:induction false} EveryRunKeepsPool(k: Kernel, rs: seq<Request>)
    requires k.ThePool().Valid() && LegalRun(k, rs)
    ensures AfterRun(k, rs).ThePool().Valid()
    ensures AfterRun(k, rs).ThePool().Pages() == k.ThePool().Pages()
    ensures AfterRun(k, rs).tables.Values !! Elements(AfterRun(k, rs).free)
    ensures TablesGrow(k.tables, AfterRun(k, rs).tables)
    decreases |rs|
  {
    if rs != [] {
      StepKeepsPool(k, rs[0]);
      EveryRunKeepsPool(After(k, rs[0]), rs[1..]);
    }
  }

  /** A page handed out stays out, and is never handed out a second time nor made a table, until it is freed. */
  lemma {:induction false} HeldUntilFreed(k: Kernel, rs: seq<Request>, p: Word)
    requires k.ThePool().Valid() && LegalRun(k, rs) && k.Data(p) && Free(p) !in rs
    ensures AfterRun(k, rs).Data(p)
    ensures forall n | 0 <= n <= |rs| ::
              LegalRun(k, rs[..n]) && AfterRun(k, rs[..n]).Data(p) && p !in AfterRun(k, rs[..n]).free
    decreases |rs|
  {
    assert rs[..0] == [];
    assert p !in k.free by {
      assert p in k.free ==> p in Elements(k.free);
    }
    if rs != [] {
      assert rs[0] != Free(p);
      StepKeepsPool(k, rs[0]);
      var k', rest := After(k, rs[0]), rs[1..];
      HeldUntilFreed(k', rest, p);
      forall n | 0 < n <= |rs|
        ensures LegalRun(k, rs[..n]) && AfterRun(k, rs[..n]).Data(p) && p !in AfterRun(k, rs[..n]).free
      {
        assert rs[..n][1..] == rest[..n - 1];
      }
    }
  }

  // ---------- The machine executes the run ----------

  /** One request, as memory shows it: the kernel, every address space and every page that callers hold are as they
      should be. */
  ghost predicate Stepped(m: Mem, k: Kernel, m': Mem, k': Kernel, r: Request)
    requires Legal(k, r) && AllFrames(k.tables) && AllFrames(k'.tables)
  {
    && k' == After(k, r)
    && (forall root: Word :: AddressSpace(m', k'.tables, root) == SpaceAfter(AddressSpace(m, k.tables, root), root, r))
    && (forall a: Word | k.Data(PageOf(a)) && r != Free(PageOf(a)) :: Read(m', a) == Read(m, a))
  }

  method Step(k: Machine, r: Request)
    requires k.Valid() && Legal(k.TheKernel(), r)
    modifies k`mem, k`freeList, k`free, k`held, k`tables
    ensures k.Valid() && Stepped(old(k.mem), old(k.TheKernel()), k.mem, k.TheKernel(), r)
  {
    hide Stepped, AddressSpace, SameEntries, Keeps, MapsEntry, Phys, Chain, Injective, Linked, Closed, Elements;
    ghost var kernel := k.TheKernel();
    match r {
      case Alloc(clear) =>
        HeadIsNoTable(kernel);
        var page := k.AllocPage(clear);
        PageStepped(old(k.mem), kernel, k.mem, k.TheKernel(), r, kernel.free[0]);
      case Free(p) =>
        HeldIsFrame(k.mmuOn, kernel, p);
        k.FreePage(p);
        PageStepped(old(k.mem), kernel, k.mem, k.TheKernel(), r, p);
      case NewSpace =>
        HeadIsNoTable(kernel);
        var mmu := NewRoot(k);
        SpaceStepped(old(k.mem), kernel, k.mem, k.TheKernel());
      case Map(root, v, phys, flags) =>
        RootItself(k.mem, k.mmuOn, k.tables, root);
        k.MmuMap(root, v, phys, flags);
        MapStepped(old(k.mem), kernel, k.mem, k.TheKernel(), r);
    }
  }

  lemma HeldIsFrame(mmuOn: bool, k: Kernel, p: Word)
    requires k.ThePool().Valid() && p in k.held
    ensures Frame(p) && Phys(mmuOn, p) == p
  {
  }

  lemma RootItself(m: Mem, mmuOn: bool, tables: map<Path, Word>, root: Word)
    requires Forest(m, mmuOn, tables) && Root(root) in tables
    ensures Frame(root) && Phys(mmuOn, root) == root
  {
    assert Linked(m, mmuOn, tables, Root(root));
  }

  lemma PageStepped(m: Mem, k: Kernel, m': Mem, k': Kernel, r: Request, page: Word)
    requires k.ThePool().Valid() && AllFrames(k.tables) && (r.Alloc? || r.Free?) && Legal(k, r) && k' == After(k, r)
    requires Frame(page) && page !in k.tables.Values && SameOutside(m, m', page)
    requires page == if r.Alloc? then k.free[0] else r.page
    ensures Stepped(m, k, m', k', r)
  {
    hide AddressSpace, PageOf;
    Elsewhere(m, m', k.tables, page);
    if r.Alloc? {
      AllocKeepsPool(k.ThePool());
    }
  }

  lemma SpaceStepped(m: Mem, k: Kernel, m': Mem, k': Kernel)
    requires k.ThePool().Valid() && AllFrames(k.tables) && k.free != [] && k' == After(k, NewSpace) && AllFrames(k'.tables)
    requires SameEntries(m, k.tables, m', k'.tables) && SameOutside(m, m', k.free[0])
    ensures Stepped(m, k, m', k', NewSpace)
  {
    hide AddressSpace, PageOf, SameEntries;
    SameSpaces(m, k.tables, m', k'.tables);
    AllocKeepsPool(k.ThePool());
  }

  lemma MapStepped(m: Mem, k: Kernel, m': Mem, k': Kernel, r: Request)
    requires r.Map? && Legal(k, r) && AllFrames(k.tables) && AllFrames(k'.tables) && k' == After(k, r)
    requires MapsEntry(m, k.tables, m', k'.tables, r.root, Index2(r.v), Index1(r.v), Index0(r.v), LeafFor(r.phys, r.flags))
    requires forall a: Word | k.Data(PageOf(a)) :: Read(m', a) == Read(m, a)
    ensures Stepped(m, k, m', k', r)
  {
    hide AddressSpace, PageOf, MapsEntry, Index2, Index1, Index0;
    MapUpdatesSpace(m, k.tables, m', k'.tables, r.root, r.v, LeafFor(r.phys, r.flags));
  }

  lemma SameSpaces(m: Mem, tables: map<Path, Word>, m': Mem, tables': map<Path, Word>)
    requires AllFrames(tables) && AllFrames(tables') && SameEntries(m, tables, m', tables')
    ensures forall root: Word :: AddressSpace(m', tables', root) == AddressSpace(m, tables, root)
  {
    hide AddressSpace, SameEntries;
    forall root: Word ensures AddressSpace(m', tables', root) == AddressSpace(m, tables, root) {
      SameEntriesSameSpaces(m, tables, m', tables', root);
    }
  }

  lemma Elsewhere(m: Mem, m': Mem, tables: map<Path, Word>, page: Word)
    requires AllFrames(tables) && page !in tables.Values && Frame(page) && SameOutside(m, m', page)
    ensures forall root: Word :: AddressSpace(m', tables, root) == AddressSpace(m, tables, root)
  {
    hide AddressSpace, SameEntries;
    OutsideTables(m, m', tables, page);
    SameSpaces(m, tables, m', tables);
  }

  /** Any legal run, executed: it ends in the kernel the requests amount to, each address space is the map that its own
      mappings, in order, make of what it was, and no page a caller holds throughout has changed. */
  method Run(k: Machine, rs: seq<Request>)
    requires k.Valid() && LegalRun(k.TheKernel(), rs)
    modifies k`mem, k`freeList, k`free, k`held, k`tables
    ensures k.Valid() && k.TheKernel() == AfterRun(old(k.TheKernel()), rs)
    ensures forall root: Word ::
              AddressSpace(k.mem, k.tables, root) == SpaceAfterRun(old(AddressSpace(k.mem, k.tables, root)), root, rs)
    ensures forall a: Word | old(k.TheKernel()).Data(PageOf(a)) && Free(PageOf(a)) !in rs ::
              Read(k.mem, a) == old(Read(k.mem, a))
  {
    hide AddressSpace, PageOf, Legal, After, Kernel.Data, SpaceAfter, Chain, Injective, Linked, Closed, Pool.Valid;
    var i := 0;
    while i < |rs|
      invariant i <= |rs| && k.Valid() && LegalRun(k.TheKernel(), rs[i..])
      invariant AfterRun(k.TheKernel(), rs[i..]) == AfterRun(old(k.TheKernel()), rs)
      invariant forall root: Word ::
                  SpaceAfterRun(AddressSpace(k.mem, k.tables, root), root, rs[i..]) ==
                  SpaceAfterRun(old(AddressSpace(k.mem, k.tables, root)), root, rs)
      invariant forall a: Word | old(k.TheKernel()).Data(PageOf(a)) && Free(PageOf(a)) !in rs ::
                  k.TheKernel().Data(PageOf(a)) && Read(k.mem, a) == old(Read(k.mem, a))
    {
      assert rs[i..][0] == rs[i] && rs[i..][1..] == rs[i + 1..];
      assert rs[i] in rs;
      StepKeepsPool(k.TheKernel(), rs[i]);
      Step(k, rs[i]);
      i := i + 1;
    }
  }
}
