/** The page allocator (`src/pages.c`) and the page-table code (`src/mmu.c`) over one machine state. */
module KernelMemory {
  import opened Options
  import opened Division
  import opened PhysicalMemory
  import opened PageIndices
  import opened FreeList
  import opened PageTables
  import Sv39

  /** Free pages in list order, pages handed out, and the page tables among those by their place */
  datatype Kernel = Kernel(free: seq<Word>, held: set<Word>, tables: map<Path, Word>) {
    ghost function ThePool(): Pool {
      Pool(free, held, tables.Values)
    }

    /** `alloc_page`: the head of the list changes hands. */
    ghost function Allocated(): Kernel
      requires free != []
    {
      Kernel(free[1..], held + {free[0]}, tables)
    }

    /** `free_page` */
    ghost function Freed(p: Word): Kernel {
      Kernel([p] + free, held - {p}, tables)
    }

    /** A new table at a place that has none */
    ghost function With(path: Path): Kernel
      requires path !in tables ==> free != []
    {
      if path in tables then this else Kernel(free[1..], held + {free[0]}, tables[path := free[0]])
    }

    /** A page handed out that is no page table */
    ghost predicate Data(p: Word) {
      p in held && p !in tables.Values
    }

    /** How many tables are missing on the way to indices (k2, k1) of `root` */
    ghost function Missing(root: Word, k2: nat, k1: nat): nat {
      (if Mid(root, k2) in tables then 0 else 1) + (if Low(root, k2, k1) in tables then 0 else 1)
    }

    /** All tables on that way, the missing ones from the free list, upper one first */
    ghost function WithTables(root: Word, k2: nat, k1: nat): Kernel
      requires Missing(root, k2, k1) <= |free|
    {
      With(Mid(root, k2)).With(Low(root, k2, k1))
    }
  }

  /** The list in memory is the free pages in order, free, held and table pages are apart as Pool.Valid says, and the
      tables in memory form a forest. */
  ghost predicate Sound(m: Mem, mmuOn: bool, head: Word, k: Kernel) {
    && Chain(m, mmuOn, head, k.free)
    && k.ThePool().Valid()
    && Forest(m, mmuOn, k.tables)
  }

  /** With the MMU on, the active root shows physical memory in its upper half. */
  ghost predicate Served(m: Mem, mmuOn: bool, tables: map<Path, Word>, active: Word) {
    mmuOn ==> Root(active) in tables && tables[Root(active)] == active && Frame(active)
              && Sv39.MapsPhysicalMemory(m, active)
  }

  /** All of a machine that its methods change */
  datatype State = State(mem: Mem, freeList: Word, kernel: Kernel)

  class Machine {
    var mem: Mem
    var freeList: Word
    var mmuOn: bool

    // The pages the free list visits, the pages handed out, the page tables among those by their place, and the root
    // that `satp` holds while the MMU is on
    ghost var free: seq<Word>
    ghost var held: set<Word>
    ghost var tables: map<Path, Word>
    ghost var active: Word

    ghost function TheKernel(): Kernel
      reads this
    {
      Kernel(free, held, tables)
    }

    ghost function Now(): State
      reads this
    {
      State(mem, freeList, TheKernel())
    }

    /** Holds between any two calls. */
    ghost predicate Valid()
      reads this
    {
      Sound(mem, mmuOn, freeList, TheKernel()) && Served(mem, mmuOn, tables, active)
    }

    /** `init_page_alloc`.  At least one whole page must fit: otherwise `count - 1` wraps around (src/pages.c:21). */
    constructor InitPageAlloc(m: Mem, start: Word, size: Word)
      requires Region(start, size)
      ensures Valid() && !mmuOn && held == {} && tables == map[]
      ensures |free| == PageCount(start, size)
      ensures forall p: Word :: p in free <==> Aligned(p) && start <= p && p + PAGE_SIZE <= start + size
      ensures forall a: Word | a !in free :: Read(mem, a) == Read(m, a)
    {
      mem, mmuOn := m, false;
      var first := FirstPage(start);
      freeList := first;
      var count := PageCount(start, size);
      new;
      RegionPages(start, size);
      LinkPages(first, count);
      free, held, tables := Adjacent(first, count), {}, map[];
      InitialPool(mem, start, size, first, count);
    }

    /** The loop of `init_page_alloc`: links each page to the one after it and the last to NULL. */
    method LinkPages(first: Word, count: nat)
      requires first + count * PAGE_SIZE <= HALF && 0 < count && Aligned(first)
      modifies `mem
      ensures forall k | 0 <= k < count - 1 :: Read(mem, Nth(first, k)) == Nth(first, k + 1)
      ensures Read(mem, Nth(first, count - 1)) == 0
      ensures forall a: Word | a !in Adjacent(first, count) :: Read(mem, a) == old(Read(mem, a))
    {
      var block := first;
      var i: nat := 0;
      while i < count - 1
        invariant i <= count - 1 && block == Nth(first, i)
        invariant forall k | 0 <= k < i :: Read(mem, Nth(first, k)) == Nth(first, k + 1)
        invariant forall a: Word | a !in Adjacent(first, count) :: Read(mem, a) == old(Read(mem, a))
      {
        assert Adjacent(first, count)[i] == block;
        mem := mem[block := block + PAGE_SIZE];
        block := Read(mem, block);
        i := i + 1;
      }
      assert Adjacent(first, count)[count - 1] == block;
      mem := mem[block := 0];
    }

    /** `alloc_page`.  An empty list is where the kernel panics. */
    method AllocPage(clear: bool) returns (page: Word)
      requires Valid() && free != []
      modifies `mem, `freeList, `free, `held
      ensures Valid() && TheKernel() == old(TheKernel()).Allocated()
      ensures Frame(old(free[0])) && page == Returned(mmuOn, old(free[0])) && Phys(mmuOn, page) == old(free[0])
      ensures old(free[0]) !in old(held)
      ensures forall a: Word | PageOf(a) != old(free[0]) :: Read(mem, a) == old(Read(mem, a))
      ensures Read(mem, old(free[0])) == 0
      ensures clear ==> Cleared(mem, old(free[0]))
      ensures !clear ==> forall a: Word | a != old(free[0]) :: Read(mem, a) == old(Read(mem, a))
    {
      hide Injective, Linked, Closed, Sv39.MapsPhysicalMemory, Virt2Phys, MakeAccessible, Phys, PageOf;
      ghost var p := free[0];
      AllocKeepsPool(TheKernel().ThePool());
      HeadIsFrame(TheKernel());
      SlotsDiffer(p, 0, p, 0);
      ListHead(mmuOn, freeList, p);
      var block := MakeAccessible(mmuOn, freeList);
      freeList := Read(mem, Phys(mmuOn, block));
      mem := mem[Phys(mmuOn, block) := 0];
      if clear {
        ClearPage(block, p);
        assert Entry(mem, p, 0) == Read(mem, p);
      }
      page := Virt2Phys(block);
      free, held := free[1..], held + {p};
      PageChanged(old(mem), mem, mmuOn, freeList, TheKernel(), active, p);
    }

    /** The loop of `alloc_page` that clears the page `block` gives access to. */
    method ClearPage(block: Word, ghost p: Word)
      requires Frame(p) && block == AccessTo(mmuOn, p)
      modifies `mem
      ensures Cleared(mem, p)
      ensures forall a: Word | PageOf(a) != p :: Read(mem, a) == old(Read(mem, a))
    {
      var i: nat := 0;
      while i < ENTRY_COUNT
        invariant i <= ENTRY_COUNT
        invariant forall k: nat | k < i :: Entry(mem, p, k) == 0
        invariant forall a: Word | PageOf(a) != p :: Read(mem, a) == old(Read(mem, a))
      {
        AccessibleWord(mmuOn, block, p, i);
        ghost var before := mem;
        mem := mem[Phys(mmuOn, block + 8 * i) := 0];
        SlotsDiffer(p, i, p, i);
        forall k: nat | k < i ensures Entry(mem, p, k) == 0 {
          assert Entry(before, p, k) == 0;
          SlotsDiffer(p, k, p, i);
        }
        i := i + 1;
      }
    }

    /** `free_page`.  The page must be held and not in use as a page table. */
    method FreePage(page: Word)
      requires Valid()
      requires page != 0 && Phys(mmuOn, page) in held && Phys(mmuOn, page) !in tables.Values
      modifies `mem, `freeList, `free, `held
      ensures Valid() && TheKernel() == old(TheKernel()).Freed(Phys(mmuOn, page))
      ensures forall a: Word | a != Phys(mmuOn, page) :: Read(mem, a) == old(Read(mem, a))
    {
      ghost var p := Phys(mmuOn, page);
      FreeKeepsPool(TheKernel().ThePool(), p);
      AccessibleReaches(mmuOn, page);
      mem := mem[Phys(mmuOn, MakeAccessible(mmuOn, page)) := freeList];
      freeList := page;
      free, held := [p] + free, held - {p};
      assert free[1..] == old(free);
      assert p !in Elements(old(free));
      PageChanged(old(mem), mem, mmuOn, old(freeList), old(TheKernel()), active, p);
    }

    /** `set_mmu`, as far as this state shows it: what was built with the MMU off stays what it is. */
    method SetMmu(root: Word)
      requires Valid() && Root(root) in tables && Frame(root) && Sv39.MapsPhysicalMemory(mem, root)
      modifies `mmuOn, `active
      ensures Valid() && mmuOn && active == root
    {
      if !mmuOn {
        ChainSwitchedOn(mem, freeList, free);
        ForestSwitchedOn(mem, tables);
      }
      assert Linked(mem, mmuOn, tables, Root(root));
      mmuOn, active := true, root;
    }

    /** What `Phys` stands for: with the MMU on, the hardware takes every pointer `make_accessible` returns to the physical
        address the model reads and writes. */
    lemma HardwareReaches(p: Word)
      requires Valid() && mmuOn && p < HALF
      ensures Aligned(active)
      ensures Sv39.Walk(mem, active, MakeAccessible(mmuOn, p)) ==
              Sv39.Reach(Phys(mmuOn, MakeAccessible(mmuOn, p)), M_GLOBAL + M_READ + M_WRITE + M_VALID)
    {
      Sv39.HighHalf(mem, active, p);
    }

    /** How many tables `mmu_entry` has to allocate on the way to the entry of `v` */
    ghost function Missing(root: Word, v: Word): nat
      reads this
    {
      TheKernel().Missing(root, Index2(v), Index1(v))
    }

    /** The `alloc` branch of `mmu_entry`: a cleared page becomes the table below entry `index` of `table`. */
    method NewTable(table: Word, index: nat, ghost path: Path) returns (page: Word)
      requires Valid() && free != [] && index < ENTRY_COUNT
      requires path in tables && !path.Low? && Frame(tables[path]) && table == AccessTo(mmuOn, tables[path])
      requires Absent(Entry(mem, tables[path], index)) && (path.Root? ==> index < ENTRY_COUNT / 2)
      modifies `mem, `freeList, `free, `held, `tables
      ensures Valid() && Child(path, index) !in old(tables)
      ensures TheKernel() == old(TheKernel()).With(Child(path, index)) && Phys(mmuOn, page) == old(free[0])
      ensures SameEntries(old(mem), old(tables), mem, tables)
      ensures Keeps(mmuOn, path.base, old(mem), old(tables), mem, tables)
    {
      hide Keeps, SameEntries, Chain, Injective, Linked, Closed, Pool.Valid, Phys, Sv39.MapsPhysicalMemory;
      page := AllocPage(true);
      ghost var p := old(free[0]);
      AccessibleWord(mmuOn, table, tables[path], index);
      assert SameOutside(old(mem), mem, p);
      TableLinked(old(mem), mem, mmuOn, freeList, old(TheKernel()), active, path, index, p);
      mem := mem[Phys(mmuOn, table + 8 * index) := PointerTo(page)];
      tables := tables[Child(path, index) := p];
    }

    /** One turn of the loop of `mmu_entry`: reads entry `index` of the table at `path` and moves to the table below,
        which it allocates if it is missing and `alloc` is set. */
    method Descend(table: Word, index: nat, alloc: bool, ghost path: Path) returns (next: Option<Word>)
      requires Valid() && index < ENTRY_COUNT && (path.Root? ==> index < ENTRY_COUNT / 2)
      requires path in tables && !path.Low? && table == AccessTo(mmuOn, tables[path])
      requires alloc && Child(path, index) !in tables ==> free != []
      modifies `mem, `freeList, `free, `held, `tables
      ensures Valid()
      ensures SameEntries(old(mem), old(tables), mem, tables)
      ensures Keeps(mmuOn, path.base, old(mem), old(tables), mem, tables)
      ensures if Child(path, index) in tables then next == Some(AccessTo(mmuOn, tables[Child(path, index)]))
              else next == None && !alloc
      ensures !alloc ==> Now() == old(Now())
      ensures alloc ==> TheKernel() == old(TheKernel()).With(Child(path, index))
    {
      hide SameEntries, Keeps;
      ghost var child := Child(path, index);
      EntryChild(mem, mmuOn, tables, path, index);
      AccessibleWord(mmuOn, table, tables[path], index);
      var e := Read(mem, Phys(mmuOn, table + 8 * index));
      assert e == Entry(mem, tables[path], index);
      if Absent(e) && alloc {
        var page := NewTable(table, index, path);
        ListHead(mmuOn, page, tables[child]);
        return Some(MakeAccessible(mmuOn, page));
      }
      KeepsAll(mmuOn, path.base, mem, tables);
      EntriesSame(mem, tables);
      if Absent(e) {
        return None;
      }
      if Readable(e) || Executable(e) {
        // a superpage leaf, whose slot mmu_entry would return: a forest holds none on these paths
        assert false;
      }
      ListHead(mmuOn, Target(e), tables[child]);
      next := Some(MakeAccessible(mmuOn, Target(e)));
    }

    /** `mmu_entry`: a pointer to the entry of `v`, allocating the missing tables if `alloc` is set. */
    method MmuEntry(mmu: Word, v: Word, alloc: bool) returns (entry: Option<Word>)
      requires Valid() && Root(Phys(mmuOn, mmu)) in tables && InRange(v)
      requires alloc ==> Missing(Phys(mmuOn, mmu), v) <= |free|
      modifies `mem, `freeList, `free, `held, `tables
      ensures Valid()
      ensures SameEntries(old(mem), old(tables), mem, tables)
      ensures Keeps(mmuOn, Phys(mmuOn, mmu), old(mem), old(tables), mem, tables)
      ensures var p := Low(Phys(mmuOn, mmu), Index2(v), Index1(v));
              if p in tables then
                Index0(v) < ENTRY_COUNT && Aligned(tables[p])
                && entry.Some? && Phys(mmuOn, entry.value) == Slot(tables[p], Index0(v))
              else entry == None && !alloc
      ensures !alloc ==> Now() == old(Now())
      ensures alloc ==>
                TheKernel() == old(TheKernel()).WithTables(Phys(mmuOn, mmu), Index2(v), Index1(v))
    {
      hide SameEntries, Keeps, Injective, Closed, Linked, Chain;
      ghost var root := Phys(mmuOn, mmu);
      IndicesAreSv39(v);
      RootAccess(mem, mmuOn, tables, mmu);
      KeepsAll(mmuOn, root, mem, tables);
      EntriesSame(mem, tables);
      var k2, k1, k0 := Index2(v), Index1(v), Index0(v);
      ghost var goal := TheKernel();
      if alloc {
        goal := goal.WithTables(root, k2, k1);
      }
      var table := MakeAccessible(mmuOn, mmu);
      ghost var path := Root(root);
      var i := 2;
      while i > 0
        invariant 0 <= i <= 2
        invariant path == PathTo(root, k2, k1, i)
        invariant path in tables && table == AccessTo(mmuOn, tables[path])
        invariant Valid()
        invariant SameEntries(old(mem), old(tables), mem, tables)
        invariant Keeps(mmuOn, root, old(mem), old(tables), mem, tables)
        invariant !alloc ==> Now() == old(Now())
        invariant alloc ==> GoalAhead(TheKernel(), goal, root, k2, k1, i)
      {
        ghost var mem0, tables0, kernel0 := mem, tables, TheKernel();
        var index := if i == 2 then k2 else k1;
        var next := Descend(table, index, alloc, path);
        SameEntriesTransitive(old(mem), old(tables), mem0, tables0, mem, tables);
        KeepsTransitive(mmuOn, root, old(mem), old(tables), mem0, tables0, mem, tables);
        if next == None {
          LowNeedsMid(mem, mmuOn, tables, root, k2, k1);
          return None;
        }
        table, path, i := next.value, Child(path, index), i - 1;
      }
      AccessibleWord(mmuOn, table, tables[path], k0);
      entry := Some(table + 8 * k0);
    }

    /** `mmu_map`.  The free list must hold the tables still missing: otherwise the kernel panics. */
    method MmuMap(mmu: Word, v: Word, phys: Word, flags: nat)
      requires Valid() && Root(Phys(mmuOn, mmu)) in tables && InRange(v)
      requires Missing(Phys(mmuOn, mmu), v) <= |free|
      modifies `mem, `freeList, `free, `held, `tables
      ensures Valid() && TheKernel() == old(TheKernel()).WithTables(Phys(mmuOn, mmu), Index2(v), Index1(v))
      ensures Keeps(mmuOn, Phys(mmuOn, mmu), old(mem), old(tables), mem, tables)
      ensures MapsEntry(old(mem), old(tables), mem, tables, Phys(mmuOn, mmu), Index2(v), Index1(v), Index0(v),
                        LeafFor(phys, flags))
      ensures forall a: Word | old(TheKernel()).Data(PageOf(a)) ::
                TheKernel().Data(PageOf(a)) && Read(mem, a) == old(Read(mem, a))
      ensures old(Sv39.Plain(mem, tables, Phys(mmuOn, mmu))) ==>
                && (Sv39.SamePath(mem, tables, Phys(mmuOn, mmu), Index2(v), Index1(v)) <==>
                    !mmuOn || old(Missing(Phys(mmuOn, mmu), v)) == 0)
                && (Sv39.Plain(mem, tables, Phys(mmuOn, mmu)) <==>
                    !mmuOn || old(Missing(Phys(mmuOn, mmu), v)) == 0)
    {
      hide Keeps, SameEntries, Sv39.Plain, Sv39.SamePath, Kernel.Data, Injective, Linked, Closed, Chain, Pool.Valid;
      var entry := MmuEntry(mmu, v, true);
      ghost var p := Low(Phys(mmuOn, mmu), Index2(v), Index1(v));
      EntryMapped(old(mem), old(tables), mem, mmuOn, freeList, TheKernel(), active, p, Index0(v), phys, flags);
      KeepsTransitive(mmuOn, p.base, old(mem), old(tables), mem, tables,
                      mem[Slot(tables[p], Index0(v)) := LeafFor(phys, flags)], tables);
      mem := mem[Phys(mmuOn, entry.value) := LeafFor(phys, flags)];
      IndicesAreSv39(v);
      DataUntouched(old(mem), old(TheKernel()), mem, mmuOn, p.base, p.k2, p.k1);
      HardwarePath(old(mem), old(TheKernel()), mem, mmuOn, p.base, p.k2, p.k1);
    }

    /** `mmu_walk`: the accessible address `v` translates to, or None for NULL. */
    method MmuWalk(mmu: Word, v: Word) returns (physical: Option<Word>)
      requires Valid() && Root(Phys(mmuOn, mmu)) in tables && InRange(v)
      modifies `mem, `freeList, `free, `held, `tables
      ensures Now() == old(Now())
      ensures physical == Reached(mmuOn, FoundEntry(mem, tables, Phys(mmuOn, mmu), v), v)
    {
      var entry := MmuEntry(mmu, v, false);
      if entry == None {
        return None;
      }
      var e := Read(mem, Phys(mmuOn, entry.value));
      if !PageTables.Valid(e) {
        return None;
      }
      physical := Reached(mmuOn, Some(e), v);
    }
  }

  /** Hanging a table keeps the pool, and takes no page that is held. */
  lemma WithKeepsPool(k: Kernel, path: Path)
    requires k.ThePool().Valid() && (path !in k.tables ==> k.free != [])
    ensures k.With(path).ThePool().Valid() && k.With(path).ThePool().Pages() == k.ThePool().Pages()
    ensures path !in k.tables ==> k.With(path).ThePool() == k.ThePool().TableAdded()
    ensures forall q | k.Data(q) :: k.With(path).Data(q)
  {
    if path !in k.tables {
      AllocKeepsPool(k.ThePool());
      ValuesGrow(k.tables, path, k.free[0]);
    }
  }

  lemma WithTablesKeepsPool(k: Kernel, root: Word, k2: nat, k1: nat)
    requires k.ThePool().Valid() && k.Missing(root, k2, k1) <= |k.free|
    ensures k.WithTables(root, k2, k1).ThePool().Valid()
    ensures k.WithTables(root, k2, k1).ThePool().Pages() == k.ThePool().Pages()
    ensures forall q | k.Data(q) :: k.WithTables(root, k2, k1).Data(q)
  {
    hide Kernel.Data;
    WithKeepsPool(k, Mid(root, k2));
    WithKeepsPool(k.With(Mid(root, k2)), Low(root, k2, k1));
  }

  /** `mmu_map` changes no word of a page that a caller holds. */
  lemma DataUntouched(m: Mem, k: Kernel, m': Mem, mmuOn: bool, root: Word, k2: nat, k1: nat)
    requires k.ThePool().Valid() && k.Missing(root, k2, k1) <= |k.free| && AllFrames(k.tables)
    requires AllFrames(k.WithTables(root, k2, k1).tables)
    requires Keeps(mmuOn, root, m, k.tables, m', k.WithTables(root, k2, k1).tables)
    ensures forall a: Word | k.Data(PageOf(a)) ::
              k.WithTables(root, k2, k1).Data(PageOf(a)) && Read(m', a) == Read(m, a)
  {
    hide LinksKept, UpperKept, PageOf;
    WithTablesKeepsPool(k, root, k2, k1);
    var tables' := k.WithTables(root, k2, k1).tables;
    forall a: Word | k.Data(PageOf(a)) ensures Read(m', a) == Read(m, a) {
      assert k.WithTables(root, k2, k1).Data(PageOf(a));
      assert forall p | p in tables' :: tables'[p] in tables'.Values;
      assert Outside(tables', root, a);
    }
  }

  /** Below a root built with the MMU off, the hardware goes to the mapped entry the way `mmu_entry` goes if and only if
      the MMU is off or no table had to be allocated. */
  lemma HardwarePath(m: Mem, k: Kernel, m': Mem, mmuOn: bool, root: Word, k2: nat, k1: nat)
    requires Forest(m, mmuOn, k.tables) && k.Missing(root, k2, k1) <= |k.free|
    requires Forest(m', mmuOn, k.WithTables(root, k2, k1).tables)
    requires Keeps(mmuOn, root, m, k.tables, m', k.WithTables(root, k2, k1).tables)
    ensures Sv39.Plain(m, k.tables, root) ==>
              && (Sv39.SamePath(m', k.WithTables(root, k2, k1).tables, root, k2, k1) <==>
                  !mmuOn || k.Missing(root, k2, k1) == 0)
              && (Sv39.Plain(m', k.WithTables(root, k2, k1).tables, root) <==>
                  !mmuOn || k.Missing(root, k2, k1) == 0)
  {
    if Sv39.Plain(m, k.tables, root) {
      hide OnlyBelow, UpperKept;
      var k' := k.WithTables(root, k2, k1);
      LinkLeads(m, k.tables, m', k'.tables, mmuOn, root, Mid(root, k2));
      LinkLeads(m, k.tables, m', k'.tables, mmuOn, root, Low(root, k2, k1));
      forall p | HasLink(k'.tables, p) && p.base == root && (!mmuOn || k.Missing(root, k2, k1) == 0)
        ensures LinkOf(m', k'.tables, p) == PointerTo(k'.tables[p])
      {
        assert p in k.tables ==> Linked(m, mmuOn, k.tables, p);
        assert p in k.tables ==> HasLink(k.tables, p);
      }
      if Sv39.Plain(m', k'.tables, root) {
        Sv39.PointerForHardware(k'.tables[Mid(root, k2)]);
        Sv39.PointerForHardware(k'.tables[Low(root, k2, k1)]);
      }
    }
  }

  lemma LinkLeads(m: Mem, tables: map<Path, Word>, m': Mem, tables': map<Path, Word>, mmuOn: bool, root: Word, p: Path)
    requires Forest(m, mmuOn, tables) && Forest(m', mmuOn, tables') && Sv39.Plain(m, tables, root)
    requires LinksKept(mmuOn, m, tables, m', tables') && TablesGrow(tables, tables')
    requires p in tables' && !p.Root? && p.base == root
    ensures HasLink(tables', p) && (Sv39.LeadsTo(m', tables', p) <==> !mmuOn || p in tables)
  {
    assert Linked(m', mmuOn, tables', p);
    assert p in tables ==> Linked(m, mmuOn, tables, p);
    assert p in tables ==> HasLink(tables, p);
    var page := tables'[p];
    Sv39.PointerForHardware(page);
    Sv39.AliasMisleadsHardware(mmuOn, page);
  }

  lemma HeadIsFrame(k: Kernel)
    requires k.ThePool().Valid() && k.free != []
    ensures Frame(k.free[0]) && k.free[0] in Elements(k.free)
  {
    assert k.free[0] in k.free;
  }

  /** With tables still to be hung from loop counter i on, the kernel is on its way to the goal. */
  ghost predicate GoalAhead(k: Kernel, goal: Kernel, root: Word, k2: nat, k1: nat, i: int) {
    if i == 2 then k.Missing(root, k2, k1) <= |k.free| && k.WithTables(root, k2, k1) == goal
    else if i == 1 then (Low(root, k2, k1) !in k.tables ==> k.free != []) && k.With(Low(root, k2, k1)) == goal
    else k == goal
  }

  /** The entry that translates `v` in a forest */
  ghost function FoundEntry(m: Mem, tables: map<Path, Word>, root: Word, v: Word): Option<Word>
    requires AllFrames(tables) && InRange(v)
  {
    IndicesAreSv39(v);
    EntryIn(m, tables, root, Index2(v), Index1(v), Index0(v))
  }

  /** `make_accessible(((*entry << 2) & ~PAGE_MASK) | offset)` for the entry found */
  function Reached(mmuOn: bool, entry: Option<Word>, v: Word): Option<Word> {
    match entry
    case None => None
    case Some(e) => Some(MakeAccessible(mmuOn, Target(e) + v % PAGE_SIZE))
  }

  /** From (m, tables) to (m', tables'), the indices (k2, k1, k0) below `root` come to lead to entry `e`; all other
      indices, and all indices below another root, lead where they did. */
  ghost predicate MapsEntry(m: Mem, tables: map<Path, Word>, m': Mem, tables': map<Path, Word>,
                            root: Word, k2: nat, k1: nat, k0: nat, e: Word)
    requires AllFrames(tables) && AllFrames(tables')
  {
    forall r, j2, j1, j0: nat | j0 < ENTRY_COUNT ::
      EntryIn(m', tables', r, j2, j1, j0) ==
      if r == root && j2 == k2 && j1 == k1 && j0 == k0 then Some(e) else EntryIn(m, tables, r, j2, j1, j0)
  }

  /** The store of `mmu_map`, after `mmu_entry` has taken (m, tables) to m1 and the tables of k */
  lemma EntryMapped(m: Mem, tables: map<Path, Word>, m1: Mem, mmuOn: bool, head: Word, k: Kernel, active: Word,
                    p: Path, k0: nat, phys: Word, flags: nat)
    requires AllFrames(tables) && Sound(m1, mmuOn, head, k) && Served(m1, mmuOn, k.tables, active)
    requires SameEntries(m, tables, m1, k.tables)
    requires p.Low? && p in k.tables && Aligned(k.tables[p]) && k0 < ENTRY_COUNT
    ensures var m' := m1[Slot(k.tables[p], k0) := LeafFor(phys, flags)];
            && Sound(m', mmuOn, head, k) && Served(m', mmuOn, k.tables, active)
            && MapsEntry(m, tables, m', k.tables, p.base, p.k2, p.k1, k0, LeafFor(phys, flags))
            && Keeps(mmuOn, p.base, m1, k.tables, m', k.tables)
  {
    hide Keeps;
    var e := LeafFor(phys, flags);
    var m' := m1[Slot(k.tables[p], k0) := e];
    LeafRoundTrip(phys, flags);
    EntryWritten(m1, mmuOn, head, k, p, k0, e);
    LeafKeeps(mmuOn, m1, k.tables, p, k0, e);
    StillServed(m1, m', mmuOn, k.tables, k.tables, active) by {
      UpperOfKeeps(mmuOn, p.base, m1, k.tables, m', k.tables);
    }
    forall r, j2, j1, j0: nat | j0 < ENTRY_COUNT
      ensures EntryIn(m', k.tables, r, j2, j1, j0) ==
              if r == p.base && j2 == p.k2 && j1 == p.k1 && j0 == k0 then Some(e)
              else EntryIn(m, tables, r, j2, j1, j0)
    {
      assert EntryIn(m1, k.tables, r, j2, j1, j0) == EntryIn(m, tables, r, j2, j1, j0);
    }
  }

  lemma UpperOfKeeps(mmuOn: bool, root: Word, m: Mem, tables: map<Path, Word>, m': Mem, tables': map<Path, Word>)
    requires AllFrames(tables) && AllFrames(tables') && Keeps(mmuOn, root, m, tables, m', tables')
    ensures UpperKept(m, m', tables) && TablesGrow(tables, tables')
  {
  }

  /** Where the upper halves of the roots stay, the active root goes on serving. */
  lemma StillServed(m: Mem, m': Mem, mmuOn: bool, tables: map<Path, Word>, tables': map<Path, Word>, active: Word)
    requires AllFrames(tables) && Served(m, mmuOn, tables, active)
    requires UpperKept(m, m', tables) && TablesGrow(tables, tables')
    ensures Served(m', mmuOn, tables', active)
  {
    if mmuOn {
      forall i: nat | ENTRY_COUNT / 2 <= i < ENTRY_COUNT ensures Entry(m', active, i) == Sv39.Gigapage(i) {
        assert Entry(m, active, i) == Sv39.Gigapage(i);
      }
    }
  }

  /** Writing an entry of a lowest table keeps everything sound. */
  lemma EntryWritten(m: Mem, mmuOn: bool, head: Word, kernel: Kernel, p: Path, k: nat, e: Word)
    requires Sound(m, mmuOn, head, kernel) && p in kernel.tables && Frame(kernel.tables[p]) && k < ENTRY_COUNT
    requires p.Low? || (p.Root? && ENTRY_COUNT / 2 <= k && Leaf(e))
    ensures var m' := m[Slot(kernel.tables[p], k) := e];
            && Sound(m', mmuOn, head, kernel)
            && Entry(m', kernel.tables[p], k) == e && SameBut(m, m', kernel.tables, p, k)
            && forall r, k2, k1, j: nat | j < ENTRY_COUNT ::
                 EntryIn(m', kernel.tables, r, k2, k1, j) ==
                 if Low(r, k2, k1) == p && j == k then (if PageTables.Valid(e) then Some(e) else None)
                 else EntryIn(m, kernel.tables, r, k2, k1, j)
  {
    var tables := kernel.tables;
    var at := tables[p];
    var m' := m[Slot(at, k) := e];
    assert at in tables.Values;
    forall q, j: nat | q in tables && j < ENTRY_COUNT && !(q == p && j == k)
      ensures Frame(tables[q]) && Entry(m', tables[q], j) == Entry(m, tables[q], j)
    {
      SlotsDiffer(tables[q], j, at, k);
    }
    WriteEntry(m, m', mmuOn, tables, p, k, e);
    forall q | q in kernel.free ensures Read(m', q) == Read(m, q) {
      assert q in Elements(kernel.free);
      SlotsDiffer(q, 0, at, k);
    }
    ChainFrame(m, m', mmuOn, head, kernel.free);
  }

  /** A page just allocated and cleared becomes a root. */
  lemma RootAdded(m: Mem, mmuOn: bool, head: Word, k: Kernel, page: Word)
    requires Sound(m, mmuOn, head, k)
    requires page in k.held && page !in k.tables.Values && Frame(page) && Cleared(m, page)
    ensures Root(page) !in k.tables
    ensures Sound(m, mmuOn, head, k.(tables := k.tables[Root(page) := page]))
    ensures SameEntries(m, k.tables, m, k.tables[Root(page) := page])
  {
    AddRoot(m, mmuOn, k.tables, page);
    ValuesGrow(k.tables, Root(page), page);
  }

  /** The path of the table `mmu_entry` looks at when its loop counter is i */
  ghost function PathTo(root: Word, k2: nat, k1: nat, i: int): Path {
    if i == 2 then Root(root) else if i == 1 then Mid(root, k2) else Low(root, k2, k1)
  }

  lemma LowNeedsMid(m: Mem, mmuOn: bool, tables: map<Path, Word>, root: Word, k2: nat, k1: nat)
    requires Forest(m, mmuOn, tables)
    ensures Low(root, k2, k1) in tables ==> Mid(root, k2) in tables
  {
    assert Low(root, k2, k1) in tables ==> Linked(m, mmuOn, tables, Low(root, k2, k1));
  }

  /** Rewriting a page that is neither free nor a table disturbs nothing. */
  lemma PageChanged(m: Mem, m': Mem, mmuOn: bool, head: Word, k: Kernel, active: Word, p: Word)
    requires Sound(m, mmuOn, head, k)
    requires Served(m, mmuOn, k.tables, active)
    requires Frame(p) && p !in Elements(k.free) && p !in k.tables.Values && SameOutside(m, m', p)
    ensures Chain(m', mmuOn, head, k.free) && Forest(m', mmuOn, k.tables) && Served(m', mmuOn, k.tables, active)
  {
    forall q | q in k.free ensures Read(m', q) == Read(m, q) {
      assert q in Elements(k.free);
      SlotsDiffer(q, 0, p, 0);
    }
    ChainFrame(m, m', mmuOn, head, k.free);
    forall q, j: nat | q in k.tables && j < ENTRY_COUNT
      ensures Frame(k.tables[q]) && Entry(m', k.tables[q], j) == Entry(m, k.tables[q], j)
    {
      assert k.tables[q] in k.tables.Values;
      SlotsDiffer(k.tables[q], j, p, 0);
    }
    ForestFrame(m, m', mmuOn, k.tables);
    StillServed(m, m', mmuOn, k.tables, k.tables, active);
  }

  /** Memory that changes only inside one page, by page */
  ghost predicate SameOutside(m: Mem, m': Mem, page: Word) {
    forall a: Word | PageOf(a) != page :: Read(m', a) == Read(m, a)
  }

  ghost predicate Cleared(m: Mem, page: Word)
    requires Aligned(page)
  {
    forall j: nat | j < ENTRY_COUNT :: Entry(m, page, j) == 0
  }

  lemma OtherTables(m: Mem, m1: Mem, tables: map<Path, Word>, path: Path, k: nat, page: Word, e: Word)
    requires AllFrames(tables) && Injective(tables) && path in tables && k < ENTRY_COUNT && Frame(page)
    requires Frame(tables[path]) && page !in tables.Values && SameOutside(m, m1, page)
    ensures var m' := m1[Slot(tables[path], k) := e];
            SameBut(m, m', tables, path, k) && Entry(m', tables[path], k) == e
    ensures Entry(m1, tables[path], k) == Entry(m, tables[path], k)
  {
    var at := tables[path];
    var m' := m1[Slot(at, k) := e];
    assert at in tables.Values;
    SlotsDiffer(at, k, page, 0);
    forall q, j: nat | q in tables && j < ENTRY_COUNT && !(q == path && j == k)
      ensures Frame(tables[q]) && Entry(m', tables[q], j) == Entry(m, tables[q], j)
    {
      assert tables[q] in tables.Values;
      SlotsDiffer(tables[q], j, at, k);
      SlotsDiffer(tables[q], j, page, 0);
    }
  }

  lemma OtherPages(m: Mem, mmuOn: bool, head: Word, pages: seq<Word>, page: Word, at: Word, k: nat, e: Word)
    requires Chain(m, mmuOn, head, pages) && Frame(at) && Frame(page) && k < ENTRY_COUNT && at !in pages && at != page
    requires forall q | q in pages :: Frame(q)
    requires Cleared(m, page)
    ensures Chain(m[Slot(at, k) := e], mmuOn, head, pages) && Cleared(m[Slot(at, k) := e], page)
  {
    var m' := m[Slot(at, k) := e];
    forall q | q in pages ensures Read(m', q) == Read(m, q) {
      SlotsDiffer(q, 0, at, k);
    }
    ChainFrame(m, m', mmuOn, head, pages);
    forall j: nat | j < ENTRY_COUNT ensures Entry(m', page, j) == 0 {
      assert Entry(m, page, j) == 0;
      SlotsDiffer(page, j, at, k);
    }
  }

  lemma ValuesGrow(tables: map<Path, Word>, c: Path, page: Word)
    requires c !in tables
    ensures tables[c := page].Values == tables.Values + {page}
  {
    var tables' := tables[c := page];
    forall q | q in tables.Values ensures q in tables'.Values {
      var r :| r in tables && tables[r] == q;
      assert tables'[r] == q;
    }
    assert tables'[c] == page;
  }

  /** A new, cleared table `page` hung below entry k of the table at `path`: the allocation (m to m1) and the pointer
      together keep everything sound, change no translation, and leave alone what they should. */
  lemma TableLinked(m: Mem, m1: Mem, mmuOn: bool, head: Word, kernel: Kernel, active: Word, path: Path, k: nat, page: Word)
    requires kernel.ThePool().Valid() && kernel.free != [] && page == kernel.free[0] && Frame(page)
    requires Forest(m, mmuOn, kernel.tables) && path in kernel.tables && !path.Low? && k < ENTRY_COUNT
    requires Frame(kernel.tables[path]) && Absent(Entry(m, kernel.tables[path], k)) && (path.Root? ==> k < ENTRY_COUNT / 2)
    requires Chain(m1, mmuOn, head, kernel.free[1..]) && SameOutside(m, m1, page) && Cleared(m1, page)
    requires Served(m, mmuOn, kernel.tables, active)
    ensures var m' := m1[Slot(kernel.tables[path], k) := PointerTo(Returned(mmuOn, page))];
            && Child(path, k) !in kernel.tables
            && Sound(m', mmuOn, head, kernel.With(Child(path, k)))
            && Served(m', mmuOn, kernel.With(Child(path, k)).tables, active)
            && SameEntries(m, kernel.tables, m', kernel.With(Child(path, k)).tables)
            && Keeps(mmuOn, path.base, m, kernel.tables, m', kernel.With(Child(path, k)).tables)
  {
    hide Keeps, SameEntries;
    var e := PointerTo(Returned(mmuOn, page));
    var tables := kernel.tables;
    var at := tables[path];
    var m' := m1[Slot(at, k) := e];
    AllocKeepsPool(kernel.ThePool());
    NewPointer(mmuOn, page);
    assert at in tables.Values && page in Elements(kernel.free);
    assert forall q | q in kernel.free[1..] :: q in Elements(kernel.free);
    OtherTables(m, m1, tables, path, k, page, e);
    OtherPages(m1, mmuOn, head, kernel.free[1..], page, at, k, e);
    LinkTable(m, m', mmuOn, tables, path, k, page, e);
    LinkKeepsEntries(m, m', mmuOn, tables, path, k, page, e);
    LinkKeeps(mmuOn, m, m1, tables, path, k, page);
    ValuesGrow(tables, Child(path, k), page);
    UpperOfKeeps(mmuOn, path.base, m, tables, m', tables[Child(path, k) := page]);
    StillServed(m, m', mmuOn, tables, tables[Child(path, k) := page], active);
  }

  lemma NewPointer(mmuOn: bool, p: Word)
    requires Frame(p)
    ensures PointsTo(mmuOn, PointerTo(Returned(mmuOn, p)), p)
  {
    PointerRoundTrip(Returned(mmuOn, p));
  }

  /** The accessible address of physical page p */
  function AccessTo(mmuOn: bool, p: Word): Word {
    if mmuOn then Phys2Virt(p) else p
  }

  lemma RootAccess(m: Mem, mmuOn: bool, tables: map<Path, Word>, mmu: Word)
    requires Forest(m, mmuOn, tables) && Root(Phys(mmuOn, mmu)) in tables
    ensures tables[Root(Phys(mmuOn, mmu))] == Phys(mmuOn, mmu) && Frame(Phys(mmuOn, mmu))
    ensures MakeAccessible(mmuOn, mmu) == AccessTo(mmuOn, Phys(mmuOn, mmu))
  {
    assert Linked(m, mmuOn, tables, Root(Phys(mmuOn, mmu)));
    ListHead(mmuOn, mmu, Phys(mmuOn, mmu));
  }

  lemma ListHead(mmuOn: bool, head: Word, p: Word)
    requires Frame(p) && Phys(mmuOn, head) == p
    ensures Phys(mmuOn, MakeAccessible(mmuOn, head)) == p
    ensures MakeAccessible(mmuOn, head) == AccessTo(mmuOn, p)
    ensures Aligned(Virt2Phys(MakeAccessible(mmuOn, head)))
    ensures Virt2Phys(MakeAccessible(mmuOn, head)) == (if mmuOn then p + HALF else p)
    ensures Phys(mmuOn, Virt2Phys(MakeAccessible(mmuOn, head))) == p
  {
    if mmuOn {
      Split(0x1ff_ffff, p + HALF, 2 * HALF);
      assert MakeAccessible(mmuOn, head) == 0x1ff_ffff * (2 * HALF) + (p + HALF);
      Split(0x3ff_ffff, p, HALF);
      Split(1, p, HALF);
    }
  }

  lemma AccessibleWord(mmuOn: bool, block: Word, p: Word, i: nat)
    requires Frame(p) && i < ENTRY_COUNT
    requires block == AccessTo(mmuOn, p)
    ensures block + 8 * i < 0x1_0000_0000_0000_0000 && Phys(mmuOn, block + 8 * i) == Slot(p, i)
  {
    PageBelowHalf(p);
    if mmuOn {
      Split(0, p, HALF);
      Split(0x3ff_ffff, p + 8 * i, HALF);
    }
  }

  lemma PageBelowHalf(p: Word)
    requires Frame(p)
    ensures p + PAGE_SIZE <= HALF
  {
  }

  /** A region of physical memory that holds at least one whole page */
  predicate Region(start: Word, size: Word) {
    0 < start && start + size <= HALF && FirstPage(start) + PAGE_SIZE <= start + size
  }

  /** `PAGE_ALIGN(start)` */
  function FirstPage(start: Word): Word
    requires start <= HALF
  {
    PageOf(start + 0xfff)
  }

  /** `(size + start - free_list) >> PAGE_BITS` in 64-bit arithmetic */
  function PageCount(start: Word, size: Word): nat
    requires Region(start, size)
  {
    (size + start - FirstPage(start)) % 0x1_0000_0000_0000_0000 / PAGE_SIZE
  }

  lemma RegionPages(start: Word, size: Word)
    requires Region(start, size)
    ensures Aligned(FirstPage(start)) && start <= FirstPage(start) < start + PAGE_SIZE
    ensures 0 < FirstPage(start) && 0 < PageCount(start, size)
    ensures FirstPage(start) + PageCount(start, size) * PAGE_SIZE <= start + size
            < FirstPage(start) + (PageCount(start, size) + 1) * PAGE_SIZE
  {
    assert (size + start - FirstPage(start)) % 0x1_0000_0000_0000_0000 == size + start - FirstPage(start);
  }

  lemma RegionCovers(start: Word, size: Word, first: Word, count: nat, p: Word)
    requires Aligned(first) && start <= first < start + PAGE_SIZE
    requires first + count * PAGE_SIZE <= start + size < first + (count + 1) * PAGE_SIZE
    ensures Aligned(p) && start <= p && p + PAGE_SIZE <= start + size <==>
            Aligned(p) && first <= p && p + PAGE_SIZE <= first + count * PAGE_SIZE
  {
    var n, f := p / PAGE_SIZE, first / PAGE_SIZE;
    assert p == n * PAGE_SIZE + p % PAGE_SIZE && first == f * PAGE_SIZE;
  }

  /** The pages linked are exactly the whole aligned pages of the region, each once. */
  lemma InitialPool(m: Mem, start: Word, size: Word, first: Word, count: nat)
    requires Region(start, size) && first == FirstPage(start) && count == PageCount(start, size)
    requires 0 < count && first + count * PAGE_SIZE <= HALF
    requires forall k | 0 <= k < count - 1 :: Read(m, Nth(first, k)) == Nth(first, k + 1)
    requires Read(m, Nth(first, count - 1)) == 0
    ensures Sound(m, false, first, Kernel(Adjacent(first, count), {}, map[]))
    ensures forall p: Word :: p in Adjacent(first, count) <==>
                                Aligned(p) && start <= p && p + PAGE_SIZE <= start + size
  {
    RegionPages(start, size);
    AdjacentChain(m, first, count);
    forall p: Word
      ensures p in Adjacent(first, count) <==> Aligned(p) && start <= p && p + PAGE_SIZE <= start + size
    {
      AdjacentCovers(first, count, p);
      RegionCovers(start, size, first, count, p);
    }
    AdjacentCovers(first, count, first);
  }
}
