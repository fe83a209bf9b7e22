/** The Sv39 address translation of the RISC-V privileged architecture (version 20211203, sections 4.3.2 and 4.4.1)
    over the tables the kernel builds.  Accessed, dirty and permission checks are not part of this model. */
module Sv39 {
  import opened Options
  import opened Division
  import opened PhysicalMemory
  import opened PageIndices
  import opened PageTables

  /** A page fault, or the physical address reached and the low byte of the leaf entry */
  datatype Translation = Fault | Reach(address: nat, flags: nat)

  /** Bits 63 to 54 of an entry are reserved, and so are bits 7, 6 and 4 of a pointer. */
  predicate ReservedClear(e: Word) {
    e < 0x40_0000_0000_0000 && (Pointer(e) ==> e / 16 % 2 == 0 && e / 64 % 2 == 0 && e / 128 % 2 == 0)
  }

  function PageNumber(e: Word): nat
    requires ReservedClear(e)
  {
    e / 1024
  }

  /** The table a pointer leads the hardware to */
  function TableOf(e: Word): (t: Word)
    requires ReservedClear(e)
    ensures Aligned(t)
  {
    Split(PageNumber(e), 0, PAGE_SIZE);
    PageNumber(e) * PAGE_SIZE
  }

  predicate Canonical(v: Word) {
    v < HALF || 0x1_0000_0000_0000_0000 - HALF <= v
  }

  function Walk(m: Mem, root: Word, v: Word): Translation
    requires Aligned(root)
  {
    if !Canonical(v) then Fault else Level2(m, root, v)
  }

  function Level2(m: Mem, table: Word, v: Word): Translation
    requires Aligned(table)
  {
    var e := Entry(m, table, Vpn2(v));
    if Absent(e) || !ReservedClear(e) then Fault
    else if Leaf(e) then
      if PageNumber(e) % 0x4_0000 != 0 then Fault
      else Reach(PageNumber(e) / 0x4_0000 * 0x4000_0000 + v % 0x4000_0000, e % 256)
    else Level1(m, TableOf(e), v)
  }

  function Level1(m: Mem, table: Word, v: Word): Translation
    requires Aligned(table)
  {
    var e := Entry(m, table, Vpn1(v));
    if Absent(e) || !ReservedClear(e) then Fault
    else if Leaf(e) then
      if PageNumber(e) % 0x200 != 0 then Fault
      else Reach(PageNumber(e) / 0x200 * 0x20_0000 + v % 0x20_0000, e % 256)
    else Level0(m, TableOf(e), v)
  }

  function Level0(m: Mem, table: Word, v: Word): Translation
    requires Aligned(table)
  {
    Final(Entry(m, table, Vpn0(v)), v)
  }

  /** The last step, at an entry of a lowest table */
  function Final(e: Word, v: Word): Translation {
    if Absent(e) || !ReservedClear(e) || !Leaf(e) then Fault
    else Reach(PageNumber(e) * PAGE_SIZE + v % PAGE_SIZE, e % 256)
  }

  /** A pointer the kernel stores with the MMU off leads the hardware to the table it was made for. */
  lemma PointerForHardware(page: Word)
    requires Frame(page)
    ensures Pointer(PointerTo(page)) && ReservedClear(PointerTo(page))
    ensures TableOf(PointerTo(page)) == page
  {
    PointerRoundTrip(page);
    var n := page / PAGE_SIZE;
    assert PointerTo(page) == n * 1024 + 1 && page == n * PAGE_SIZE;
    Split(n * 64, 1, 16);
    Split(n * 16, 1, 64);
    Split(n * 8, 1, 128);
    Split(n, 1, 1024);
    Split(n * 32, 0, 2);
    Split(n * 8, 0, 2);
    Split(n * 4, 0, 2);
  }

  lemma AliasForHardware(page: Word)
    requires Frame(page)
    ensures ReservedClear(PointerTo(Alias(page))) && TableOf(PointerTo(Alias(page))) == page + HALF
  {
    PointerRoundTrip(Alias(page));
    var e, n := PointerTo(Alias(page)), (page + HALF) / PAGE_SIZE;
    assert e == n * 1024 + 1 && page + HALF == n * PAGE_SIZE;
    Split(n * 64, 1, 16);
    Split(n * 16, 1, 64);
    Split(n * 8, 1, 128);
    Split(n, 1, 1024);
    Split(n * 32, 0, 2);
    Split(n * 8, 0, 2);
    Split(n * 4, 0, 2);
  }

  /** The pointer `mmu_entry` stores for a new table, made from what `alloc_page` returns, leads `mmu_entry` to the table
      in any case, but the hardware if and only if the MMU was off: otherwise it reads bit 38 as part of the page
      number. */
  lemma AliasMisleadsHardware(mmuOn: bool, page: Word)
    requires Frame(page)
    ensures Virt2Phys(MakeAccessible(mmuOn, page)) == Returned(mmuOn, page)
    ensures var e := PointerTo(Returned(mmuOn, page));
            && Next(mmuOn, e) == page
            && ReservedClear(e)
            && (TableOf(e) == page <==> !mmuOn)
            && TableOf(e) == if mmuOn then page + HALF else page
  {
    hide Virt2Phys, MakeAccessible, PointerTo, TableOf, ReservedClear, Target;
    ReturnedAlias(mmuOn, page);
    PointerRoundTrip(Returned(mmuOn, page));
    PointerForHardware(page);
    AliasForHardware(page);
    ReachedPage(mmuOn, page);
  }

  lemma ReachedPage(mmuOn: bool, page: Word)
    requires Frame(page)
    ensures Phys(mmuOn, Returned(mmuOn, page)) == page
  {
    if mmuOn {
      Split(1, page, HALF);
    }
  }

  /** The page at 0x80200000 as a table made with the MMU on: the hardware looks 256 GiB higher. */
  lemma AliasExample()
    ensures var e := PointerTo(Returned(true, 0x8020_0000));
            ReservedClear(e) && TableOf(e) == 0x40_8020_0000 && Next(true, e) == 0x8020_0000
  {
    AliasMisleadsHardware(true, 0x8020_0000);
  }

  // ---------- The hardware's path and that of `mmu_entry` ----------

  /** The hardware finds the table at p where it is. */
  ghost predicate LeadsTo(m: Mem, tables: map<Path, Word>, p: Path)
    requires AllFrames(tables) && HasLink(tables, p)
  {
    var e := LinkOf(m, tables, p);
    ReservedClear(e) && TableOf(e) == tables[p]
  }

  /** Every table below `root` hangs below its own address, as in a table built with the MMU off. */
  ghost predicate Plain(m: Mem, tables: map<Path, Word>, root: Word)
    requires AllFrames(tables)
  {
    forall p | HasLink(tables, p) && p.base == root :: LinkOf(m, tables, p) == PointerTo(tables[p])
  }

  /** The hardware goes through the tables `mmu_entry` goes through. */
  ghost predicate SamePath(m: Mem, tables: map<Path, Word>, root: Word, k2: nat, k1: nat)
    requires AllFrames(tables)
  {
    && HasLink(tables, Mid(root, k2)) && LeadsTo(m, tables, Mid(root, k2))
    && HasLink(tables, Low(root, k2, k1)) && LeadsTo(m, tables, Low(root, k2, k1))
  }

  lemma PlainWhenOff(m: Mem, tables: map<Path, Word>, root: Word)
    requires Forest(m, false, tables)
    ensures Plain(m, tables, root)
  {
    forall p | HasLink(tables, p) && p.base == root ensures LinkOf(m, tables, p) == PointerTo(tables[p]) {
      assert Linked(m, false, tables, p);
    }
  }

  /** The hardware and `mmu_entry` agree on every address of the domain below a plain root: the entry `mmu_entry` finds
      is the one the hardware ends at. */
  lemma WalkAgrees(m: Mem, mmuOn: bool, tables: map<Path, Word>, root: Word, v: Word)
    requires Forest(m, mmuOn, tables) && Root(root) in tables && Plain(m, tables, root) && InDomain(v)
    ensures Aligned(root) && Index0(v) < ENTRY_COUNT
    ensures Walk(m, root, v) ==
            match EntryIn(m, tables, root, Index2(v), Index1(v), Index0(v))
            case None => Fault
            case Some(e) => Final(e, v)
  {
    IndicesAreSv39(v);
    var k2, k1 := Index2(v), Index1(v);
    assert Linked(m, mmuOn, tables, Root(root));
    EntryChild(m, mmuOn, tables, Root(root), k2);
    var mid, low := Mid(root, k2), Low(root, k2, k1);
    if mid in tables {
      assert Linked(m, mmuOn, tables, mid);
      assert HasLink(tables, mid) && LinkOf(m, tables, mid) == Entry(m, root, k2);
      PointerForHardware(tables[mid]);
      EntryChild(m, mmuOn, tables, mid, k1);
      if low in tables {
        assert Linked(m, mmuOn, tables, low);
        assert HasLink(tables, low) && LinkOf(m, tables, low) == Entry(m, tables[mid], k1);
        PointerForHardware(tables[low]);
      }
    } else {
      assert low in tables ==> Linked(m, mmuOn, tables, low);
    }
  }

  /** A leaf `mmu_map` makes for a page below 2^56 with flags that read or execute takes the hardware there. */
  lemma FinalLeaf(phys: Word, flags: nat, v: Word)
    requires phys < 0x100_0000_0000_0000
    requires (flags / 2 % 2 == 1) || (flags / 4 % 2 == 0 && flags / 8 % 2 == 1)
    ensures Final(LeafFor(phys, flags), v) == Reach(PageOf(phys) + v % PAGE_SIZE, LeafFlags(flags))
  {
    var n, f := phys / PAGE_SIZE, LeafFlags(flags);
    LeafRoundTrip(phys, flags);
    var e := LeafFor(phys, flags);
    LeafFlagBits(flags);
    EntryBits(n, f, e);
    Split(n, f, 1024);
  }

  lemma LeafFlagBits(flags: nat)
    ensures var f := LeafFlags(flags);
            && f < 256 && f % 2 == 1
            && f / 2 % 2 == flags / 2 % 2 && f / 4 % 2 == flags / 4 % 2 && f / 8 % 2 == flags / 8 % 2
  {
    LeafFlagsOdd(flags);
    var q, r := flags / 256, flags % 256;
    assert flags == q * 256 + r;
    var h := r / 2;
    assert flags / 2 == q * 128 + h && LeafFlags(flags) == h * 2 + 1;
    FlagBit(q * 64, h);
    assert flags / 4 == q * 64 + h / 2;
    FlagBit(q * 32, h / 2);
    assert flags / 8 == q * 32 + h / 4;
    FlagBit(q * 16, h / 4);
  }

  // ---------- The upper half (src/mmu.c:67-73) ----------

  /** The gigapage entry at index i of the upper half */
  function Gigapage(i: nat): Word
    requires ENTRY_COUNT / 2 <= i < ENTRY_COUNT
  {
    (i - ENTRY_COUNT / 2) * 0x1000_0000 + M_GLOBAL + M_READ + M_WRITE + M_VALID
  }

  ghost predicate MapsPhysicalMemory(m: Mem, root: Word)
    requires Aligned(root)
  {
    forall i: nat | ENTRY_COUNT / 2 <= i < ENTRY_COUNT :: Entry(m, root, i) == Gigapage(i)
  }

  lemma GigapageIsLeaf(i: nat)
    requires ENTRY_COUNT / 2 <= i < ENTRY_COUNT
    ensures Leaf(Gigapage(i)) && ReservedClear(Gigapage(i)) && Gigapage(i) % 256 == 0x27
    ensures PageNumber(Gigapage(i)) == (i - ENTRY_COUNT / 2) * 0x4_0000
  {
    var n := (i - ENTRY_COUNT / 2) * 0x4_0000;
    assert Gigapage(i) == n * 1024 + 0x27;
    EntryBits(n, 0x27, Gigapage(i));
    Split(n * 4, 0x27, 256);
    Split(n, 0x27, 1024);
  }

  /** Every physical address below 2^38 is reached at `phys2virt` of it. */
  lemma HighHalf(m: Mem, root: Word, p: Word)
    requires Aligned(root) && MapsPhysicalMemory(m, root) && p < HALF
    ensures Walk(m, root, Phys2Virt(p)) == Reach(p, M_GLOBAL + M_READ + M_WRITE + M_VALID)
    ensures Phys(true, Phys2Virt(p)) == p
  {
    var v := Phys2Virt(p);
    var g, r := p / 0x4000_0000, p % 0x4000_0000;
    assert v == (0x3ff_ffff * 256 + g) * 0x4000_0000 + r;
    Split(0x3ff_ffff * 256 + g, r, 0x4000_0000);
    Split(0x1ff_ffff, 256 + g, 512);
    assert Vpn2(v) == 256 + g;
    GigapageIsLeaf(256 + g);
    Split(g, 0, 0x4_0000);
    assert Entry(m, root, 256 + g) == Gigapage(256 + g);
  }
}
