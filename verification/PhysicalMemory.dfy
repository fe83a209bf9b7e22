/** Machine words, addresses and physical memory, as `include/pages.h` and `include/mmu.h` use them.

    Words are natural numbers below 2^64.  Every mask the sources use is a run of adjacent bits, so each `&`, `|`,
    `<<` and `>>` is written as the division, remainder or sum that computes the same word. */
module PhysicalMemory {

  type Word = w: nat | w < 0x1_0000_0000_0000_0000

  /** Memory is a finite map of 64-bit words by physical address; a word nobody has written reads as zero. */
  type Mem = map<Word, Word>

  const PAGE_SIZE: nat := 4096
  const ENTRY_COUNT: nat := 512

  // Bit 38 separates the two halves of the Sv39 address space; `SV39_MASK >> 1` is HALF - 1.
  const HALF: nat := 0x40_0000_0000

  function Read(m: Mem, a: Word): Word {
    if a in m then m[a] else 0
  }

  predicate Aligned(p: Word) {
    p % PAGE_SIZE == 0
  }

  /** `a & ~PAGE_MASK` */
  function PageOf(a: Word): Word {
    a / PAGE_SIZE * PAGE_SIZE
  }

  /** `&table[i]` for a table of 64-bit entries */
  function Slot(table: Word, i: nat): Word
    requires Aligned(table) && i < ENTRY_COUNT
  {
    table + 8 * i
  }

  /** `phys2virt`: sets bits 38 and up */
  function Phys2Virt(a: Word): Word {
    a % HALF + (0x1_0000_0000_0000_0000 - HALF)
  }

  /** `virt2phys`: keeps bits 0 to 38, so it does not undo `phys2virt` */
  function Virt2Phys(a: Word): Word {
    a % (2 * HALF)
  }

  function MakeAccessible(mmuOn: bool, a: Word): Word {
    if mmuOn then Phys2Virt(a) else a
  }

  /** The physical address the hardware reaches through pointer `a`: with the MMU on, a high-half address is
      translated by the gigapage entries of `mmu_new_page_table` (see Sv39.HighHalf). */
  function Phys(mmuOn: bool, a: Word): Word {
    if mmuOn then a % HALF else a
  }

  /** A physical page the allocator may hand out. */
  predicate Frame(p: Word) {
    Aligned(p) && 0 < p < HALF
  }

  lemma SlotsDiffer(t: Word, i: nat, u: Word, j: nat)
    requires Aligned(t) && Aligned(u) && i < ENTRY_COUNT && j < ENTRY_COUNT
    ensures Slot(t, i) == Slot(u, j) <==> t == u && i == j
    ensures PageOf(Slot(t, i)) == t
  {
  }

  lemma AccessibleReaches(mmuOn: bool, a: Word)
    ensures Phys(mmuOn, MakeAccessible(mmuOn, a)) == Phys(mmuOn, a)
  {
  }

  /** What `alloc_page` returns for physical page `p`: with the MMU on the result keeps bit 38. */
  lemma ReturnedAlias(mmuOn: bool, p: Word)
    requires Frame(p)
    ensures Virt2Phys(MakeAccessible(mmuOn, p)) == (if mmuOn then p + HALF else p)
    ensures Phys(mmuOn, Virt2Phys(MakeAccessible(mmuOn, p))) == p
    ensures Virt2Phys(MakeAccessible(mmuOn, p)) == p <==> !mmuOn
  {
  }
}
