/** The table indices `mmu_entry` cuts out of a virtual address (src/mmu.c:6-7, 35-36, 53), against Sv39's.

    `PTE_MASK` is 0x1f, five bits instead of nine, and the leaf index is cut with the 12-bit `PAGE_MASK`. */
module PageIndices {
  import opened Division
  import opened PhysicalMemory

  // `(virti & (PTE_MASK << offset)) >> offset` at offsets 30 and 21
  function Index2(v: Word): nat { v / 0x4000_0000 % 32 }
  function Index1(v: Word): nat { v / 0x20_0000 % 32 }
  // `(virti & (PAGE_MASK << PAGE_BITS)) >> PAGE_BITS`
  function Index0(v: Word): nat { v / 0x1000 % 4096 }

  /** The index at offset 30 when `PTE_MASK << 30`, which overflows int, wraps to a negative and is sign-extended */
  function Index2SignExtended(v: Word): nat { v / 0x4000_0000 }

  // The 9-bit page number fields of section 4.4.1 of the RISC-V privileged architecture
  function Vpn2(v: Word): nat { v / 0x4000_0000 % 512 }
  function Vpn1(v: Word): nat { v / 0x20_0000 % 512 }
  function Vpn0(v: Word): nat { v / 0x1000 % 512 }

  /** Addresses whose leaf index stays inside its table, whichever way `PTE_MASK << 30` is read */
  predicate InRange(v: Word) {
    v < 0x1_0000_0000 && v / 0x20_0000 % 8 == 0
  }

  /** Addresses below 2^32 with bits 21 to 23 and 26 to 29 zero.  The range 0x80000000 to 0x80200000, where
      kernel.ld links the kernel, lies in it. */
  predicate InDomain(v: Word) {
    InRange(v) && v / 0x400_0000 % 16 == 0
  }

  predicate SameIndices(v: Word, w: Word) {
    Index2(v) == Index2(w) && Index1(v) == Index1(w) && Index0(v) == Index0(w)
  }

  predicate SamePage(v: Word, w: Word) {
    v / PAGE_SIZE == w / PAGE_SIZE
  }

  /** The bit fields of a 32-bit address: g = bits 30-31, a = 26-29, b = 24-25, c = 21-23, l = 12-20. */
  lemma Fields(v: Word) returns (g: nat, a: nat, b: nat, c: nat, l: nat)
    requires v < 0x1_0000_0000
    ensures g < 4 && a < 16 && b < 4 && c < 8 && l < 512
    ensures v / 0x1000 == g * 0x40000 + a * 0x4000 + b * 0x1000 + c * 0x200 + l
    ensures v / 0x4000_0000 == g && v / 0x400_0000 == g * 16 + a && v / 0x20_0000 == g * 512 + a * 32 + b * 8 + c
  {
    var n := v / 0x1000;
    l := n % 512;
    var x := n / 512;
    c := x % 8;
    var y := x / 8;
    b := y % 4;
    var z := y / 4;
    a := z % 16;
    g := z / 16;
  }

  lemma FieldIndices(v: Word) returns (g: nat, a: nat, b: nat, c: nat, l: nat)
    requires v < 0x1_0000_0000
    ensures g < 4 && a < 16 && b < 4 && c < 8 && l < 512
    ensures v / 0x1000 == g * 0x40000 + a * 0x4000 + b * 0x1000 + c * 0x200 + l
    ensures Index2(v) == Vpn2(v) == Index2SignExtended(v) == g
    ensures Index1(v) == b * 8 + c && Vpn1(v) == a * 32 + b * 8 + c
    ensures Index0(v) == c * 512 + l && Vpn0(v) == l
    ensures InRange(v) <==> c == 0
    ensures InDomain(v) <==> c == 0 && a == 0
  {
    g, a, b, c, l := Fields(v);
    Split(g * 16 + a, b * 8 + c, 32);
    Split(g, a * 32 + b * 8 + c, 512);
    Split(g * 64 + a * 4 + b, c * 512 + l, 4096);
    Split(g * 512 + a * 32 + b * 8 + c, l, 512);
    Split(g * 64 + a * 4 + b, c, 8);
    Split(g, a, 16);
  }

  /** Below 2^32 the two readings of the overflowing mask agree; the code's indices are the Sv39 fields exactly on
      the domain, and stay inside a table exactly in range. */
  lemma IndicesAreSv39(v: Word)
    requires v < 0x1_0000_0000
    ensures Index2SignExtended(v) == Index2(v) == Vpn2(v) < 4
    ensures Index1(v) < 32
    ensures (Index1(v) == Vpn1(v) && Index0(v) == Vpn0(v)) <==> InDomain(v)
    ensures Index0(v) < ENTRY_COUNT <==> InRange(v)
  {
    var g, a, b, c, l := FieldIndices(v);
  }

  /** On the domain the indices name one page. */
  lemma IndicesInjective(v: Word, w: Word)
    requires InDomain(v) && InDomain(w)
    ensures SameIndices(v, w) <==> SamePage(v, w)
  {
    var g, a, b, c, l := FieldIndices(v);
    var g', a', b', c', l' := FieldIndices(w);
  }

  /** In range, two addresses share an entry exactly when they agree on bits 12 to 25 and on bits 30 and up: bits
      26 to 29 are ignored, so distinct pages 64 MiB apart collide. */
  lemma CollisionsExactly(v: Word, w: Word)
    requires InRange(v) && InRange(w)
    ensures SameIndices(v, w) <==>
              v / 0x1000 % 0x4000 == w / 0x1000 % 0x4000 && v / 0x4000_0000 == w / 0x4000_0000
  {
    hide Index2, Index1, Index0, InRange;
    var g, b, l := RangeFields(v);
    var g', b', l' := RangeFields(w);
  }

  /** In range the indices and bits 12 to 25 and 30 up are given by three fields. */
  lemma RangeFields(v: Word) returns (g: nat, b: nat, l: nat)
    requires InRange(v)
    ensures b < 4 && l < 512
    ensures Index2(v) == g && Index1(v) == b * 8 && Index0(v) == l
    ensures v / 0x1000 % 0x4000 == b * 0x1000 + l && v / 0x4000_0000 == g
  {
    hide InRange, InDomain, Vpn2, Vpn1, Vpn0, Index2, Index1, Index0;
    var a, c;
    g, a, b, c, l := InRangeFields(v);
    Split(g * 16 + a, b * 0x1000 + l, 0x4000);
  }

  lemma InRangeFields(v: Word) returns (g: nat, a: nat, b: nat, c: nat, l: nat)
    requires InRange(v)
    ensures a < 16 && b < 4 && c == 0 && l < 512
    ensures v / 0x1000 == g * 0x40000 + a * 0x4000 + b * 0x1000 + l && v / 0x4000_0000 == g
    ensures Index2(v) == g && Index1(v) == b * 8 && Index0(v) == l
  {
    g, a, b, c, l := FieldIndices(v);
  }

  /** Two pages that share an entry */
  lemma CollisionExample()
    ensures InRange(0) && InRange(0x400_0000) && SameIndices(0, 0x400_0000) && !SamePage(0, 0x400_0000)
  {
  }

  /** A range inside one 2 MiB region of the domain: its pages share the two upper indices. */
  lemma OneRegion(start: Word, end: Word, v: Word)
    requires start < 0x1_0000_0000 && start % 0x20_0000 == 0 && InDomain(start) && end == start + 0x20_0000
    requires start <= v < end
    ensures InDomain(v) && Index2(v) == Index2(start) && Index1(v) == Index1(start)
  {
    assert v / 0x20_0000 == start / 0x20_0000;
    var g, a, b, c, l := FieldIndices(start);
    assert v < 0x1_0000_0000;
    var g', a', b', c', l' := FieldIndices(v);
    var g1, a1, b1, c1, l1 := Fields(start);
    var g2, a2, b2, c2, l2 := Fields(v);
  }
}
