/** The free list that `src/pages.c` threads through the free pages themselves, and the pool of pages it stands for. */
module FreeList {
  import opened PhysicalMemory

  ghost predicate NoDuplicates(s: seq<Word>) {
    forall i, j :: 0 <= i < j < |s| ==> s[i] != s[j]
  }

  ghost function Elements(s: seq<Word>): set<Word> {
    set p | p in s
  }

  /** Following `next` words from `head` visits the physical pages `pages`, in that order, and then meets NULL. */
  ghost predicate Chain(m: Mem, mmuOn: bool, head: Word, pages: seq<Word>)
    decreases |pages|
  {
    if pages == [] then head == 0
    else head != 0 && Phys(mmuOn, head) == pages[0] && Chain(m, mmuOn, Read(m, pages[0]), pages[1..])
  }

  /** A list in memory stands for one sequence of pages only. */
  lemma {:induction false} ChainIsUnique(m: Mem, mmuOn: bool, head: Word, pages: seq<Word>, pages': seq<Word>)
    requires Chain(m, mmuOn, head, pages) && Chain(m, mmuOn, head, pages')
    ensures pages == pages'
    decreases |pages|
  {
    if pages != [] {
      ChainIsUnique(m, mmuOn, Read(m, pages[0]), pages[1..], pages'[1..]);
      assert pages == [pages[0]] + pages[1..];
      assert pages' == [pages'[0]] + pages'[1..];
    }
  }

  /** Memory that changes nowhere in the listed pages' first words keeps the list. */
  lemma {:induction false} ChainFrame(m: Mem, m': Mem, mmuOn: bool, head: Word, pages: seq<Word>)
    requires Chain(m, mmuOn, head, pages)
    requires forall p | p in pages :: Read(m', p) == Read(m, p)
    ensures Chain(m', mmuOn, head, pages)
    decreases |pages|
  {
    if pages != [] {
      assert pages[0] in pages;
      ChainFrame(m, m', mmuOn, Read(m, pages[0]), pages[1..]);
    }
  }

  /** The list stays one when the MMU is switched on: its words are physical addresses below 2^38. */
  lemma {:induction false} ChainSwitchedOn(m: Mem, head: Word, pages: seq<Word>)
    requires Chain(m, false, head, pages) && forall p | p in pages :: Frame(p)
    ensures Chain(m, true, head, pages)
    decreases |pages|
  {
    if pages != [] {
      assert Frame(pages[0]) by { assert pages[0] in pages; }
      ChainSwitchedOn(m, Read(m, pages[0]), pages[1..]);
    }
  }

  ghost function Nth(first: Word, k: nat): Word
    requires first + k * PAGE_SIZE <= HALF
  {
    first + k * PAGE_SIZE
  }

  /** The addresses `first`, `first` + 4096, ... of `count` adjacent pages */
  ghost function Adjacent(first: Word, count: nat): (pages: seq<Word>)
    requires first + count * PAGE_SIZE <= HALF
    ensures |pages| == count
    ensures forall k | 0 <= k < count :: pages[k] == Nth(first, k)
    decreases count
  {
    if count == 0 then [] else [first] + Adjacent(first + PAGE_SIZE, count - 1)
  }

  /** Adjacent pages, each linked to the one after it and the last to NULL, form a list. */
  lemma {:induction false} AdjacentChain(m: Mem, first: Word, count: nat)
    requires 0 < first && 0 < count && first + count * PAGE_SIZE <= HALF
    requires forall k | 0 <= k < count - 1 :: Read(m, Nth(first, k)) == Nth(first, k + 1)
    requires Read(m, Nth(first, count - 1)) == 0
    ensures Chain(m, false, first, Adjacent(first, count))
    decreases count
  {
    var pages := Adjacent(first, count);
    assert pages[1..] == Adjacent(first + PAGE_SIZE, count - 1);
    if count == 1 {
      assert Nth(first, 0) == first;
    } else {
      assert Read(m, Nth(first, 0)) == Nth(first, 1);
      forall k {:trigger Nth(first + PAGE_SIZE, k)} | 0 <= k < count - 2
        ensures Read(m, Nth(first + PAGE_SIZE, k)) == Nth(first + PAGE_SIZE, k + 1)
      {
        assert Nth(first + PAGE_SIZE, k) == Nth(first, k + 1);
        assert Nth(first + PAGE_SIZE, k + 1) == Nth(first, k + 2);
      }
      assert Nth(first + PAGE_SIZE, count - 2) == Nth(first, count - 1);
      AdjacentChain(m, first + PAGE_SIZE, count - 1);
    }
  }

  /** Adjacent pages are exactly the aligned pages of the region they fill. */
  lemma AdjacentCovers(first: Word, count: nat, p: Word)
    requires Aligned(first) && first + count * PAGE_SIZE <= HALF
    ensures p in Adjacent(first, count) <==> Aligned(p) && first <= p && p + PAGE_SIZE <= first + count * PAGE_SIZE
    ensures NoDuplicates(Adjacent(first, count))
  {
    var pages := Adjacent(first, count);
    if Aligned(p) && first <= p && p + PAGE_SIZE <= first + count * PAGE_SIZE {
      var k := (p - first) / PAGE_SIZE;
      assert pages[k] == Nth(first, k) == p;
    }
  }

  // ---------- The pool of pages: what any run of the allocator and of the page tables keeps ----------

  /** Free pages in list order, pages handed out, and the pages handed out that serve as page tables. */
  datatype Pool = Pool(free: seq<Word>, held: set<Word>, tables: set<Word>) {
    ghost predicate Valid() {
      && NoDuplicates(free)
      && (forall p | p in free :: Frame(p))
      && (forall p | p in held :: Frame(p))
      && Elements(free) !! held
      && tables <= held
    }

    ghost function Pages(): set<Word> {
      Elements(free) + held
    }

    /** `alloc_page`: the head of the list changes hands. */
    ghost function Allocated(): Pool
      requires free != []
    {
      Pool(free[1..], held + {free[0]}, tables)
    }

    /** An allocation whose page becomes a page table */
    ghost function TableAdded(): Pool
      requires free != []
    {
      Allocated().(tables := tables + {free[0]})
    }

    ghost function Freed(p: Word): Pool {
      Pool([p] + free, held - {p}, tables)
    }
  }

  lemma AllocKeepsPool(s: Pool)
    requires s.Valid() && s.free != []
    ensures s.free[0] !in s.held
    ensures s.Allocated().Valid() && s.Allocated().Pages() == s.Pages()
    ensures s.TableAdded().Valid() && s.TableAdded().Pages() == s.Pages()
  {
    assert s.free[0] in Elements(s.free);
    assert s.free == [s.free[0]] + s.free[1..];
    assert Elements(s.free) == {s.free[0]} + Elements(s.free[1..]);
    forall p | p in s.free[1..] ensures p != s.free[0] && p in s.free {
      var i :| 0 <= i < |s.free[1..]| && s.free[1..][i] == p;
      assert s.free[i + 1] == p;
    }
  }

  lemma FreeKeepsPool(s: Pool, p: Word)
    requires s.Valid() && p in s.held && p !in s.tables
    ensures s.Freed(p).Valid() && s.Freed(p).Pages() == s.Pages()
  {
    assert Elements([p] + s.free) == {p} + Elements(s.free);
    assert p !in s.free by {
      assert p in s.free ==> p in Elements(s.free);
    }
  }
}
