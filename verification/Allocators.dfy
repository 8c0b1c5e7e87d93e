/** mem_allocator/mem_allocator.cpp: block headers in flat memory, and one list of free blocks over all pages. */
module Allocators {
  import opened Glthreads
  import opened PageTiles
  import opened FreeQueues

  const HEAD := -1                  // the address of free_block_list_head, outside every page
  const UINT32_MAX := 0xFFFF_FFFF

  /** A page the allocator manages: its size, its blocks, and whether it is mapped (initialised, and not put away
      since). */
  datatype Page = Page(size: int, cells: seq<Cell>, mapped: bool)

  type Pages = map<int, Page>       // by base address

  // ---- headers in memory ----

  function PrevOffset(c: seq<Cell>, i: nat): int
    requires i < |c|
  {
    if i == 0 then UINT64_MAX else c[i - 1].offset
  }

  function NextOffset(c: seq<Cell>, i: nat): int
    requires i < |c|
  {
    if i + 1 == |c| then UINT64_MAX else c[i + 1].offset
  }

  /** The header of block i is in memory, its neighbours' offsets included. */
  ghost predicate StoredAt(m: Memory, b: int, base: int, c: seq<Cell>, i: nat)
    requires i < |c|
  {
    var a := b + c[i].offset;
    a in m && m[a] == Header(c[i].free, c[i].size, c[i].offset, base, PrevOffset(c, i), NextOffset(c, i))
  }

  ghost predicate Stored(m: Memory, b: int, base: int, c: seq<Cell>)
  {
    forall i :: 0 <= i < |c| ==> StoredAt(m, b, base, c, i)
  }

  ghost predicate PageAt(m: Memory, sizes: map<int, int>, b: int, p: Page)
  {
    && b > 0 && p.size <= UINT32_MAX && b in sizes && sizes[b] == p.size
    && Tiled(p.cells, p.size)
    && Stored(m, b, if p.mapped then b else 0, p.cells)
  }

  ghost predicate WellFormed(m: Memory, sizes: map<int, int>, pages: Pages)
  {
    && (forall b :: b in pages ==> PageAt(m, sizes, b, pages[b]))
    && forall b, b' :: b in pages && b' in pages && b != b' ==> b + pages[b].size <= b' || b' + pages[b'].size <= b
  }

  /** No two blocks have the same address. */
  lemma SameBlock(m: Memory, sizes: map<int, int>, pages: Pages, b: int, x: Cell, b': int, x': Cell)
    requires WellFormed(m, sizes, pages)
    requires b in pages && x in pages[b].cells && b' in pages && x' in pages[b'].cells
    requires b + x.offset == b' + x'.offset
    ensures b == b' && x == x'
  {
    var c, c' := pages[b].cells, pages[b'].cells;
    var i :| 0 <= i < |c| && c[i] == x;
    var j :| 0 <= j < |c'| && c'[j] == x';
    assert PageAt(m, sizes, b, pages[b]) && PageAt(m, sizes, b', pages[b']);
    Within(c, pages[b].size, i);
    Within(c', pages[b'].size, j);
    assert b == b' ==> c[j].offset == c[i].offset;
  }

  /** Rearranging the blocks of one page, touching no memory outside it, keeps everything well formed. */
  lemma PageChanged(m: Memory, sizes: map<int, int>, pages: Pages, b: int, m': Memory, p: Page)
    requires WellFormed(m, sizes, pages) && b in pages
    requires p.size == pages[b].size && PageAt(m', sizes, b, p)
    requires forall a :: a in m && !(b <= a < b + p.size) ==> a in m' && m'[a] == m[a]
    ensures WellFormed(m', sizes, pages[b := p])
  {
    forall d | d in pages && d != b ensures PageAt(m', sizes, d, pages[d]) {
      var q := pages[d];
      assert PageAt(m, sizes, d, q);
      var base := if q.mapped then d else 0;
      assert d + q.size <= b || b + pages[b].size <= d;
      forall i | 0 <= i < |q.cells| ensures StoredAt(m', d, base, q.cells, i) {
        Within(q.cells, q.size, i);
        assert StoredAt(m, d, base, q.cells, i);
      }
    }
  }

  /** The headers after block i was cut down to size and, if that leaves enough, a new header written behind it. */
  lemma StoredTaken(m: Memory, b: int, c: seq<Cell>, pageSize: int, i: nat, size: int, m': Memory)
    requires Tiled(c, pageSize) && Stored(m, b, b, c) && i < |c| && c[i].free && 0 <= size <= c[i].size
    requires
      var f, rest, split := b + c[i].offset, c[i].offset + META + size, c[i].size - size >= META;
      && f in m'
      && m'[f] == Header(false, size, c[i].offset, b, PrevOffset(c, i), if split then rest else NextOffset(c, i))
      && (split ==>
          && b + rest in m'
          && m'[b + rest] == Header(true, c[i].size - size - META, rest, b, c[i].offset, NextOffset(c, i)))
      && (forall a ::
          a in m && a != f && !(split && a == b + rest) && !(split && i + 1 < |c| && a == b + c[i + 1].offset) ==>
          a in m' && m'[a] == m[a])
      && (split && i + 1 < |c| ==> var a := b + c[i + 1].offset; a in m && a in m' && m'[a] == m[a].(prevBlock := rest))
    ensures Stored(m', b, b, Taken(c, i, size))
  {
    var r := Taken(c, i, size);
    var shift := |r| - |c|;
    Within(c, pageSize, i);
    assert Fits(c, i, pageSize);
    forall j | 0 <= j < |r| ensures StoredAt(m', b, b, r, j) {
      if j < i {
        Within(c, pageSize, j);
        Apart(c, pageSize, j, i);
        if i + 1 < |c| {
          Apart(c, pageSize, j, i + 1);
        }
        assert StoredAt(m, b, b, c, j);
      } else if j > i + shift {
        Within(c, pageSize, j - shift);
        Apart(c, pageSize, i, j - shift);
        if i + 1 < j - shift {
          Apart(c, pageSize, i + 1, j - shift);
        }
        assert StoredAt(m, b, b, c, j - shift);
      } else {
        assert StoredAt(m, b, b, c, i);
      }
    }
  }

  /** The headers after block i was made free and took the gap behind it. */
  lemma StoredGrown(m: Memory, b: int, c: seq<Cell>, pageSize: int, i: nat, m': Memory)
    requires Tiled(c, pageSize) && Stored(m, b, b, c) && i < |c|
    requires
      var f := b + c[i].offset;
      && f in m && m' == m[f := m[f].(isFree := true, blockSize := c[i].size + Gap(c, i, pageSize))]
    ensures Stored(m', b, b, Grown(c, i, pageSize))
  {
    var r := Grown(c, i, pageSize);
    forall j | 0 <= j < |r| ensures StoredAt(m', b, b, r, j) {
      Within(c, pageSize, j);
      assert StoredAt(m, b, b, c, j);
    }
  }

  /** mm_bind_blocks_for_deallocation: x takes over y's successor. */
  ghost function BoundForDeallocation(m: Memory, base: int, x: int, y: int): Memory
    requires x in m && y in m
  {
    var m1 := m[x := m[x].(nextBlock := m[y].nextBlock)];
    var above := base + m[y].nextBlock;
    if m[y].nextBlock != UINT64_MAX && above in m1 then m1[above := m1[above].(prevBlock := m1[x].offset)] else m1
  }

  ghost function MergedMemory(m: Memory, b: int, c: seq<Cell>, i: nat): Memory
    requires i + 1 < |c| && b + c[i].offset in m && b + c[i + 1].offset in m
  {
    var x, y := b + c[i].offset, b + c[i + 1].offset;
    BoundForDeallocation(SizedUp(m, x, c[i].size + (c[i + 1].size + META)), b, x, y)
  }

  lemma MergedHeaders(m: Memory, b: int, c: seq<Cell>, pageSize: int, i: nat)
    requires Tiled(c, pageSize) && Stored(m, b, b, c) && i + 1 < |c| && c[i].free && c[i + 1].free
      && pageSize <= UINT32_MAX
    requires b + c[i].offset in m && b + c[i + 1].offset in m
    ensures var m' := MergedMemory(m, b, c, i);
      && Stored(m', b, b, Merged(c, i))
      && (forall a :: a in m && !(b <= a < b + pageSize) ==> a in m' && m'[a] == m[a])
      && (forall a :: a != b + c[i].offset ==> SizeIn(m', a) == SizeIn(m, a))
  {
    assert StoredAt(m, b, b, c, i) && StoredAt(m, b, b, c, i + 1);
    Within(c, pageSize, i);
    Within(c, pageSize, i + 1);
    if i + 2 < |c| {
      assert StoredAt(m, b, b, c, i + 2);
      Within(c, pageSize, i + 2);
    }
    StoredMerged(m, b, c, pageSize, i, MergedMemory(m, b, c, i));
  }

  /** The headers after block i swallowed block i + 1. */
  lemma StoredMerged(m: Memory, b: int, c: seq<Cell>, pageSize: int, i: nat, m': Memory)
    requires Tiled(c, pageSize) && Stored(m, b, b, c) && i + 1 < |c| && c[i].free && c[i + 1].free
    requires
      var f, after := b + c[i].offset, NextOffset(c, i + 1);
      && f in m' && m'[f] == Header(true, c[i].size + c[i + 1].size + META, c[i].offset, b, PrevOffset(c, i), after)
      && (forall a :: a in m && a != f && !(i + 2 < |c| && a == b + after) ==> a in m' && m'[a] == m[a])
      && (i + 2 < |c| ==> b + after in m && b + after in m' && m'[b + after] == m[b + after].(prevBlock := c[i].offset))
    ensures Stored(m', b, b, Merged(c, i))
  {
    var r := Merged(c, i);
    forall j | 0 <= j < |r| ensures StoredAt(m', b, b, r, j) {
      var k := if j <= i then j else j + 1;
      Within(c, pageSize, k);
      Within(c, pageSize, i);
      if i + 2 < |c| {
        Within(c, pageSize, i + 2);
      }
      assert StoredAt(m, b, b, c, k);
    }
  }

  /** mm_bind_blocks_for_allocation: the new header next comes between x and the block that followed x. */
  ghost function BoundForAllocation(m: Memory, base: int, x: int, next: int): Memory
    requires x in m && next in m
  {
    var m1 := m[next := m[next].(prevBlock := m[x].offset, nextBlock := m[x].nextBlock)];
    var m2 := m1[x := m1[x].(nextBlock := m[next].offset)];
    var above := base + m[x].nextBlock;
    if m[x].nextBlock != UINT64_MAX && above in m2 then m2[above := m2[above].(prevBlock := m[next].offset)] else m2
  }

  /** meta_block_init and what the split then sets. */
  function RestHeader(taken: Header, base: int, remaining: int): Header
  {
    Header(true, remaining - META, taken.offset + META + taken.blockSize, base, UINT64_MAX, UINT64_MAX)
  }

  function CutDown(m: Memory, x: int, size: int): Memory
    requires x in m
  {
    m[x := m[x].(isFree := false, blockSize := size)]
  }

  function SizedUp(m: Memory, x: int, size: int): Memory
    requires x in m
  {
    m[x := m[x].(blockSize := size)]
  }

  /** The memory after a split of block i. */
  ghost function SplitMemory(m: Memory, b: int, c: seq<Cell>, i: nat, size: int): Memory
    requires i < |c| && b + c[i].offset in m
  {
    var x, rest := b + c[i].offset, c[i].offset + META + size;
    var m1 := CutDown(m, x, size);
    BoundForAllocation(m1[b + rest := RestHeader(m1[x], b, c[i].size - size)], b, x, b + rest)
  }

  lemma StoredSplit(m: Memory, b: int, c: seq<Cell>, pageSize: int, i: nat, size: int)
    requires Tiled(c, pageSize) && Stored(m, b, b, c) && i < |c| && c[i].free && 0 <= size && size + META <= c[i].size
    requires pageSize <= UINT32_MAX && b + c[i].offset in m
    requires forall j :: 0 <= j < |c| ==> b + c[j].offset != b + c[i].offset + META + size
    ensures var m' := SplitMemory(m, b, c, i, size);
      && Stored(m', b, b, Taken(c, i, size))
      && (forall a :: a in m && !(b <= a < b + pageSize) ==> a in m' && m'[a] == m[a])
      && (forall a :: a != b + c[i].offset && a != b + c[i].offset + META + size ==> SizeIn(m', a) == SizeIn(m, a))
  {
    var m' := SplitMemory(m, b, c, i, size);
    assert StoredAt(m, b, b, c, i);
    Within(c, pageSize, i);
    if i + 1 < |c| {
      assert StoredAt(m, b, b, c, i + 1);
      Within(c, pageSize, i + 1);
    }
    StoredTaken(m, b, c, pageSize, i, size, m');
  }

  // ---- the free list ----

  /** A free block of a mapped page starts at address a. */
  ghost predicate FreeAt(pages: Pages, a: int)
  {
    exists b, x :: b in pages && pages[b].mapped && x in pages[b].cells && x.free && a == b + x.offset
  }

  /** The list holds free blocks only, the largest first; blocks outside the list have no links. */
  ghost predicate Listed(m: Memory, pages: Pages, glue: map<int, Glue>, free: seq<int>)
  {
    && Chain(glue, [HEAD] + free) && Sorted(m, free)
    && (forall a :: a in free ==> FreeAt(pages, a))
    && Glued(pages, glue, free)
  }

  ghost predicate Glued(pages: Pages, glue: map<int, Glue>, free: seq<int>)
  {
    forall b, x :: b in pages && x in pages[b].cells ==>
      b + x.offset in glue && (b + x.offset in free || Loose(glue, b + x.offset))
  }

  /** What the header of block i says, and where it and its successor's lie. */
  lemma HeaderAt(m: Memory, sizes: map<int, int>, pages: Pages, b: int, i: nat)
    requires WellFormed(m, sizes, pages) && b in pages && i < |pages[b].cells|
    ensures PageAt(m, sizes, b, pages[b])
    ensures var c, p := pages[b].cells, pages[b]; var a := b + c[i].offset;
      && b > 0 && p.size <= UINT32_MAX && b in sizes && sizes[b] == p.size
      && a in m && m[a] == Header(c[i].free, c[i].size, c[i].offset, if p.mapped then b
          else 0, PrevOffset(c, i), NextOffset(c, i))
      && c[i].size >= 0 && FIRST <= c[i].offset && c[i].offset + META + c[i].size <= End(c, i, p.size) <= p.size
      && (c[i].free ==> c[i].offset + META + c[i].size == End(c, i, p.size))
      && (i + 1 < |c| ==> b + c[i + 1].offset in m && c[i + 1].offset < p.size)
      && (i > 0 ==> b + c[i - 1].offset in m && FIRST <= c[i - 1].offset < c[i].offset)
  {
    var c, p := pages[b].cells, pages[b];
    assert PageAt(m, sizes, b, p);
    Within(c, p.size, i);
    assert Fits(c, i, p.size) && StoredAt(m, b, if p.mapped then b else 0, c, i);
    if i + 1 < |c| {
      Within(c, p.size, i + 1);
      assert StoredAt(m, b, if p.mapped then b else 0, c, i + 1);
    }
    if i > 0 {
      Within(c, p.size, i - 1);
      Apart(c, p.size, i - 1, i);
      assert StoredAt(m, b, if p.mapped then b else 0, c, i - 1);
    }
  }

  lemma PageFacts(m: Memory, sizes: map<int, int>, pages: Pages, b: int)
    requires WellFormed(m, sizes, pages) && b in pages
    ensures PageAt(m, sizes, b, pages[b])
  {
  }

  lemma BlockLinks(m: Memory, pages: Pages, glue: map<int, Glue>, free: seq<int>, b: int, x: Cell)
    requires Listed(m, pages, glue, free) && b in pages && x in pages[b].cells
    ensures Chain(glue, [HEAD] + free) && Sorted(m, free)
    ensures b + x.offset in glue && (b + x.offset in free || Loose(glue, b + x.offset))
  {
    hide Chain, Sorted, FreeAt, Loose;
    assert Glued(pages, glue, free);
  }

  lemma ListFacts(m: Memory, pages: Pages, glue: map<int, Glue>, free: seq<int>)
    requires Listed(m, pages, glue, free)
    ensures Chain(glue, [HEAD] + free) && Sorted(m, free)
  {
  }

  /** The block at the front of the list. */
  lemma HeadBlock(m: Memory, sizes: map<int, int>, pages: Pages, glue: map<int, Glue>, free: seq<int>)
                  returns (b: int, i: nat)
    requires WellFormed(m, sizes, pages) && Listed(m, pages, glue, free) && free != []
    ensures b in pages && pages[b].mapped && i < |pages[b].cells| && pages[b].cells[i].free
      && free[0] == b + pages[b].cells[i].offset
    ensures free[0] > 0
  {
    hide WellFormed, Chain, Sorted, Glued, FreeAt;
    assert free[0] in free;
    var x;
    b, x := FreeBlock(pages, free[0]);
    i :| 0 <= i < |pages[b].cells| && pages[b].cells[i] == x;
    PositiveAddress(m, sizes, pages, b, x);
  }

  /** What the first two links of the list say. */
  lemma FrontLinks(glue: map<int, Glue>, free: seq<int>)
    requires Chain(glue, [HEAD] + free)
    ensures HEAD in glue && glue[HEAD].right == if free == [] then NULL else free[0]
    ensures free != [] ==> free[0] != NULL && free[0] in glue && glue[free[0]].right == if |free| == 1 then NULL
      else free[1]
    ensures |free| > 1 ==> free[1] != NULL
  {
    var c := [HEAD] + free;
    assert LinkedAt(glue, c, 0);
    assert free != [] ==> LinkedAt(glue, c, 1);
    assert |free| > 1 ==> LinkedAt(glue, c, 2);
  }

  lemma SortedElsewhere(m: Memory, m': Memory, free: seq<int>)
    requires Sorted(m, free) && forall y :: y in free ==> SizeIn(m', y) == SizeIn(m, y)
    ensures Sorted(m', free)
  {
  }

  lemma FirstLess(glue: map<int, Glue>, free: seq<int>)
    requires Chain(glue, [HEAD] + free) && free != []
    ensures Except(free, {free[0]}) == free[1..]
  {
    var c := [HEAD] + free;
    assert forall i :: 0 <= i < |free| ==> free[i] == c[i + 1];
    ExceptOne(free, 0);
  }

  lemma HeadSince(m: Memory, free: seq<int>, since: seq<int>) returns (p: nat)
    requires free == Queue(m, since) && free != []
    ensures p < |since| && since[p] == free[0]
    ensures forall q :: 0 <= q < |since| ==> SizeIn(m, since[q]) <= SizeIn(m, free[0])
    ensures forall q :: 0 <= q < p ==> SizeIn(m, since[q]) < SizeIn(m, free[0])
  {
    hide Queue, SizeIn;
    var head := free[0];
    assert head in free;
    QueueSorted(m, since);
    p := HeadInTurn(m, since);
  }

  lemma NothingSince(free: seq<int>, since: seq<int>)
    requires forall y :: y in free <==> y in since
    ensures free == [] ==> since == []
  {
    if since != [] {
      var x := since[0];
      assert x in since && x in free;
    }
  }

  /** The addresses of block i and of the free blocks next to it. */
  ghost function FreeAround(b: int, c: seq<Cell>, i: nat): set<int>
    requires i < |c|
  {
    {b + c[i].offset} + FreeAfter(b, c, i) + if i > 0 && c[i - 1].free then {b + c[i - 1].offset} else {}
  }

  ghost function FreeAfter(b: int, c: seq<Cell>, i: nat): set<int>
    requires i < |c|
  {
    if i + 1 < |c| && c[i + 1].free then {b + c[i + 1].offset} else {}
  }

  lemma AroundGrown(b: int, c: seq<Cell>, pageSize: int, i: nat)
    requires i < |c|
    ensures i < |Grown(c, i, pageSize)| && FreeAround(b, Grown(c, i, pageSize), i) == FreeAround(b, c, i)
  {
  }

  /** The block and the one after it gone, then the block and the one before it. */
  lemma AroundGone(b: int, c: seq<Cell>, i: nat, f: seq<int>)
    requires i < |c| && b + c[i].offset !in f
    ensures var x := b + c[i].offset;
      var first := if i + 1 < |c| && c[i + 1].free then Except(f, {x, b + c[i + 1].offset}) else f;
      Except(f, FreeAround(b, c, i)) ==
        if i > 0 && c[i - 1].free then Except(first, {b + c[i - 1].offset, x}) else first
  {
    hide Except;
    var x, after := b + c[i].offset, FreeAfter(b, c, i);
    ExceptNone(f, {x});
    assert {x} + {} == {x};
    assert i + 1 < |c| && c[i + 1].free ==> {x} + after == {x, b + c[i + 1].offset};
    if i > 0 && c[i - 1].free {
      var before := b + c[i - 1].offset;
      ExceptTwice(f, {x} + after, {before, x});
      assert {x} + after + {before, x} == FreeAround(b, c, i);
    } else {
      assert {x} + after == FreeAround(b, c, i);
    }
  }

  /** A block that is not listed makes no difference to what is left of the list. */
  lemma NotThere(m: Memory, free: seq<int>, since: seq<int>, gone: set<int>, x: int)
    requires free == Queue(m, since) && x !in free
    ensures Except(free, gone + {x}) == Except(free, gone) && Except(since, gone + {x}) == Except(since, gone)
  {
    hide Except, Queue;
    QueueSorted(m, since);
    ExceptTwice(free, gone, {x});
    ExceptTwice(since, gone, {x});
    ExceptElements(free, gone);
    ExceptElements(since, gone);
    ExceptNone(Except(free, gone), {x});
    ExceptNone(Except(since, gone), {x});
  }

  lemma HeaderElsewhere(m: Memory, x: int, h: Header, free: seq<int>)
    requires Sorted(m, free) && x !in free
    ensures Sorted(m[x := h], free)
  {
  }

  /** The links of blocks that neither joined nor left the list are as before. */
  ghost predicate LinksKept(glue: map<int, Glue>, glue': map<int, Glue>, free: seq<int>, touched: set<int>)
  {
    && glue.Keys <= glue'.Keys
    && forall y :: y in glue && y > 0 && y !in free && y !in touched ==> glue'[y] == glue[y]
  }

  lemma LinksStep(g0: map<int, Glue>, g1: map<int, Glue>, g2: map<int, Glue>, f0: seq<int>, f1: seq<int>, s: set<int>,
                  a: int)
    requires LinksKept(g0, g1, f0, s) && LinksKept(g1, g2, f1, {a})
    requires forall y :: y in f1 ==> y in f0 || y in s
    ensures LinksKept(g0, g2, f0, s + {a})
  {
  }

  lemma LooseThrough(g1: map<int, Glue>, g2: map<int, Glue>, f1: seq<int>, a: int, x: int)
    requires LinksKept(g1, g2, f1, {a}) && Loose(g1, x) && x > 0 && x !in f1 && x != a
    ensures Loose(g2, x)
  {
  }

  /** The addresses of blocks of the page at b. */
  ghost function At(b: int, cells: set<Cell>): set<int>
  {
    set x | x in cells :: b + x.offset
  }

  lemma AtOne(b: int, x: Cell)
    ensures At(b, {x}) == {b + x.offset}
  {
  }

  lemma AtTwo(b: int, x: Cell, y: Cell)
    ensures At(b, {x, y}) == {b + x.offset, b + y.offset}
  {
  }

  /** The list stays right when the blocks of page b change: blocks neither new nor touched keep their place. */
  lemma ListKept(m: Memory, sizes: map<int, int>, pages: Pages, glue: map<int, Glue>, free: seq<int>,
                 b: int, cells: seq<Cell>, gone: set<Cell>, made: set<Cell>, m': Memory, glue': map<int, Glue>,
                   free': seq<int>)
    requires WellFormed(m, sizes, pages) && Listed(m, pages, glue, free) && b in pages && pages[b].mapped
    requires WellFormed(m', sizes, pages[b := pages[b].(cells := cells)])
    requires forall x :: x in cells <==> (x in pages[b].cells && x !in gone) || x in made
    requires gone <= (set x | x in pages[b].cells)
    requires Chain(glue', [HEAD] + free') && Sorted(m', free')
    requires forall y :: y in free' ==>
      (y in free && y !in At(b, gone)) || exists x :: x in made && x.free && y == b + x.offset
    requires forall y :: y in free && y !in At(b, gone) ==> y in free'
    requires LinksKept(glue, glue', free, At(b, gone) + At(b, made))
    requires forall x :: x in made ==> b + x.offset in glue' && (b + x.offset in free' || Loose(glue', b + x.offset))
    ensures Listed(m', pages[b := pages[b].(cells := cells)], glue', free')
  {
    hide Chain, Sorted, FreeAt, WellFormed, LinksKept, Loose, Glued;
    var pages' := pages[b := pages[b].(cells := cells)];
    forall a | a in free' ensures FreeAt(pages', a) {
      StillFree(pages, free, b, cells, gone, made, free', a);
    }
    GluedKept(m, sizes, pages, glue, free, b, cells, gone, made, m', glue', free');
  }

  lemma StillFree(pages: Pages, free: seq<int>, b: int, cells: seq<Cell>, gone: set<Cell>, made: set<Cell>,
                  free': seq<int>, a: int)
    requires b in pages && pages[b].mapped && (forall y :: y in free ==> FreeAt(pages, y)) && a in free'
    requires forall x :: x in cells <==> (x in pages[b].cells && x !in gone) || x in made
    requires forall y :: y in free' ==>
      (y in free && y !in At(b, gone)) || exists x :: x in made && x.free && y == b + x.offset
    ensures FreeAt(pages[b := pages[b].(cells := cells)], a)
  {
    hide FreeAt;
    var pages' := pages[b := pages[b].(cells := cells)];
    if x :| x in made && x.free && a == b + x.offset {
      FreeHere(pages', b, x);
    } else {
      var d, x := FreeBlock(pages, a);
      assert d == b ==> x !in gone;
      FreeHere(pages', d, x);
    }
  }

  lemma GluedKept(m: Memory, sizes: map<int, int>, pages: Pages, glue: map<int, Glue>, free: seq<int>,
                  b: int, cells: seq<Cell>, gone: set<Cell>, made: set<Cell>, m': Memory, glue': map<int, Glue>,
                    free': seq<int>)
    requires WellFormed(m, sizes, pages) && Glued(pages, glue, free) && b in pages
    requires WellFormed(m', sizes, pages[b := pages[b].(cells := cells)])
    requires forall x :: x in cells <==> (x in pages[b].cells && x !in gone) || x in made
    requires gone <= (set x | x in pages[b].cells)
    requires forall y :: y in free && y !in At(b, gone) ==> y in free'
    requires LinksKept(glue, glue', free, At(b, gone) + At(b, made))
    requires forall x :: x in made ==> b + x.offset in glue' && (b + x.offset in free' || Loose(glue', b + x.offset))
    ensures Glued(pages[b := pages[b].(cells := cells)], glue', free')
  {
    hide WellFormed, LinksKept, Loose;
    var pages' := pages[b := pages[b].(cells := cells)];
    forall d, x | d in pages' && x in pages'[d].cells
      ensures d + x.offset in glue' && (d + x.offset in free' || Loose(glue', d + x.offset))
    {
      if !(d == b && x in made) {
        assert d in pages && x in pages[d].cells && (d == b ==> x !in gone);
        StillGlued(m, sizes, pages, glue, free, b, cells, gone, made, m', glue', free', d, x);
      }
    }
  }

  lemma FreeHere(pages: Pages, b: int, x: Cell)
    requires b in pages && pages[b].mapped && x in pages[b].cells && x.free
    ensures FreeAt(pages, b + x.offset)
  {
  }

  lemma FreeBlock(pages: Pages, a: int) returns (b: int, x: Cell)
    requires FreeAt(pages, a)
    ensures b in pages && pages[b].mapped && x in pages[b].cells && x.free && a == b + x.offset
  {
    b, x :| b in pages && pages[b].mapped && x in pages[b].cells && x.free && a == b + x.offset;
  }

  /** A block that is neither gone nor made is linked as before. */
  lemma StillGlued(m: Memory, sizes: map<int, int>, pages: Pages, glue: map<int, Glue>, free: seq<int>,
                   b: int, cells: seq<Cell>, gone: set<Cell>, made: set<Cell>, m': Memory, glue': map<int, Glue>,
                     free': seq<int>, d: int, x: Cell)
    requires WellFormed(m, sizes, pages) && Glued(pages, glue, free) && b in pages
    requires WellFormed(m', sizes, pages[b := pages[b].(cells := cells)])
    requires forall x :: x in cells <==> (x in pages[b].cells && x !in gone) || x in made
    requires gone <= (set x | x in pages[b].cells)
    requires forall y :: y in free && y !in At(b, gone) ==> y in free'
    requires LinksKept(glue, glue', free, At(b, gone) + At(b, made))
    requires d in pages && x in pages[d].cells && (d == b ==> x !in gone && x !in made)
    ensures d + x.offset in glue' && (d + x.offset in free' || Loose(glue', d + x.offset))
  {
    hide WellFormed;
    var pages' := pages[b := pages[b].(cells := cells)];
    var a := d + x.offset;
    forall y | y in gone ensures a != b + y.offset {
      if a == b + y.offset {
        SameBlock(m, sizes, pages, d, x, b, y);
      }
    }
    forall y | y in made ensures a != b + y.offset {
      if a == b + y.offset {
        SameBlock(m', sizes, pages', d, x, b, y);
      }
    }
    PositiveAddress(m, sizes, pages, d, x);
  }

  lemma PositiveAddress(m: Memory, sizes: map<int, int>, pages: Pages, d: int, x: Cell)
    requires WellFormed(m, sizes, pages) && d in pages && x in pages[d].cells
    ensures d + x.offset > 0
  {
    var i :| 0 <= i < |pages[d].cells| && pages[d].cells[i] == x;
    HeaderAt(m, sizes, pages, d, i);
  }

  /** No block starts strictly inside another one. */
  lemma NothingInside(m: Memory, sizes: map<int, int>, pages: Pages, b: int, i: nat, a: int, d: int, x: Cell)
    requires WellFormed(m, sizes, pages) && b in pages && i < |pages[b].cells| && d in pages && x in pages[d].cells
    requires b + pages[b].cells[i].offset < a < b + End(pages[b].cells, i, pages[b].size)
    ensures d + x.offset != a
  {
    var c := pages[b].cells;
    HeaderAt(m, sizes, pages, b, i);
    var j :| 0 <= j < |pages[d].cells| && pages[d].cells[j] == x;
    HeaderAt(m, sizes, pages, d, j);
    if d == b {
      if j < i {
        Apart(c, pages[b].size, j, i);
      } else if i + 1 < j {
        Apart(c, pages[b].size, i + 1, j);
        HeaderAt(m, sizes, pages, b, i + 1);
      }
    }
  }

  /** The address behind the part of free block i that is taken, when a header fits there, is no block's yet. */
  lemma FreshHeader(m: Memory, sizes: map<int, int>, pages: Pages, glue: map<int, Glue>, free: seq<int>, b: int,
                    i: nat, size: int)
    requires WellFormed(m, sizes, pages) && Listed(m, pages, glue, free) && b in pages && i < |pages[b].cells|
    requires 0 <= size && size + META <= pages[b].cells[i].size
    ensures var a := b + pages[b].cells[i].offset + META + size; a > 0 && a !in free
    ensures var a := b + pages[b].cells[i].offset + META + size;
      forall j :: 0 <= j < |pages[b].cells| ==> b + pages[b].cells[j].offset != a
  {
    hide WellFormed, Chain, Sorted, Glued, FreeAt;
    var c := pages[b].cells;
    var a := b + c[i].offset + META + size;
    HeaderAt(m, sizes, pages, b, i);
    forall y | y in free ensures y != a {
      var d, x := FreeBlock(pages, y);
      NothingInside(m, sizes, pages, b, i, a, d, x);
    }
    forall j | 0 <= j < |c| ensures b + c[j].offset != a {
      NothingInside(m, sizes, pages, b, i, a, b, c[j]);
    }
  }

  ghost predicate AllCoalesced(pages: Pages)
  {
    forall d :: d in pages ==> Coalesced(pages[d].cells)
  }

  /** Putting an allocation together: headers, list and coalescing are right again. */
  lemma TakenDone(m: Memory, sizes: map<int, int>, pages: Pages, glue: map<int, Glue>, free: seq<int>, b: int, i: nat,
                  size: int,
                  m': Memory, glue': map<int, Glue>, free': seq<int>)
    requires WellFormed(m, sizes, pages) && Listed(m, pages, glue, free) && AllCoalesced(pages)
    requires b in pages && pages[b].mapped && i < |pages[b].cells| && pages[b].cells[i].free
      && 0 <= size <= pages[b].cells[i].size
    requires b + pages[b].cells[i].offset !in free
    requires var c := pages[b].cells; Tiled(c, pages[b].size) && Stored(m', b, b, Taken(c, i, size))
    requires forall a :: a in m && !(b <= a < b + pages[b].size) ==> a in m' && m'[a] == m[a]
    requires Chain(glue', [HEAD] + free') && Sorted(m', free')
    requires var c := pages[b].cells;
      var x, split, n := b + c[i].offset, c[i].size - size >= META, b + c[i].offset + META + size;
      && Loose(glue', x)
      && (forall y :: y in free' <==> y in free || (split && y == n))
      && (split ==> n in glue')
      && LinksKept(glue, glue', free, if split then {x, n} else {x})
    ensures var pages' := pages[b := pages[b].(cells := Taken(pages[b].cells, i, size))];
      && WellFormed(m', sizes, pages') && Listed(m', pages', glue', free') && AllCoalesced(pages')
      && forall a :: FreeAt(pages', a) ==> (FreeAt(pages, a) && a != b + pages[b].cells[i].offset) || a in free'
  {
    hide Taken, Tiled, Sorted, Chain, Coalesced, WellFormed, Stored, FreeAt, Listed, At;
    var c, P := pages[b].cells, pages[b].size;
    TakenWellFormed(m, sizes, pages, b, i, size, m');
    TakenCells(c, P, i, size);
    var used := Cell(c[i].offset, size, false);
    var left := Cell(c[i].offset + META + size, c[i].size - size - META, true);
    var gone, made := {c[i]}, if c[i].size - size >= META then {used, left} else {used};
    AtTaken(b, c[i], used, left);
    ListKept(m, sizes, pages, glue, free, b, Taken(c, i, size), gone, made, m', glue', free');
    TakenFrees(m, sizes, pages, b, i, size);
  }

  lemma AtTaken(b: int, x: Cell, used: Cell, left: Cell)
    requires used.offset == x.offset
    ensures At(b, {x}) + At(b, {used, left}) == {b + x.offset, b + left.offset}
    ensures At(b, {x}) + At(b, {used}) == {b + x.offset}
  {
    AtOne(b, x);
    AtOne(b, used);
    AtTwo(b, used, left);
  }

  lemma TakenWellFormed(m: Memory, sizes: map<int, int>, pages: Pages, b: int, i: nat, size: int, m': Memory)
    requires WellFormed(m, sizes, pages) && AllCoalesced(pages)
    requires b in pages && pages[b].mapped && i < |pages[b].cells| && pages[b].cells[i].free
      && 0 <= size <= pages[b].cells[i].size
    requires Tiled(pages[b].cells, pages[b].size) && Stored(m', b, b, Taken(pages[b].cells, i, size))
    requires forall a :: a in m && !(b <= a < b + pages[b].size) ==> a in m' && m'[a] == m[a]
    ensures var pages' := pages[b := pages[b].(cells := Taken(pages[b].cells, i, size))];
      WellFormed(m', sizes, pages') && AllCoalesced(pages')
  {
    hide Taken, Tiled, Coalesced, WellFormed, Stored;
    TakenTiled(pages[b].cells, pages[b].size, i, size);
    HeaderAt(m, sizes, pages, b, i);
    PageChanged(m, sizes, pages, b, m', pages[b].(cells := Taken(pages[b].cells, i, size)));
  }

  /** An allocation leaves the free blocks there were, but for the one it took, and what is left of that. */
  lemma TakenFrees(m: Memory, sizes: map<int, int>, pages: Pages, b: int, i: nat, size: int)
    requires WellFormed(m, sizes, pages) && b in pages && i < |pages[b].cells|
    ensures var x := pages[b].cells[i];
      forall a :: FreeAt(pages[b := pages[b].(cells := Taken(pages[b].cells, i, size))], a) ==>
        (FreeAt(pages, a) && a != b + x.offset) || (x.size - size >= META && a == b + x.offset + META + size)
  {
    hide Taken, WellFormed, FreeAt;
    var c := pages[b].cells;
    var pages' := pages[b := pages[b].(cells := Taken(c, i, size))];
    HeaderAt(m, sizes, pages, b, i);
    TakenCells(c, pages[b].size, i, size);
    forall a | FreeAt(pages', a)
      ensures (FreeAt(pages, a) && a != b + c[i].offset)
        || (c[i].size - size >= META && a == b + c[i].offset + META + size)
    {
      var d, x := FreeBlock(pages', a);
      if d != b || (x in c && x != c[i]) {
        FreeHere(pages, d, x);
        if a == b + c[i].offset {
          SameBlock(m, sizes, pages, d, x, b, c[i]);
        }
      }
    }
  }

  /** A page set up anew, apart from all others. */
  lemma PageAdded(m: Memory, sizes: map<int, int>, pages: Pages, b: int, m': Memory, sizes': map<int, int>, p: Page)
    requires WellFormed(m, sizes, pages) && PageAt(m', sizes', b, p)
    requires forall d :: d in pages && d != b ==> d + pages[d].size <= b || b + p.size <= d
    requires forall a :: a in m && !(b <= a < b + p.size) ==> a in m' && m'[a] == m[a]
    requires forall d :: d in sizes && d != b ==> d in sizes' && sizes'[d] == sizes[d]
    ensures WellFormed(m', sizes', pages[b := p])
  {
    forall d | d in pages && d != b ensures PageAt(m', sizes', d, pages[d]) {
      var q := pages[d];
      assert PageAt(m, sizes, d, q);
      var base := if q.mapped then d else 0;
      assert d + q.size <= b || b + p.size <= d;
      forall i | 0 <= i < |q.cells| ensures StoredAt(m', d, base, q.cells, i) {
        Within(q.cells, q.size, i);
        assert StoredAt(m, d, base, q.cells, i);
      }
    }
  }

  /** The first block taken off the list. */
  lemma Dequeued(m: Memory, sizes: map<int, int>, pages: Pages, glue: map<int, Glue>, free: seq<int>, glue': map<int,
                 Glue>)
    requires WellFormed(m, sizes, pages) && Listed(m, pages, glue, free) && free != []
    requires Chain(glue', [HEAD] + free[1..]) && Loose(glue', free[0])
      && SameOutside(glue, glue', set y | y in [HEAD] + free)
    ensures Listed(m, pages, glue', free[1..]) && free[0] !in free[1..]
  {
    hide FreeAt, WellFormed, Sorted, Chain, Loose;
    SortedTail(m, free);
    FirstOnce(glue, free);
    assert free == [free[0]] + free[1..];
    forall d, x | d in pages && x in pages[d].cells
      ensures d + x.offset in glue' && (d + x.offset in free[1..] || Loose(glue', d + x.offset))
    {
      PositiveAddress(m, sizes, pages, d, x);
      if d + x.offset !in free {
        StillLoose(glue, glue', [HEAD] + free, d + x.offset);
      }
    }
  }

  lemma SortedTail(m: Memory, free: seq<int>)
    requires Sorted(m, free) && free != []
    ensures Sorted(m, free[1..])
  {
  }

  lemma FirstOnce(glue: map<int, Glue>, free: seq<int>)
    requires Chain(glue, [HEAD] + free) && free != []
    ensures free[0] !in free[1..]
  {
    var c := [HEAD] + free;
    assert forall i :: 0 <= i < |free| ==> free[i] == c[i + 1];
  }

  /** The first block of the list is free, and is there only once. */
  lemma HeadIsFree(m: Memory, pages: Pages, glue: map<int, Glue>, free: seq<int>)
    requires Listed(m, pages, glue, free) && free != []
    ensures FreeAt(pages, free[0]) && free[0] !in free[1..]
  {
    hide FreeAt, Sorted, Chain;
    FirstOnce(glue, free);
    assert free[0] in free;
  }

  lemma StillLoose(glue: map<int, Glue>, glue': map<int, Glue>, c: seq<int>, a: int)
    requires SameOutside(glue, glue', set y | y in c) && Loose(glue, a) && a !in c
    ensures Loose(glue', a)
  {
  }

  /** A free block put on the list. */
  lemma Enlisted(m: Memory, sizes: map<int, int>, pages: Pages, glue: map<int, Glue>, free: seq<int>, a: int,
                 glue': map<int, Glue>, free': seq<int>)
    requires WellFormed(m, sizes, pages) && Listed(m, pages, glue, free) && FreeAt(pages, a)
    requires Chain(glue', [HEAD] + free') && Sorted(m, free') && (forall y :: y in free' <==> y in free || y == a)
    requires a in glue' && LinksKept(glue, glue', free, {a})
    ensures Listed(m, pages, glue', free')
  {
    hide FreeAt, Chain, Sorted;
    forall d, x | d in pages && x in pages[d].cells
      ensures d + x.offset in glue' && (d + x.offset in free' || Loose(glue', d + x.offset))
    {
      PositiveAddress(m, sizes, pages, d, x);
    }
  }

  // ---- freeing ----

  function SetFree(m: Memory, x: int, size: int): Memory
  {
    if x in m then m[x := m[x].(isFree := true, blockSize := size)] else m
  }

  ghost function WithGrown(pages: Pages, b: int, i: nat): Pages
    requires b in pages && i < |pages[b].cells|
  {
    pages[b := pages[b].(cells := Grown(pages[b].cells, i, pages[b].size))]
  }

  lemma GrownDone(m: Memory, sizes: map<int, int>, pages: Pages, glue: map<int, Glue>, free: seq<int>, b: int, i: nat,
                  m': Memory)
    requires WellFormed(m, sizes, pages) && Listed(m, pages, glue, free)
    requires b in pages && pages[b].mapped && i < |pages[b].cells| && !pages[b].cells[i].free
    requires m' == SetFree(m, b + pages[b].cells[i].offset,
        pages[b].cells[i].size + Gap(pages[b].cells, i, pages[b].size))
    ensures WellFormed(m', sizes, WithGrown(pages, b, i)) && Listed(m', WithGrown(pages, b, i), glue, free)
    ensures b + pages[b].cells[i].offset !in free
    ensures forall a :: FreeAt(WithGrown(pages, b, i), a) ==> FreeAt(pages, a) || a == b + pages[b].cells[i].offset
  {
    hide Tiled, Sorted, Chain, Coalesced, WellFormed, Stored, FreeAt, Listed, Grown;
    var c, P := pages[b].cells, pages[b].size;
    var r, x := Grown(c, i, P), b + c[i].offset;
    var pages' := pages[b := pages[b].(cells := r)];
    HeaderAt(m, sizes, pages, b, i);
    GrownTiled(c, P, i);
    StoredGrown(m, b, c, P, i, m');
    PageChanged(m, sizes, pages, b, m', pages'[b]);
    GrownCells(c, P, i);
    BlockLinks(m, pages, glue, free, b, c[i]);
    NotListed(m, sizes, pages, glue, free, b, i);
    SortedElsewhere(m, m', free);
    AtOne(b, c[i]);
    AtOne(b, r[i]);
    assert {x} + {x} == {x};
    ListKept(m, sizes, pages, glue, free, b, r, {c[i]}, {r[i]}, m', glue, free);
    forall a | FreeAt(pages', a) ensures FreeAt(pages, a) || a == x {
      var d, y := FreeBlock(pages', a);
      if d != b || y != r[i] {
        FreeHere(pages, d, y);
      }
    }
  }

  /** An allocated block is not in the list. */
  lemma NotListed(m: Memory, sizes: map<int, int>, pages: Pages, glue: map<int, Glue>, free: seq<int>, b: int, i: nat)
    requires WellFormed(m, sizes, pages) && Listed(m, pages, glue, free)
    requires b in pages && i < |pages[b].cells| && !pages[b].cells[i].free
    ensures b + pages[b].cells[i].offset !in free
  {
    hide Chain, Sorted, FreeAt, WellFormed, Glued;
    var x := pages[b].cells[i];
    forall a | a in free ensures a != b + x.offset {
      var d, y := FreeBlock(pages, a);
      if a == b + x.offset {
        SameBlock(m, sizes, pages, d, y, b, x);
      }
    }
  }

  ghost function WithMerged(pages: Pages, b: int, i: nat): (r: Pages)
    requires b in pages && i + 1 < |pages[b].cells|
    ensures r.Keys == pages.Keys && (forall d :: d in pages && d != b ==> r[d] == pages[d])
    ensures r[b] == pages[b].(cells := Merged(pages[b].cells, i))
  {
    pages[b := pages[b].(cells := Merged(pages[b].cells, i))]
  }

  lemma MergedDone(m: Memory, sizes: map<int, int>, pages: Pages, glue: map<int, Glue>, free: seq<int>, b: int, i: nat,
                   m': Memory, glue': map<int, Glue>, free': seq<int>)
    requires WellFormed(m, sizes, pages) && Listed(m, pages, glue, free)
    requires b in pages && pages[b].mapped && i + 1 < |pages[b].cells| && pages[b].cells[i].free
      && pages[b].cells[i + 1].free
    requires Stored(m', b, b, Merged(pages[b].cells, i))
    requires forall a :: a in m && !(b <= a < b + pages[b].size) ==> a in m' && m'[a] == m[a]
    requires Chain(glue', [HEAD] + free') && Sorted(m', free')
    requires var c := pages[b].cells; var x, y := b + c[i].offset, b + c[i + 1].offset;
      && Loose(glue', x)
      && (forall a :: a in free' <==> a in free && a != x && a != y)
      && LinksKept(glue, glue', free, {x, y})
    ensures WellFormed(m', sizes, WithMerged(pages, b, i))
    ensures Listed(m', WithMerged(pages, b, i), glue', free')
    ensures forall a :: FreeAt(WithMerged(pages, b, i), a) ==>
      FreeAt(pages, a) && a != b + pages[b].cells[i + 1].offset
  {
    hide Tiled, Sorted, Chain, WellFormed, Stored, FreeAt, Listed, Merged, LinksKept, WithMerged, At;
    var c, P := pages[b].cells, pages[b].size;
    var r := Merged(c, i);
    MergedWellFormed(m, sizes, pages, b, i, m');
    MergedCells(c, P, i);
    var x, y := b + c[i].offset, b + c[i + 1].offset;
    var gone, made := {c[i], c[i + 1]}, {r[i]};
    AtTwo(b, c[i], c[i + 1]);
    AtOne(b, r[i]);
    assert At(b, gone) == {x, y} && At(b, made) == {x};
    assert At(b, gone) + At(b, made) == {x, y};
    ListKept(m, sizes, pages, glue, free, b, r, gone, made, m', glue', free');
    MergedFrees(m, sizes, pages, b, i);
  }

  lemma MergedWellFormed(m: Memory, sizes: map<int, int>, pages: Pages, b: int, i: nat, m': Memory)
    requires WellFormed(m, sizes, pages)
    requires b in pages && pages[b].mapped && i + 1 < |pages[b].cells| && pages[b].cells[i].free
      && pages[b].cells[i + 1].free
    requires Stored(m', b, b, Merged(pages[b].cells, i))
    requires forall a :: a in m && !(b <= a < b + pages[b].size) ==> a in m' && m'[a] == m[a]
    ensures Tiled(pages[b].cells, pages[b].size)
    ensures WellFormed(m', sizes, WithMerged(pages, b, i)) && b + pages[b].cells[i].offset in m
    ensures WithMerged(pages, b, i) == pages[b := pages[b].(cells := Merged(pages[b].cells, i))]
  {
    hide Tiled, WellFormed, Stored, Merged;
    HeaderAt(m, sizes, pages, b, i);
    MergedTiled(pages[b].cells, pages[b].size, i);
    PageChanged(m, sizes, pages, b, m', pages[b].(cells := Merged(pages[b].cells, i)));
  }

  lemma MergedFrees(m: Memory, sizes: map<int, int>, pages: Pages, b: int, i: nat)
    requires WellFormed(m, sizes, pages)
    requires b in pages && pages[b].mapped && i + 1 < |pages[b].cells| && pages[b].cells[i].free
      && pages[b].cells[i + 1].free
    ensures forall a :: FreeAt(WithMerged(pages, b, i), a) ==>
      FreeAt(pages, a) && a != b + pages[b].cells[i + 1].offset
  {
    hide WellFormed, FreeAt, Merged, Tiled;
    var c := pages[b].cells;
    var r := Merged(c, i);
    HeaderAt(m, sizes, pages, b, i);
    MergedCells(c, pages[b].size, i);
    Apart(c, pages[b].size, i, i + 1);
    forall a | FreeAt(WithMerged(pages, b, i), a) ensures FreeAt(pages, a) && a != b + c[i + 1].offset {
      var d, z := FreeBlock(WithMerged(pages, b, i), a);
      if d == b && z == r[i] {
        FreeHere(pages, b, c[i]);
      } else {
        FreeHere(pages, d, z);
        if a == b + c[i + 1].offset {
          SameBlock(m, sizes, pages, d, z, b, c[i + 1]);
        }
      }
    }
  }

  lemma FreedCoalescedThere(pages: Pages, b: int, i: nat)
    requires AllCoalesced(pages) && b in pages && i < |pages[b].cells| && !pages[b].cells[i].free
      && Tiled(pages[b].cells, pages[b].size)
    ensures AllCoalesced(pages[b := pages[b].(cells := Freed(pages[b].cells, i, pages[b].size))])
  {
    hide Tiled, Coalesced, Freed;
    FreedCoalesced(pages[b].cells, pages[b].size, i);
  }

  /** A page of one free block is in order. */
  lemma OnePage(m: Memory, sizes: map<int, int>, pages: Pages, glue: map<int, Glue>, free: seq<int>, b: int, p: Page,
                m': Memory, sizes': map<int, int>)
    requires WellFormed(m, sizes, pages) && Listed(m, pages, glue, free)
    requires b > 0 && FIRST + META <= p.size <= UINT32_MAX
      && p == Page(p.size, [Cell(FIRST, p.size - FIRST - META, true)], true)
    requires b in pages ==> !pages[b].mapped
    requires forall d :: d in pages && d != b ==> d + pages[d].size <= b || b + p.size <= d
    requires m' == m[b + FIRST := Header(true, p.size - (FIRST + META), FIRST, b, UINT64_MAX, UINT64_MAX)]
      && sizes' == sizes[b := p.size]
    ensures WellFormed(m', sizes', pages[b := p]) && b + FIRST !in free
    ensures forall y :: y in free ==> SizeIn(m', y) == SizeIn(m, y)
  {
    hide Chain, Sorted, FreeAt, Glued;
    var c := p.cells;
    assert Fits(c, 0, p.size) && StoredAt(m', b, b, c, 0);
    PageAdded(m, sizes, pages, b, m', sizes', p);
    forall y | y in free ensures y != b + FIRST {
      var d, x := FreeBlock(pages, y);
      assert d != b;
      var j :| 0 <= j < |pages[d].cells| && pages[d].cells[j] == x;
      HeaderAt(m, sizes, pages, d, j);
    }
  }

  lemma OneListed(m: Memory, sizes: map<int, int>, pages: Pages, glue: map<int, Glue>, free: seq<int>, b: int, p: Page,
                  m': Memory, sizes': map<int, int>, glue': map<int, Glue>, free': seq<int>)
    requires WellFormed(m, sizes, pages) && Listed(m, pages, glue, free)
    requires p == Page(p.size, [Cell(FIRST, p.size - FIRST - META, true)], true)
      && WellFormed(m', sizes', pages[b := p])
    requires b in pages ==> !pages[b].mapped
    requires Chain(glue', [HEAD] + free') && Sorted(m', free')
      && (forall y :: y in free' <==> y in free || y == b + FIRST)
    requires b + FIRST in glue' && LinksKept(glue, glue', free, {b + FIRST})
    ensures Listed(m', pages[b := p], glue', free') && (AllCoalesced(pages) ==> AllCoalesced(pages[b := p]))
    ensures forall a :: FreeAt(pages[b := p], a) ==> FreeAt(pages, a) || a == b + FIRST
  {
    hide Chain, Sorted, FreeAt, WellFormed;
    var pages' := pages[b := p];
    var y := p.cells[0];
    forall a | a in free' ensures FreeAt(pages', a) {
      if a == b + FIRST {
        FreeHere(pages', b, y);
      } else {
        var d, x := FreeBlock(pages, a);
        FreeHere(pages', d, x);
      }
    }
    forall d, x | d in pages' && x in pages'[d].cells
      ensures d + x.offset in glue' && (d + x.offset in free' || Loose(glue', d + x.offset))
    {
      if d != b {
        assert d in pages && x in pages[d].cells;
        PositiveAddress(m, sizes, pages, d, x);
        if d + x.offset == b + FIRST {
          SameBlock(m', sizes', pages', d, x, b, y);
        }
      }
    }
    forall a | FreeAt(pages', a) ensures FreeAt(pages, a) || a == b + FIRST {
      var d, x := FreeBlock(pages', a);
      if d != b {
        FreeHere(pages, d, x);
      }
    }
  }

  /** The first header of a page, where the walk over its blocks starts. */
  lemma HeadHeader(m: Memory, sizes: map<int, int>, pages: Pages, glue: map<int, Glue>, free: seq<int>, b: int)
    requires WellFormed(m, sizes, pages) && Listed(m, pages, glue, free) && b in pages
    ensures var c := pages[b].cells;
      b > 0 && c != [] && b + FIRST in m && m[b + FIRST].offset == FIRST && c[0].offset == FIRST
    ensures Chain(glue, [HEAD] + free) && Sorted(m, free) && Tiled(pages[b].cells, pages[b].size)
    ensures var base := if pages[b].mapped then b else 0; StoredPartly(m, b, b - base, base, pages[b].cells, 0)
    ensures SameElsewhere(m, m, b, pages[b].size)
    ensures LinksKept(glue, glue, free, {})
    ensures Addresses(b, pages[b].cells, 0) == {} && FreeAddresses(b, pages[b].cells, 0) == {}
    ensures forall j :: 0 <= j < |pages[b].cells| ==> pages[b].cells[j].offset < UINT64_MAX
  {
    hide Chain, Sorted, FreeAt, Glued;
    forall j | 0 <= j < |pages[b].cells| ensures pages[b].cells[j].offset < UINT64_MAX {
      HeaderAt(m, sizes, pages, b, j);
    }
    assert PageAt(m, sizes, b, pages[b]) && StoredAt(m, b, if pages[b].mapped then b else 0, pages[b].cells, 0);
  }

  // ---- putting a page away and taking it up again ----

  /** The headers of page b, with base address `done` in the first k of them and `todo` in the others. */
  ghost predicate StoredPartly(m: Memory, b: int, done: int, todo: int, c: seq<Cell>, k: int)
  {
    && (forall j :: 0 <= j < |c| && j < k ==> StoredAt(m, b, done, c, j))
    && (forall j :: 0 <= j < |c| && k <= j ==> StoredAt(m, b, todo, c, j))
  }

  ghost predicate SameElsewhere(m: Memory, m': Memory, b: int, size: int)
  {
    && (forall a :: a in m && !(b <= a < b + size) ==> a in m' && m'[a] == m[a])
    && forall a :: SizeIn(m', a) == SizeIn(m, a)
  }

  /** One header's base address changes. */
  lemma StoredNext(m: Memory, b: int, done: int, todo: int, c: seq<Cell>, pageSize: int, k: nat, m0: Memory)
    requires StoredPartly(m, b, done, todo, c, k) && k < |c| && Tiled(c, pageSize) && SameElsewhere(m0, m, b, pageSize)
    ensures var x := b + c[k].offset;
      && x in m && m[x] == Header(c[k].free, c[k].size, c[k].offset, todo, PrevOffset(c, k), NextOffset(c, k))
      && StoredPartly(m[x := m[x].(baseAddress := done)], b, done, todo, c, k + 1)
      && SameElsewhere(m0, m[x := m[x].(baseAddress := done)], b, pageSize)
  {
    var x := b + c[k].offset;
    assert StoredAt(m, b, todo, c, k);
    var m' := m[x := m[x].(baseAddress := done)];
    Within(c, pageSize, k);
    forall j | 0 <= j < |c| && j < k + 1 ensures StoredAt(m', b, done, c, j) {
      assert j < k ==> StoredAt(m, b, done, c, j);
    }
    forall j | 0 <= j < |c| && k + 1 <= j ensures StoredAt(m', b, todo, c, j) {
      assert StoredAt(m, b, todo, c, j);
    }
  }

  /** The addresses of the first k blocks. */
  ghost function Addresses(b: int, c: seq<Cell>, k: int): set<int>
    requires k <= |c|
  {
    set j | 0 <= j < k :: b + c[j].offset
  }

  lemma InAddresses(b: int, c: seq<Cell>, x: Cell)
    requires x in c
    ensures b + x.offset in Addresses(b, c, |c|)
  {
    var j :| 0 <= j < |c| && c[j] == x;
  }

  lemma NextAddress(b: int, c: seq<Cell>, pageSize: int, k: nat)
    requires Tiled(c, pageSize) && k < |c|
    ensures Addresses(b, c, k + 1) == Addresses(b, c, k) + {b + c[k].offset} && b + c[k].offset !in Addresses(b, c, k)
    ensures FreeAddresses(b, c, k + 1) == FreeAddresses(b, c, k) + (if c[k].free then {b + c[k].offset} else {})
    ensures b + c[k].offset !in FreeAddresses(b, c, k)
  {
    Within(c, pageSize, k);
  }

  /** Blocks put away before stay loose when one more node is touched. */
  lemma LooseKept(g1: map<int, Glue>, g2: map<int, Glue>, f1: seq<int>, b: int, c: seq<Cell>, pageSize: int, k: nat,
                  x: int)
    requires LinksKept(g1, g2, f1, {x}) && b > 0 && Tiled(c, pageSize) && k < |c|
    requires forall y :: y in Addresses(b, c, k) ==> Loose(g1, y) && y !in f1 && y != x
    ensures forall y :: y in Addresses(b, c, k) ==> Loose(g2, y)
  {
    forall y | y in Addresses(b, c, k) ensures Loose(g2, y) {
      var j :| 0 <= j < k && y == b + c[j].offset;
      Within(c, pageSize, j);
    }
  }

  lemma PutAway(m: Memory, sizes: map<int, int>, pages: Pages, glue: map<int, Glue>, free: seq<int>, b: int,
                m': Memory, glue': map<int, Glue>, free': seq<int>)
    requires WellFormed(m, sizes, pages) && Listed(m, pages, glue, free) && b in pages && pages[b].mapped
    requires var c := pages[b].cells;
      && StoredPartly(m', b, 0, b, c, |c|) && SameElsewhere(m, m', b, pages[b].size)
      && Chain(glue', [HEAD] + free') && Sorted(m', free')
      && (forall y :: y in free' <==> y in free && y !in Addresses(b, c, |c|))
      && LinksKept(glue, glue', free, Addresses(b, c, |c|))
      && forall y :: y in Addresses(b, c, |c|) ==> Loose(glue', y)
    ensures WellFormed(m', sizes, pages[b := pages[b].(mapped := false)])
    ensures Listed(m', pages[b := pages[b].(mapped := false)], glue', free')
    ensures forall a :: FreeAt(pages[b := pages[b].(mapped := false)], a) ==>
      FreeAt(pages, a) && a !in Addresses(b, pages[b].cells, |pages[b].cells|)
  {
    hide Chain, Sorted, FreeAt, WellFormed, Loose, Glued, LinksKept;
    var c, p := pages[b].cells, pages[b].(mapped := false);
    var pages' := pages[b := p];
    PageFacts(m, sizes, pages, b);
    PageChanged(m, sizes, pages, b, m', p);
    forall a | a in free' ensures FreeAt(pages', a) {
      var d, x := FreeBlock(pages, a);
      if d == b {
        InAddresses(b, c, x);
        assert false;
      }
      FreeHere(pages', d, x);
    }
    forall a | FreeAt(pages', a) ensures FreeAt(pages, a) && a !in Addresses(b, c, |c|) {
      var d, x := FreeBlock(pages', a);
      FreeHere(pages, d, x);
      forall j | 0 <= j < |c| ensures a != b + c[j].offset {
        if a == b + c[j].offset {
          SameBlock(m, sizes, pages, d, x, b, c[j]);
        }
      }
    }
    LooseAway(m, sizes, pages, glue, free, b, glue', free');
  }

  lemma LooseAway(m: Memory, sizes: map<int, int>, pages: Pages, glue: map<int, Glue>, free: seq<int>, b: int,
                  glue': map<int, Glue>, free': seq<int>)
    requires WellFormed(m, sizes, pages) && Glued(pages, glue, free) && b in pages
    requires var c := pages[b].cells;
      && (forall y :: y in free' <==> y in free && y !in Addresses(b, c, |c|))
      && LinksKept(glue, glue', free, Addresses(b, c, |c|))
      && forall y :: y in Addresses(b, c, |c|) ==> Loose(glue', y)
    ensures Glued(pages[b := pages[b].(mapped := false)], glue', free')
  {
    hide WellFormed, Addresses;
    var c := pages[b].cells;
    var pages' := pages[b := pages[b].(mapped := false)];
    forall d, x | d in pages' && x in pages'[d].cells
      ensures d + x.offset in glue' && (d + x.offset in free' || Loose(glue', d + x.offset))
    {
      assert d in pages && x in pages[d].cells;
      PositiveAddress(m, sizes, pages, d, x);
      if d == b {
        InAddresses(b, c, x);
      }
    }
  }

  lemma LinksMore(g0: map<int, Glue>, g1: map<int, Glue>, f0: seq<int>, s: set<int>, a: int)
    requires LinksKept(g0, g1, f0, s)
    ensures LinksKept(g0, g1, f0, s + {a})
  {
  }

  /** While the first k blocks are put away, block k is linked as it was. */
  lemma StillLinked(m: Memory, sizes: map<int, int>, pages: Pages, glue: map<int, Glue>, free: seq<int>, b: int,
                    k: nat, glue': map<int, Glue>, free': seq<int>)
    requires WellFormed(m, sizes, pages) && Listed(m, pages, glue, free) && b in pages && k < |pages[b].cells|
    requires forall y :: y in free' <==> y in free && y !in Addresses(b, pages[b].cells, k)
    requires LinksKept(glue, glue', free, Addresses(b, pages[b].cells, k))
      && b + pages[b].cells[k].offset !in Addresses(b, pages[b].cells, k)
    ensures var x := b + pages[b].cells[k].offset;
      && x > 0 && (x in free' || Loose(glue', x))
      && (!pages[b].cells[k].free ==> x !in free' && x !in free)
  {
    hide WellFormed, Chain, Sorted, FreeAt, Glued, Listed;
    var x := pages[b].cells[k];
    BlockLinks(m, pages, glue, free, b, x);
    HeaderAt(m, sizes, pages, b, k);
    if !x.free {
      NotListed(m, sizes, pages, glue, free, b, k);
    }
  }

  /** The free blocks among the first k. */
  ghost function FreeAddresses(b: int, c: seq<Cell>, k: int): set<int>
    requires k <= |c|
  {
    set j | 0 <= j < k && c[j].free :: b + c[j].offset
  }

  /** The same, in the order of the page. */
  ghost function FreeInOrder(b: int, c: seq<Cell>, k: nat): seq<int>
    requires k <= |c|
  {
    if k == 0 then []
    else FreeInOrder(b, c, k - 1) + if c[k - 1].free then [b + c[k - 1].offset] else []
  }

  /** A listed block of page b is one of its free blocks. */
  lemma ListedIsFree(m: Memory, sizes: map<int, int>, pages: Pages, glue: map<int, Glue>, free: seq<int>, b: int,
                     a: int)
    requires WellFormed(m, sizes, pages) && Listed(m, pages, glue, free) && b in pages
    requires a in free && a in Addresses(b, pages[b].cells, |pages[b].cells|)
    ensures a in FreeAddresses(b, pages[b].cells, |pages[b].cells|)
  {
    hide WellFormed, Sorted, Chain, FreeAt;
    var c := pages[b].cells;
    var j :| 0 <= j < |c| && a == b + c[j].offset;
    var d, x := FreeBlock(pages, a);
    SameBlock(m, sizes, pages, b, c[j], d, x);
  }

  lemma FreeThere(pages: Pages, b: int, a: int)
    requires b in pages && pages[b].mapped && a in FreeAddresses(b, pages[b].cells, |pages[b].cells|)
    ensures FreeAt(pages, a) && a in Addresses(b, pages[b].cells, |pages[b].cells|)
  {
    var c := pages[b].cells;
    var j :| 0 <= j < |c| && c[j].free && a == b + c[j].offset;
    assert c[j] in c;
  }

  lemma KeysKept(g1: map<int, Glue>, g2: map<int, Glue>, f: seq<int>, x: int)
    requires LinksKept(g1, g2, f, {x})
    ensures g1.Keys <= g2.Keys
  {
  }

  /** No block of a page that is put away is in the list. */
  lemma NotYetListed(m: Memory, sizes: map<int, int>, pages: Pages, glue: map<int, Glue>, free: seq<int>, b: int,
                     k: nat)
    requires WellFormed(m, sizes, pages) && Listed(m, pages, glue, free) && b in pages && !pages[b].mapped
      && k < |pages[b].cells|
    ensures var x := b + pages[b].cells[k].offset; x !in free && x > 0
  {
    hide WellFormed, Chain, Sorted, FreeAt, Glued;
    var x := pages[b].cells[k];
    PositiveAddress(m, sizes, pages, b, x);
    forall a | a in free ensures a != b + x.offset {
      var d, y := FreeBlock(pages, a);
      if a == b + x.offset {
        SameBlock(m, sizes, pages, d, y, b, x);
      }
    }
  }

  lemma TakenUp(m: Memory, sizes: map<int, int>, pages: Pages, glue: map<int, Glue>, free: seq<int>, b: int,
                m': Memory, glue': map<int, Glue>, free': seq<int>)
    requires WellFormed(m, sizes, pages) && Listed(m, pages, glue, free) && b in pages && !pages[b].mapped
    requires var c := pages[b].cells;
      && StoredPartly(m', b, b, 0, c, |c|) && SameElsewhere(m, m', b, pages[b].size)
      && Chain(glue', [HEAD] + free') && Sorted(m', free')
      && (forall y :: y in free' <==> y in free || y in FreeAddresses(b, c, |c|))
      && LinksKept(glue, glue', free, FreeAddresses(b, c, |c|))
      && forall y :: y in FreeAddresses(b, c, |c|) ==> y in glue'
    ensures var pages' := pages[b := pages[b].(mapped := true)];
      && WellFormed(m', sizes, pages') && Listed(m', pages', glue', free')
      && forall a :: FreeAt(pages', a) ==> FreeAt(pages, a) || a in free'
  {
    hide Chain, Sorted, FreeAt, WellFormed, Loose, Glued, LinksKept;
    var c, p := pages[b].cells, pages[b].(mapped := true);
    var pages' := pages[b := p];
    PageFacts(m, sizes, pages, b);
    PageChanged(m, sizes, pages, b, m', p);
    forall a | a in free' ensures FreeAt(pages', a) {
      if a in free {
        var d, x := FreeBlock(pages, a);
        FreeHere(pages', d, x);
      } else {
        var j :| 0 <= j < |c| && c[j].free && a == b + c[j].offset;
        FreeHere(pages', b, c[j]);
      }
    }
    forall a | FreeAt(pages', a) ensures FreeAt(pages, a) || a in free' {
      var d, x := FreeBlock(pages', a);
      if d == b {
        var j :| 0 <= j < |c| && c[j] == x;
        assert a in FreeAddresses(b, c, |c|);
      } else {
        FreeHere(pages, d, x);
      }
    }
    LooseUp(m, sizes, pages, glue, free, b, glue', free');
  }

  lemma LooseUp(m: Memory, sizes: map<int, int>, pages: Pages, glue: map<int, Glue>, free: seq<int>, b: int,
                glue': map<int, Glue>, free': seq<int>)
    requires WellFormed(m, sizes, pages) && Glued(pages, glue, free) && b in pages
    requires var c := pages[b].cells;
      && (forall y :: y in free' <==> y in free || y in FreeAddresses(b, c, |c|))
      && LinksKept(glue, glue', free, FreeAddresses(b, c, |c|))
      && forall y :: y in FreeAddresses(b, c, |c|) ==> y in glue'
    ensures Glued(pages[b := pages[b].(mapped := true)], glue', free')
  {
    hide WellFormed;
    var pages' := pages[b := pages[b].(mapped := true)];
    forall d, x | d in pages' && x in pages'[d].cells
      ensures d + x.offset in glue' && (d + x.offset in free' || Loose(glue', d + x.offset))
    {
      assert d in pages && x in pages[d].cells;
      PositiveAddress(m, sizes, pages, d, x);
    }
  }

  /** Worst fit: no block on the list is larger than the first. With every free block listed, an allocation succeeds
      exactly when some free block is large enough. */
  lemma LargestFirst(m: Memory, sizes: map<int, int>, pages: Pages, glue: map<int, Glue>, free: seq<int>, size: int)
    requires WellFormed(m, sizes, pages) && Listed(m, pages, glue, free)
    requires forall a :: FreeAt(pages, a) ==> a in free
    ensures (free != [] && SizeIn(m, free[0]) >= size)
       <==> exists b, x :: b in pages && pages[b].mapped && x in pages[b].cells && x.free && x.size >= size
  {
    hide WellFormed, Chain, FreeAt, Glued;
    if free != [] && SizeIn(m, free[0]) >= size {
      var b, i := HeadBlock(m, sizes, pages, glue, free);
      HeaderAt(m, sizes, pages, b, i);
      assert pages[b].cells[i] in pages[b].cells;
    }
    if b, x :| b in pages && pages[b].mapped && x in pages[b].cells && x.free && x.size >= size {
      FreeHere(pages, b, x);
      var i :| 0 <= i < |pages[b].cells| && pages[b].cells[i] == x;
      HeaderAt(m, sizes, pages, b, i);
      var k :| 0 <= k < |free| && free[k] == b + x.offset;
      assert k > 0 ==> SizeIn(m, free[0]) >= SizeIn(m, free[k]);
    }
  }

  // ---- what the user holds ----

  /** The user regions in use: address and size. */
  ghost function Live(pages: Pages): set<(int, int)>
  {
    set b, x | b in pages && x in pages[b].cells && !x.free :: (b + x.offset + META, x.size)
  }

  lemma LiveAt(pages: Pages, r: (int, int)) returns (b: int, x: Cell)
    requires r in Live(pages)
    ensures b in pages && x in pages[b].cells && !x.free && r == (b + x.offset + META, x.size)
  {
    b, x :| b in pages && x in pages[b].cells && !x.free && r == (b + x.offset + META, x.size);
  }

  lemma LiveHere(pages: Pages, b: int, x: Cell)
    requires b in pages && x in pages[b].cells && !x.free
    ensures (b + x.offset + META, x.size) in Live(pages)
  {
  }

  /** An allocation adds its region, at an address where none was. */
  lemma LiveTaken(m: Memory, sizes: map<int, int>, pages: Pages, b: int, i: nat, size: int)
    requires WellFormed(m, sizes, pages) && b in pages && i < |pages[b].cells| && pages[b].cells[i].free
      && 0 <= size <= pages[b].cells[i].size
    ensures var a := b + pages[b].cells[i].offset + META;
      && Live(pages[b := pages[b].(cells := Taken(pages[b].cells, i, size))]) == Live(pages) + {(a, size)}
      && forall r :: r in Live(pages) ==> r.0 != a
  {
    hide WellFormed, Live, Taken;
    var c := pages[b].cells;
    var used := Cell(c[i].offset, size, false);
    var pages' := pages[b := pages[b].(cells := Taken(c, i, size))];
    PageFacts(m, sizes, pages, b);
    TakenAllocates(c, pages[b].size, i, size);
    forall r | r in Live(pages') ensures r in Live(pages) + {(b + used.offset + META, size)} {
      var d, x := LiveAt(pages', r);
      assert d == b ==> x in Allocated(Taken(c, i, size));
      if d != b || x != used {
        LiveHere(pages, d, x);
      }
    }
    forall r | r in Live(pages) + {(b + used.offset + META, size)} ensures r in Live(pages') {
      assert used in Allocated(Taken(c, i, size));
      if r in Live(pages) {
        var d, x := LiveAt(pages, r);
        assert d == b ==> x in Allocated(c);
        LiveHere(pages', d, x);
      } else {
        LiveHere(pages', b, used);
      }
    }
    forall r | r in Live(pages) ensures r.0 != b + c[i].offset + META {
      var d, x := LiveAt(pages, r);
      if r.0 == b + c[i].offset + META {
        SameBlock(m, sizes, pages, d, x, b, c[i]);
      }
    }
  }

  /** Freeing takes exactly its own region away. */
  lemma LiveFreed(m: Memory, sizes: map<int, int>, pages: Pages, b: int, i: nat)
    requires WellFormed(m, sizes, pages) && b in pages && i < |pages[b].cells| && !pages[b].cells[i].free
    ensures var x := pages[b].cells[i];
      Live(pages[b := pages[b].(cells := Freed(pages[b].cells, i, pages[b].size))])
        == Live(pages) - {(b + x.offset + META, x.size)}
  {
    hide WellFormed, Live, Freed;
    var c := pages[b].cells;
    var r0 := (b + c[i].offset + META, c[i].size);
    var pages' := pages[b := pages[b].(cells := Freed(c, i, pages[b].size))];
    PageFacts(m, sizes, pages, b);
    FreedReleases(c, pages[b].size, i);
    forall r | r in Live(pages') ensures r in Live(pages) - {r0} {
      var d, x := LiveAt(pages', r);
      assert d == b ==> x in Allocated(Freed(c, i, pages[b].size));
      LiveHere(pages, d, x);
      if r == r0 {
        SameBlock(m, sizes, pages, d, x, b, c[i]);
      }
    }
    forall r | r in Live(pages) - {r0} ensures r in Live(pages') {
      var d, x := LiveAt(pages, r);
      if d == b {
        assert x in Allocated(c) && x != c[i];
        assert x in Allocated(Freed(c, i, pages[b].size));
      }
      LiveHere(pages', d, x);
    }
  }

  /** Whatever is in use does not overlap anything else in use, nor any header. */
  lemma LiveDisjoint(m: Memory, sizes: map<int, int>, pages: Pages, r: (int, int), d: int, y: Cell)
    requires WellFormed(m, sizes, pages) && r in Live(pages) && d in pages && y in pages[d].cells
    requires r.0 != d + y.offset + META
    ensures r.0 + r.1 <= d + y.offset || d + y.offset + META + y.size <= r.0 - META
  {
    hide Live;
    var b, x := LiveAt(pages, r);
    PageFacts(m, sizes, pages, b);
    PageFacts(m, sizes, pages, d);
    var i :| 0 <= i < |pages[b].cells| && pages[b].cells[i] == x;
    var j :| 0 <= j < |pages[d].cells| && pages[d].cells[j] == y;
    HeaderAt(m, sizes, pages, b, i);
    HeaderAt(m, sizes, pages, d, j);
    if d == b {
      Disjoint(pages[b].cells, pages[b].size, x, y);
    }
  }

  /** With nothing in use on a page, it is the one free block it was initialised with. */
  lemma NothingLive(m: Memory, sizes: map<int, int>, pages: Pages, b: int)
    requires WellFormed(m, sizes, pages) && b in pages && Coalesced(pages[b].cells)
    requires forall r :: r in Live(pages) ==> !(b <= r.0 < b + pages[b].size + META)
    ensures pages[b].cells == [Cell(FIRST, pages[b].size - FIRST - META, true)]
  {
    hide Live;
    PageFacts(m, sizes, pages, b);
    forall x | x in pages[b].cells ensures x.free {
      if !x.free {
        LiveHere(pages, b, x);
        var i :| 0 <= i < |pages[b].cells| && pages[b].cells[i] == x;
        HeaderAt(m, sizes, pages, b, i);
      }
    }
    AllFree(pages[b].cells, pages[b].size);
  }

  class Allocator {
    var mem: Memory
    var vmPageSize: map<int, int>
    const list: GlueMemory
    ghost var pages: Pages
    ghost var free: seq<int>       // the free list, in order
    ghost var since: seq<int>      // the same blocks, in the order in which they were listed

    ghost predicate Linked()
      reads this, list
    {
      Chain(list.glue, [HEAD] + free)
    }

    ghost predicate Valid()
      reads this, list
    {
      && WellFormed(mem, vmPageSize, pages) && Listed(mem, pages, list.glue, free)
      && AllCoalesced(pages) && free == Queue(mem, since)
    }

    /** Every free block is in the free list. */
    ghost predicate Complete()
      reads this
    {
      forall a :: FreeAt(pages, a) ==> a in free
    }

    constructor ()
      ensures Valid() && Complete() && pages == map[] && free == since == [] && fresh(list)
    {
      mem, vmPageSize, pages, free, since := map[], map[], map[], [], [];
      list := new GlueMemory(HEAD);
      new;
      assert [HEAD] + free == [HEAD];
    }

    /** allocator_add_block_to_free_block_list: behind every block at least as large, before every smaller one. */
    method AddToFreeList(a: int) returns (ghost k: nat)
      requires Linked() && Sorted(mem, free) && a !in free && a > 0 && a in mem && mem[a].isFree
      modifies list, `free, `since
      ensures Linked() && Sorted(mem, free)
      ensures k <= |old(free)| && free == old(free)[..k] + [a] + old(free)[k..] && since == old(since) + [a]
      ensures forall y :: y in old(free)[..k] ==> SizeIn(mem, y) >= SizeIn(mem, a)
      ensures forall y :: y in old(free)[k..] ==> SizeIn(mem, y) < SizeIn(mem, a)
      ensures free == Enqueue(mem, old(free), a) && forall y :: y in free <==> y in old(free) || y == a
      ensures a in list.glue && LinksKept(old(list.glue), list.glue, old(free), {a})
    {
      var m := mem;
      ghost var c, f := [HEAD] + free, free;
      assert a !in c;
      ghost var j := list.PriorityInsert(HEAD, a, (x, y) => Compare(m, x, y), c);
      free, since := f[..j] + [a] + f[j..], since + [a];
      assert [HEAD] + free == Inserted(c, j, a);
      InsertedThere(m, f, j, a, c);
      EnqueueSorted(m, f, a);
      k := EnqueuedAt(m, f, a);
    }

    static lemma InsertedThere(m: Memory, f: seq<int>, k: nat, a: int, c: seq<int>)
      requires c == [HEAD] + f && k < |c|
      requires forall i :: 0 < i <= k ==> Compare(m, a, c[i]) != -1
      requires k + 1 < |c| ==> Compare(m, a, c[k + 1]) == -1
      ensures f[..k] + [a] + f[k..] == Enqueue(m, f, a)
    {
      forall i | 0 <= i < k ensures SizeIn(m, f[i]) >= SizeIn(m, a) {
        assert c[i + 1] == f[i] && Compare(m, a, c[i + 1]) != -1;
      }
      assert k < |f| ==> c[k + 1] == f[k];
      EnqueueHere(m, f, k, a);
    }

    /** remove_glthread on a block's links: out of the free list if it is there. m0 is the memory by which the list was
        sorted. */
    method Unlist(a: int, ghost m0: Memory)
      requires Linked() && Sorted(m0, free) && (a in free || Loose(list.glue, a)) && a > 0
      requires forall y :: y in free && y != a ==> SizeIn(mem, y) == SizeIn(m0, y)
      modifies list, `free, `since
      ensures Linked() && Sorted(mem, free) && a !in free && Loose(list.glue, a)
      ensures free == Except(old(free), {a}) && since == Except(old(since), {a})
      ensures forall y :: y != a ==> (y in free <==> y in old(free))
      ensures LinksKept(old(list.glue), list.glue, old(free), {a})
    {
      hide Chain, Sorted, Except, LinksKept;
      ghost var c, f, glue0 := [HEAD] + free, free, list.glue;
      ghost var k: int := -1;
      if a in f {
        k := PlaceInList(glue0, f, a);
      } else {
        ExceptNone(f, {a});
      }
      list.Remove(a, c, if k >= 0 then k + 1 else -1);
      free, since := Except(free, {a}), Except(since, {a});
      ExceptElements(f, {a});
      KeptOutside(glue0, list.glue, f, a);
      if k >= 0 {
        StillSorted(m0, mem, f, k);
      } else {
        SortedElsewhere(m0, mem, f);
      }
    }

    static lemma KeptOutside(glue: map<int, Glue>, glue': map<int, Glue>, f: seq<int>, a: int)
      requires SameOutside(glue, glue', set y | y in [HEAD] + f)
      ensures LinksKept(glue, glue', f, {a})
    {
    }

    static lemma StillSorted(m: Memory, m': Memory, f: seq<int>, k: nat)
      requires k < |f| && Sorted(m, f) && forall i :: 0 <= i < |f| && i != k ==> SizeIn(m', f[i]) == SizeIn(m, f[i])
      ensures Sorted(m', f[..k] + f[k + 1..])
    {
      var r := f[..k] + f[k + 1..];
      forall i, j | 0 <= i < j < |r| ensures SizeIn(m', r[i]) >= SizeIn(m', r[j]) {
        var i', j' := if i < k then i else i + 1, if j < k then j else j + 1;
        assert r[i] == f[i'] && r[j] == f[j'];
      }
    }

    /** Where a listed block stands, and what the list is without it. */
    static lemma PlaceInList(glue: map<int, Glue>, f: seq<int>, a: int) returns (k: nat)
      requires Chain(glue, [HEAD] + f) && a in f
      ensures k < |f| && f[k] == a && ([HEAD] + f)[k + 1] == a
      ensures Except(f, {a}) == f[..k] + f[k + 1..] && [HEAD] + Except(f, {a}) == Removed([HEAD] + f, k + 1)
    {
      hide Chain, Except, Removed;
      k :| 0 <= k < |f| && f[k] == a;
      ListedOnce(glue, f);
      ExceptOne(f, k);
      HeadKept(f, k);
    }

    static lemma ListedOnce(glue: map<int, Glue>, f: seq<int>)
      requires Chain(glue, [HEAD] + f)
      ensures forall i, j :: 0 <= i < j < |f| ==> f[i] != f[j]
    {
      hide LinkedAt;
      var c := [HEAD] + f;
      assert forall i :: 0 <= i < |f| ==> f[i] == c[i + 1];
    }

    static lemma HeadKept(f: seq<int>, k: nat)
      requires k < |f|
      ensures [HEAD] + (f[..k] + f[k + 1..]) == Removed([HEAD] + f, k + 1)
    {
      var c := [HEAD] + f;
      assert c[..k + 1] == [HEAD] + f[..k] && c[k + 2..] == f[k + 1..];
    }

    method BindForAllocation(base: int, x: int, next: int)
      requires x in mem && next in mem && x != next && mem[next].nextBlock == UINT64_MAX
      requires mem[x].nextBlock != UINT64_MAX ==> var above := base + mem[x].nextBlock;
        above in mem && above != x && above != next
      modifies `mem
      ensures mem == BoundForAllocation(old(mem), base, x, next)
      ensures forall y :: SizeIn(mem, y) == SizeIn(old(mem), y)
    {
      mem := mem[next := mem[next].(prevBlock := mem[x].offset)];
      mem := mem[next := mem[next].(nextBlock := mem[x].nextBlock)];
      mem := mem[x := mem[x].(nextBlock := mem[next].offset)];
      if mem[next].nextBlock != UINT64_MAX {
        var above := base + mem[next].nextBlock;
        mem := mem[above := mem[above].(prevBlock := mem[next].offset)];
      }
    }

    /** The last part of the split: a free block is written at next, into what is left behind x, listed and bound. */
    method WriteRest(base: int, x: int, next: int, remaining: int)
      requires Linked() && Sorted(mem, free) && x in mem && x != next && next !in free && next > 0
      requires mem[x].nextBlock != UINT64_MAX ==> var above := base + mem[x].nextBlock;
        above in mem && above != x && above != next
      modifies `mem, `free, `since, list
      ensures x in old(mem) && mem == BoundForAllocation(old(mem)[next := RestHeader(old(mem)[x], base, remaining)],
          base, x, next)
      ensures free == Enqueue(mem, old(free), next) && since == old(since) + [next]
      ensures Linked() && Sorted(mem, free) && (forall y :: y in free <==> y in old(free) || y == next)
      ensures next in list.glue && LinksKept(old(list.glue), list.glue, old(free), {next})
    {
      hide Sorted, Chain, BoundForAllocation, LinksKept, Enqueue, SizeIn;
      ghost var free0 := free;
      HeaderElsewhere(mem, next, RestHeader(mem[x], base, remaining), free);
      mem := mem[next := RestHeader(mem[x], base, remaining)];
      var _ := AddToFreeList(next);
      ghost var m1 := mem;
      BindForAllocation(base, x, next);
      SortedElsewhere(m1, mem, free);
      EnqueueSame(m1, mem, free0, next);
    }

    /** WriteRest, after x left the list that was free0 with the links glue0. */
    method CutOff(base: int, x: int, next: int, remaining: int, ghost glue0: map<int, Glue>, ghost free0: seq<int>)
      requires Linked() && Sorted(mem, free) && x in mem && x != next && next !in free && next > 0
      requires mem[x].nextBlock != UINT64_MAX ==>
        var above := base + mem[x].nextBlock; above in mem && above != x && above != next
      requires x !in free && x > 0 && Loose(list.glue, x) && LinksKept(glue0, list.glue, free0, {x})
      requires forall y :: y in free ==> y in free0
      modifies `mem, `free, `since, list
      ensures x in old(mem) && free == Enqueue(mem, old(free), next) && since == old(since) + [next]
      ensures mem == BoundForAllocation(old(mem)[next := RestHeader(old(mem)[x], base, remaining)], base, x, next)
      ensures Linked() && Sorted(mem, free) && (forall y :: y in free <==> y in old(free) || y == next)
      ensures next in list.glue && Loose(list.glue, x) && LinksKept(glue0, list.glue, free0, {x, next})
    {
      hide Sorted, Chain, LinksKept, Loose, BoundForAllocation, RestHeader, Enqueue;
      ghost var glue1, free1 := list.glue, free;
      WriteRest(base, x, next, remaining);
      LooseThrough(glue1, list.glue, free1, next, x);
      LinksStep(glue0, glue1, list.glue, free0, free1, {x}, next);
      assert {x} + {next} == {x, next};
    }

    /** The end of the split: block i, already cut to size and off the list, leaves room for a header; m0, glue0 and
        free0 are the memory, the links and the list from before. */
    method SplitOff(base: int, x: int, size: int, remaining: int, ghost i: nat, ghost m0: Memory, ghost glue0: map<int,
                    Glue>,
                    ghost free0: seq<int>)
      requires WellFormed(m0, vmPageSize, pages) && Listed(m0, pages, glue0, free0) && AllCoalesced(pages)
      requires base in pages && pages[base].mapped && i < |pages[base].cells| && x == base + pages[base].cells[i].offset
      requires pages[base].cells[i].free && size >= 0 && remaining == pages[base].cells[i].size - size >= META
      requires x in m0 && mem == CutDown(m0, x, size) && x !in free0 && Loose(list.glue, x) && Linked()
        && Sorted(mem, free)
      requires (forall y :: y in free <==> y in free0) && LinksKept(glue0, list.glue, free0, {x})
      requires free == Queue(m0, since)
      modifies this, list
      ensures Valid() && since == old(since) + [x + META + size] && SameSizes(m0, mem, old(free))
      ensures pages == old(pages)[base := old(pages)[base].(cells := Taken(old(pages)[base].cells, i, size))]
      ensures (forall a :: a in free0 ==> a in free)
      ensures forall a :: FreeAt(pages, a) ==> (FreeAt(old(pages), a) && a != x) || a in free
    {
      hide WellFormed, Listed, Sorted, Chain, Coalesced, Taken, FreeAt, Stored, Tiled, StoredAt, BoundForAllocation,
        RestHeader, LinksKept, AllCoalesced, Loose, Enqueue, Queue;
      ghost var c, P, pages0, since0, free1 := pages[base].cells, pages[base].size, pages, since, free;
      HeaderAt(m0, vmPageSize, pages, base, i);
      PageFacts(m0, vmPageSize, pages, base);
      FreshHeader(m0, vmPageSize, pages, glue0, free0, base, i, size);
      StoredSplit(m0, base, c, P, i, size);
      var next := x + META + mem[x].blockSize;
      CutOff(base, x, next, remaining, glue0, free0);
      assert mem == SplitMemory(m0, base, c, i, size);
      QueueMore(m0, mem, free1, since0, next);
      pages := pages[base := pages[base].(cells := Taken(c, i, size))];
      TakenDone(m0, vmPageSize, pages0, glue0, free0, base, i, size, mem, list.glue, free);
    }

    /** allocator_split_free_data_block_for_allocation: block i of the page at base, taken off the free list before. */
    method SplitFreeBlock(base: int, x: int, size: int, ghost i: nat) returns (ok: bool)
      requires Valid() && base in pages && pages[base].mapped && i < |pages[base].cells| && size >= 0
      requires x == base + pages[base].cells[i].offset && pages[base].cells[i].free && x !in free
      modifies this, list
      ensures Valid() && ok == (size <= old(pages)[base].cells[i].size)
      ensures !ok ==> pages == old(pages) && mem == old(mem) && free == old(free) && since == old(since)
      ensures ok ==> SameSizes(old(mem), mem, old(free))
      ensures ok ==>
        since == old(since) + if old(pages)[base].cells[i].size - size < META then [] else [x + META + size]
      ensures ok ==>
        && pages == old(pages)[base := old(pages)[base].(cells := Taken(old(pages)[base].cells, i, size))]
        && (forall a :: a in old(free) ==> a in free)
        && forall a :: FreeAt(pages, a) ==> (FreeAt(old(pages), a) && a != x) || a in free
    {
      hide WellFormed, Listed, Sorted, Chain, Coalesced, Taken, FreeAt, Stored, Tiled, StoredAt, BoundForAllocation,
        RestHeader, LinksKept, AllCoalesced, Loose, Queue, Except;
      ghost var c, P, m0, glue0, free0, pages0 := pages[base].cells, pages[base].size, mem, list.glue, free, pages;
      HeaderAt(mem, vmPageSize, pages, base, i);
      BlockLinks(mem, pages, list.glue, free, base, c[i]);
      QueueSorted(mem, since);
      ExceptNone(since, {x});
      ExceptNone(free, {x});
      if mem[x].blockSize < size {
        return false;
      }
      var remaining := mem[x].blockSize - size;
      mem := mem[x := mem[x].(isFree := false, blockSize := size)];
      assert mem == CutDown(m0, x, size);
      Unlist(x, m0);
      if remaining < META {
        pages := pages[base := pages[base].(cells := Taken(c, i, size))];
        StoredTaken(m0, base, c, P, i, size, mem);
        QueueSame(m0, mem, since);
        TakenDone(m0, vmPageSize, pages0, glue0, free0, base, i, size, mem, list.glue, free);
        return true;
      }
      SplitOff(base, x, size, remaining, i, m0, glue0, free0);
      return true;
    }

    /** allocator_alloc_mem: from the largest free block, or nothing, and then that block is off the list all the
        same. */
    method AllocMem(reqSize: int) returns (addr: int, ghost b: int, ghost i: nat)
      requires Valid() && reqSize >= 0
      modifies this, list
      ensures Valid()
      ensures addr == NULL <==> old(free) == [] || old(SizeIn(mem, free[0])) < reqSize
      ensures addr == NULL ==> mem == old(mem) && pages == old(pages) && free == if old(free) == [] then []
        else old(free)[1..]
      ensures addr != NULL ==>
        && b in old(pages) && old(pages)[b].mapped && i < |old(pages)[b].cells|
        && var x := old(pages)[b].cells[i];
        && x.free && reqSize <= x.size && addr == b + x.offset + META && old(free)[0] == b + x.offset
        && pages == old(pages)[b := old(pages)[b].(cells := Taken(old(pages)[b].cells, i, reqSize))]
        && Live(pages) == old(Live(pages)) + {(addr, reqSize)} && (forall r :: r in old(Live(pages)) ==> r.0 != addr)
        && (old(Complete()) ==> Complete())
      ensures old(Complete()) ==> (Complete() <==> addr != NULL || old(free) == [])
      ensures old(free) != [] ==>
        exists p :: 0 <= p < |old(since)| && old(since)[p] == old(free)[0] &&
          (forall q :: 0 <= q < |old(since)| ==> SizeIn(old(mem), old(since)[q]) <= SizeIn(old(mem), old(free)[0])) &&
          (forall q :: 0 <= q < p ==> SizeIn(old(mem), old(since)[q]) < SizeIn(old(mem), old(free)[0]))
      ensures since == (if old(free) == [] then [] else Except(old(since), {old(free)[0]})) +
        if addr == NULL || old(pages)[b].cells[i].size - reqSize < META then [] else [addr + reqSize]
    {
      hide WellFormed, Listed, Sorted, Chain, FreeAt, AllCoalesced, Taken, Live, Queue, Except;
      var curr;
      curr, b, i := Dequeue();
      if curr == NULL {
        return NULL, 0, 0;
      }
      HeaderAt(mem, vmPageSize, pages, b, i);
      assert mem[curr].isFree;
      if mem[curr].blockSize < reqSize {
        return NULL, 0, 0;
      }
      LiveTaken(mem, vmPageSize, pages, b, i, reqSize);
      var ok := SplitFreeBlock(mem[curr].baseAddress, curr, reqSize, i);
      assert ok;
      addr := curr + META;
    }

    /** The first step of allocator_alloc_mem: the block that has been listed longest among the largest leaves the list;
        there is none exactly if the list is empty. */
    method Dequeue() returns (curr: int, ghost b: int, ghost i: nat)
      requires Valid()
      modifies list, `free, `since
      ensures Valid() && (curr == NULL <==> old(free) == [])
      ensures curr == NULL ==> free == since == []
      ensures curr != NULL ==>
        && b in pages && pages[b].mapped && i < |pages[b].cells| && pages[b].cells[i].free
        && curr == old(free)[0] == b + pages[b].cells[i].offset && curr !in free && FreeAt(pages, curr)
        && free == old(free)[1..] && since == Except(old(since), {curr})
      ensures curr != NULL ==>
        exists p :: 0 <= p < |old(since)| && old(since)[p] == curr &&
          (forall q :: 0 <= q < |old(since)| ==> SizeIn(mem, old(since)[q]) <= SizeIn(mem, curr)) &&
          (forall q :: 0 <= q < p ==> SizeIn(mem, old(since)[q]) < SizeIn(mem, curr))
    {
      hide WellFormed, Listed, Sorted, Chain, FreeAt, AllCoalesced, Queue, Except, Loose, SameOutside, SizeIn;
      ghost var glue0, free0, since0 := list.glue, free, since;
      QueueSorted(mem, since);
      ListFacts(mem, pages, list.glue, free);
      b, i := 0, 0;
      curr := list.DequeueFirst(HEAD, [HEAD] + free);
      if curr == NULL {
        NothingSince(free, since);
        return;
      }
      HeadIsFree(mem, pages, glue0, free0);
      ghost var p := HeadSince(mem, free0, since0);
      b, i := HeadBlock(mem, vmPageSize, pages, glue0, free0);
      assert Removed([HEAD] + free0, 1) == [HEAD] + free0[1..];
      Dequeued(mem, vmPageSize, pages, glue0, free0, list.glue);
      FirstLess(glue0, free0);
      QueueLess(mem, mem, free0, since, {curr});
      free, since := free[1..], Except(since, {curr});
    }

    /** Two blocks leave the free list, if they are there; the first one's size has just changed. */
    method UnlistBoth(x: int, y: int, ghost m0: Memory)
      requires Linked() && Sorted(m0, free) && x != y && x > 0 && y > 0
      requires (x in free || Loose(list.glue, x)) && (y in free || Loose(list.glue, y))
      requires forall z :: z in free && z != x ==> SizeIn(mem, z) == SizeIn(m0, z)
      modifies list, `free, `since
      ensures free == Except(old(free), {x, y}) && since == Except(old(since), {x, y})
      ensures Linked() && Sorted(mem, free) && Loose(list.glue, x)
      ensures forall z :: z in free <==> z in old(free) && z != x && z != y
      ensures LinksKept(old(list.glue), list.glue, old(free), {x, y})
    {
      hide Sorted, Chain, LinksKept, Loose, Except;
      ghost var glue0, free0 := list.glue, free;
      ExceptTwice(free, {x}, {y});
      ExceptTwice(since, {x}, {y});
      Unlist(x, m0);
      ghost var glue1, free1 := list.glue, free;
      if y !in free0 {
        LooseThrough(glue0, glue1, free0, x, y);
      }
      Unlist(y, mem);
      LooseThrough(glue1, list.glue, free1, y, x);
      LinksStep(glue0, glue1, list.glue, free0, free1, {x}, y);
      assert {x} + {y} == {x, y};
    }

    /** mm_union_free_blocks, after the lower block was given the upper one's size: blocks i and i + 1 become one, which
        is not on the list. */
    method UnionFreeBlocks(base: int, first: int, second: int, ghost i: nat)
      requires WellFormed(mem, vmPageSize, pages) && Listed(mem, pages, list.glue, free)
      requires base in pages && pages[base].mapped && i + 1 < |pages[base].cells| && pages[base].cells[i].free
        && pages[base].cells[i + 1].free
      requires first == base + pages[base].cells[i].offset && second == base + pages[base].cells[i + 1].offset
      modifies this, list
      ensures WellFormed(mem, vmPageSize, pages) && Listed(mem, pages, list.glue, free)
      ensures pages == WithMerged(old(pages), base, i)
      ensures free == Except(old(free), {first, second}) && since == Except(old(since), {first, second})
      ensures SameSizes(old(mem), mem, free)
      ensures forall a :: a in free <==> a in old(free) && a != first && a != second
      ensures forall a :: FreeAt(pages, a) ==> FreeAt(old(pages), a) && a != second
    {
      hide WellFormed, Listed, Sorted, Chain, FreeAt, Stored, Tiled, StoredAt, LinksKept, Merged, WithMerged,
        BoundForDeallocation, Loose, Except;
      ghost var c, P, m0, glue0, free0, pages0 := pages[base].cells, pages[base].size, mem, list.glue, free, pages;
      HeaderAt(mem, vmPageSize, pages, base, i);
      HeaderAt(mem, vmPageSize, pages, base, i + 1);
      BlockLinks(mem, pages, list.glue, free, base, c[i]);
      BlockLinks(mem, pages, list.glue, free, base, c[i + 1]);
      MergedHeaders(m0, base, c, P, i);
      mem := mem[first := mem[first].(blockSize := mem[first].blockSize + (mem[second].blockSize + META))];
      assert mem == SizedUp(m0, first, c[i].size + (c[i + 1].size + META));
      assert mem[first].isFree && mem[second].isFree;
      UnlistBoth(first, second, m0);
      ghost var m1 := mem;
      BindForDeallocation(base, first, second);
      assert mem == MergedMemory(m0, base, c, i);
      SortedElsewhere(m1, mem, free);
      pages := WithMerged(pages, base, i);
      MergedDone(m0, vmPageSize, pages0, glue0, free0, base, i, mem, list.glue, free);
    }

    method BindForDeallocation(base: int, x: int, y: int)
      requires x in mem && y in mem && x != y
      requires mem[y].nextBlock != UINT64_MAX ==> var above := base + mem[y].nextBlock;
        above in mem && above != x && above != y
      modifies `mem
      ensures mem == BoundForDeallocation(old(mem), base, x, y)
      ensures forall a :: SizeIn(mem, a) == SizeIn(old(mem), a)
    {
      mem := mem[x := mem[x].(nextBlock := mem[y].nextBlock)];
      if mem[y].nextBlock != UINT64_MAX {
        var above := base + mem[y].nextBlock;
        mem := mem[above := mem[above].(prevBlock := mem[x].offset)];
      }
    }

    /** block_addr. */
    static function BlockAddr(base: int, offset: int): int
    {
      if offset != UINT64_MAX then base + offset else NULL
    }

    /** The first part of allocator_free_block: block i is free and takes the gap behind it. */
    method Reclaim(base: int, x: int, ghost i: nat)
      requires WellFormed(mem, vmPageSize, pages) && Listed(mem, pages, list.glue, free)
      requires base in pages && pages[base].mapped && i < |pages[base].cells|
      requires x == base + pages[base].cells[i].offset && !pages[base].cells[i].free
      modifies `mem, `pages
      ensures WellFormed(mem, vmPageSize, pages) && Listed(mem, pages, list.glue, free)
      ensures pages == WithGrown(old(pages), base, i) && x !in free && SameSizes(old(mem), mem, free)
      ensures forall a :: FreeAt(pages, a) ==> FreeAt(old(pages), a) || a == x
    {
      hide WellFormed, Listed, FreeAt, Stored, Tiled, StoredAt, Grown;
      ghost var c, P, m0 := pages[base].cells, pages[base].size, mem;
      HeaderAt(mem, vmPageSize, pages, base, i);
      var vmPage := x - mem[x].offset;
      mem := mem[x := mem[x].(isFree := true)];
      var next := BlockAddr(base, mem[x].nextBlock);
      if next != NULL {
        mem := mem[x := mem[x].(blockSize := mem[x].blockSize + (next - (x + META + mem[x].blockSize)))];
      } else {
        var end := vmPage + vmPageSize[vmPage];
        mem := mem[x := mem[x].(blockSize := mem[x].blockSize + (end - (x + META + mem[x].blockSize)))];
      }
      assert mem == SetFree(m0, x, c[i].size + Gap(c, i, P));
      GrownDone(m0, vmPageSize, pages, list.glue, free, base, i, mem);
      pages := WithGrown(pages, base, i);
    }

    /** The second part: block i is merged with the next and the previous block if they are free. */
    method MergeNeighbours(base: int, x: int, ghost i: nat) returns (ret: int)
      requires WellFormed(mem, vmPageSize, pages) && Listed(mem, pages, list.glue, free)
      requires base in pages && pages[base].mapped && i < |pages[base].cells|
      requires x == base + pages[base].cells[i].offset && pages[base].cells[i].free && x !in free && x !in since
      modifies this, list
      ensures WellFormed(mem, vmPageSize, pages) && Listed(mem, pages, list.glue, free)
      ensures var gone := FreeAround(base, old(pages)[base].cells, i);
        && free == Except(old(free), gone) && since == Except(old(since), gone) && SameSizes(old(mem), mem, free)
      ensures pages == old(pages)[base := old(pages)[base].(cells := Joined(old(pages)[base].cells, i))]
      ensures var at := Place(old(pages)[base].cells, i);
        at < |pages[base].cells| && pages[base].cells[at].free && ret == base + pages[base].cells[at].offset
      ensures ret !in free && forall a :: FreeAt(pages, a) && a !in free ==>
        (FreeAt(old(pages), a) && a !in old(free) && a != x) || a == ret
    {
      hide WellFormed, Listed, FreeAt, Merged, Except;
      ghost var c, pages0 := pages[base].cells, pages;
      AroundGone(base, c, i, free);
      AroundGone(base, c, i, since);
      HeaderAt(mem, vmPageSize, pages, base, i);
      ret := x;
      var next := BlockAddr(base, mem[x].nextBlock);
      if i + 1 < |c| {
        HeaderAt(mem, vmPageSize, pages, base, i + 1);
      }
      if next != NULL && mem[next].isFree {
        UnionFreeBlocks(base, x, next, i);
      }
      HeaderAt(mem, vmPageSize, pages, base, i);
      if i > 0 {
        HeaderAt(mem, vmPageSize, pages, base, i - 1);
      }
      var prev := BlockAddr(base, mem[x].prevBlock);
      if prev != NULL && mem[prev].isFree {
        UnionFreeBlocks(base, prev, x, i - 1);
        ret := prev;
      }
    }

    /** Both parts together: the block ret, not in the list, is all of the room that is free around block i. */
    method Release(base: int, x: int, ghost i: nat) returns (ret: int)
      requires Valid() && base in pages && pages[base].mapped && i < |pages[base].cells|
      requires x == base + pages[base].cells[i].offset && !pages[base].cells[i].free
      modifies this, list
      ensures WellFormed(mem, vmPageSize, pages) && Listed(mem, pages, list.glue, free) && AllCoalesced(pages)
      ensures pages == old(pages)[base := old(pages)[base].(cells := Freed(old(pages)[base].cells, i,
          old(pages)[base].size))]
      ensures var at := Place(old(pages)[base].cells, i);
        at < |pages[base].cells| && pages[base].cells[at].free && ret == base + pages[base].cells[at].offset
      ensures ret !in free && forall a :: FreeAt(pages, a) && a !in free ==>
        (FreeAt(old(pages), a) && a !in old(free)) || a == ret
      ensures var gone := FreeAround(base, old(pages)[base].cells, i);
        free == Except(old(free), gone) == Queue(mem, since) && since == Except(old(since), gone)
    {
      hide WellFormed, Listed, Sorted, Chain, FreeAt, AllCoalesced, Grown, Joined, Queue, Except, FreeAround;
      ghost var c, pages0, m0, free0, since0 := pages[base].cells, pages, mem, free, since;
      HeaderAt(mem, vmPageSize, pages, base, i);
      FreedCoalescedThere(pages0, base, i);
      QueueSorted(mem, since);
      Reclaim(base, x, i);
      AroundGrown(base, c, pages0[base].size, i);
      ret := MergeNeighbours(base, x, i);
      assert pages == pages0[base := pages0[base].(cells := Freed(c, i, pages0[base].size))];
      ExceptElements(free0, FreeAround(base, c, i));
      QueueLess(m0, mem, free0, since0, FreeAround(base, c, i));
    }

    /** allocator_free_block, for allocated block i of the page at base; returns the size of the free block it is now
        part of. */
    method FreeBlock(base: int, x: int, ghost i: nat) returns (size: int)
      requires Valid() && base in pages && pages[base].mapped && i < |pages[base].cells|
      requires x == base + pages[base].cells[i].offset && !pages[base].cells[i].free
      modifies this, list
      ensures Valid()
      ensures pages == old(pages)[base := old(pages)[base].(cells := Freed(old(pages)[base].cells, i,
          old(pages)[base].size))]
      ensures var at := Place(old(pages)[base].cells, i); at < |pages[base].cells| && size == pages[base].cells[at].size
      ensures forall a :: FreeAt(pages, a) && a !in free ==> FreeAt(old(pages), a) && a !in old(free)
      ensures var gone := FreeAround(base, old(pages)[base].cells, i);
        var a, rest := base + pages[base].cells[Place(old(pages)[base].cells, i)].offset, Except(old(free), gone);
        && since == Except(old(since), gone) + [a]
        && exists k ::
             && 0 <= k <= |rest| && free == rest[..k] + [a] + rest[k..]
             && (forall y :: y in rest[..k] ==> SizeIn(mem, y) >= size)
             && (forall y :: y in rest[k..] ==> SizeIn(mem, y) < size)
    {
      hide WellFormed, Listed, Sorted, Chain, FreeAt, AllCoalesced, Freed, Queue, Enqueue, Except, FreeAround;
      ghost var at := Place(pages[base].cells, i);
      var ret := Release(base, x, i);
      HeaderAt(mem, vmPageSize, pages, base, at);
      FreeHere(pages, base, pages[base].cells[at]);
      ListFacts(mem, pages, list.glue, free);
      ghost var glue1, free1 := list.glue, free;
      QueueMore(mem, mem, free, since, ret);
      ghost var k := AddToFreeList(ret);
      Enlisted(mem, vmPageSize, pages, glue1, free1, ret, list.glue, free);
      size := mem[ret].blockSize;
    }

    /** allocator_free_mem, for the user address of allocated block i of the page at b. */
    method FreeMem(addr: int, ghost b: int, ghost i: nat) returns (size: int)
      requires Valid() && b in pages && pages[b].mapped && i < |pages[b].cells| && !pages[b].cells[i].free
      requires addr == b + pages[b].cells[i].offset + META
      modifies this, list
      ensures Valid()
      ensures pages == old(pages)[b := old(pages)[b].(cells := Freed(old(pages)[b].cells, i, old(pages)[b].size))]
      ensures Live(pages) == old(Live(pages)) - {(addr, old(pages)[b].cells[i].size)}
      ensures var at := Place(old(pages)[b].cells, i); at < |pages[b].cells| && size == pages[b].cells[at].size
      ensures forall a :: FreeAt(pages, a) && a !in free ==> FreeAt(old(pages), a) && a !in old(free)
      ensures since == Except(old(since), FreeAround(b, old(pages)[b].cells, i))
        + [b + pages[b].cells[Place(old(pages)[b].cells, i)].offset]
    {
      hide WellFormed, Listed, Sorted, Chain, FreeAt, AllCoalesced, Freed, Live, Except, Queue, FreeAround;
      LiveFreed(mem, vmPageSize, pages, b, i);
      HeaderAt(mem, vmPageSize, pages, b, i);
      var x := addr - META;
      assert !mem[x].isFree;
      size := FreeBlock(mem[x].baseAddress, x, i);
    }

    /** allocator_init: a page of one free block. */
    method InitPage(b: int, size: int)
      requires Valid() && b > 0 && FIRST + META <= size <= UINT32_MAX
      requires b in pages ==> !pages[b].mapped
      requires forall d :: d in pages && d != b ==> d + pages[d].size <= b || b + size <= d
      requires b in pages ==> pages[b].size <= size
      modifies this, list
      ensures Valid()
      ensures pages == old(pages)[b := Page(size, [Cell(FIRST, size - FIRST - META, true)], true)]
      ensures forall a :: a in free <==> a in old(free) || a == b + FIRST
      ensures old(Complete()) ==> Complete()
      ensures since == old(since) + [b + FIRST] && SameSizes(old(mem), mem, old(free))
      ensures b + 4 in mem
        && mem[b + 4] == Header(true, size - 57, 4, b, 0xFFFF_FFFF_FFFF_FFFF, 0xFFFF_FFFF_FFFF_FFFF)
      ensures exists k ::
        && 0 <= k <= |old(free)| && free == old(free)[..k] + [b + FIRST] + old(free)[k..]
        && (forall y :: y in old(free)[..k] ==> SizeIn(mem, y) >= size - FIRST - META)
        && (forall y :: y in old(free)[k..] ==> SizeIn(mem, y) < size - FIRST - META)
    {
      hide WellFormed, Listed, Sorted, Chain, FreeAt, LinksKept, Queue, Enqueue;
      ghost var m0, sizes0, glue0, free0, pages0 := mem, vmPageSize, list.glue, free, pages;
      ListFacts(mem, pages, list.glue, free);
      vmPageSize := vmPageSize[b := size];
      var x := b + FIRST;
      mem := mem[x := Header(true, size - (FIRST + META), FIRST, b, UINT64_MAX, UINT64_MAX)];
      ghost var p := Page(size, [Cell(FIRST, size - FIRST - META, true)], true);
      OnePage(m0, sizes0, pages0, glue0, free0, b, p, mem, vmPageSize);
      pages := pages[b := p];
      SortedElsewhere(m0, mem, free);
      QueueMore(m0, mem, free, since, x);
      ghost var k := AddToFreeList(x);
      OneListed(m0, sizes0, pages0, glue0, free0, b, p, mem, vmPageSize, list.glue, free);
    }

    /** allocator_deinit: the page's free blocks leave the list. */
    method DeinitPage(b: int)
      requires Valid() && b in pages && pages[b].mapped
      modifies this, list
      ensures Valid() && pages == old(pages)[b := old(pages)[b].(mapped := false)]
      ensures forall a :: a in free <==>
        a in old(free) && a !in Addresses(b, old(pages)[b].cells, |old(pages)[b].cells|)
      ensures old(Complete()) ==> Complete()
      ensures var gone := Addresses(b, old(pages)[b].cells, |old(pages)[b].cells|);
        free == Except(old(free), gone) && since == Except(old(since), gone)
    {
      hide WellFormed, Listed, Sorted, Chain, FreeAt, LinksKept, StoredPartly, SameElsewhere, Loose, Tiled, Queue,
        Except, Enqueue;
      ghost var m0, glue0, free0, pages0, c, P := mem, list.glue, free, pages, pages[b].cells, pages[b].size;
      ghost var since0 := since;
      HeadHeader(mem, vmPageSize, pages, list.glue, free, b);
      ExceptNone(free, {});
      ExceptNone(since, {});
      var itr := mem[b + FIRST].offset;
      ghost var k: nat := 0;
      while itr != UINT64_MAX
        invariant k <= |c| && itr == if k < |c| then c[k].offset else UINT64_MAX
        invariant StoredPartly(mem, b, 0, b, c, k) && SameElsewhere(m0, mem, b, P) && Tiled(c, P)
        invariant Linked() && Sorted(mem, free) && (forall y :: y in free <==> y in free0 && y !in Addresses(b, c, k))
        invariant LinksKept(glue0, list.glue, free0, Addresses(b, c, k))
        invariant forall y :: y in Addresses(b, c, k) ==> Loose(list.glue, y)
        invariant pages == pages0 && vmPageSize == old(vmPageSize)
        invariant free == Except(free0, Addresses(b, c, k)) && since == Except(since0, Addresses(b, c, k))
        invariant forall y :: SizeIn(mem, y) == SizeIn(m0, y)
        decreases |c| - k
      {
        var x := b + itr;
        ExceptTwice(free0, Addresses(b, c, k), {x});
        ExceptTwice(since0, Addresses(b, c, k), {x});
        StoredNext(mem, b, 0, b, c, P, k, m0);
        NextAddress(b, c, P, k);
        StillLinked(m0, vmPageSize, pages0, glue0, free0, b, k, list.glue, free);
        assert mem[x].baseAddress == b;
        ghost var glue1, free1 := list.glue, free;
        ghost var m1 := mem;
        mem := mem[x := mem[x].(baseAddress := 0)];
        SortedElsewhere(m1, mem, free);
        if mem[x].isFree {
          Unlist(x, mem);
          LinksStep(glue0, glue1, list.glue, free0, free1, Addresses(b, c, k), x);
          LooseKept(glue1, list.glue, free1, b, c, P, k, x);
        } else {
          LinksMore(glue0, glue1, free0, Addresses(b, c, k), x);
          NotThere(m0, free0, since0, Addresses(b, c, k), x);
        }
        k := k + 1;
        itr := mem[x].nextBlock;
      }
      QueueLess(m0, mem, free0, since0, Addresses(b, c, |c|));
      pages := pages[b := pages[b].(mapped := false)];
      PutAway(m0, vmPageSize, pages0, glue0, free0, b, mem, list.glue, free);
    }

    /** One round of allocator_reinit: the header gets its page's address back, and a free block joins the list. */
    method RestoreBlock(x: int, b: int)
      requires Linked() && Sorted(mem, free) && x in mem && x > 0 && x !in free && free == Queue(mem, since)
      modifies `mem, `free, `since, list
      ensures x in old(mem) && mem == old(mem)[x := old(mem)[x].(baseAddress := b)]
      ensures Linked() && Sorted(mem, free) && free == Queue(mem, since)
      ensures mem[x].isFree ==>
        && since == old(since) + [x] && (forall y :: y in free <==> y in old(free) || y == x)
        && x in list.glue && LinksKept(old(list.glue), list.glue, old(free), {x})
      ensures !mem[x].isFree ==> since == old(since) && free == old(free) && list.glue == old(list.glue)
    {
      hide Sorted, Chain, LinksKept, Queue, Enqueue;
      ghost var m0 := mem;
      mem := mem[x := mem[x].(baseAddress := b)];
      SortedElsewhere(m0, mem, free);
      QueueSorted(m0, since);
      QueueSame(m0, mem, since);
      if mem[x].isFree {
        QueueMore(mem, mem, free, since, x);
        var _ := AddToFreeList(x);
      }
    }

    /** allocator_reinit: the page's free blocks join the list again, those included that a failed allocation had
        dropped from it. */
    method ReinitPage(b: int)
      requires Valid() && b in pages && !pages[b].mapped
      modifies this, list
      ensures Valid() && pages == old(pages)[b := old(pages)[b].(mapped := true)]
      ensures forall a :: a in free <==>
        a in old(free) || a in FreeAddresses(b, old(pages)[b].cells, |old(pages)[b].cells|)
      ensures old(Complete()) ==> Complete()
      ensures since == old(since) + FreeInOrder(b, old(pages)[b].cells, |old(pages)[b].cells|)
    {
      hide WellFormed, Listed, Sorted, Chain, FreeAt, LinksKept, StoredPartly, SameElsewhere, Loose, Tiled, Queue,
        Except, Enqueue;
      ghost var m0, glue0, free0, pages0, c, P := mem, list.glue, free, pages, pages[b].cells, pages[b].size;
      ghost var since0 := since;
      HeadHeader(mem, vmPageSize, pages, list.glue, free, b);
      var itr := mem[b + FIRST].offset;
      ghost var k: nat := 0;
      while itr != UINT64_MAX
        invariant k <= |c| && itr == if k < |c| then c[k].offset else UINT64_MAX
        invariant StoredPartly(mem, b, b, 0, c, k) && SameElsewhere(m0, mem, b, P) && Tiled(c, P)
        invariant Linked() && Sorted(mem, free)
          && (forall y :: y in free <==> y in free0 || y in FreeAddresses(b, c, k))
        invariant LinksKept(glue0, list.glue, free0, FreeAddresses(b, c, k))
        invariant forall y :: y in FreeAddresses(b, c, k) ==> y in list.glue
        invariant pages == pages0 && vmPageSize == old(vmPageSize)
        invariant free == Queue(mem, since) && since == since0 + FreeInOrder(b, c, k)
        decreases |c| - k
      {
        var x := b + itr;
        StoredNext(mem, b, b, 0, c, P, k, m0);
        NextAddress(b, c, P, k);
        NotYetListed(m0, vmPageSize, pages0, glue0, free0, b, k);
        assert mem[x].baseAddress == 0;
        ghost var glue1, free1 := list.glue, free;
        RestoreBlock(x, b);
        if mem[x].isFree {
          LinksStep(glue0, glue1, list.glue, free0, free1, FreeAddresses(b, c, k), x);
          KeysKept(glue1, list.glue, free1, x);
        }
        assert !c[k].free ==> FreeAddresses(b, c, k + 1) == FreeAddresses(b, c, k);
        k := k + 1;
        itr := mem[x].nextBlock;
      }
      pages := pages[b := pages[b].(mapped := true)];
      TakenUp(m0, vmPageSize, pages0, glue0, free0, b, mem, list.glue, free);
    }

    /** allocator_is_vm_page_empty: the page is one free block, and the only block in the list. */
    method IsPageEmpty(b: int) returns (empty: bool)
      requires Valid() && b in pages && pages[b].mapped
      ensures empty <==> pages[b].cells == [Cell(FIRST, pages[b].size - FIRST - META, true)] && free == [b + FIRST]
    {
      hide WellFormed, Listed, Sorted, Chain, FreeAt;
      HeadHeader(mem, vmPageSize, pages, list.glue, free, b);
      HeaderAt(mem, vmPageSize, pages, b, 0);
      if vmPageSize[b] != mem[b + FIRST].blockSize + META + FIRST || !mem[b + FIRST].isFree {
        return false;
      }
      WholePage(pages[b].cells, pages[b].size);
      FrontLinks(list.glue, free);
      var curr := list.glue[HEAD].right;
      if curr == NULL {
        return false;
      }
      if curr != b + FIRST {
        return false;
      }
      if list.glue[curr].right != NULL {
        return false;
      }
      return true;
    }
  }
}
