/** How the blocks of one page (mem_allocator/mem_allocator.h) tile it. Offsets count bytes from the start of the
    page. */
module PageTiles {

  const META := 53                               // sizeof(block_meta_data_t), packed
  const FIRST := 4                               // offsetof(vm_page_hdr_t, block)
  const UINT64_MAX := 0xFFFF_FFFF_FFFF_FFFF      // no block

  /** A block: where its header starts, how many bytes the user gets behind the header, and whether it is free. */
  datatype Cell = Cell(offset: int, size: int, free: bool)

  /** Where the room of block i ends: at the next header, or at the end of the page. */
  function End(c: seq<Cell>, i: nat, pageSize: int): int
    requires i < |c|
  {
    if i + 1 < |c| then c[i + 1].offset else pageSize
  }

  /** Bytes behind block i that belong to nobody ("hard internal fragmentation"). */
  function Gap(c: seq<Cell>, i: nat, pageSize: int): int
    requires i < |c|
  {
    End(c, i, pageSize) - (c[i].offset + META + c[i].size)
  }

  /** A free block reaches exactly to the end of its room; an allocated one leaves less than a header's worth. */
  ghost predicate Fits(c: seq<Cell>, i: nat, pageSize: int)
    requires i < |c|
  {
    && c[i].size >= 0 && 0 <= Gap(c, i, pageSize)
    && if c[i].free then Gap(c, i, pageSize) == 0 else Gap(c, i, pageSize) < META
  }

  ghost predicate Tiled(c: seq<Cell>, pageSize: int)
  {
    c != [] && c[0].offset == FIRST && forall i :: 0 <= i < |c| ==> Fits(c, i, pageSize)
  }

  /** No two free blocks are neighbours. */
  ghost predicate Coalesced(c: seq<Cell>)
  {
    forall i, j :: 0 <= i && j == i + 1 && j < |c| ==> !(c[i].free && c[j].free)
  }

  /** A later block's header starts behind the earlier block's bytes, and every block ends within the page. */
  lemma {:induction false} Apart(c: seq<Cell>, pageSize: int, i: nat, j: nat)
    requires Tiled(c, pageSize) && i < j < |c|
    ensures c[i].offset + META + c[i].size <= c[j].offset
    decreases j
  {
    assert Fits(c, j - 1, pageSize);
    if i < j - 1 {
      Apart(c, pageSize, i, j - 1);
    }
  }

  lemma Within(c: seq<Cell>, pageSize: int, i: nat)
    requires Tiled(c, pageSize) && i < |c|
    ensures 0 <= c[i].size && FIRST <= c[i].offset && c[i].offset + META + c[i].size <= pageSize
    ensures forall j :: 0 <= j < |c| && c[j].offset == c[i].offset ==> j == i
  {
    var n := |c| - 1;
    assert Fits(c, n, pageSize) && Fits(c, i, pageSize);
    if i < n {
      Apart(c, pageSize, i, n);
    }
    if 0 < i {
      Apart(c, pageSize, 0, i);
      assert Fits(c, 0, pageSize);
    }
    forall j | 0 <= j < |c| && c[j].offset == c[i].offset ensures j == i {
      assert Fits(c, j, pageSize);
      if j < i {
        Apart(c, pageSize, j, i);
      } else if i < j {
        Apart(c, pageSize, i, j);
      }
    }
  }

  /** Headers, user bytes and gaps of the blocks from i on. */
  function Extent(c: seq<Cell>, i: nat, pageSize: int): int
    requires i <= |c|
    decreases |c| - i
  {
    if i == |c| then 0 else META + c[i].size + Gap(c, i, pageSize) + Extent(c, i + 1, pageSize)
  }

  /** Conservation: the page header, the block headers, the user bytes and the gaps make up the whole page. */
  lemma {:induction false} NothingLost(c: seq<Cell>, pageSize: int, i: nat)
    requires Tiled(c, pageSize) && i < |c|
    ensures c[i].offset + Extent(c, i, pageSize) == pageSize
    decreases |c| - i
  {
    if i + 1 < |c| {
      NothingLost(c, pageSize, i + 1);
    }
  }

  /** With nothing allocated, the page is the one free block allocator_init makes. */
  lemma AllFree(c: seq<Cell>, pageSize: int)
    requires Tiled(c, pageSize) && Coalesced(c)
    requires forall x :: x in c ==> x.free
    ensures c == [Cell(FIRST, pageSize - FIRST - META, true)]
  {
    if |c| > 1 {
      FirstTwo(c);
      assert false;
    }
    assert c[0] in c && Fits(c, 0, pageSize);
  }

  /** A first block that is free and takes the whole page is the only one. */
  lemma WholePage(c: seq<Cell>, pageSize: int)
    requires Tiled(c, pageSize) && c[0].free && c[0].size == pageSize - META - FIRST
    ensures c == [Cell(FIRST, pageSize - FIRST - META, true)]
  {
    assert Fits(c, 0, pageSize);
    if |c| > 1 {
      Within(c, pageSize, 1);
      assert false;
    }
  }

  lemma FirstTwo(c: seq<Cell>)
    requires Coalesced(c) && |c| > 1
    ensures !(c[0].free && c[1].free)
  {
  }

  // ---- allocating from block i ----

  /** Block i cut down to size; what is left becomes a free block if a header fits in. */
  function Taken(c: seq<Cell>, i: nat, size: int): seq<Cell>
    requires i < |c|
  {
    var left := c[i].size - size;
    if left < META then c[i := Cell(c[i].offset, size, false)]
    else c[..i] + [Cell(c[i].offset, size, false), Cell(c[i].offset + META + size, left - META, true)] + c[i + 1..]
  }

  lemma TakenTiled(c: seq<Cell>, pageSize: int, i: nat, size: int)
    requires Tiled(c, pageSize) && Coalesced(c) && i < |c| && c[i].free && 0 <= size <= c[i].size
    ensures Tiled(Taken(c, i, size), pageSize) && Coalesced(Taken(c, i, size))
  {
    var r := Taken(c, i, size);
    var shift := |r| - |c|;
    forall j | 0 <= j < |r| ensures Fits(r, j, pageSize) {
      assert Fits(c, i, pageSize);
      if j < i {
        assert Fits(c, j, pageSize);
      } else if j > i + shift {
        assert Fits(c, j - shift, pageSize);
      }
    }
    forall j, k | 0 <= j && k == j + 1 && k < |r| ensures !(r[j].free && r[k].free) {
      if j < i {
        assert !(c[j].free && c[j + 1].free);
      } else if j > i {
        assert !(c[j - shift].free && c[j - shift + 1].free);
      }
    }
  }

  // ---- freeing block i ----

  /** Block i free, with the gap behind it. */
  function Grown(c: seq<Cell>, i: nat, pageSize: int): (r: seq<Cell>)
    requires i < |c|
    ensures |r| == |c| && r[i].free && r[i].offset == c[i].offset
    ensures forall j :: 0 <= j < |c| && j != i ==> r[j] == c[j]
  {
    c[i := Cell(c[i].offset, c[i].size + Gap(c, i, pageSize), true)]
  }

  lemma GrownTiled(c: seq<Cell>, pageSize: int, i: nat)
    requires Tiled(c, pageSize) && i < |c|
    ensures Tiled(Grown(c, i, pageSize), pageSize)
  {
    var r := Grown(c, i, pageSize);
    forall j | 0 <= j < |r| ensures Fits(r, j, pageSize) {
      assert Fits(c, j, pageSize);
    }
  }

  /** Blocks i and i + 1 as one. */
  function Merged(c: seq<Cell>, i: nat): (r: seq<Cell>)
    requires i + 1 < |c|
    ensures |r| == |c| - 1 && r[i].free && r[i].offset == c[i].offset
    ensures forall j :: 0 <= j < i ==> r[j] == c[j]
    ensures forall j :: i < j < |r| ==> r[j] == c[j + 1]
  {
    c[..i] + [Cell(c[i].offset, c[i].size + c[i + 1].size + META, true)] + c[i + 2..]
  }

  lemma MergedTiled(c: seq<Cell>, pageSize: int, i: nat)
    requires Tiled(c, pageSize) && i + 1 < |c| && c[i].free && c[i + 1].free
    ensures Tiled(Merged(c, i), pageSize)
  {
    var r := Merged(c, i);
    forall j | 0 <= j < |r| ensures Fits(r, j, pageSize) {
      assert Fits(c, i, pageSize) && Fits(c, i + 1, pageSize);
      if j < i {
        assert Fits(c, j, pageSize);
      } else if j > i {
        assert Fits(c, j + 1, pageSize);
      }
    }
  }

  /** Where a block goes whose lower neighbour swallows it if it is free. */
  function Place(c: seq<Cell>, i: nat): nat
    requires i < |c|
  {
    if i > 0 && c[i - 1].free then i - 1 else i
  }

  /** Free block i merged with its free neighbours. */
  function Joined(c: seq<Cell>, i: nat): seq<Cell>
    requires i < |c|
  {
    var right := if i + 1 < |c| && c[i + 1].free then Merged(c, i) else c;
    if i > 0 && c[i - 1].free then Merged(right, i - 1) else right
  }

  /** What freeing block i makes of the page. */
  function Freed(c: seq<Cell>, i: nat, pageSize: int): seq<Cell>
    requires i < |c|
  {
    Joined(Grown(c, i, pageSize), i)
  }

  /** Freed, block by block: the freed block now starts at block at, and has swallowed its free neighbours. */
  lemma FreedAt(c: seq<Cell>, i: nat, pageSize: int) returns (at: nat, gone: nat)
    requires i < |c|
    ensures at <= i <= at + gone < |c| && |Freed(c, i, pageSize)| == |c| - gone
    ensures at == Place(c, i)
    ensures gone == (i - at) + if i + 1 < |c| && c[i + 1].free then 1 else 0
    ensures Freed(c, i, pageSize)[at].free
    ensures forall j :: 0 <= j < at ==> Freed(c, i, pageSize)[j] == c[j]
    ensures forall j :: at < j < |c| - gone ==> Freed(c, i, pageSize)[j] == c[j + gone]
  {
    hide Merged, Grown, Joined;
    at := Place(c, i);
    gone := (i - at) + if i + 1 < |c| && c[i + 1].free then 1 else 0;
    JoinedAt(Grown(c, i, pageSize), i, at, gone);
  }

  lemma JoinedAt(c: seq<Cell>, i: nat, at: nat, gone: nat)
    requires i < |c| && c[i].free && at == Place(c, i)
    requires gone == (i - at) + if i + 1 < |c| && c[i + 1].free then 1 else 0
    ensures |Joined(c, i)| == |c| - gone && Joined(c, i)[at].free && Joined(c, i)[at].offset == c[at].offset
    ensures forall j :: 0 <= j < at ==> Joined(c, i)[j] == c[j]
    ensures forall j :: at < j < |c| - gone ==> Joined(c, i)[j] == c[j + gone]
  {
    hide Merged;
    var right, r := if i + 1 < |c| && c[i + 1].free then Merged(c, i) else c, Joined(c, i);
    if at == i {
      assert r == right;
      forall j | at < j < |c| - gone ensures r[j] == c[j + gone] {
        assert r[j] == right[j];
      }
    } else {
      assert r == Merged(right, i - 1);
      forall j | at < j < |c| - gone ensures r[j] == c[j + gone] {
        assert r[j] == right[j + 1];
      }
    }
  }

  lemma FreedCoalesced(c: seq<Cell>, pageSize: int, i: nat)
    requires Tiled(c, pageSize) && Coalesced(c) && i < |c| && !c[i].free
    ensures Tiled(Freed(c, i, pageSize), pageSize) && Coalesced(Freed(c, i, pageSize))
  {
    var grown := Grown(c, i, pageSize);
    GrownTiled(c, pageSize, i);
    var right := grown;
    if i + 1 < |c| && c[i + 1].free {
      right := Merged(grown, i);
      MergedTiled(grown, pageSize, i);
    }
    if i > 0 && c[i - 1].free {
      MergedTiled(right, pageSize, i - 1);
    }
    var at, gone := FreedAt(c, i, pageSize);
    FreedNeighbours(c, i, pageSize, Freed(c, i, pageSize), at, gone);
  }

  lemma FreedNeighbours(c: seq<Cell>, i: nat, pageSize: int, r: seq<Cell>, at: nat, gone: nat)
    requires Coalesced(c) && at <= i <= at + gone < |c| && !c[i].free && |r| == |c| - gone
    requires at == (if i > 0 && c[i - 1].free then i - 1 else i)
    requires gone == (i - at) + if i + 1 < |c| && c[i + 1].free then 1 else 0
    requires forall j :: 0 <= j < at ==> r[j] == c[j]
    requires forall j :: at < j < |r| ==> r[j] == c[j + gone]
    ensures Coalesced(r)
  {
    forall j, k | 0 <= j && k == j + 1 && k < |r| ensures !(r[j].free && r[k].free) {
      if j < at {
        assert !(c[j].free && c[j + 1].free);
      } else {
        assert !(c[j + gone].free && c[j + gone + 1].free);
      }
    }
  }

  /** The allocated blocks. */
  ghost function Allocated(c: seq<Cell>): set<Cell>
  {
    set x | x in c && !x.free
  }

  lemma TakenAllocates(c: seq<Cell>, pageSize: int, i: nat, size: int)
    requires Tiled(c, pageSize) && i < |c| && c[i].free && 0 <= size <= c[i].size
    ensures Allocated(Taken(c, i, size)) == Allocated(c) + {Cell(c[i].offset, size, false)}
    ensures forall x :: x in c ==> x.offset != c[i].offset || x.free
  {
    var r := Taken(c, i, size);
    var y := Cell(c[i].offset, size, false);
    assert r[i] == y;
    forall x | x in Allocated(c) ensures x in r && x.offset != c[i].offset {
      var j :| 0 <= j < |c| && c[j] == x;
      Within(c, pageSize, i);
      assert r[if j < i then j else j + |r| - |c|] == x;
    }
    forall x | x in Allocated(r) ensures x == y || x in c {
      var j :| 0 <= j < |r| && r[j] == x;
      if j != i {
        assert j < i || j > i + |r| - |c|;
        assert x == c[if j < i then j else j - (|r| - |c|)];
      }
    }
  }

  lemma FreedReleases(c: seq<Cell>, pageSize: int, i: nat)
    requires Tiled(c, pageSize) && i < |c| && !c[i].free
    ensures Allocated(Freed(c, i, pageSize)) == Allocated(c) - {c[i]}
  {
    hide Freed;
    var r := Freed(c, i, pageSize);
    var at, gone := FreedAt(c, i, pageSize);
    forall x | x in Allocated(c) && x != c[i] ensures x in r {
      var j :| 0 <= j < |c| && c[j] == x;
      assert j < at || j > at + gone;
      assert r[if j < at then j else j - gone] == x;
    }
    forall x | x in Allocated(r) ensures x in c && x != c[i] {
      var j :| 0 <= j < |r| && r[j] == x;
      var k := if j < at then j else j + gone;
      assert x == c[k] && k != i;
      Within(c, pageSize, i);
    }
  }

  /** The bytes of different allocated blocks do not overlap, nor do they touch any block's header. */
  lemma Disjoint(c: seq<Cell>, pageSize: int, x: Cell, y: Cell)
    requires Tiled(c, pageSize) && x in c && y in c && x != y
    ensures x.offset + META + x.size <= y.offset || y.offset + META + y.size <= x.offset
  {
    var i :| 0 <= i < |c| && c[i] == x;
    var j :| 0 <= j < |c| && c[j] == y;
    if i < j {
      Apart(c, pageSize, i, j);
    } else {
      Apart(c, pageSize, j, i);
    }
  }

  // ---- which blocks there are afterwards ----

  lemma TakenCells(c: seq<Cell>, pageSize: int, i: nat, size: int)
    requires Tiled(c, pageSize) && i < |c|
    ensures var left := c[i].size - size;
      forall x :: x in Taken(c, i, size) <==>
        || (x in c && x != c[i])
        || x == Cell(c[i].offset, size, false)
        || (left >= META && x == Cell(c[i].offset + META + size, left - META, true))
  {
    var r := Taken(c, i, size);
    var shift := |r| - |c|;
    forall x | x in c && x != c[i] ensures x in r {
      var j :| 0 <= j < |c| && c[j] == x;
      assert r[if j < i then j else j + shift] == x;
    }
    assert r[i] == Cell(c[i].offset, size, false);
    assert shift == 1 ==> r[i + 1] == Cell(c[i].offset + META + size, c[i].size - size - META, true);
    forall x | x in r && x != r[i] && (shift == 1 ==> x != r[i + 1]) ensures x in c && x != c[i] {
      var j :| 0 <= j < |r| && r[j] == x;
      assert c[if j < i then j else j - shift] == x;
      Within(c, pageSize, i);
    }
  }

  lemma GrownCells(c: seq<Cell>, pageSize: int, i: nat)
    requires Tiled(c, pageSize) && i < |c|
    ensures var r := Grown(c, i, pageSize); forall x :: x in r <==> (x in c && x != c[i]) || x == r[i]
  {
    var r := Grown(c, i, pageSize);
    forall x | x in c && x != c[i] ensures x in r {
      var j :| 0 <= j < |c| && c[j] == x;
      assert r[j] == x;
    }
    forall x | x in r && x != r[i] ensures x in c && x != c[i] {
      var j :| 0 <= j < |r| && r[j] == x;
      assert c[j] == x;
      Within(c, pageSize, i);
    }
  }

  lemma MergedCells(c: seq<Cell>, pageSize: int, i: nat)
    requires Tiled(c, pageSize) && i + 1 < |c|
    ensures var r := Merged(c, i); forall x :: x in r <==> (x in c && x != c[i] && x != c[i + 1]) || x == r[i]
  {
    var r := Merged(c, i);
    forall x | x in c && x != c[i] && x != c[i + 1] ensures x in r {
      var j :| 0 <= j < |c| && c[j] == x;
      assert r[if j < i then j else j - 1] == x;
    }
    forall x | x in r && x != r[i] ensures x in c && x != c[i] && x != c[i + 1] {
      var j :| 0 <= j < |r| && r[j] == x;
      assert c[if j < i then j else j + 1] == x;
      Within(c, pageSize, i);
      Within(c, pageSize, i + 1);
    }
  }
}
