/** Whole runs of the page allocator: any sequence of allocations and releases, in any order. */
module AllocatorRuns {
  import opened Glthreads
  import opened PageTiles
  import opened Allocators
  import opened FreeQueues

  /** Ask for size bytes, or give back what the given earlier request was granted. */
  datatype Request = Alloc(size: nat) | Release(earlier: nat)

  /** The regions a caller holds: address and size. */
  ghost function Regions(held: map<int, int>): set<(int, int)>
  {
    held.Items
  }

  ghost predicate AllMapped(pages: Pages)
  {
    forall b :: b in pages ==> pages[b].mapped
  }

  /** Regions that do not overlap. */
  ghost predicate Separate(held: map<int, int>)
  {
    forall a, a' :: a in held && a' in held && a != a' ==> a + held[a] <= a' || a' + held[a'] <= a
  }

  /** The same pages, whatever their blocks. */
  ghost predicate SamePages(pages: Pages, pages': Pages)
  {
    pages.Keys == pages'.Keys && forall b :: b in pages ==>
      pages[b].size == pages'[b].size && pages[b].mapped == pages'[b].mapped
  }

  /** Every region lies in a page, behind the page's own header and the region's. */
  ghost predicate OnPages(held: map<int, int>, pages: Pages)
  {
    forall a :: a in held ==> exists b :: b in pages && b + FIRST + META <= a && a + held[a] <= b + pages[b].size
  }

  /** What the caller holds after one more request, served with addr. */
  function HoldNext(held: map<int, int>, granted: seq<int>, r: Request, addr: int): map<int, int>
  {
    match r
    case Alloc(size) => held[addr := size]
    case Release(earlier) => if earlier < |granted| then held - {granted[earlier]} else held
  }

  /** What the caller holds after the requests, granted[i] being the address that request i was granted, NULL for a
      release. */
  function HeldAfter(requests: seq<Request>, granted: seq<int>): map<int, int>
    requires |requests| == |granted|
  {
    if requests == [] then map[]
    else
      var n := |requests| - 1;
      HoldNext(HeldAfter(requests[..n], granted[..n]), granted[..n], requests[n], granted[n])
  }

  lemma HeldNext(requests: seq<Request>, granted: seq<int>, n: nat)
    requires n < |requests| && n < |granted|
    ensures HeldAfter(requests[..n + 1], granted[..n + 1])
         == HoldNext(HeldAfter(requests[..n], granted[..n]), granted[..n], requests[n], granted[n])
  {
    assert requests[..n + 1][..n] == requests[..n] && granted[..n + 1][..n] == granted[..n];
  }

  /** Request i was granted n bytes at a, and they were not given back since, nor granted again. */
  ghost predicate GrantedAt(requests: seq<Request>, granted: seq<int>, i: int, a: int, n: nat)
    requires |requests| == |granted|
  {
    && 0 <= i < |requests| && requests[i].Alloc? && requests[i].size == n && granted[i] == a
    && forall j :: i < j < |requests| ==>
         if requests[j].Alloc? then granted[j] != a else requests[j].earlier < j ==> granted[requests[j].earlier] != a
  }

  /** What is held is what was granted and not given back. */
  lemma {:induction false} HeldExactly(requests: seq<Request>, granted: seq<int>, a: int, n: nat)
    requires |requests| == |granted|
    ensures a in HeldAfter(requests, granted) && HeldAfter(requests, granted)[a] == n
       <==> exists i :: GrantedAt(requests, granted, i, a, n)
  {
    if requests != [] {
      var m := |requests| - 1;
      var rs, gs := requests[..m], granted[..m];
      HeldExactly(rs, gs, a, n);
      forall i | 0 <= i < m
        ensures GrantedAt(requests, granted, i, a, n) <==>
                  && GrantedAt(rs, gs, i, a, n)
                  && match requests[m] {
                       case Alloc(_) => granted[m] != a
                       case Release(earlier) => earlier < m ==> granted[earlier] != a
                     }
      {
        GrantedBefore(requests, granted, i, a, n);
      }
      assert GrantedAt(requests, granted, m, a, n) <==> requests[m] == Alloc(n) && granted[m] == a;
    }
  }

  lemma GrantedBefore(requests: seq<Request>, granted: seq<int>, i: int, a: int, n: nat)
    requires |requests| == |granted| > 0 && 0 <= i < |requests| - 1
    ensures var m := |requests| - 1;
      GrantedAt(requests, granted, i, a, n) <==>
        && GrantedAt(requests[..m], granted[..m], i, a, n)
        && if requests[m].Alloc? then granted[m] != a else requests[m].earlier < m ==> granted[requests[m].earlier] != a
  {
    var m := |requests| - 1;
    var rs, gs := requests[..m], granted[..m];
    assert forall j :: i < j < m ==> rs[j] == requests[j] && gs[j] == granted[j];
    assert forall j :: i < j < m && requests[j].Release? && requests[j].earlier < j ==>
      gs[rs[j].earlier] == granted[requests[j].earlier];
  }

  /** Request i was served: an allocation got an address where nothing was held, and afterwards nothing held
      overlaps. */
  ghost predicate ServedAt(requests: seq<Request>, granted: seq<int>, pages: Pages, i: nat)
    requires i < |requests| && i < |granted|
  {
    var after := HeldAfter(requests[..i + 1], granted[..i + 1]);
    && (requests[i].Alloc? ==> granted[i] != NULL && granted[i] !in HeldAfter(requests[..i], granted[..i]))
    && (requests[i].Release? ==> granted[i] == NULL)
    && Separate(after) && OnPages(after, pages)
  }

  /** Every page is the single free block it was initialised with. */
  ghost predicate Untouched(pages: Pages)
  {
    forall b :: b in pages ==> pages[b].cells == [Cell(FIRST, pages[b].size - FIRST - META, true)]
  }

  /** No free block anywhere holds size bytes. */
  ghost predicate NoRoom(pages: Pages, size: int)
  {
    forall b, x :: b in pages && x in pages[b].cells && x.free ==> x.size < size
  }

  lemma RegionAt(held: map<int, int>, r: (int, int))
    ensures r in Regions(held) <==> r.0 in held && r.1 == held[r.0]
  {
  }

  lemma RegionsGain(held: map<int, int>, a: int, size: int)
    requires a !in held
    ensures Regions(held[a := size]) == Regions(held) + {(a, size)}
  {
    forall r ensures r in Regions(held[a := size]) <==> r in Regions(held) + {(a, size)} {
      RegionAt(held, r);
      RegionAt(held[a := size], r);
    }
  }

  lemma RegionsLose(held: map<int, int>, a: int)
    requires a in held
    ensures Regions(held - {a}) == Regions(held) - {(a, held[a])}
  {
    forall r ensures r in Regions(held - {a}) <==> r in Regions(held) - {(a, held[a])} {
      RegionAt(held, r);
      RegionAt(held - {a}, r);
    }
  }

  /** The block behind a region in use. */
  lemma BlockOf(al: Allocator, held: map<int, int>, a: int) returns (b: int, i: nat)
    requires al.Valid() && Live(al.pages) == Regions(held) && a in held
    ensures b in al.pages && i < |al.pages[b].cells| && !al.pages[b].cells[i].free
    ensures a == b + al.pages[b].cells[i].offset + META && held[a] == al.pages[b].cells[i].size
  {
    hide Live;
    RegionAt(held, (a, held[a]));
    var x;
    b, x := LiveAt(al.pages, (a, held[a]));
    i :| 0 <= i < |al.pages[b].cells| && al.pages[b].cells[i] == x;
  }

  lemma HeldApart(al: Allocator, held: map<int, int>)
    requires al.Valid() && Live(al.pages) == Regions(held)
    ensures Separate(held)
  {
    hide Live, WellFormed, Listed, AllCoalesced, Regions;
    forall a, a' | a in held && a' in held && a != a'
      ensures a + held[a] <= a' || a' + held[a'] <= a
    {
      RegionAt(held, (a, held[a]));
      var d, j := BlockOf(al, held, a');
      LiveDisjoint(al.mem, al.vmPageSize, al.pages, (a, held[a]), d, al.pages[d].cells[j]);
    }
  }

  lemma NothingHeld(al: Allocator)
    requires al.Valid() && Live(al.pages) == Regions(map[])
    ensures Untouched(al.pages)
  {
    hide Live, WellFormed, Listed;
    forall b | b in al.pages
      ensures al.pages[b].cells == [Cell(FIRST, al.pages[b].size - FIRST - META, true)]
    {
      NothingLive(al.mem, al.vmPageSize, al.pages, b);
    }
  }

  /** One allocation; it fails only when no block is large enough. */
  method Grant(al: Allocator, size: nat, held: map<int, int>) returns (addr: int)
    requires al.Valid() && al.Complete() && AllMapped(al.pages) && Live(al.pages) == Regions(held)
    modifies al, al.list
    ensures al.Valid() && AllMapped(al.pages) && SamePages(old(al.pages), al.pages)
    ensures addr == NULL <==> NoRoom(old(al.pages), size)
    ensures addr == NULL ==> al.pages == old(al.pages)
    ensures addr != NULL ==> al.Complete() && addr !in held && Live(al.pages) == Regions(held[addr := size])
  {
    hide Live, WellFormed, Listed, AllCoalesced, Regions;
    LargestFirst(al.mem, al.vmPageSize, al.pages, al.list.glue, al.free, size);
    ghost var b, i;
    addr, b, i := al.AllocMem(size);
    if addr != NULL {
      if addr in held {
        RegionAt(held, (addr, held[addr]));
        assert false;
      }
      RegionsGain(held, addr, size);
    }
  }

  /** One release. */
  method GiveBack(al: Allocator, addr: int, held: map<int, int>) returns (held': map<int, int>)
    requires al.Valid() && al.Complete() && AllMapped(al.pages) && Live(al.pages) == Regions(held) && addr in held
    modifies al, al.list
    ensures al.Valid() && al.Complete() && AllMapped(al.pages) && SamePages(old(al.pages), al.pages)
    ensures held' == held - {addr} && Live(al.pages) == Regions(held')
  {
    hide Live, WellFormed, Listed, AllCoalesced, Regions;
    ghost var b, i := BlockOf(al, held, addr);
    var _ := al.FreeMem(addr, b, i);
    RegionsLose(held, addr);
    held' := held - {addr};
  }

  lemma HeldOnPages(al: Allocator, held: map<int, int>)
    requires al.Valid() && Live(al.pages) == Regions(held)
    ensures OnPages(held, al.pages)
  {
    hide Live, WellFormed, Listed, AllCoalesced, Regions;
    forall a | a in held
      ensures exists b :: b in al.pages && b + FIRST + META <= a && a + held[a] <= b + al.pages[b].size
    {
      var b, i := BlockOf(al, held, a);
      HeaderAt(al.mem, al.vmPageSize, al.pages, b, i);
    }
  }

  lemma OnSamePages(held: map<int, int>, pages: Pages, pages': Pages)
    requires OnPages(held, pages) && SamePages(pages', pages)
    ensures OnPages(held, pages')
  {
    forall a | a in held
      ensures exists b :: b in pages' && b + FIRST + META <= a && a + held[a] <= b + pages'[b].size
    {
      var b :| b in pages && b + FIRST + META <= a && a + held[a] <= b + pages[b].size;
      assert b in pages'.Keys;
    }
  }

  /** Any run, in any order: every allocation is granted an address where nothing was held, and after every request the
      regions held lie in the pages and do not overlap. In the end the allocator has in use exactly what the requests
      and the addresses granted say is held; the free list is complete; and when everything has been given back, every
      page is again as it was initialised. The run stops short only when an allocation fails, and then for lack of a
      large enough block. */
  method Run(al: Allocator, requests: seq<Request>) returns (granted: seq<int>)
    requires al.Valid() && al.Complete() && AllMapped(al.pages) && Live(al.pages) == {}
    modifies al, al.list
    ensures al.Valid() && SamePages(old(al.pages), al.pages) && |granted| <= |requests|
    ensures forall i :: 0 <= i < |granted| ==> ServedAt(requests, granted, old(al.pages), i)
    ensures var held := HeldAfter(requests[..|granted|], granted);
      Live(al.pages) == Regions(held) && (held == map[] ==> Untouched(al.pages))
    ensures |granted| == |requests| ==> al.Complete()
    ensures |granted| < |requests| ==> requests[|granted|].Alloc? && NoRoom(al.pages, requests[|granted|].size)
  {
    hide Live, WellFormed, Listed, AllCoalesced, Regions, HeldAfter, Separate, OnPages, Allocator.Valid,
      Allocator.Complete;
    ghost var pages := al.pages;
    granted := [];
    var held := map[];
    NothingYet(requests);
    while |granted| < |requests|
      invariant |granted| <= |requests| && SamePages(pages, al.pages)
      invariant al.Valid() && al.Complete() && AllMapped(al.pages) && Live(al.pages) == Regions(held)
      invariant held == HeldAfter(requests[..|granted|], granted)
      invariant forall i :: 0 <= i < |granted| ==> ServedAt(requests, granted, pages, i)
      decreases |requests| - |granted|
    {
      var n := |granted|;
      ghost var before := granted;
      match requests[n] {
      case Alloc(size) =>
        var addr := Grant(al, size, held);
        if addr == NULL {
          break;
        }
        held, granted := held[addr := size], granted + [addr];
      case Release(earlier) =>
        if earlier < n {
          if granted[earlier] in held {
            held := GiveBack(al, granted[earlier], held);
          } else {
            assert held - {granted[earlier]} == held;
          }
        }
        granted := granted + [NULL];
      }
      ServedNext(al, pages, requests, before, granted, held);
    }
    if held == map[] {
      NothingHeld(al);
    }
  }

  lemma NothingYet(requests: seq<Request>)
    ensures Regions(map[]) == {} && HeldAfter(requests[..0], []) == map[]
  {
  }

  /** One more request is served. */
  lemma ServedNext(al: Allocator, pages: Pages, requests: seq<Request>, before: seq<int>, granted: seq<int>,
                   held: map<int, int>)
    requires |before| < |requests| && |granted| == |before| + 1 && granted[..|before|] == before
    requires var n := |before|; var was := HeldAfter(requests[..n], before);
      && held == HoldNext(was, before, requests[n], granted[n])
      && (requests[n].Alloc? ==> granted[n] != NULL && granted[n] !in was)
      && (requests[n].Release? ==> granted[n] == NULL)
    requires al.Valid() && Live(al.pages) == Regions(held) && SamePages(pages, al.pages)
    requires forall i :: 0 <= i < |before| ==> ServedAt(requests, before, pages, i)
    ensures held == HeldAfter(requests[..|granted|], granted)
    ensures forall i :: 0 <= i < |granted| ==> ServedAt(requests, granted, pages, i)
  {
    hide Live, Regions, HeldAfter, HoldNext, Separate, OnPages, SamePages, Allocator.Valid;
    var n := |before|;
    assert granted[..n + 1] == granted;
    HeldNext(requests, granted, n);
    HeldApart(al, held);
    HeldOnPages(al, held);
    OnSamePages(held, al.pages, pages);
    assert ServedAt(requests, granted, pages, n);
    forall i | 0 <= i < n
      ensures ServedAt(requests, granted, pages, i)
    {
      ServedBefore(requests, before, granted, pages, i);
    }
  }

  lemma ServedBefore(requests: seq<Request>, before: seq<int>, granted: seq<int>, pages: Pages, i: nat)
    requires i < |before| < |requests| && |granted| == |before| + 1 && granted[..|before|] == before
    requires ServedAt(requests, before, pages, i)
    ensures ServedAt(requests, granted, pages, i)
  {
    hide HeldAfter, Separate, OnPages;
    assert granted[..i] == before[..i] && granted[..i + 1] == before[..i + 1];
    assert granted[i] == before[i];
  }

  // ---- who is served first, what a failed allocation does, and what remapping a page does ----

  /** Of two pages of the same size, the one that was set up first is allocated from first, at the first address behind
      its own header and the block's. */
  method FirstComeFirstServed(b1: int, b2: int, size: int, reqSize: int) returns (al: Allocator, addr: int)
    requires b1 > 0 && b2 > 0 && (b1 + size <= b2 || b2 + size <= b1)
    requires 0 <= reqSize && reqSize + 57 <= size <= UINT32_MAX
    ensures al.Valid() && addr == b1 + 57
  {
    hide WellFormed, Listed, AllCoalesced, Queue, Except, SizeIn;
    al := new Allocator();
    al.InitPage(b1, size);
    al.InitPage(b2, size);
    HeaderAt(al.mem, al.vmPageSize, al.pages, b1, 0);
    HeaderAt(al.mem, al.vmPageSize, al.pages, b2, 0);
    ghost var x, y := b1 + FIRST, b2 + FIRST;
    assert al.since == [x, y];
    HeaderSize(al.mem, x);
    HeaderSize(al.mem, y);
    QueueSorted(al.mem, al.since);
    assert x in al.free;
    ghost var b, i;
    addr, b, i := al.AllocMem(reqSize);
  }

  lemma HeaderSize(m: Memory, x: int)
    requires x in m
    ensures SizeIn(m, x) == m[x].blockSize
  {
  }

  lemma Repeated(s: seq<int>)
    requires |s| > 1 && s[1] == s[0]
    ensures s[0] in s[1..]
  {
    assert s[1..][0] == s[1];
  }

  /** An allocation that is too large for the only page: it fails, the page is still one free block, and the list is
      empty. */
  method FailedAllocation() returns (al: Allocator)
    ensures al.Valid() && !al.Complete() && al.free == []
    ensures al.pages == map[1000 := Page(4096, [Cell(FIRST, 4096 - FIRST - META, true)], true)]
  {
    hide WellFormed, Listed, AllCoalesced;
    al := new Allocator();
    al.InitPage(1000, 4096);
    ghost var pages, free := al.pages, al.free;
    assert pages[1000].cells[0].free && FreeAt(pages, 1000 + FIRST);
    assert 1000 + FIRST in free;
    HeadIsFree(al.mem, pages, al.list.glue, free);
    assert forall i :: 0 <= i < |free| ==> free[i] in free;
    if |free| > 1 {
      Repeated(free);
    }
    LargestFirst(al.mem, al.vmPageSize, pages, al.list.glue, free, 5000);
    var addr, b, i := al.AllocMem(5000);
  }

  /** Putting a page away and mapping it again restores it, block by block; all its free blocks are in the list
      afterwards, those included that a failed allocation had dropped, and on the other pages nothing changes. */
  method Remap(al: Allocator, b: int)
    requires al.Valid() && b in al.pages && al.pages[b].mapped
    modifies al, al.list
    ensures al.Valid() && al.pages == old(al.pages)
    ensures forall a :: a in al.free <==>
      a in old(al.free) || a in FreeAddresses(b, al.pages[b].cells, |al.pages[b].cells|)
    ensures old(al.Complete()) ==> al.Complete() && forall a :: a in al.free <==> a in old(al.free)
  {
    hide WellFormed, Listed, AllCoalesced, Addresses, FreeAddresses;
    forall a | a in al.free && a in Addresses(b, al.pages[b].cells, |al.pages[b].cells|)
      ensures a in FreeAddresses(b, al.pages[b].cells, |al.pages[b].cells|)
    {
      ListedIsFree(al.mem, al.vmPageSize, al.pages, al.list.glue, al.free, b, a);
    }
    forall a | a in FreeAddresses(b, al.pages[b].cells, |al.pages[b].cells|)
      ensures FreeAt(al.pages, a) && a in Addresses(b, al.pages[b].cells, |al.pages[b].cells|)
    {
      FreeThere(al.pages, b, a);
    }
    al.DeinitPage(b);
    al.ReinitPage(b);
  }
}
