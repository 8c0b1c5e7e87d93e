/** disk_io/pager.cpp: which pages of the database file are allocated. */
module Pager {

  const INVALID_DB_PG_NO := 0xFFFF_FFFF_FFFF_FFFF

  /** A 64-bit word, its most significant bit first. */
  type Word = w: seq<bool> | |w| == 64 witness seq(64, i => false)

  const ALL_ONES: Word := seq(64, i => true)   // UINT64_MAX

  /** The word with bit k, counted from the most significant one, set to b. */
  function WithBit(w: Word, k: nat, b: bool): Word
    requires k < 64
  {
    w[k := b]
  }

  /** Shifted left by one. */
  function ShiftLeft(w: Word): Word
  {
    w[1..] + [false]
  }

  lemma AllOnes(w: Word)
    requires forall j :: 0 <= j < 64 ==> w[j]
    ensures w == ALL_ONES
  {
  }

  lemma SomeZero(w: Word) returns (z: nat)
    requires w != ALL_ONES
    ensures z < 64 && !w[z]
  {
    if forall j :: 0 <= j < 64 ==> w[j] {
      AllOnes(w);
    }
    z :| z < 64 && !w[z];
  }

  ghost predicate InUse(bitmap: seq<Word>, page: nat)
  {
    page / 64 < |bitmap| && bitmap[page / 64][page % 64]
  }

  /** A page's bit: the pages of word i come from its most significant bit down. */
  lemma PageBit(bitmap: seq<Word>, i: nat, j: nat)
    requires i < |bitmap| && j < 64
    ensures InUse(bitmap, 64 * i + j) <==> bitmap[i][j]
  {
  }

  lemma NotAllInUse(bitmap: seq<Word>, page: nat)
    requires page < 64 * |bitmap| && !InUse(bitmap, page)
    ensures !forall q: nat :: q < 64 * |bitmap| ==> InUse(bitmap, q)
  {
  }

  class DbFileHdr {
    const bitmap: array<Word>      // allocated_pg_bitmap

    ghost predicate Valid()
    {
      0 < bitmap.Length && 64 * bitmap.Length < INVALID_DB_PG_NO
    }

    /** db_file_init_hdr: only page 0 is in use. */
    constructor (words: nat)
      requires 0 < words && 64 * words < INVALID_DB_PG_NO
      ensures Valid() && fresh(bitmap) && bitmap.Length == words
      ensures forall page: nat :: InUse(bitmap[..], page) <==> page == 0
      ensures forall i, j :: 0 <= i < words && 0 <= j < 64 ==> (bitmap[i][j] <==> i == j == 0)
    {
      bitmap := new Word[words];
      new;
      var i := 0;
      while i < bitmap.Length
        invariant 0 <= i <= bitmap.Length
        invariant forall j :: 0 <= j < i ==> bitmap[j] == seq(64, k => false)
      {
        bitmap[i] := seq(64, k => false);
        i := i + 1;
      }
      bitmap[0] := WithBit(bitmap[0], 0, true);
    }

    /** The inner loop of db_file_alloc_db_page: how far the word must be shifted until its most significant bit is
        zero. */
    static method FirstZero(w: Word) returns (k: nat)
      requires w != ALL_ONES
      ensures k < 64 && !w[k] && forall j :: 0 <= j < k ==> w[j]
    {
      hide ALL_ONES;
      ghost var z := SomeZero(w);
      var v := w;
      k := 0;
      while v[0]
        invariant 0 <= k <= z
        invariant forall j :: 0 <= j < k ==> w[j]
        invariant forall j :: 0 <= j < 64 - k ==> v[j] == w[k + j]
        decreases z - k
      {
        v := ShiftLeft(v);
        k := k + 1;
      }
    }

    /** db_file_alloc_db_page: the smallest page not in use, or INVALID_DB_PG_NO when there is none. */
    method AllocPage() returns (pos: nat)
      requires Valid()
      modifies bitmap
      ensures pos == 0xFFFF_FFFF_FFFF_FFFF <==>
        forall page: nat :: page < 64 * bitmap.Length ==> InUse(old(bitmap[..]), page)
      ensures pos == INVALID_DB_PG_NO ==> bitmap[..] == old(bitmap[..])
      ensures pos != INVALID_DB_PG_NO ==>
        && pos < 64 * bitmap.Length && !InUse(old(bitmap[..]), pos)
        && (forall page: nat :: page < pos ==> InUse(old(bitmap[..]), page))
        && (forall page: nat :: InUse(bitmap[..], page) <==> InUse(old(bitmap[..]), page) || page == pos)
    {
      pos := 0;
      var i := 0;
      while i < bitmap.Length
        invariant 0 <= i <= bitmap.Length && pos == 64 * i
        invariant forall page: nat :: page < pos ==> InUse(bitmap[..], page)
        invariant bitmap[..] == old(bitmap[..])
      {
        if bitmap[i] == ALL_ONES {
          pos := pos + 64;
          i := i + 1;
          continue;
        }
        var k := FirstZero(bitmap[i]);
        pos := pos + k;
        assert pos / 64 == i && pos % 64 == k;
        NotAllInUse(bitmap[..], pos);
        assert pos < 64 * bitmap.Length && !InUse(bitmap[..], pos);
        bitmap[i] := WithBit(bitmap[i], pos % 64, true);
        return pos;
      }
      return INVALID_DB_PG_NO;
    }

    /** db_file_free_db_page. */
    method FreePage(page: nat)
      requires Valid() && page < 64 * bitmap.Length
      modifies bitmap
      ensures forall q: nat :: InUse(bitmap[..], q) <==> InUse(old(bitmap[..]), q) && q != page
    {
      var block, bit := page / 64, page % 64;
      bitmap[block] := WithBit(bitmap[block], bit, false);
    }
  }

  /** The bitmap is determined by which pages are in use. */
  lemma SameBitmap(a: seq<Word>, b: seq<Word>)
    requires |a| == |b| && forall page: nat :: InUse(a, page) <==> InUse(b, page)
    ensures a == b
  {
    forall i | 0 <= i < |a| ensures a[i] == b[i] {
      forall k | 0 <= k < 64 ensures a[i][k] == b[i][k] {
        assert (64 * i + k) / 64 == i && (64 * i + k) % 64 == k;
        assert InUse(a, 64 * i + k) <==> InUse(b, 64 * i + k);
      }
    }
  }

  /** Bitmap b is a with one more page in use, and c is b without it: then c is a again. */
  lemma AllocatedThenFreed(a: seq<Word>, b: seq<Word>, c: seq<Word>, page: nat)
    requires |a| == |b| == |c| && !InUse(a, page)
    requires forall q: nat :: InUse(b, q) <==> InUse(a, q) || q == page
    requires forall q: nat :: InUse(c, q) <==> InUse(b, q) && q != page
    ensures c == a
  {
    SameBitmap(c, a);
  }

  /** Allocating a page and freeing it again restores the bitmap; there is a page exactly when one was not in use. */
  method AllocThenFree(hdr: DbFileHdr) returns (page: nat, ghost between: seq<Word>)
    requires hdr.Valid()
    modifies hdr.bitmap
    ensures hdr.bitmap[..] == old(hdr.bitmap[..])
    ensures page == INVALID_DB_PG_NO <==> forall q: nat :: q < 64 * hdr.bitmap.Length ==> InUse(old(hdr.bitmap[..]), q)
    ensures page != INVALID_DB_PG_NO ==>
      && page < 64 * hdr.bitmap.Length && !InUse(old(hdr.bitmap[..]), page)
      && (forall q: nat :: q < page ==> InUse(old(hdr.bitmap[..]), q))
      && (forall q: nat :: InUse(between, q) <==> InUse(old(hdr.bitmap[..]), q) || q == page)
  {
    page := hdr.AllocPage();
    between := hdr.bitmap[..];
    if page != INVALID_DB_PG_NO {
      hdr.FreePage(page);
      AllocatedThenFreed(old(hdr.bitmap[..]), between, hdr.bitmap[..], page);
    }
  }

  // ---- whole runs ----

  /** A request to the pager. */
  datatype Request = Alloc | Free(page: nat)

  /** The smallest page from n on that is not in use, or INVALID_DB_PG_NO when there is none below limit. */
  function Smallest(used: set<nat>, n: nat, limit: nat): nat
    decreases limit - n
  {
    if n >= limit then INVALID_DB_PG_NO else if n !in used then n else Smallest(used, n + 1, limit)
  }

  lemma {:induction false} SmallestIs(used: set<nat>, n: nat, limit: nat, page: nat)
    requires n <= page < limit && page !in used && forall q: nat :: n <= q < page ==> q in used
    ensures Smallest(used, n, limit) == page
    decreases page - n
  {
    if n < page {
      SmallestIs(used, n + 1, limit, page);
    }
  }

  lemma {:induction false} SmallestNone(used: set<nat>, n: nat, limit: nat)
    requires forall q: nat :: n <= q < limit ==> q in used
    ensures Smallest(used, n, limit) == INVALID_DB_PG_NO
    decreases limit - n
  {
    if n < limit {
      SmallestNone(used, n + 1, limit);
    }
  }

  lemma {:induction false} SmallestFrom(used: set<nat>, n: nat, limit: nat)
    requires n <= limit <= INVALID_DB_PG_NO
    ensures Smallest(used, n, limit) >= n
    ensures n < limit ==> (Smallest(used, n, limit) == n <==> n !in used)
    decreases limit - n
  {
    if n < limit {
      SmallestFrom(used, n + 1, limit);
    }
  }

  lemma InAppended(s: seq<nat>, x: nat, y: nat)
    ensures y in s + [x] <==> y in s || y == x
  {
  }

  /** The pages in use after the requests, on a new file of limit pages. */
  function PagesAfter(limit: nat, requests: seq<Request>): set<nat>
  {
    if requests == [] then {0}
    else
      var before := PagesAfter(limit, requests[..|requests| - 1]);
      match requests[|requests| - 1]
      case Alloc => before + ({Smallest(before, 0, limit)} - {INVALID_DB_PG_NO})
      case Free(page) => before - {page}
  }

  /** What the allocations among the requests are answered. */
  function Given(limit: nat, requests: seq<Request>): seq<nat>
  {
    if requests == [] then []
    else
      var front := requests[..|requests| - 1];
      Given(limit, front) + if requests[|requests| - 1].Alloc? then [Smallest(PagesAfter(limit, front), 0, limit)]
        else []
  }

  lemma AllocStep(limit: nat, requests: seq<Request>)
    ensures var next := Smallest(PagesAfter(limit, requests), 0, limit);
      && Given(limit, requests + [Alloc]) == Given(limit, requests) + [next]
      && PagesAfter(limit, requests + [Alloc]) == PagesAfter(limit, requests) + ({next} - {INVALID_DB_PG_NO})
  {
    hide Smallest;
    assert (requests + [Alloc])[..|requests|] == requests;
  }

  /** One more allocation is given the smallest page not in use, and takes it. */
  lemma AllocNext(limit: nat, requests: seq<Request>, page: nat)
    requires page < limit <= INVALID_DB_PG_NO && page !in PagesAfter(limit, requests)
    requires forall q: nat :: q < page ==> q in PagesAfter(limit, requests)
    ensures Given(limit, requests + [Alloc]) == Given(limit, requests) + [page]
    ensures PagesAfter(limit, requests + [Alloc]) == PagesAfter(limit, requests) + {page}
  {
    hide Smallest, Given, PagesAfter;
    AllocStep(limit, requests);
    SmallestIs(PagesAfter(limit, requests), 0, limit, page);
  }

  /** With none left, it is given no page, and nothing changes. */
  lemma AllocNone(limit: nat, requests: seq<Request>)
    requires forall q: nat :: q < limit ==> q in PagesAfter(limit, requests)
    ensures Given(limit, requests + [Alloc]) == Given(limit, requests) + [INVALID_DB_PG_NO]
    ensures PagesAfter(limit, requests + [Alloc]) == PagesAfter(limit, requests)
  {
    hide Smallest, Given, PagesAfter;
    AllocStep(limit, requests);
    SmallestNone(PagesAfter(limit, requests), 0, limit);
  }

  /** One more release makes exactly that page unused. */
  lemma FreeNext(limit: nat, requests: seq<Request>, page: nat)
    ensures PagesAfter(limit, requests + [Free(page)]) == PagesAfter(limit, requests) - {page}
    ensures Given(limit, requests + [Free(page)]) == Given(limit, requests) && PagesAfter(limit, []) == {0}
  {
    assert (requests + [Free(page)])[..|requests|] == requests;
  }

  /** The bitmap has exactly these pages in use. */
  ghost predicate Represents(bitmap: seq<Word>, used: set<nat>)
  {
    forall page: nat :: InUse(bitmap, page) <==> page in used
  }

  /** Any run of requests on a new header answers every allocation with the smallest page not in use at that time, and
      leaves the bitmap with the pages in use that the requests say. */
  method Run(words: nat, requests: seq<Request>) returns (hdr: DbFileHdr, given: seq<nat>)
    requires 0 < words && 64 * words < INVALID_DB_PG_NO
    requires forall r :: r in requests && r.Free? ==> r.page < 64 * words
    ensures hdr.Valid() && hdr.bitmap.Length == words
    ensures given == Given(64 * words, requests) && Represents(hdr.bitmap[..], PagesAfter(64 * words, requests))
  {
    hdr := new DbFileHdr(words);
    given := [];
    var limit := 64 * words;
    for i := 0 to |requests|
      invariant hdr.Valid() && hdr.bitmap.Length == words && fresh(hdr.bitmap)
      invariant given == Given(limit, requests[..i]) && Represents(hdr.bitmap[..], PagesAfter(limit, requests[..i]))
    {
      assert requests[..i + 1][..i] == requests[..i];
      match requests[i] {
      case Alloc =>
        ghost var used := PagesAfter(limit, requests[..i]);
        var page := hdr.AllocPage();
        if page == INVALID_DB_PG_NO {
          SmallestNone(used, 0, limit);
        } else {
          SmallestIs(used, 0, limit, page);
        }
        given := given + [page];
      case Free(page) =>
        assert requests[i] in requests;
        hdr.FreePage(page);
      }
    }
    assert requests[..|requests|] == requests;
  }

  /** Page 0 was freed, and nothing allocated since. */
  ghost predicate ZeroPending(requests: seq<Request>)
  {
    exists i :: 0 <= i < |requests| && requests[i] == Free(0) && forall j :: i < j < |requests| ==> !requests[j].Alloc?
  }

  lemma ZeroPendingNext(requests: seq<Request>, r: Request)
    ensures ZeroPending(requests + [r]) <==> r == Free(0) || (r != Alloc && ZeroPending(requests))
  {
    var more := requests + [r];
    if r != Alloc && ZeroPending(requests) {
      var i :| 0 <= i < |requests| && requests[i] == Free(0) && forall j :: i < j < |requests| ==> !requests[j].Alloc?;
      assert more[i] == Free(0) && forall j :: i < j < |more| ==> !more[j].Alloc?;
    } else if r == Free(0) {
      assert more[|requests|] == Free(0);
    } else if ZeroPending(more) {
      var i :| 0 <= i < |more| && more[i] == Free(0) && forall j :: i < j < |more| ==> !more[j].Alloc?;
      assert more[|requests|] == r && i < |requests|;
      assert requests[i] == Free(0);
      forall j | i < j < |requests| ensures !requests[j].Alloc? {
        assert more[j] == requests[j];
      }
    }
  }

  /** Page 0 is in use but between its release and the next allocation. */
  lemma {:induction false} ZeroInUse(limit: nat, requests: seq<Request>)
    requires 0 < limit <= INVALID_DB_PG_NO
    ensures 0 in PagesAfter(limit, requests) <==> !ZeroPending(requests)
  {
    if requests != [] {
      var front, r := requests[..|requests| - 1], requests[|requests| - 1];
      assert requests == front + [r];
      ZeroInUse(limit, front);
      ZeroPendingNext(front, r);
    }
  }

  /** Page 0, the header's own, is handed out exactly in those runs that free it and allocate afterwards. */
  lemma {:induction false} ZeroGiven(limit: nat, requests: seq<Request>)
    requires 0 < limit <= INVALID_DB_PG_NO
    ensures 0 in Given(limit, requests)
       <==> exists i, j :: 0 <= i < j < |requests| && requests[i] == Free(0) && requests[j] == Alloc
  {
    if requests != [] {
      var n := |requests| - 1;
      var front, r := requests[..n], requests[n];
      assert requests == front + [r];
      ZeroGiven(limit, front);
      ZeroInUse(limit, front);
      if r.Alloc? {
        SmallestFrom(PagesAfter(limit, front), 0, limit);
        InAppended(Given(limit, front), Smallest(PagesAfter(limit, front), 0, limit), 0);
      }
      if 0 in Given(limit, front) {
        var i, j :| 0 <= i < j < n && front[i] == Free(0) && front[j] == Alloc;
        assert requests[i] == Free(0) && requests[j] == Alloc;
      } else if r == Alloc && ZeroPending(front) {
        var i :| 0 <= i < n && front[i] == Free(0) && forall j :: i < j < n ==> !front[j].Alloc?;
        assert requests[i] == Free(0) && requests[n] == Alloc;
      }
      forall i, j | 0 <= i < j < |requests| && requests[i] == Free(0) && requests[j] == Alloc
        ensures 0 in Given(limit, requests)
      {
        if j < n {
          assert front[i] == Free(0) && front[j] == Alloc;
        } else if !ZeroPending(front) {
          var k :| i < k < n && front[k].Alloc?;
          assert front[i] == Free(0) && front[k] == Alloc;
        }
      }
    }
  }

  /** db_page_get_offset, for the system's page size. */
  function PageOffset(pageSize: nat, page: nat): nat
  {
    page * pageSize
  }

  /** db_get_container_page_from_offset. */
  function ContainerPage(pageSize: nat, offset: nat): nat
    requires pageSize > 0
  {
    offset / pageSize
  }

  /** The page an offset is said to fall in is the one whose bytes contain it. */
  lemma OffsetInPage(pageSize: nat, offset: nat, page: nat)
    requires pageSize > 0
    ensures ContainerPage(pageSize, offset) == page
       <==> PageOffset(pageSize, page) <= offset < PageOffset(pageSize, page) + pageSize
    ensures PageOffset(pageSize, 0) == 0 && PageOffset(pageSize, page + 1) == PageOffset(pageSize, page) + pageSize
  {
    var q, r := offset / pageSize, offset % pageSize;
    assert offset == q * pageSize + r && 0 <= r < pageSize;
    InOnePage(pageSize, q, r, page);
  }

  lemma InOnePage(pageSize: nat, q: nat, r: nat, page: nat)
    requires r < pageSize
    ensures q == page <==> page * pageSize <= q * pageSize + r < page * pageSize + pageSize
  {
    if q < page {
      Grows(pageSize, q + 1, page);
    } else if page < q {
      Grows(pageSize, page + 1, q);
    }
  }

  lemma Grows(pageSize: nat, a: nat, b: nat)
    requires a <= b
    ensures a * pageSize <= b * pageSize && (a + 1) * pageSize == a * pageSize + pageSize
    decreases b - a
  {
    if a < b {
      Grows(pageSize, a, b - 1);
    }
  }
}
