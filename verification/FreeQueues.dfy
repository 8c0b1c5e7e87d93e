/** The order of the free list (mem_allocator/mem_allocator.cpp): the largest block first, and blocks of one size in the
    order in which they were listed. */
module FreeQueues {

  /** block_meta_data_t, less its links in the free list. */
  datatype Header = Header(isFree: bool, blockSize: int, offset: int, baseAddress: int, prevBlock: int, nextBlock: int)

  type Memory = map<int, Header>    // the block headers by address

  function SizeIn(m: Memory, x: int): int
  {
    if x in m then m[x].blockSize else 0
  }

  /** free_blocks_comparison_function: the larger block comes first. */
  function Compare(m: Memory, x: int, y: int): int
  {
    if SizeIn(m, x) > SizeIn(m, y) then -1 else if SizeIn(m, x) < SizeIn(m, y) then 1 else 0
  }

  ghost predicate Sorted(m: Memory, free: seq<int>)
  {
    forall i, j :: 0 <= i < j < |free| ==> SizeIn(m, free[i]) >= SizeIn(m, free[j])
  }

  ghost predicate SameSizes(m: Memory, m': Memory, f: seq<int>)
  {
    forall y :: y in f ==> SizeIn(m', y) == SizeIn(m, y)
  }

  /** Block a put before the first smaller block. */
  ghost function Enqueue(m: Memory, f: seq<int>, a: int): seq<int>
  {
    if f == [] || SizeIn(m, f[0]) < SizeIn(m, a) then [a] + f else [f[0]] + Enqueue(m, f[1..], a)
  }

  /** The blocks s, listed one after the other. */
  ghost function Queue(m: Memory, s: seq<int>): seq<int>
  {
    if s == [] then [] else Enqueue(m, Queue(m, s[..|s| - 1]), s[|s| - 1])
  }

  /** f without the blocks in gone. */
  ghost function Except(f: seq<int>, gone: set<int>): seq<int>
  {
    if f == [] then [] else if f[0] in gone then Except(f[1..], gone) else [f[0]] + Except(f[1..], gone)
  }

  // ---- one block more ----

  lemma {:induction false} EnqueueHere(m: Memory, f: seq<int>, k: nat, a: int)
    requires k <= |f| && (forall i :: 0 <= i < k ==> SizeIn(m, f[i]) >= SizeIn(m, a))
    requires k < |f| ==> SizeIn(m, f[k]) < SizeIn(m, a)
    ensures Enqueue(m, f, a) == f[..k] + [a] + f[k..]
    decreases k
  {
    if k > 0 {
      EnqueueHere(m, f[1..], k - 1, a);
      assert f[..k] == [f[0]] + f[1..][..k - 1] && f[1..][k - 1..] == f[k..];
    }
  }

  /** Every block before a is at least as large, every block after it is smaller. */
  lemma {:induction false} EnqueuedAt(m: Memory, f: seq<int>, a: int) returns (k: nat)
    requires Sorted(m, f)
    ensures k <= |f| && Enqueue(m, f, a) == f[..k] + [a] + f[k..]
    ensures forall y :: y in f[..k] ==> SizeIn(m, y) >= SizeIn(m, a)
    ensures forall y :: y in f[k..] ==> SizeIn(m, y) < SizeIn(m, a)
  {
    k := 0;
    while k < |f| && SizeIn(m, f[k]) >= SizeIn(m, a)
      invariant k <= |f| && forall i :: 0 <= i < k ==> SizeIn(m, f[i]) >= SizeIn(m, a)
    {
      k := k + 1;
    }
    EnqueueHere(m, f, k, a);
  }

  lemma SortedBehind(m: Memory, x: int, r: seq<int>)
    requires Sorted(m, r) && forall y :: y in r ==> SizeIn(m, y) <= SizeIn(m, x)
    ensures Sorted(m, [x] + r)
  {
    hide SizeIn;
    var s := [x] + r;
    forall i, j | 0 <= i < j < |s| ensures SizeIn(m, s[i]) >= SizeIn(m, s[j]) {
      var y := r[j - 1];
      assert s[j] == y && y in r && (i > 0 ==> s[i] == r[i - 1]);
    }
  }

  lemma SortedSplit(m: Memory, f: seq<int>)
    requires Sorted(m, f) && f != []
    ensures Sorted(m, f[1..]) && forall y :: y in f ==> SizeIn(m, y) <= SizeIn(m, f[0])
  {
    hide SizeIn;
  }

  lemma {:induction false} EnqueueSorted(m: Memory, f: seq<int>, a: int)
    requires Sorted(m, f)
    ensures Sorted(m, Enqueue(m, f, a)) && forall y :: y in Enqueue(m, f, a) <==> y in f || y == a
    decreases f
  {
    hide SizeIn, Sorted;
    if f != [] {
      SortedSplit(m, f);
    }
    if f == [] || SizeIn(m, f[0]) < SizeIn(m, a) {
      SortedBehind(m, a, f);
    } else {
      var x, rest := f[0], f[1..];
      assert f == [x] + rest;
      EnqueueSorted(m, rest, a);
      SortedBehind(m, x, Enqueue(m, rest, a));
    }
  }

  lemma {:induction false} EnqueueSame(m: Memory, m': Memory, f: seq<int>, a: int)
    requires SameSizes(m, m', f) && SizeIn(m', a) == SizeIn(m, a)
    ensures Enqueue(m', f, a) == Enqueue(m, f, a)
  {
    if f != [] {
      assert f[0] in f && forall y :: y in f[1..] ==> y in f;
      EnqueueSame(m, m', f[1..], a);
    }
  }

  // ---- the whole list ----

  lemma {:induction false} QueueSorted(m: Memory, s: seq<int>)
    ensures Sorted(m, Queue(m, s)) && forall y :: y in Queue(m, s) <==> y in s
  {
    hide Sorted, Enqueue;
    if s != [] {
      var n := |s| - 1;
      assert s == s[..n] + [s[n]];
      QueueSorted(m, s[..n]);
      EnqueueSorted(m, Queue(m, s[..n]), s[n]);
    } else {
      assert Sorted(m, []) by {
        SortedNone(m);
      }
    }
  }

  lemma SortedNone(m: Memory)
    ensures Sorted(m, [])
  {
  }

  lemma {:induction false} QueueSame(m: Memory, m': Memory, s: seq<int>)
    requires SameSizes(m, m', s)
    ensures Queue(m', s) == Queue(m, s)
  {
    hide Enqueue;
    if s != [] {
      var n := |s| - 1;
      assert s == s[..n] + [s[n]];
      QueueSame(m, m', s[..n]);
      QueueSorted(m, s[..n]);
      EnqueueSame(m, m', Queue(m, s[..n]), s[n]);
    }
  }

  lemma Shifted(f: seq<int>, k: nat, a: int, i: nat) returns (j: nat)
    requires k <= |f| && i < |f|
    ensures j == if i < k then i else i + 1
    ensures var r := f[..k] + [a] + f[k..]; |r| == |f| + 1 && r[k] == a && r[j] == f[i]
    ensures if i < k then f[i] in f[..k] else f[i] in f[k..]
  {
    j := if i < k then i else i + 1;
    assert i < k ==> f[..k][i] == f[i];
    assert i >= k ==> f[k..][i - k] == f[i];
  }

  /** Of two listed blocks, the one listed earlier stands before the other exactly when it is at least as large. */
  lemma {:induction false} InTurn(m: Memory, s: seq<int>, p: nat, q: nat) returns (i: nat, j: nat)
    requires p < q < |s|
    ensures i < |Queue(m, s)| && j < |Queue(m, s)| && Queue(m, s)[i] == s[p] && Queue(m, s)[j] == s[q]
    ensures i < j <==> SizeIn(m, s[p]) >= SizeIn(m, s[q])
    decreases |s|
  {
    hide Enqueue, Queue, Sorted;
    var n := |s| - 1;
    var f := Queue(m, s[..n]);
    QueueSorted(m, s[..n]);
    QueueLast(m, s);
    var k := EnqueuedAt(m, f, s[n]);
    if q < n {
      i, j := InTurn(m, s[..n], p, q);
      j := Shifted(f, k, s[n], j);
      i := Shifted(f, k, s[n], i);
    } else {
      assert s[p] == s[..n][p] && s[p] in f;
      i :| 0 <= i < |f| && f[i] == s[p];
      i := Shifted(f, k, s[n], i);
      j := k;
    }
  }

  /** At the head of the list stands the block that has been listed longest among the largest. */
  lemma {:induction false} HeadInTurn(m: Memory, s: seq<int>) returns (p: nat)
    requires s != []
    ensures p < |s| && Queue(m, s) != [] && Queue(m, s)[0] == s[p]
    ensures forall q :: 0 <= q < |s| ==> SizeIn(m, s[q]) <= SizeIn(m, s[p])
    ensures forall q :: 0 <= q < p ==> SizeIn(m, s[q]) < SizeIn(m, s[p])
  {
    hide Queue;
    var n := |s| - 1;
    var f := Queue(m, s[..n]);
    QueueLast(m, s);
    if n == 0 {
      QueueNone(m, s[..n]);
      p := 0;
    } else {
      p := HeadInTurn(m, s[..n]);
      assert forall q :: 0 <= q < n ==> s[..n][q] == s[q];
      if SizeIn(m, s[p]) < SizeIn(m, s[n]) {
        p := n;
      }
    }
  }

  lemma QueueLast(m: Memory, s: seq<int>)
    requires s != []
    ensures Queue(m, s) == Enqueue(m, Queue(m, s[..|s| - 1]), s[|s| - 1])
  {
  }

  lemma QueueNone(m: Memory, s: seq<int>)
    requires s == []
    ensures Queue(m, s) == []
  {
  }

  // ---- some blocks less ----

  lemma {:induction false} ExceptElements(f: seq<int>, gone: set<int>)
    ensures forall y :: y in Except(f, gone) <==> y in f && y !in gone
  {
    if f != [] {
      ExceptElements(f[1..], gone);
      assert f == [f[0]] + f[1..];
    }
  }

  lemma {:induction false} ExceptNone(f: seq<int>, gone: set<int>)
    requires forall y :: y in f ==> y !in gone
    ensures Except(f, gone) == f
  {
    if f != [] {
      var x, rest := f[0], f[1..];
      assert f == [x] + rest;
      assert x in f;
      forall y | y in rest ensures y !in gone {
        assert y in f;
      }
      ExceptNone(rest, gone);
    }
  }

  lemma {:induction false} ExceptTwice(f: seq<int>, gone: set<int>, more: set<int>)
    ensures Except(Except(f, gone), more) == Except(f, gone + more)
  {
    if f != [] {
      ExceptTwice(f[1..], gone, more);
      if f[0] !in gone {
        assert ([f[0]] + Except(f[1..], gone))[1..] == Except(f[1..], gone);
      }
    }
  }

  lemma ExceptHead(x: int, rest: seq<int>, gone: set<int>)
    ensures Except([x] + rest, gone) == if x in gone then Except(rest, gone) else [x] + Except(rest, gone)
  {
    assert ([x] + rest)[1..] == rest;
  }

  lemma Grouped(a: seq<int>, b: seq<int>, c: seq<int>)
    ensures a + b + c == a + (b + c)
  {
  }

  lemma {:induction false} ExceptConcat(f: seq<int>, g: seq<int>, gone: set<int>)
    ensures Except(f + g, gone) == Except(f, gone) + Except(g, gone)
  {
    if f == [] {
      assert f + g == g;
    } else {
      hide Except;
      var x, rest := f[0], f[1..];
      assert f == [x] + rest;
      Grouped([x], rest, g);
      ExceptHead(x, rest, gone);
      ExceptHead(x, rest + g, gone);
      ExceptConcat(rest, g, gone);
      Grouped([x], Except(rest, gone), Except(g, gone));
    }
  }

  lemma {:induction false} ExceptOne(f: seq<int>, k: nat)
    requires k < |f| && forall i, j :: 0 <= i < j < |f| ==> f[i] != f[j]
    ensures Except(f, {f[k]}) == f[..k] + f[k + 1..]
    decreases k
  {
    if k == 0 {
      ExceptNone(f[1..], {f[0]});
    } else {
      ExceptOne(f[1..], k - 1);
      assert f[..k] == [f[0]] + f[1..][..k - 1] && f[1..][k..] == f[k + 1..];
    }
  }

  lemma {:induction false} ExceptEnqueue(m: Memory, f: seq<int>, a: int, gone: set<int>)
    requires Sorted(m, f)
    ensures Except(Enqueue(m, f, a), gone) ==
      if a in gone then Except(f, gone) else Enqueue(m, Except(f, gone), a)
  {
    if f == [] || SizeIn(m, f[0]) < SizeIn(m, a) {
      assert ([a] + f)[1..] == f;
      ExceptElements(f, gone);
      var e := Except(f, gone);
      assert e != [] ==> e[0] in e;
    } else {
      ExceptEnqueue(m, f[1..], a, gone);
      var r := Enqueue(m, f[1..], a);
      assert ([f[0]] + r)[1..] == r;
      if f[0] !in gone {
        assert ([f[0]] + Except(f[1..], gone))[1..] == Except(f[1..], gone);
      }
    }
  }

  /** Blocks that leave the list do not change the order of the others. */
  lemma {:induction false} ExceptQueue(m: Memory, s: seq<int>, gone: set<int>)
    ensures Except(Queue(m, s), gone) == Queue(m, Except(s, gone))
  {
    hide Enqueue, Except;
    if s == [] {
      ExceptNone([], gone);
    } else {
      var n := |s| - 1;
      assert s == s[..n] + [s[n]];
      ExceptConcat(s[..n], [s[n]], gone);
      ExceptQueue(m, s[..n], gone);
      QueueSorted(m, s[..n]);
      ExceptEnqueue(m, Queue(m, s[..n]), s[n], gone);
      ExceptSingle(s[n], gone);
      var e := Except(s[..n], gone);
      assert (e + [s[n]])[..|e|] == e;
      assert e + [] == e;
    }
  }

  lemma ExceptSingle(a: int, gone: set<int>)
    ensures Except([a], gone) == if a in gone then [] else [a]
  {
    assert [a][1..] == [];
  }

  // ---- the list stays the queue of what was listed, in order ----

  lemma QueueLess(m: Memory, m': Memory, f: seq<int>, s: seq<int>, gone: set<int>)
    requires f == Queue(m, s) && SameSizes(m, m', Except(f, gone))
    ensures Except(f, gone) == Queue(m', Except(s, gone))
  {
    hide Except, Queue;
    ExceptQueue(m, s, gone);
    ExceptElements(s, gone);
    ExceptElements(f, gone);
    QueueSorted(m, s);
    QueueSame(m, m', Except(s, gone));
  }

  lemma QueueMore(m: Memory, m': Memory, f: seq<int>, s: seq<int>, a: int)
    requires f == Queue(m, s) && SameSizes(m, m', f)
    ensures Enqueue(m', f, a) == Queue(m', s + [a])
  {
    hide Enqueue;
    QueueSorted(m, s);
    QueueSame(m, m', s);
    assert (s + [a])[..|s|] == s;
  }
}
