/** Facts about finite sequences that the storage modules share: inserting and removing one position, and a sequence of
    blocks read as one long sequence. */
module Sequences {

  function InsertAt<T>(s: seq<T>, p: nat, x: T): (r: seq<T>)
    requires p <= |s|
    ensures |r| == |s| + 1
  {
    s[..p] + [x] + s[p..]
  }

  function RemoveAt<T>(s: seq<T>, p: nat): (r: seq<T>)
    requires p < |s|
    ensures |r| == |s| - 1
  {
    s[..p] + s[p + 1..]
  }

  lemma InsertedAt<T>(s: seq<T>, p: nat, x: T, q: nat)
    requires p <= |s| && q <= |s|
    ensures InsertAt(s, p, x)[q] == if q < p then s[q] else if q == p then x else s[q - 1]
  {
  }

  lemma RemoveInserted<T>(s: seq<T>, p: nat, x: T)
    requires p <= |s|
    ensures RemoveAt(InsertAt(s, p, x), p) == s
  {
  }

  lemma InsertRemoved<T>(s: seq<T>, p: nat)
    requires p < |s|
    ensures InsertAt(RemoveAt(s, p), p, s[p]) == s
  {
  }

  lemma InsertInMiddle<T>(a: seq<T>, m: seq<T>, c: seq<T>, i: nat, x: T)
    requires i <= |m|
    ensures InsertAt(a + m + c, |a| + i, x) == a + InsertAt(m, i, x) + c
  {
    assert (a + m + c)[..|a| + i] == a + m[..i];
    assert (a + m + c)[|a| + i..] == m[i..] + c;
  }

  lemma RemoveInMiddle<T>(a: seq<T>, m: seq<T>, c: seq<T>, i: nat)
    requires i < |m|
    ensures RemoveAt(a + m + c, |a| + i) == a + RemoveAt(m, i) + c
  {
    assert (a + m + c)[..|a| + i] == a + m[..i];
    assert (a + m + c)[|a| + i + 1..] == m[i + 1..] + c;
  }

  /** The blocks of b laid end to end. */
  function Flat<T>(b: seq<seq<T>>): seq<T>
  {
    if b == [] then [] else b[0] + Flat(b[1..])
  }

  /** Where block j starts in Flat(b). */
  function Start<T>(b: seq<seq<T>>, j: nat): nat
    requires j <= |b|
  {
    |Flat(b[..j])|
  }

  lemma {:induction false} FlatConcat<T>(a: seq<seq<T>>, b: seq<seq<T>>)
    ensures Flat(a + b) == Flat(a) + Flat(b)
  {
    if a == [] {
      assert a + b == b;
    } else {
      FlatConcat(a[1..], b);
      assert (a + b)[0] == a[0] && (a + b)[1..] == a[1..] + b;
    }
  }

  lemma FlatOne<T>(x: seq<T>)
    ensures Flat([x]) == x
  {
    assert [x][1..] == [];
  }

  /** Replacing block j by the blocks mid replaces exactly its stretch of the long sequence. */
  lemma FlatSplice<T>(b: seq<seq<T>>, j: nat, k: nat, mid: seq<seq<T>>)
    requires j <= k <= |b|
    ensures Flat(b[..j] + mid + b[k..]) == Flat(b[..j]) + Flat(mid) + Flat(b[k..])
  {
    FlatConcat(b[..j] + mid, b[k..]);
    FlatConcat(b[..j], mid);
  }

  lemma FlatAt<T>(b: seq<seq<T>>, j: nat)
    requires j < |b|
    ensures Flat(b) == Flat(b[..j]) + b[j] + Flat(b[j + 1..])
    ensures Start(b, j) + |b[j]| == Start(b, j + 1) <= |Flat(b)|
    ensures forall i :: 0 <= i < |b[j]| ==> Flat(b)[Start(b, j) + i] == b[j][i]
  {
    FlatSplice(b, j, j + 1, [b[j]]);
    FlatOne(b[j]);
    assert b == b[..j] + [b[j]] + b[j + 1..];
    FlatConcat(b[..j], [b[j]]);
    assert b[..j + 1] == b[..j] + [b[j]];
  }

  lemma StartNext<T>(b: seq<seq<T>>, j: nat)
    requires j < |b|
    ensures Start(b, j) + |b[j]| == Start(b, j + 1) <= |Flat(b)|
    ensures j + 1 == |b| ==> Start(b, j + 1) == |Flat(b)|
    ensures j == 0 ==> Start(b, j) == 0
  {
    FlatAt(b, j);
    assert j + 1 == |b| ==> b[..j + 1] == b;
  }

  lemma FlatIndex<T>(b: seq<seq<T>>, j: nat, i: nat)
    requires j < |b| && i < |b[j]|
    ensures Start(b, j) + |b[j]| == Start(b, j + 1) <= |Flat(b)|
    ensures Flat(b)[Start(b, j) + i] == b[j][i]
  {
    FlatAt(b, j);
  }

  lemma FlatPut<T>(b: seq<seq<T>>, j: nat, x: seq<T>)
    requires j < |b|
    ensures Flat(b[j := x]) == Flat(b[..j]) + x + Flat(b[j + 1..])
  {
    FlatAt(b[j := x], j);
    assert b[j := x][..j] == b[..j];
    assert b[j := x][j + 1..] == b[j + 1..];
  }

  lemma StartMonotone<T>(b: seq<seq<T>>, j: nat, k: nat)
    requires j <= k <= |b|
    ensures Start(b, j) <= Start(b, k) <= |Flat(b)|
  {
    FlatConcat(b[..j], b[j..k]);
    assert b[..k] == b[..j] + b[j..k];
    FlatConcat(b[..k], b[k..]);
    assert b == b[..k] + b[k..];
  }

  /** The block, and the place in it, that holds position p of the long sequence. */
  lemma {:induction false} Locate<T>(b: seq<seq<T>>, p: nat) returns (j: nat, i: nat)
    requires p < |Flat(b)|
    ensures j < |b| && i < |b[j]| && Start(b, j) + i == p && b[j][i] == Flat(b)[p]
  {
    if p < |b[0]| {
      j, i := 0, p;
      assert b[..0] == [];
    } else {
      j, i := Locate(b[1..], p - |b[0]|);
      assert b[..j + 1] == [b[0]] + b[1..][..j];
      FlatConcat([b[0]], b[1..][..j]);
      FlatOne(b[0]);
      j := j + 1;
    }
  }

  lemma FlatInsert<T>(b: seq<seq<T>>, j: nat, i: nat, x: T)
    requires j < |b| && i <= |b[j]|
    ensures Start(b, j) + i <= |Flat(b)|
    ensures Flat(b[j := InsertAt(b[j], i, x)]) == InsertAt(Flat(b), Start(b, j) + i, x)
  {
    hide Flat, InsertAt;
    FlatAt(b, j);
    FlatPut(b, j, InsertAt(b[j], i, x));
    InsertInMiddle(Flat(b[..j]), b[j], Flat(b[j + 1..]), i, x);
  }

  lemma FlatRemove<T>(b: seq<seq<T>>, j: nat, i: nat)
    requires j < |b| && i < |b[j]|
    ensures Start(b, j) + i < |Flat(b)|
    ensures Flat(b[j := RemoveAt(b[j], i)]) == RemoveAt(Flat(b), Start(b, j) + i)
  {
    hide Flat, RemoveAt;
    FlatAt(b, j);
    FlatPut(b, j, RemoveAt(b[j], i));
    RemoveInMiddle(Flat(b[..j]), b[j], Flat(b[j + 1..]), i);
  }

  lemma FlatUpdate<T>(b: seq<seq<T>>, j: nat, i: nat, x: T)
    requires j < |b| && i < |b[j]|
    ensures Start(b, j) + i < |Flat(b)|
    ensures Flat(b[j := b[j][i := x]]) == Flat(b)[Start(b, j) + i := x]
  {
    FlatAt(b, j);
    FlatPut(b, j, b[j][i := x]);
  }

  lemma FlatTwo<T>(b: seq<seq<T>>, j: nat)
    requires j + 1 < |b|
    ensures Flat(b) == Flat(b[..j]) + (b[j] + b[j + 1]) + Flat(b[j + 2..])
  {
    hide Flat;
    FlatAt(b, j);
    FlatHead(b[j + 1..]);
    assert b[j + 1..][1..] == b[j + 2..];
    Regroup(Flat(b[..j]), b[j], b[j + 1], Flat(b[j + 2..]));
  }

  lemma Regroup<T>(a: seq<T>, x: seq<T>, y: seq<T>, c: seq<T>)
    ensures a + x + (y + c) == a + (x + y) + c
  {
  }

  lemma FlatHead<T>(b: seq<seq<T>>)
    requires b != []
    ensures Flat(b) == b[0] + Flat(b[1..])
  {
  }

  /** Moving elements between neighbouring blocks changes nothing of the whole. */
  lemma FlatShare<T>(b: seq<seq<T>>, j: nat, x: seq<T>, y: seq<T>)
    requires j + 1 < |b| && x + y == b[j] + b[j + 1]
    ensures Flat(b[j := x][j + 1 := y]) == Flat(b)
  {
    var b' := b[j := x][j + 1 := y];
    FlatTwo(b, j);
    FlatTwo(b', j);
    assert b'[..j] == b[..j] && b'[j + 2..] == b[j + 2..];
  }

  /** Nor does joining two neighbouring blocks. */
  lemma FlatJoin<T>(b: seq<seq<T>>, j: nat)
    requires j + 1 < |b|
    ensures Flat(RemoveAt(b[j := b[j] + b[j + 1]], j + 1)) == Flat(b)
  {
    var x := b[j] + b[j + 1];
    FlatTwo(b, j);
    FlatSplice(b, j, j + 2, [x]);
    FlatOne(x);
    assert RemoveAt(b[j := x], j + 1) == b[..j] + [x] + b[j + 2..];
  }
}
