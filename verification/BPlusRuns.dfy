/** Whole runs of the B+ tree's interface: what any sequence of insertions, deletions and queries answers, and when it
    destroys the tree. */
module BPlusRuns {
  import opened BPlusNodes
  import opened BPlusLevels
  import opened BPlusTrees

  datatype Request = Put(key: int, value: Record) | Drop(key: int) | Get(key: int)

  /** What a request answers; a deletion, the record it hands to free_fn. */
  datatype Answer = Stored(ok: bool) | Dropped(freed: Record) | Got(rec: Record)

  /** What a caller can know of a tree: the map, and the key and the record left over in slot 0 of the root if the tree
      is empty: those whose deletion emptied it, or at first what a zeroed slot holds. A broken tree is no tree any
      more. */
  datatype Store = Store(m: map<int, Record>, left: int, leftRecord: Record) | Broken

  const FRESH := Store(map[], 0, NULL)

  /** In this state the tree takes key for present although it is not. */
  predicate Mistaken(s: Store, key: int)
  {
    s.Store? && s.m == map[] && key == s.left
  }

  function Next(s: Store, r: Request): Store
  {
    if s.Broken? then Broken
    else
      match r
      case Put(k, v) => if k in s.m || Mistaken(s, k) then s else s.(m := s.m[k := v])
      case Drop(k) =>
        if Mistaken(s, k) then Broken
        else if k !in s.m then s
        else if s.m.Keys == {k} then Store(map[], k, s.m[k])
        else s.(m := s.m - {k})
      case Get(_) => s
  }

  function Reply(s: Store, r: Request): Answer
    requires s.Store?
  {
    match r
    case Put(k, _) => Stored(k !in s.m && !Mistaken(s, k))
    case Drop(k) => Dropped(if k in s.m then s.m[k] else if Mistaken(s, k) then s.leftRecord else NULL)
    case Get(k) => Got(if k in s.m then s.m[k] else NULL)
  }

  function After(s: Store, rs: seq<Request>): Store
  {
    if rs == [] then s else Next(After(s, rs[..|rs| - 1]), rs[|rs| - 1])
  }

  /** Request i names the left-over key of an empty tree. */
  predicate NamesLeftOver(rs: seq<Request>, i: nat)
    requires i < |rs|
  {
    !rs[i].Get? && Mistaken(After(FRESH, rs[..i]), rs[i].key)
  }

  lemma AfterOne(s: Store, rs: seq<Request>, i: nat)
    requires i < |rs|
    ensures After(s, rs[..i + 1]) == Next(After(s, rs[..i]), rs[i])
  {
    assert rs[..i + 1][..i] == rs[..i];
  }

  /** The tree is in state s. */
  ghost predicate InState(t: BPlusTree, s: Store)
    reads t, t.Root
  {
    && s.Store? && t.Map() == s.m && (forall q :: t.Stale(q) <==> Mistaken(s, q))
    && (s.m == map[] ==> RecordOf(t.LeftOver()) == s.leftRecord)
  }

  lemma EmptyMap(t: BPlusTree)
    requires t.Valid()
    ensures t.Map() == map[] <==> t.Records() == []
  {
    hide BPlusTree.Valid;
    if t.Records() != [] {
      var last := t.Records()[|t.Records()| - 1];
      assert last.k in t.Map();
    }
  }

  lemma OnlyKey(m: map<int, Record>, k: int)
    requires k in m
    ensures m - {k} == map[] <==> m.Keys == {k}
  {
    if m - {k} == map[] {
      forall q | q in m ensures q == k {
        assert q != k ==> q in m - {k};
      }
    }
  }

  /** One request: the answer is the state's, and the tree is in the next state; it stops being one exactly when that
      state is the broken one. */
  method Serve(t: BPlusTree, r: Request, ghost s: Store) returns (a: Answer)
    requires t.Valid() && InState(t, s)
    modifies t, t.R
    ensures a == Reply(s, r)
    ensures t.Valid() <==> Next(s, r) != Broken
    ensures t.Valid() ==> fresh(t.R - old(t.R)) && InState(t, Next(s, r))
    ensures !t.Valid() ==> t.Root.keyNum == -1
  {
    hide BPlusTree.Valid, BPlusTree.Map, BPlusTree.Records, BPlusTree.LeftOver;
    EmptyMap(t);
    match r
    case Put(k, v) =>
      var ok := t.InsertRecord(k, v);
      EmptyMap(t);
      a := Stored(ok);
    case Drop(k) =>
      if t.Map().Keys == {k} {
        OneRecord(t, k);
      }
      if k in s.m {
        OnlyKey(s.m, k);
      }
      var freed := t.DeleteRecord(k);
      if t.Valid() {
        EmptyMap(t);
      }
      a := Dropped(RecordOf(freed));
    case Get(k) =>
      var rec := t.QueryKey(k);
      a := Got(rec);
  }

  /** Any run on a new tree: every request served is answered as the state before it says, and the tree is in the state
      after it. The run goes on to the end unless a request breaks the tree, and that leaves its root with key_num
      -1. */
  method Run(rs: seq<Request>) returns (t: BPlusTree, answers: seq<Answer>)
    ensures |answers| <= |rs| && forall i :: 0 <= i < |answers| ==> After(FRESH, rs[..i]).Store?
    ensures forall i :: 0 <= i < |answers| ==> answers[i] == Reply(After(FRESH, rs[..i]), rs[i])
    ensures |answers| < |rs| ==> !t.Valid()
    ensures t.Valid() <==> After(FRESH, rs[..|answers|]).Store?
    ensures t.Valid() ==> InState(t, After(FRESH, rs[..|answers|]))
    ensures !t.Valid() ==> t.Root.keyNum == -1
  {
    hide BPlusTree.Valid, BPlusTree.Map, BPlusTree.Records, BPlusTree.Stale, BPlusTree.LeftOver, Next, Reply, After;
    t := new BPlusTree();
    answers := [];
    assert rs[..0] == [];
    Starts(t, rs[..0]);
    while |answers| < |rs|
      invariant |answers| <= |rs| && fresh(t)
      invariant t.Valid() ==> fresh(t.R) && InState(t, After(FRESH, rs[..|answers|]))
      invariant !t.Valid() ==> After(FRESH, rs[..|answers|]).Broken? && t.Root.keyNum == -1
      invariant forall i :: 0 <= i < |answers| ==> After(FRESH, rs[..i]).Store?
      invariant forall i :: 0 <= i < |answers| ==> answers[i] == Reply(After(FRESH, rs[..i]), rs[i])
      decreases |rs| - |answers|
    {
      if t.Valid() {
        RootCount(t);
      }
      if t.Root.keyNum < 0 {
        break;
      }
      var i := |answers|;
      var a := Serve(t, rs[i], After(FRESH, rs[..i]));
      AfterOne(FRESH, rs, i);
      answers := answers + [a];
    }
  }

  lemma RootCount(t: BPlusTree)
    requires t.Valid()
    ensures t.Root.keyNum >= 0
  {
    AtRoot(t.L, t.E, t.R, t.Root, 0);
    NodeInvariant(t, |t.L| - 1, 0);
  }

  lemma Starts(t: BPlusTree, rs: seq<Request>)
    requires t.Map() == map[] && (forall k :: t.Stale(k) <==> k == 0) && t.LeftOver() == Empty && rs == []
    ensures InState(t, After(FRESH, rs))
  {
  }

  /** Exactly the deletion of the left-over key of an empty tree breaks the tree. */
  lemma {:induction false} BrokenExactly(rs: seq<Request>)
    ensures After(FRESH, rs).Broken? <==> exists i :: 0 <= i < |rs| && rs[i].Drop? && NamesLeftOver(rs, i)
  {
    if rs != [] {
      var n := |rs| - 1;
      BrokenExactly(rs[..n]);
      forall i | 0 <= i < n
        ensures NamesLeftOver(rs[..n], i) == NamesLeftOver(rs, i)
      {
        assert rs[..n][..i] == rs[..i];
      }
      if After(FRESH, rs[..n]).Broken? {
        var i :| 0 <= i < n && rs[..n][i].Drop? && NamesLeftOver(rs[..n], i);
        assert rs[i].Drop? && NamesLeftOver(rs, i);
      }
    }
  }

  /** What the requests mean for a map. */
  function Plain(m: map<int, Record>, rs: seq<Request>): map<int, Record>
  {
    if rs == [] then m
    else
      var before := Plain(m, rs[..|rs| - 1]);
      match rs[|rs| - 1]
      case Put(k, v) => if k in before then before else before[k := v]
      case Drop(k) => before - {k}
      case Get(_) => before
  }

  function PlainReply(m: map<int, Record>, r: Request): Answer
  {
    match r
    case Put(k, _) => Stored(k !in m)
    case Drop(k) => Dropped(if k in m then m[k] else NULL)
    case Get(k) => Got(if k in m then m[k] else NULL)
  }

  /** Request i is answered as by a map, and leaves a tree. */
  predicate Right(rs: seq<Request>, i: nat)
    requires i < |rs|
  {
    var s := After(FRESH, rs[..i]);
    s.Store? && Reply(s, rs[i]) == PlainReply(Plain(map[], rs[..i]), rs[i]) && Next(s, rs[i]).Store?
  }

  lemma {:induction false} Agree(rs: seq<Request>, n: nat)
    requires n <= |rs|
    requires (forall i :: 0 <= i < n ==> Right(rs, i)) || forall i :: 0 <= i < n ==> !NamesLeftOver(rs, i)
    ensures forall i :: 0 <= i < n ==> Right(rs, i) && !NamesLeftOver(rs, i)
    ensures After(FRESH, rs[..n]).Store? && After(FRESH, rs[..n]).m == Plain(map[], rs[..n])
  {
    if n > 0 {
      Agree(rs, n - 1);
      AfterOne(FRESH, rs, n - 1);
      assert rs[..n][..n - 1] == rs[..n - 1];
      var right, named := Right(rs, n - 1), NamesLeftOver(rs, n - 1);
      assert right || !named;
    } else {
      assert rs[..0] == [];
    }
  }

  /** The tree differs from a map exactly by the left-over key: a run is answered as by a map throughout, and leaves a
      tree, if and only if no request inserts or deletes it while the tree is empty. */
  lemma RunIsMap(rs: seq<Request>)
    ensures (forall i :: 0 <= i < |rs| ==> Right(rs, i)) <==> forall i :: 0 <= i < |rs| ==> !NamesLeftOver(rs, i)
  {
    if (forall i :: 0 <= i < |rs| ==> Right(rs, i)) || forall i :: 0 <= i < |rs| ==> !NamesLeftOver(rs, i) {
      Agree(rs, |rs|);
    }
  }

  /** Inserting a key again after its deletion emptied the tree is refused, although the key is absent. */
  lemma ReinsertionRefused(k: int, v: Record, v': Record)
    requires k != 0
    ensures var rs := [Put(k, v), Drop(k), Put(k, v')];
      && Reply(After(FRESH, rs[..0]), rs[0]) == Stored(true)
      && After(FRESH, rs[..2]).Store? && After(FRESH, rs[..2]).m == map[]
      && Reply(After(FRESH, rs[..2]), rs[2]) == Stored(false)
  {
    FirstTwo(k, v, Put(k, v'));
  }

  /** Deleting it again hands its record to free_fn a second time and breaks the tree. */
  lemma RecordFreedTwice(k: int, v: Record)
    requires k != 0
    ensures var rs := [Put(k, v), Drop(k), Drop(k)];
      && After(FRESH, rs[..1]).Store? && Reply(After(FRESH, rs[..1]), rs[1]) == Dropped(v)
      && After(FRESH, rs[..2]).Store? && Reply(After(FRESH, rs[..2]), rs[2]) == Dropped(v)
      && After(FRESH, rs).Broken?
  {
    FirstTwo(k, v, Drop(k));
    assert [Put(k, v), Drop(k), Drop(k)][..3] == [Put(k, v), Drop(k), Drop(k)];
    AfterOne(FRESH, [Put(k, v), Drop(k), Drop(k)], 2);
  }

  lemma FirstTwo(k: int, v: Record, r: Request)
    requires k != 0
    ensures var rs := [Put(k, v), Drop(k), r];
      && rs[..0] == [] && After(FRESH, rs[..0]) == FRESH
      && After(FRESH, rs[..1]) == Store(map[k := v], 0, NULL) && After(FRESH, rs[..2]) == Store(map[], k, v)
  {
    var rs := [Put(k, v), Drop(k), r];
    assert rs[..0] == [];
    AfterOne(FRESH, rs, 0);
    AfterOne(FRESH, rs, 1);
    assert map[k := v].Keys == {k};
  }
}
