/** The iterator over a chained hash table, which may take out the entry it stands on. */
module HashTableIterators {
  import opened Sequences
  import opened HashTables

  /** Empty blocks take no room. */
  lemma {:induction false} StartSkips<T>(b: seq<seq<T>>, i: nat, j: nat)
    requires i <= j <= |b| && forall k :: i <= k < j ==> b[k] == []
    ensures Start(b, i) == Start(b, j)
    ensures i == 0 ==> Start(b, i) == 0
    ensures j == |b| ==> Start(b, j) == |Flat(b)|
    decreases j - i
  {
    hide Flat, Start;
    StartEnds(b);
    if i < j {
      StartSkips(b, i + 1, j);
      StartNext(b, i);
    }
  }

  lemma StartEnds<T>(b: seq<seq<T>>)
    ensures Start(b, 0) == 0 && Start(b, |b|) == |Flat(b)|
  {
    assert b[..|b|] == b;
  }

  /** Shortening block i does not move its start. */
  lemma StartKept<T>(b: seq<seq<T>>, i: nat, x: seq<T>)
    requires i < |b|
    ensures Start(b[i := x], i) == Start(b, i)
  {
    assert b[i := x][..i] == b[..i];
  }

  class Iterator {
    var h: Hashtable
    var e: Entry?
    var parent: Entry?
    var index: nat
    ghost var place: nat

    /** The current entry is in the table; parent is not looked at. */
    ghost predicate Seated()
      reads this, h
    {
      if e == null then index == |h.chains|
      else index < |h.chains| && place < |h.chains[index]| && e == h.chains[index][place]
    }

    /** The iterator stands on an entry of its table and knows the one before it in its chain, or it is past the end. */
    ghost predicate Valid()
      reads this, h, h.table, h.entries
    {
      && h.Valid() && Seated()
      && (e != null ==> parent == if place == 0 then null else h.chains[index][place - 1])
    }

    /** How many entries of the table come before the current one. */
    ghost function Position(): nat
      requires Seated()
      reads this, h
    {
      if e == null then |Flat(h.chains)| else Start(h.chains, index) + place
    }

    lemma Here()
      requires Valid()
      ensures Position() <= |Flat(h.chains)|
      ensures e == null <==> Position() == |Flat(h.chains)|
      ensures e != null ==> Flat(h.chains)[Position()] == e
    {
      hide Flat, Housed, Hung;
      if e != null {
        FlatIndex(h.chains, index, place);
      }
    }

    /** The first bucket that is not empty, or the length of the table. */
    static method FirstFull(h: Hashtable) returns (i: nat)
      requires h.Valid()
      ensures i <= |h.chains| && Start(h.chains, i) == 0 && (i < |h.chains| ==> h.chains[i] != [])
      ensures i == |h.chains| ==> Flat(h.chains) == []
    {
      hide Flat, Start, Housed, Hung, LoadLimit, PRIMES;
      i := 0;
      while i < h.tablelength
        invariant i <= h.tablelength
        invariant forall j :: 0 <= j < i ==> h.chains[j] == []
      {
        HungHead(h.table, h.chains, h.entries, i);
        if h.table[i] != null {
          break;
        }
        i := i + 1;
      }
      StartSkips(h.chains, 0, i);
    }

    /** Stand on the first entry. */
    constructor (h: Hashtable)
      requires h.Valid()
      ensures Valid() && this.h == h && Position() == 0
    {
      hide Flat, Start, Housed, Hung, LoadLimit, PRIMES;
      this.h, e, parent, place := h, null, null, 0;
      index := h.tablelength;
      new;
      FlatEmpty(h.chains);
      if h.entrycount == 0 {
        return;
      }
      index := FirstFull(h);
      if index < h.tablelength {
        HungHead(h.table, h.chains, h.entries, index);
        e := h.table[index];
      }
    }

    /** Go on from e, which is followed by place next of its bucket; e itself may be out of the table already. */
    method AdvanceTo(ghost next: nat) returns (more: bool)
      requires h.Valid() && e != null && index < |h.chains| && next <= |h.chains[index]|
      requires e.next == if next < |h.chains[index]| then h.chains[index][next] else null
      modifies this
      ensures Seated() && h == old(h) && more == (e != null)
      ensures Position() == Start(h.chains, old(index)) + next
      ensures next < |h.chains[old(index)]| ==> index == old(index) && place == next && parent == old(e)
      ensures next == |h.chains[old(index)]| ==> parent == null && (e != null ==> place == 0)
    {
      hide Flat, Start, Housed, Hung;
      ghost var i := index;
      var following := e.next;
      if following != null {
        parent, e, place := e, following, next;
        return true;
      }
      StartNext(h.chains, i);
      parent := null;
      index := index + 1;
      var j := index;
      if h.tablelength <= j {
        e := null;
        return false;
      }
      place := 0;
      HungHead(h.table, h.chains, h.entries, j);
      following := h.table[j];
      while following == null
        modifies {}
        invariant i < j < h.tablelength
        invariant following == (if h.chains[j] == [] then null else h.chains[j][0])
        invariant forall k :: i < k < j ==> h.chains[k] == []
        decreases h.tablelength - j
      {
        j := j + 1;
        if j >= h.tablelength {
          break;
        }
        HungHead(h.table, h.chains, h.entries, j);
        following := h.table[j];
      }
      StartSkips(h.chains, i + 1, j);
      index, e := j, following;
      return following != null;
    }

    /** Go to the next entry. */
    method Advance() returns (more: bool)
      requires Valid()
      modifies this
      ensures Valid() && h == old(h) && more == (e != null)
      ensures Position() == old(Position()) + if old(e) == null then 0 else 1
    {
      if e == null {
        return false;
      }
      HungNext(h.table, h.chains, h.entries, index, place);
      more := AdvanceTo(place + 1);
    }

    /** Take the current entry out of the table and go to the next one. */
    method Remove() returns (more: bool)
      requires Valid() && e != null
      modifies this, h, h.table, h.entries
      ensures Valid() && h == old(h) && h.table == old(h.table) && h.entries <= old(h.entries) && more == (e != null)
      ensures old(Position()) < |old(Flat(h.chains))|
      ensures Flat(h.chains) == RemoveAt(old(Flat(h.chains)), old(Position()))
      ensures Position() == old(Position()) && h.entrycount == old(h.entrycount) - 1
      ensures forall q :: q != old(e).k ==> h.Held(q) == old(h.Held(q))
    {
      hide Flat, Start, Housed, Hung, HeldIn;
      HungNext(h.table, h.chains, h.entries, index, place);
      FlatRemove(h.chains, index, place);
      StartKept(h.chains, index, RemoveAt(h.chains[index], place));
      var removed, before := e, parent;
      h.CutOut(index, place, e, parent);
      more := AdvanceTo(place);
      if parent == removed {
        parent := before;
      }
    }

    /** Stand on the first entry of t with key k; if there is none, nothing changes. */
    method Search(t: Hashtable, k: int) returns (found: bool)
      requires t.Valid()
      modifies this
      ensures found <==> t.Held(k) != []
      ensures found ==> Valid() && h == t && e != null && e.k == k && e.v == t.Held(k)[0]
      ensures found ==> t.tablelength > 0 && index == t.hash(k) % t.tablelength
      ensures found ==> forall b :: 0 <= b < place ==> t.chains[index][b].k != k
      ensures !found ==>
        h == old(h) && e == old(e) && parent == old(parent) && index == old(index) && place == old(place)
    {
      hide Flat, Start, Housed, Hung, IndexFor, ValuesOf;
      var i, entry, before, a := t.Walk(k);
      if entry == null {
        ValuesNone(t.chains[i], k);
        return false;
      }
      ValuesFirst(t.chains[i], a, k);
      index, e, parent, place := i, entry, before, a;
      h := t;
      return true;
    }
  }

  lemma TakeNext<T>(s: seq<T>, p: nat)
    requires p < |s|
    ensures s[..p + 1] == s[..p] + [s[p]]
  {
  }

  lemma MoveFirst<T>(taken: seq<T>, s: seq<T>)
    requires s != []
    ensures taken + [s[0]] + RemoveAt(s, 0) == taken + s
  {
  }

  /** The bucket an entry belongs to: what its hash value leaves as remainder. */
  lemma PlaceOf(t: Hashtable, p: nat) returns (i: nat, a: nat)
    requires t.Valid() && p < |Flat(t.chains)|
    ensures t.tablelength == |t.chains| && i < |t.chains| && a < |t.chains[i]| && p == Start(t.chains, i) + a
    ensures Flat(t.chains)[p] == t.chains[i][a] && t.chains[i][a].h % t.tablelength == i
    ensures t.chains[i][a].next == After(t.chains[i], a)
  {
    hide Flat, Start, PRIMES;
    t.InItsBucket();
    i, a := Locate(t.chains, p);
    FlatIndex(t.chains, i, a);
    HungNext(t.table, t.chains, t.entries, i, a);
  }

  lemma TablePositive(t: Hashtable)
    requires t.Valid()
    ensures t.tablelength > 0
  {
  }

  /** No entry comes twice, and the buckets come in order. */
  lemma InOrder(t: Hashtable, p: nat, q: nat)
    requires t.Valid() && p < q < |Flat(t.chains)|
    ensures t.tablelength > 0 && Flat(t.chains)[p] != Flat(t.chains)[q]
    ensures Flat(t.chains)[p].h % t.tablelength <= Flat(t.chains)[q].h % t.tablelength
  {
    hide Flat, Start, PRIMES, Hung;
    EachOnce(t.chains, t.entries, t.hash, p, q);
    var i, a := PlaceOf(t, p);
    var j, b := PlaceOf(t, q);
    if j < i {
      StartMonotone(t.chains, j + 1, i);
      StartNext(t.chains, j);
    }
  }

  /** The entry after place p of s, if both leave the same remainder. */
  ghost function Following(s: seq<Entry>, n: nat, p: nat): Entry?
    requires n > 0 && p < |s|
  {
    if p + 1 < |s| && s[p + 1].h % n == s[p].h % n then s[p + 1] else null
  }

  /** Entries of one bucket come along its chain. */
  lemma AlongChain(t: Hashtable, p: nat)
    requires t.Valid() && p < |Flat(t.chains)|
    ensures t.tablelength > 0
    ensures Flat(t.chains)[p].next == Following(Flat(t.chains), t.tablelength, p)
  {
    hide Flat, Start, PRIMES, Hung, Housed;
    var s := Flat(t.chains);
    var i, a := PlaceOf(t, p);
    StartNext(t.chains, i);
    if a + 1 < |t.chains[i]| {
      FlatIndex(t.chains, i, a + 1);
      t.InItsBucket();
    } else if p + 1 < |s| {
      var j, b := PlaceOf(t, p + 1);
    }
  }

  /** Advancing from the first entry visits every entry of the table exactly once, bucket after bucket, and along the
      chain within each. */
  method VisitAll(t: Hashtable) returns (visited: seq<Entry>)
    requires t.Valid()
    ensures visited == Flat(t.chains) && t.tablelength > 0
    ensures forall p, q :: 0 <= p < q < |visited| ==>
      visited[p] != visited[q] && visited[p].h % t.tablelength <= visited[q].h % t.tablelength
    ensures forall p :: 0 <= p < |visited| ==> visited[p].next == Following(visited, t.tablelength, p)
  {
    hide Flat, Start, Hashtable.Valid, Hashtable.Shaped, Housed;
    visited := [];
    TablePositive(t);
    var it := new Iterator(t);
    it.Here();
    while it.e != null
      invariant fresh(it) && it.Valid() && it.h == t
      invariant it.Position() <= |Flat(t.chains)|
      invariant visited == Flat(t.chains)[..it.Position()]
      decreases |Flat(t.chains)| - it.Position()
    {
      it.Here();
      TakeNext(Flat(t.chains), it.Position());
      visited := visited + [it.e];
      var _ := it.Advance();
      it.Here();
    }
    assert visited == Flat(t.chains);
    forall p, q | 0 <= p < q < |visited|
      ensures visited[p] != visited[q] && visited[p].h % t.tablelength <= visited[q].h % t.tablelength
    {
      InOrder(t, p, q);
    }
    forall p | 0 <= p < |visited|
      ensures visited[p].next == Following(visited, t.tablelength, p)
    {
      AlongChain(t, p);
    }
  }

  /** A loop of removals empties the table, taking the entries out in order, one a step. */
  method RemoveAll(t: Hashtable) returns (removed: seq<Entry>)
    requires t.Valid() && t.entrycount > 0
    modifies t, t.table, t.entries
    ensures t.Valid() && t.entrycount == 0 && removed == old(Flat(t.chains)) && |removed| == old(t.entrycount)
    ensures forall k :: t.Held(k) == []
  {
    hide Flat, Start, Housed, RemoveAt;
    removed := [];
    var it := new Iterator(t);
    var more := true;
    while more
      invariant fresh(it) && it.Valid() && it.h == t && t.table == old(t.table) && t.entries <= old(t.entries)
      invariant removed + Flat(t.chains) == old(Flat(t.chains))
      invariant more ==> it.e != null
      invariant it.Position() == 0
      invariant !more ==> it.e == null
      decreases |Flat(t.chains)|
    {
      it.Here();
      MoveFirst(removed, Flat(t.chains));
      removed := removed + [it.e];
      more := it.Remove();
    }
    FlatEmpty(t.chains);
  }
}
