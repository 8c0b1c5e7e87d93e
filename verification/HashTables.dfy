/** The chained hash table: a bucket array of singly linked entry chains that grows through a table of primes, with an
    iterator that can delete as it goes. Keys are numbered so that two keys are equal exactly when their numbers are. */
module HashTables {
  import opened Sequences

  /** One stored pair, its hash value, and the next entry of its bucket. */
  class Entry {
    const k: int
    const v: int
    const h: nat
    var next: Entry?

    constructor (k: int, v: int, h: nat, next: Entry?)
      ensures this.k == k && this.v == v && this.h == h && this.next == next
    {
      this.k, this.v, this.h, this.next := k, v, h, next;
    }
  }

  datatype Found = Null | Value(v: int)

  const PRIMES: seq<nat> :=
    [53, 97, 193, 389, 769, 1543, 3079, 6151, 12289, 24593, 49157, 98317, 196613, 393241, 786433, 1572869, 3145739,
     6291469, 12582917, 25165843, 50331653, 100663319, 201326611, 402653189, 805306457, 1610612741]

  const MAX_REQUEST: nat := 0x4000_0000

  lemma PrimesPositive(i: nat)
    requires i < |PRIMES|
    ensures PRIMES[i] > 0
  {
  }

  /** The listed lengths are odd, and each is about twice the one before it. */
  lemma PrimesGrow(i: nat)
    requires i + 1 < |PRIMES|
    ensures PRIMES[i] % 2 == 1 && 2 * PRIMES[i] < PRIMES[i + 1] + 174 < 2 * PRIMES[i] + 254
    ensures PRIMES[0] == 53 && 5 * PRIMES[i + 1] > 9 * PRIMES[i]
  {
  }

  /** The list ascends. */
  lemma {:induction false} PrimesAscend(i: nat, j: nat)
    requires i < j < |PRIMES|
    ensures PRIMES[i] < PRIMES[j]
    decreases j - i
  {
    hide PRIMES;
    PrimesGrow(j - 1);
    PrimesPositive(j - 1);
    if i < j - 1 {
      PrimesAscend(i, j - 1);
    }
  }

  /** 0.65 of the table, rounded up. */
  function LoadLimit(size: nat): nat
  {
    (65 * size + 99) / 100
  }

  lemma LoadLimitTight(size: nat)
    ensures 100 * (LoadLimit(size) - 1) < 65 * size <= 100 * LoadLimit(size)
  {
  }

  /** After a growth there is room under the limit again. */
  lemma RoomAfterGrowth(i: nat)
    requires i + 1 < |PRIMES|
    ensures LoadLimit(PRIMES[i]) + 1 <= LoadLimit(PRIMES[i + 1])
  {
    hide PRIMES, LoadLimit;
    PrimesGrow(i);
    PrimesPositive(i);
    LoadLimitTight(PRIMES[i]);
    LoadLimitTight(PRIMES[i + 1]);
    LengthAtLeast53(i);
  }

  lemma LengthAtLeast53(i: nat)
    requires i < |PRIMES|
    ensures PRIMES[i] >= 53
  {
  }

  function IndexFor(tablelength: nat, h: nat): (i: nat)
    requires tablelength > 0
    ensures i < tablelength
  {
    h % tablelength
  }

  lemma IndexIs(n: nat, h: nat)
    requires n > 0
    ensures IndexFor(n, h) == h % n
  {
  }

  /** The values stored under key k along a chain, in the order a search meets them. */
  function ValuesOf(c: seq<Entry>, k: int): seq<int>
  {
    if c == [] then [] else (if c[0].k == k then [c[0].v] else []) + ValuesOf(c[1..], k)
  }

  function Reversed<T>(s: seq<T>): (r: seq<T>)
    ensures |r| == |s|
  {
    if s == [] then [] else Reversed(s[1..]) + [s[0]]
  }

  lemma {:induction false} ReversedConcat<T>(s: seq<T>, t: seq<T>)
    ensures Reversed(s + t) == Reversed(t) + Reversed(s)
  {
    if s == [] {
      assert s + t == t && Reversed(t) + [] == Reversed(t);
    } else {
      assert (s + t)[1..] == s[1..] + t;
      ReversedConcat(s[1..], t);
    }
  }

  /** Reversing twice gives the sequence back. */
  lemma {:induction false} ReversedTwice<T>(s: seq<T>)
    ensures Reversed(Reversed(s)) == s
  {
    if s != [] {
      ReversedTwice(s[1..]);
      ReversedConcat(Reversed(s[1..]), [s[0]]);
      assert Reversed([s[0]]) == [s[0]];
    }
  }

  lemma ReversedOne<T>(x: T, s: seq<T>)
    ensures Reversed([x] + s) == Reversed(s) + [x]
  {
    assert ([x] + s)[1..] == s;
  }

  lemma ValuesHead(e: Entry, c: seq<Entry>, k: int)
    ensures ValuesOf([e] + c, k) == if e.k == k then [e.v] + ValuesOf(c, k) else ValuesOf(c, k)
  {
    assert ([e] + c)[1..] == c;
  }

  lemma {:induction false} ValuesConcat(c: seq<Entry>, d: seq<Entry>, k: int)
    ensures ValuesOf(c + d, k) == ValuesOf(c, k) + ValuesOf(d, k)
  {
    if c == [] {
      assert c + d == d;
    } else {
      hide ValuesOf;
      ValuesConcat(c[1..], d, k);
      ValuesHead(c[0], c[1..], k);
      ValuesHead(c[0], c[1..] + d, k);
      FirstAndRest(c);
      Associate([c[0]], c[1..], d);
      Associate([c[0].v], ValuesOf(c[1..], k), ValuesOf(d, k));
    }
  }

  lemma {:induction false} ValuesNone(c: seq<Entry>, k: int)
    requires forall a :: 0 <= a < |c| ==> c[a].k != k
    ensures ValuesOf(c, k) == []
  {
    if c != [] {
      ValuesNone(c[1..], k);
    }
  }

  /** The first entry with key k holds the first of the values under k, and unlinking it drops that value only. */
  lemma ValuesFirst(c: seq<Entry>, a: nat, k: int)
    requires a < |c| && c[a].k == k && forall b :: 0 <= b < a ==> c[b].k != k
    ensures ValuesOf(c, k) == [c[a].v] + ValuesOf(RemoveAt(c, a), k)
  {
    ValuesNone(c[..a], k);
    assert c == c[..a] + ([c[a]] + c[a + 1..]);
    ValuesConcat(c[..a], [c[a]] + c[a + 1..], k);
    ValuesHead(c[a], c[a + 1..], k);
    ValuesConcat(c[..a], c[a + 1..], k);
  }

  /** Unlinking an entry leaves the values under other keys alone. */
  lemma ValuesOthers(c: seq<Entry>, a: nat, k: int)
    requires a < |c| && c[a].k != k
    ensures ValuesOf(RemoveAt(c, a), k) == ValuesOf(c, k)
  {
    assert c == c[..a] + ([c[a]] + c[a + 1..]);
    ValuesConcat(c[..a], [c[a]] + c[a + 1..], k);
    ValuesHead(c[a], c[a + 1..], k);
    ValuesConcat(c[..a], c[a + 1..], k);
  }

  /** The entry after place a of a chain. */
  ghost function After(c: seq<Entry>, a: nat): Entry?
  {
    if a + 1 < |c| then c[a + 1] else null
  }

  /** The entries of c, linked in order from head. */
  ghost predicate Chained(head: Entry?, c: seq<Entry>)
    reads c
  {
    && head == (if c == [] then null else c[0])
    && forall a :: 0 <= a < |c| ==> c[a].next == After(c, a)
  }

  /** Every chain holds entries of the given set, without repetition, that hash to its own bucket. */
  ghost predicate Housed(chains: seq<seq<Entry>>, entries: set<Entry>, hash: int -> nat)
  {
    && |chains| > 0
    && (forall i, a :: 0 <= i < |chains| && 0 <= a < |chains[i]| ==>
          && chains[i][a] in entries
          && chains[i][a].h == hash(chains[i][a].k)
          && IndexFor(|chains|, chains[i][a].h) == i)
    && forall i, a, b :: 0 <= i < |chains| && 0 <= a < b < |chains[i]| ==> chains[i][a] != chains[i][b]
  }

  /** No entry stands at two places of the table. */
  lemma EachOnce(chains: seq<seq<Entry>>, entries: set<Entry>, hash: int -> nat, p: nat, q: nat)
    requires Housed(chains, entries, hash) && p < q < |Flat(chains)|
    ensures Flat(chains)[p] != Flat(chains)[q]
  {
    hide Flat, IndexFor;
    var i, a := Locate(chains, p);
    var j, b := Locate(chains, q);
    assert i == j ==> a < b;
  }

  lemma HousedRemove(chains: seq<seq<Entry>>, entries: set<Entry>, hash: int -> nat, i: nat, a: nat)
    requires Housed(chains, entries, hash) && i < |chains| && a < |chains[i]|
    ensures Housed(chains[i := RemoveAt(chains[i], a)], entries - {chains[i][a]}, hash)
  {
    hide IndexFor;
    var rest := chains[i := RemoveAt(chains[i], a)];
    forall j, b | 0 <= j < |rest| && 0 <= b < |rest[j]|
      ensures rest[j][b] in entries - {chains[i][a]} && rest[j][b].h == hash(rest[j][b].k)
      ensures IndexFor(|rest|, rest[j][b].h) == j
    {
      assert j == i ==> rest[j][b] == chains[i][if b < a then b else b + 1];
    }
    forall j, b, c | 0 <= j < |rest| && 0 <= b < c < |rest[j]|
      ensures rest[j][b] != rest[j][c]
    {
      assert j == i ==> rest[j][b] == chains[i][if b < a then b else b + 1];
      assert j == i ==> rest[j][c] == chains[i][if c < a then c else c + 1];
    }
  }

  lemma HousedPush(chains: seq<seq<Entry>>, entries: set<Entry>, hash: int -> nat, e: Entry)
    requires Housed(chains, entries, hash) && e !in entries && e.h == hash(e.k)
    ensures var i := IndexFor(|chains|, e.h); Housed(chains[i := [e] + chains[i]], entries + {e}, hash)
  {
    hide IndexFor;
    var i := IndexFor(|chains|, e.h);
    var more := chains[i := [e] + chains[i]];
    forall j, b | 0 <= j < |more| && 0 <= b < |more[j]|
      ensures more[j][b] in entries + {e} && more[j][b].h == hash(more[j][b].k)
      ensures IndexFor(|more|, more[j][b].h) == j
    {
      assert j == i && b > 0 ==> more[j][b] == chains[i][b - 1];
    }
    forall j, b, c | 0 <= j < |more| && 0 <= b < c < |more[j]|
      ensures more[j][b] != more[j][c]
    {
      assert j == i ==> more[j][c] == chains[i][c - 1];
      assert j == i && b > 0 ==> more[j][b] == chains[i][b - 1];
    }
  }

  /** The values under key k, in the order searches and removals meet them. */
  ghost function HeldIn(chains: seq<seq<Entry>>, hash: int -> nat, k: int): seq<int>
    requires |chains| > 0
  {
    ValuesOf(chains[IndexFor(|chains|, hash(k))], k)
  }

  lemma HeldRemove(chains: seq<seq<Entry>>, entries: set<Entry>, hash: int -> nat, i: nat, a: nat)
    requires Housed(chains, entries, hash) && i < |chains| && a < |chains[i]|
    ensures var rest := chains[i := RemoveAt(chains[i], a)];
      forall k | k != chains[i][a].k :: HeldIn(rest, hash, k) == HeldIn(chains, hash, k)
  {
    forall k | k != chains[i][a].k
      ensures HeldIn(chains[i := RemoveAt(chains[i], a)], hash, k) == HeldIn(chains, hash, k)
    {
      ValuesOthers(chains[i], a, k);
    }
  }

  /** With distinct keys, the table is a map. */
  ghost predicate Represents(m: map<int, int>, chains: seq<seq<Entry>>, hash: int -> nat)
    requires |chains| > 0
  {
    forall k :: HeldIn(chains, hash, k) == if k in m then [m[k]] else []
  }

  /** The values moved so far, turned round, followed by those still to move, are the values there were. */
  ghost predicate Turned(rest: seq<seq<Entry>>, grown: seq<seq<Entry>>, all: seq<seq<Entry>>, hash: int -> nat)
    requires |rest| > 0 && |grown| > 0 && |all| > 0
  {
    forall k :: Reversed(HeldIn(grown, hash, k)) + HeldIn(rest, hash, k) == HeldIn(all, hash, k)
  }

  /** The pair (k, v) was added in front, after the values under every key were turned round if the table grew. */
  ghost predicate Stored(before: seq<seq<Entry>>, chains: seq<seq<Entry>>, hash: int -> nat, k: int, v: int, grew: bool)
    requires |before| > 0 && |chains| > 0
  {
    forall q :: HeldIn(chains, hash, q) == (if q == k then [v] else [])
                  + (if grew then Reversed(HeldIn(before, hash, q)) else HeldIn(before, hash, q))
  }

  /** The values under every key come in the opposite order. */
  ghost predicate TurnedRound(before: seq<seq<Entry>>, chains: seq<seq<Entry>>, hash: int -> nat)
    requires |before| > 0 && |chains| > 0
  {
    forall q :: HeldIn(chains, hash, q) == Reversed(HeldIn(before, hash, q))
  }

  /** The first value under k is gone, if there was one. */
  ghost predicate Dropped(before: seq<seq<Entry>>, chains: seq<seq<Entry>>, hash: int -> nat, k: int)
    requires |before| > 0 && |chains| > 0
  {
    && HeldIn(chains, hash, k) == (if HeldIn(before, hash, k) == [] then [] else HeldIn(before, hash, k)[1..])
    && forall q :: q != k ==> HeldIn(chains, hash, q) == HeldIn(before, hash, q)
  }

  /** Removing a key from a table that is a map deletes it from the map. */
  lemma DroppedFromMap(m: map<int, int>, before: seq<seq<Entry>>, chains: seq<seq<Entry>>, hash: int -> nat, k: int)
    requires |before| > 0 && |chains| > 0 && Represents(m, before, hash) && Dropped(before, chains, hash, k)
    ensures Represents(m - {k}, chains, hash)
  {
    hide HeldIn;
    forall q ensures HeldIn(chains, hash, q) == if q in m - {k} then [(m - {k})[q]] else [] {
      assert HeldIn(before, hash, q) == if q in m then [m[q]] else [];
    }
  }

  lemma StoredTurned(before: seq<seq<Entry>>, grown: seq<seq<Entry>>, chains: seq<seq<Entry>>, hash: int -> nat,
                     k: int, v: int)
    requires |before| > 0 && |grown| > 0 && |chains| > 0 && Stored(grown, chains, hash, k, v, false)
    requires TurnedRound(before, grown, hash)
    ensures Stored(before, chains, hash, k, v, true)
  {
    hide HeldIn, Reversed;
  }

  /** Adding a pair with a new key to a table that is a map updates the map, whether or not the table grows. */
  lemma StoredInMap(m: map<int, int>, before: seq<seq<Entry>>, chains: seq<seq<Entry>>, hash: int -> nat, k: int,
                    v: int, grew: bool)
    requires |before| > 0 && |chains| > 0 && Represents(m, before, hash) && k !in m
    requires Stored(before, chains, hash, k, v, grew)
    ensures Represents(m[k := v], chains, hash)
  {
    hide HeldIn;
    forall q ensures HeldIn(chains, hash, q) == if q in m[k := v] then [m[k := v][q]] else [] {
      var was := HeldIn(before, hash, q);
      assert was == if q in m then [m[q]] else [];
      assert Reversed(was) == was by {
        assert was != [] ==> was[1..] == [];
      }
    }
  }

  lemma TurnStep(rest: seq<seq<Entry>>, left: set<Entry>, grown: seq<seq<Entry>>, all: seq<seq<Entry>>,
                 hash: int -> nat, i: nat)
    requires Housed(rest, left, hash) && |grown| > 0 && |all| > 0 && Turned(rest, grown, all, hash)
    requires i < |rest| && rest[i] != []
    ensures var e := rest[i][0];
      var j := IndexFor(|grown|, e.h);
      Turned(rest[i := rest[i][1..]], grown[j := [e] + grown[j]], all, hash)
  {
    var e := rest[i][0];
    var j := IndexFor(|grown|, e.h);
    var rest', grown' := rest[i := rest[i][1..]], grown[j := [e] + grown[j]];
    forall k ensures Reversed(HeldIn(grown', hash, k)) + HeldIn(rest', hash, k) == HeldIn(all, hash, k)
    {
      hide IndexFor, ValuesOf, Reversed;
      assert Reversed(HeldIn(grown, hash, k)) + HeldIn(rest, hash, k) == HeldIn(all, hash, k);
      FirstAndRest(rest[i]);
      ValuesHead(e, rest[i][1..], k);
      ValuesHead(e, grown[j], k);
      if e.k == k {
        ReversedOne(e.v, HeldIn(grown, hash, k));
        Associate(Reversed(HeldIn(grown, hash, k)), [e.v], HeldIn(rest', hash, k));
      }
    }
  }

  /** The entries of s that belong in bucket j of n. */
  ghost function Bound(s: seq<Entry>, n: nat, j: nat): seq<Entry>
    requires n > 0
  {
    if s == [] then [] else if s[0].h % n == j then [s[0]] + Bound(s[1..], n, j) else Bound(s[1..], n, j)
  }

  lemma BoundHead(e: Entry, s: seq<Entry>, n: nat, j: nat)
    requires n > 0
    ensures Bound([e] + s, n, j) == if e.h % n == j then [e] + Bound(s, n, j) else Bound(s, n, j)
  {
    assert ([e] + s)[1..] == s;
  }

  /** Every new bucket holds, newest first, what was moved there, in the order of the old table. */
  ghost predicate Rehashed(rest: seq<seq<Entry>>, grown: seq<seq<Entry>>, all: seq<seq<Entry>>)
  {
    forall j :: 0 <= j < |grown| ==>
      Reversed(grown[j]) + Bound(Flat(rest), |grown|, j) == Bound(Flat(all), |grown|, j)
  }

  lemma RehashStep(rest: seq<seq<Entry>>, grown: seq<seq<Entry>>, all: seq<seq<Entry>>, i: nat)
    requires Rehashed(rest, grown, all) && |grown| > 0 && i < |rest| && rest[i] != []
    requires forall k :: 0 <= k < i ==> rest[k] == []
    ensures var e := rest[i][0];
      var j := e.h % |grown|;
      Rehashed(rest[i := rest[i][1..]], grown[j := [e] + grown[j]], all)
  {
    hide Flat, Bound, Reversed, Start;
    var e, n := rest[i][0], |grown|;
    var j := e.h % n;
    var rest', grown' := rest[i := rest[i][1..]], grown[j := [e] + grown[j]];
    FirstOfAll(rest, i);
    forall k | 0 <= k < n
      ensures Reversed(grown'[k]) + Bound(Flat(rest'), n, k) == Bound(Flat(all), n, k)
    {
      assert Reversed(grown[k]) + Bound(Flat(rest), n, k) == Bound(Flat(all), n, k);
      BoundHead(e, Flat(rest'), n, k);
      ReversedOne(e, grown[k]);
      Associate(Reversed(grown[k]), [e], Bound(Flat(rest'), n, k));
    }
  }

  /** The first entry of the first chain that is not empty is the first of all. */
  lemma FirstOfAll(rest: seq<seq<Entry>>, i: nat)
    requires i < |rest| && rest[i] != [] && forall k :: 0 <= k < i ==> rest[k] == []
    ensures Flat(rest) == [rest[i][0]] + Flat(rest[i := rest[i][1..]])
  {
    FirstAndRest(rest[i]);
    FlatRemove(rest, i, 0);
    FlatIndex(rest, i, 0);
    FlatEmpty(rest[..i]);
    FirstAndRest(Flat(rest));
  }

  lemma RehashDone(rest: seq<seq<Entry>>, grown: seq<seq<Entry>>, all: seq<seq<Entry>>)
    requires Rehashed(rest, grown, all) && Flat(rest) == []
    ensures forall j :: 0 <= j < |grown| ==> grown[j] == Reversed(Bound(Flat(all), |grown|, j))
  {
    hide Flat, Reversed;
    forall j | 0 <= j < |grown|
      ensures grown[j] == Reversed(Bound(Flat(all), |grown|, j))
    {
      assert Reversed(grown[j]) + [] == Reversed(grown[j]);
      ReversedTwice(grown[j]);
    }
  }

  lemma FirstAndRest<T>(s: seq<T>)
    requires s != []
    ensures s == [s[0]] + s[1..] && RemoveAt(s, 0) == s[1..]
  {
  }

  lemma Associate<T>(a: seq<T>, b: seq<T>, c: seq<T>)
    ensures a + b + c == a + (b + c)
  {
  }

  lemma TurnDone(rest: seq<seq<Entry>>, grown: seq<seq<Entry>>, all: seq<seq<Entry>>, hash: int -> nat)
    requires |rest| > 0 && |grown| > 0 && |all| > 0 && Turned(rest, grown, all, hash)
    requires forall i :: 0 <= i < |rest| ==> rest[i] == []
    ensures TurnedRound(all, grown, hash)
  {
    forall k ensures HeldIn(grown, hash, k) == Reversed(HeldIn(all, hash, k))
    {
      hide IndexFor;
      assert Reversed(HeldIn(grown, hash, k)) + HeldIn(rest, hash, k) == HeldIn(all, hash, k);
      ReversedTwice(HeldIn(grown, hash, k));
      assert Reversed(HeldIn(grown, hash, k)) + [] == Reversed(HeldIn(grown, hash, k));
    }
  }

  lemma {:induction false} FlatEmpty<T>(b: seq<seq<T>>)
    ensures Flat(b) == [] <==> forall i :: 0 <= i < |b| ==> b[i] == []
  {
    if b != [] {
      FlatEmpty(b[1..]);
      assert forall i :: 0 < i < |b| ==> b[i] == b[1..][i - 1];
    }
  }

  /** Moving the first entry of one chain to the front of another moves one entry. */
  lemma SizeStep(rest: seq<seq<Entry>>, grown: seq<seq<Entry>>, i: nat, j: nat)
    requires i < |rest| && rest[i] != [] && j < |grown|
    ensures |Flat(rest[i := rest[i][1..]])| == |Flat(rest)| - 1
    ensures |Flat(grown[j := [rest[i][0]] + grown[j]])| == |Flat(grown)| + 1
  {
    hide Flat;
    FirstAndRest(rest[i]);
    FlatRemove(rest, i, 0);
    InsertFront(grown[j], rest[i][0]);
    FlatInsert(grown, j, 0, rest[i][0]);
  }

  lemma InsertFront<T>(s: seq<T>, x: T)
    ensures InsertAt(s, 0, x) == [x] + s
  {
  }

  /** Every chain hangs from its bucket. */
  ghost predicate Hung(table: array<Entry?>, chains: seq<seq<Entry>>, entries: set<Entry>)
    reads table, entries
  {
    && table.Length == |chains|
    && (forall i, a :: 0 <= i < |chains| && 0 <= a < |chains[i]| ==> chains[i][a] in entries)
    && forall i :: 0 <= i < |chains| ==> Chained(table[i], chains[i])
  }

  /** Midway through a growth: rest still hangs from the old buckets, grown already from the new ones. */
  ghost predicate Moving(table: array<Entry?>, rest: seq<seq<Entry>>, left: set<Entry>, newtable: array<Entry?>,
                         grown: seq<seq<Entry>>,
                         moved: set<Entry>, all: seq<seq<Entry>>, hash: int -> nat)
    reads table, newtable, left, moved
  {
    && table != newtable && left !! moved && |all| > 0
    && Housed(rest, left, hash) && Hung(table, rest, left)
    && Housed(grown, moved, hash) && Hung(newtable, grown, moved)
    && Turned(rest, grown, all, hash) && Rehashed(rest, grown, all)
    && |Flat(rest)| + |Flat(grown)| == |Flat(all)|
  }

  /** Put e first in bucket i. */
  method Link(table: array<Entry?>, ghost chains: seq<seq<Entry>>, ghost entries: set<Entry>, i: nat, e: Entry)
    requires Hung(table, chains, entries) && i < |chains| && e !in entries
    modifies table, e
    ensures Hung(table, chains[i := [e] + chains[i]], entries + {e})
  {
    e.next := table[i];
    table[i] := e;
    ghost var more := chains[i := [e] + chains[i]];
    forall k | 0 <= k < |chains|
      ensures Chained(table[k], more[k])
    {
      assert e !in chains[k];
      assert Chained(old(table[k]), chains[k]);
    }
  }

  twostate lemma Unlinked(new was: Entry?, new head: Entry?, new c: seq<Entry>, a: nat)
    requires old(allocated(c))
    requires was == null || old(allocated(was))
    requires old(Chained(was, c)) && a < |c|
    requires forall b :: 0 <= b < |c| && b + 1 != a ==> c[b].next == old(c[b].next)
    requires a > 0 ==> c[a - 1].next == c[a].next
    requires head == if a == 0 then c[0].next else was
    ensures Chained(head, RemoveAt(c, a))
  {
    forall b | 0 <= b < |c| - 1
      ensures RemoveAt(c, a)[b].next == After(RemoveAt(c, a), b)
    {
      assert RemoveAt(c, a)[b] == c[if b < a then b else b + 1];
      assert b + 1 < |c| - 1 ==> RemoveAt(c, a)[b + 1] == c[if b + 1 < a then b + 1 else b + 2];
    }
  }

  lemma HungHead(table: array<Entry?>, chains: seq<seq<Entry>>, entries: set<Entry>, i: nat)
    requires Hung(table, chains, entries) && i < |chains|
    ensures table.Length == |chains|
    ensures table[i] == null <==> chains[i] == []
    ensures chains[i] != [] ==> table[i] == chains[i][0] && chains[i][0] in entries
  {
    assert Chained(table[i], chains[i]);
  }

  lemma HungNext(table: array<Entry?>, chains: seq<seq<Entry>>, entries: set<Entry>, i: nat, a: nat)
    requires Hung(table, chains, entries) && i < |chains| && a < |chains[i]|
    ensures chains[i][a].next == After(chains[i], a)
  {
    assert Chained(table[i], chains[i]);
  }

  lemma RehashStarts(rest: seq<seq<Entry>>, grown: seq<seq<Entry>>)
    requires forall j :: 0 <= j < |grown| ==> grown[j] == []
    ensures Rehashed(rest, grown, rest)
  {
    hide Bound, Flat;
    forall j | 0 <= j < |grown|
      ensures Reversed(grown[j]) + Bound(Flat(rest), |grown|, j) == Bound(Flat(rest), |grown|, j)
    {
      assert Reversed(grown[j]) == [];
    }
  }

  lemma TurnStarts(rest: seq<seq<Entry>>, left: set<Entry>, grown: seq<seq<Entry>>, hash: int -> nat)
    requires Housed(rest, left, hash) && |grown| > 0 && forall j :: 0 <= j < |grown| ==> grown[j] == []
    ensures |rest| > 0 && Turned(rest, grown, rest, hash)
  {
    forall k ensures Reversed(HeldIn(grown, hash, k)) + HeldIn(rest, hash, k) == HeldIn(rest, hash, k) {
      ValuesNone(grown[IndexFor(|grown|, hash(k))], k);
    }
  }

  lemma NothingHoused(table: array<Entry?>, chains: seq<seq<Entry>>, hash: int -> nat)
    requires table.Length == |chains| > 0
    requires forall i :: 0 <= i < |chains| ==> chains[i] == [] && table[i] == null
    ensures Housed(chains, {}, hash) && Hung(table, chains, {})
  {
  }

  lemma MovingStarts(table: array<Entry?>, rest: seq<seq<Entry>>, left: set<Entry>, newtable: array<Entry?>,
                     grown: seq<seq<Entry>>,
                     hash: int -> nat)
    requires table != newtable && Housed(rest, left, hash) && Hung(table, rest, left)
    requires newtable.Length == |grown| > 0
    requires forall i :: 0 <= i < |grown| ==> grown[i] == [] && newtable[i] == null
    ensures Moving(table, rest, left, newtable, grown, {}, rest, hash)
  {
    hide Rehashed, Turned, Housed, Hung;
    FlatEmpty(grown);
    NothingHoused(newtable, grown, hash);
    RehashStarts(rest, grown);
    TurnStarts(rest, left, grown, hash);
  }

  lemma HungLength(table: array<Entry?>, chains: seq<seq<Entry>>, entries: set<Entry>)
    requires Hung(table, chains, entries)
    ensures table.Length == |chains|
  {
  }

  /** Take entry e, which follows parent, out of bucket i. */
  method Unlink(table: array<Entry?>, ghost chains: seq<seq<Entry>>, ghost entries: set<Entry>, i: nat, ghost a: nat,
                e: Entry, parent: Entry?, ghost hash: int -> nat)
    requires Hung(table, chains, entries) && Housed(chains, entries, hash)
    requires i < |chains| && a < |chains[i]| && e == chains[i][a]
    requires parent == if a == 0 then null else chains[i][a - 1]
    modifies table, if parent == null then {} else {parent}
    ensures Hung(table, chains[i := RemoveAt(chains[i], a)], entries - {e})
    ensures e.next == old(e.next)
  {
    hide IndexFor;
    if parent == null {
      table[i] := e.next;
    } else {
      assert parent != e;
      parent.next := e.next;
    }
    ghost var fewer := chains[i := RemoveAt(chains[i], a)];
    HousedRemove(chains, entries, hash, i, a);
    forall k | 0 <= k < |chains|
      ensures Chained(table[k], fewer[k])
    {
      if k != i {
        assert parent != null ==> parent !in chains[k];
        assert Chained(old(table[k]), chains[k]);
      } else {
        Unlinked(old(table[i]), table[i], chains[i], a);
      }
    }
  }

  /** Take the first entry of bucket i and put it first in its new bucket. */
  method MoveHead(table: array<Entry?>, ghost rest: seq<seq<Entry>>, ghost left: set<Entry>, newtable: array<Entry?>,
                  ghost grown: seq<seq<Entry>>, ghost moved: set<Entry>, ghost all: seq<seq<Entry>>, hash: int -> nat,
                    i: nat)
    returns (ghost e: Entry, ghost j: nat)
    requires Moving(table, rest, left, newtable, grown, moved, all, hash)
    requires i < |rest| && rest[i] != [] && forall k :: 0 <= k < i ==> rest[k] == []
    modifies table, newtable, left
    ensures e == rest[i][0] && e in left && j < |grown|
    ensures Moving(table, rest[i := rest[i][1..]], left - {e}, newtable, grown[j := [e] + grown[j]], moved + {e}, all,
        hash)
  {
    hide Flat, Turned, Rehashed, IndexFor, Hung;
    HungHead(table, rest, left, i);
    HungLength(newtable, grown, moved);
    var entry := table[i];
    e, j := entry, IndexFor(newtable.Length, entry.h);
    FirstAndRest(rest[i]);
    HousedRemove(rest, left, hash, i, 0);
    HousedPush(grown, moved, hash, e);
    TurnStep(rest, left, grown, all, hash, i);
    SizeStep(rest, grown, i, j);
    RehashStep(rest, grown, all, i);
    IndexIs(|grown|, e.h);
    Unlink(table, rest, left, i, 0, entry, null, hash);
    Link(newtable, grown, moved, IndexFor(newtable.Length, entry.h), entry);
  }

  /** Move all of bucket i, the buckets before it being empty already. */
  method MoveBucket(table: array<Entry?>, ghost rest0: seq<seq<Entry>>, ghost left0: set<Entry>,
                    newtable: array<Entry?>, ghost grown0: seq<seq<Entry>>, ghost moved0: set<Entry>,
                    ghost all: seq<seq<Entry>>, hash: int -> nat, i: nat)
    returns (ghost rest: seq<seq<Entry>>, ghost left: set<Entry>, ghost grown: seq<seq<Entry>>, ghost moved: set<Entry>)
    requires Moving(table, rest0, left0, newtable, grown0, moved0, all, hash)
    requires i < |rest0| && forall k :: 0 <= k < i ==> rest0[k] == []
    modifies table, newtable, left0
    ensures Moving(table, rest, left, newtable, grown, moved, all, hash) && left + moved <= left0 + moved0
    ensures |rest| == |rest0| && |grown| == |grown0| && forall k :: 0 <= k <= i ==> rest[k] == []
  {
    hide Moving;
    rest, left, grown, moved := rest0, left0, grown0, moved0;
    MovingHead(table, rest, left, newtable, grown, moved, all, hash, i);
    while table[i] != null
      invariant |rest| == |rest0| && |grown| == |grown0| && left <= left0 && left + moved <= left0 + moved0
      invariant Moving(table, rest, left, newtable, grown, moved, all, hash)
      invariant forall k :: 0 <= k < i ==> rest[k] == []
      invariant i < table.Length && (table[i] == null <==> rest[i] == [])
      decreases |rest[i]|
    {
      ghost var e, j := MoveHead(table, rest, left, newtable, grown, moved, all, hash, i);
      rest, left := rest[i := rest[i][1..]], left - {e};
      grown, moved := grown[j := [e] + grown[j]], moved + {e};
      MovingHead(table, rest, left, newtable, grown, moved, all, hash, i);
    }
  }

  lemma MovingHead(table: array<Entry?>, rest: seq<seq<Entry>>, left: set<Entry>, newtable: array<Entry?>,
                   grown: seq<seq<Entry>>, moved: set<Entry>, all: seq<seq<Entry>>, hash: int -> nat, i: nat)
    requires Moving(table, rest, left, newtable, grown, moved, all, hash) && i < |rest|
    ensures i < table.Length && (table[i] == null <==> rest[i] == [])
  {
    HungHead(table, rest, left, i);
  }

  class Hashtable {
    var table: array<Entry?>
    var tablelength: nat
    var entrycount: nat
    var loadlimit: nat
    var primeindex: nat
    const hash: int -> nat
    ghost var chains: seq<seq<Entry>>
    ghost var entries: set<Entry>

    /** Everything but the count. */
    ghost predicate Shaped()
      reads this, table, entries
    {
      && primeindex < |PRIMES|
      && tablelength == PRIMES[primeindex] == |chains|
      && loadlimit == LoadLimit(tablelength)
      && Housed(chains, entries, hash)
      && Hung(table, chains, entries)
    }

    ghost predicate Valid()
      reads this, table, entries
    {
      Shaped() && entrycount == |Flat(chains)| && (primeindex + 1 < |PRIMES| ==> entrycount <= loadlimit)
    }

    /** Every entry hangs in the bucket its key's hash value leaves as remainder. */
    lemma InItsBucket()
      requires Shaped()
      ensures table.Length == tablelength == |chains|
      ensures forall i, a :: 0 <= i < |chains| && 0 <= a < |chains[i]| ==>
        chains[i][a].h == hash(chains[i][a].k) && chains[i][a].h % |chains| == i
    {
    }

    /** The limit is 65% of the length, and only a table of the last listed length is filled beyond it. */
    lemma LoadFactor()
      requires Valid()
      ensures tablelength in PRIMES
      ensures 100 * (loadlimit - 1) < 65 * tablelength <= 100 * loadlimit
      ensures 100 * (entrycount - 1) < 65 * tablelength || tablelength == PRIMES[|PRIMES| - 1]
    {
      LoadLimitTight(tablelength);
    }

    /** The values under key k, in the order searches and removals meet them. */
    ghost function Held(k: int): seq<int>
      requires |chains| > 0
      reads this
    {
      HeldIn(chains, hash, k)
    }

    constructor Sized(pindex: nat, size: nat, hash: int -> nat)
      requires pindex < |PRIMES| && size == PRIMES[pindex] > 0
      ensures Valid() && fresh(table) && entries == {} && chains == seq(size, i => [])
      ensures this.hash == hash && primeindex == pindex
    {
      table := new Entry?[size](i => null);
      tablelength, primeindex, entrycount := size, pindex, 0;
      this.hash := hash;
      loadlimit := LoadLimit(size);
      chains, entries := seq(size, i => []), {};
      new;
      FlatEmpty(chains);
    }

    /** A new, empty table whose length is the first prime of the list above minsize; null when too much is asked
        for. */
    static method Create(minsize: nat, hash: int -> nat) returns (h: Hashtable?)
      ensures h == null <==> minsize > 0x4000_0000
      ensures h != null ==> fresh(h) && h.Valid() && fresh(h.table) && h.entries == {} && h.hash == hash
      ensures h != null ==> h.entrycount == 0 && forall k :: h.Held(k) == []
      ensures h != null ==> minsize < h.tablelength && forall i :: 0 <= i < h.primeindex ==> PRIMES[i] <= minsize
    {
      if minsize > MAX_REQUEST {
        return null;
      }
      var size, pindex := PRIMES[0], 0;
      while pindex < |PRIMES|
        invariant pindex <= |PRIMES|
        invariant forall i :: 0 <= i < pindex ==> PRIMES[i] <= minsize
      {
        if PRIMES[pindex] > minsize {
          size := PRIMES[pindex];
          break;
        }
        pindex := pindex + 1;
      }
      assert PRIMES[|PRIMES| - 1] > MAX_REQUEST;
      h := new Hashtable.Sized(pindex, size, hash);
      FlatEmpty(h.chains);
    }

    /** Go to the next prime, if there is one, and move every entry to its new bucket; the values under each key come
        out in reverse. */
    method Expand() returns (grew: bool)
      requires Shaped()
      modifies this, table, entries
      ensures Shaped() && entrycount == old(entrycount) && entries <= old(entries)
      ensures |Flat(chains)| == old(|Flat(chains)|)
      ensures grew <==> old(primeindex) + 1 < |PRIMES|
      ensures grew ==>
        forall j :: 0 <= j < |chains| ==> chains[j] == Reversed(Bound(Flat(old(chains)), |chains|, j))
      ensures grew ==> fresh(table) && primeindex == old(primeindex) + 1 && TurnedRound(old(chains), chains, hash)
      ensures !grew ==> table == old(table) && chains == old(chains) && primeindex == old(primeindex)
    {
      hide Flat, Turned, Rehashed, Bound, Reversed, IndexFor, Housed, Hung, HeldIn, LoadLimit, TurnedRound;
      if primeindex == |PRIMES| - 1 {
        return false;
      }
      primeindex := primeindex + 1;
      var newsize := PRIMES[primeindex];
      PrimesPositive(primeindex);
      var newtable := new Entry?[newsize](i => null);
      ghost var all, rest, left := chains, chains, entries;
      ghost var grown, moved := seq(newsize, i => []), {};
      MovingStarts(table, rest, left, newtable, grown, hash);
      HungLength(table, rest, left);
      var i := 0;
      while i < tablelength
        modifies table, newtable, entries
        invariant i <= tablelength == |rest| && |grown| == newsize && left + moved <= entries
        invariant Moving(table, rest, left, newtable, grown, moved, all, hash)
        invariant forall j :: 0 <= j < i ==> rest[j] == []
      {
        rest, left, grown, moved := MoveBucket(table, rest, left, newtable, grown, moved, all, hash, i);
        i := i + 1;
      }
      TurnDone(rest, grown, all, hash);
      FlatEmpty(rest);
      RehashDone(rest, grown, all);
      table, tablelength, loadlimit := newtable, newsize, LoadLimit(newsize);
      chains, entries := grown, moved;
      return true;
    }

    /** Add a pair. Keys may repeat; the new value comes before the others under its key. With 65% of the length in
        the table already, and a further length listed, the table grows to that length first. */
    method Insert(k: int, v: int) returns (ghost e: Entry)
      requires Valid()
      modifies this, table, entries
      ensures Valid() && fresh(entries - old(entries)) && (table == old(table) || fresh(table))
      ensures entrycount == old(entrycount) + 1
      ensures tablelength == |chains| > 0 && fresh(e) && e.k == k && e.v == v
      ensures forall j :: 0 <= j < |chains| ==>
        chains[j] == (if j == hash(k) % tablelength then [e] else []) +
          if fresh(table) then Reversed(Bound(Flat(old(chains)), tablelength, j)) else old(chains[j])
      ensures var grew := old(100 * entrycount >= 65 * tablelength && primeindex + 1 < |PRIMES|);
        && Stored(old(chains), chains, hash, k, v, grew) && (fresh(table) <==> grew)
        && tablelength == PRIMES[primeindex] && primeindex == old(primeindex) + if grew then 1 else 0
      ensures forall m :: old(Represents(m, chains, hash)) && k !in m ==> Represents(m[k := v], chains, hash)
    {
      hide Flat, IndexFor, Housed, Hung, HeldIn, Represents, LoadLimit, PRIMES, Bound, Reversed;
      LoadLimitTight(tablelength);
      PrimesPositive(primeindex);
      if primeindex + 1 < |PRIMES| {
        PrimesPositive(primeindex + 1);
        RoomAfterGrowth(primeindex);
      }
      entrycount := entrycount + 1;
      ghost var grows := entrycount > loadlimit && primeindex + 1 < |PRIMES|;
      if entrycount > loadlimit {
        var grew := Expand();
        ghost var grown := chains;
        e := Place(k, v);
        if grew {
          StoredTurned(old(chains), grown, chains, hash, k, v);
        }
      } else {
        e := Place(k, v);
      }
      forall m | old(Represents(m, chains, hash)) && k !in m
        ensures Represents(m[k := v], chains, hash)
      {
        StoredInMap(m, old(chains), chains, hash, k, v, grows);
      }
    }

    /** Put a new entry first in its bucket. */
    method Place(k: int, v: int) returns (ghost entry: Entry)
      requires Shaped() && entrycount == |Flat(chains)| + 1
      requires primeindex + 1 < |PRIMES| ==> entrycount <= loadlimit
      modifies this, table, entries
      ensures Valid() && fresh(entries - old(entries)) && table == old(table) && entrycount == old(entrycount)
      ensures tablelength == old(tablelength) && primeindex == old(primeindex)
      ensures fresh(entry) && entry.k == k && entry.v == v && tablelength == |old(chains)| > 0
      ensures var i := hash(k) % tablelength; chains == old(chains)[i := [entry] + old(chains)[i]]
      ensures Stored(old(chains), chains, hash, k, v, false)
    {
      hide Flat, IndexFor, Hung, LoadLimit, ValuesOf;
      HungLength(table, chains, entries);
      ghost var before := chains;
      var h := hash(k);
      var index := IndexFor(tablelength, h);
      IndexIs(tablelength, h);
      var e := new Entry(k, v, h, null);
      entry := e;
      HousedPush(chains, entries, hash, e);
      Link(table, chains, entries, index, e);
      InsertFront(chains[index], e);
      FlatInsert(chains, index, 0, e);
      chains, entries := chains[index := [e] + chains[index]], entries + {e};
      forall q ensures Held(q) == (if q == k then [v] else []) + HeldIn(before, hash, q) {
        ValuesHead(e, before[index], q);
      }
    }

    /** Look along the bucket of k for the first entry with that key, keeping the entry before it. */
    method Walk(k: int) returns (index: nat, e: Entry?, parent: Entry?, ghost a: nat)
      requires Shaped()
      ensures index == hash(k) % tablelength == IndexFor(tablelength, hash(k)) < |chains|
      ensures a <= |chains[index]| && e == (if a < |chains[index]| then chains[index][a] else null)
      ensures parent == if a == 0 then null else chains[index][a - 1]
      ensures e != null ==> e.k == k
      ensures forall b :: 0 <= b < a ==> chains[index][b].k != k
    {
      hide Flat;
      var hashvalue := hash(k);
      index := IndexFor(tablelength, hashvalue);
      ghost var c := chains[index];
      HungHead(table, chains, entries, index);
      e, parent, a := table[index], null, 0;
      while e != null
        invariant a <= |c| && e == if a < |c| then c[a] else null
        invariant parent == if a == 0 then null else c[a - 1]
        invariant forall b :: 0 <= b < a ==> c[b].k != k
        decreases |c| - a
      {
        if hashvalue == e.h && k == e.k {
          return;
        }
        HungNext(table, chains, entries, index, a);
        parent, e, a := e, e.next, a + 1;
      }
    }

    /** The first value under k. */
    method Search(k: int) returns (r: Found)
      requires Valid()
      ensures r == if Held(k) == [] then Null else Value(Held(k)[0])
      ensures forall m :: Represents(m, chains, hash) ==> r == if k in m then Value(m[k]) else Null
    {
      hide Flat, IndexFor, ValuesOf;
      var index, e, _, a := Walk(k);
      if e == null {
        ValuesNone(chains[index], k);
        return Null;
      }
      ValuesFirst(chains[index], a, k);
      return Value(e.v);
    }

    /** Take out the pair a search for k would find. */
    method Remove(k: int) returns (r: Found, ghost a: nat)
      requires Valid()
      modifies this, table, entries
      ensures Valid() && entries <= old(entries) && table == old(table)
      ensures r == if old(Held(k)) == [] then Null else Value(old(Held(k))[0])
      ensures r == Null ==> chains == old(chains) && entrycount == old(entrycount)
      ensures r != Null ==> entrycount == old(entrycount) - 1
      ensures |old(chains)| == tablelength > 0
      ensures r != Null ==>
        var i := hash(k) % tablelength;
        && a < |old(chains)[i]| && old(chains)[i][a].k == k && r == Value(old(chains)[i][a].v)
        && (forall b :: 0 <= b < a ==> old(chains)[i][b].k != k)
        && chains == old(chains)[i := RemoveAt(old(chains)[i], a)]
      ensures Dropped(old(chains), chains, hash, k)
      ensures forall m :: old(Represents(m, chains, hash)) ==> Represents(m - {k}, chains, hash)
    {
      hide Flat, IndexFor, ValuesOf, Represents, Hung;
      var index, e, parent;
      index, e, parent, a := Walk(k);
      ghost var c := chains[index];
      if e == null {
        ValuesNone(c, k);
        r := Null;
      } else {
        CutOut(index, a, e, parent);
        ValuesFirst(c, a, k);
        assert ([e.v] + Held(k))[1..] == Held(k);
        r := Value(e.v);
      }
      forall m | old(Represents(m, chains, hash))
        ensures Represents(m - {k}, chains, hash)
      {
        DroppedFromMap(m, old(chains), chains, hash, k);
      }
    }

    /** Take entry e, at place a of bucket i and right after parent, out of the table. */
    method CutOut(i: nat, ghost a: nat, e: Entry, parent: Entry?)
      requires Valid() && i < |chains| && a < |chains[i]| && e == chains[i][a]
      requires parent == if a == 0 then null else chains[i][a - 1]
      modifies this, table, entries
      ensures Valid() && entries <= old(entries) && table == old(table) && entrycount == old(entrycount) - 1
      ensures chains == old(chains)[i := RemoveAt(old(chains[i]), a)] && e.next == old(e.next)
      ensures forall q :: q != e.k ==> HeldIn(chains, hash, q) == HeldIn(old(chains), hash, q)
    {
      hide Flat, IndexFor, HeldIn, Hung;
      HousedRemove(chains, entries, hash, i, a);
      HeldRemove(chains, entries, hash, i, a);
      FlatRemove(chains, i, a);
      Unlink(table, chains, entries, i, a, e, parent, hash);
      chains, entries := chains[i := RemoveAt(chains[i], a)], entries - {e};
      entrycount := entrycount - 1;
    }
  }
}
