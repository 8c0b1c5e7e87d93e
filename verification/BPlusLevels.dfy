/** The shape of a B+ tree as a stack of levels: levels[0] lists the leaves from left to right, the last level holds the
    root alone. ents gives the occupied slots of every node. All recursion through children disappears: the entries of
    one level, laid end to end, must be the index of the level below. */
module BPlusLevels {
  import opened Sequences
  import opened BPlusNodes
  import opened BPlusMoves

  type Levels = seq<seq<Node>>
  type Entries = seq<seq<seq<Entry>>>

  ghost function FirstKey(e: seq<Entry>): int
  {
    if e == [] then 0 else e[0].k
  }

  /** What the level above must list: for each node its smallest key and its address. */
  ghost function Index(ns: seq<Node>, es: seq<seq<Entry>>): (ix: seq<Entry>)
    requires |ns| == |es|
    ensures |ix| == |es|
    ensures forall p :: 0 <= p < |es| ==> ix[p] == Entry(FirstKey(es[p]), Ptr(ns[p]))
  {
    seq(|es|, p requires 0 <= p < |es| => Entry(FirstKey(es[p]), Ptr(ns[p])))
  }

  ghost predicate Distinct<T>(s: seq<T>)
  {
    forall i, j :: 0 <= i < j < |s| ==> s[i] != s[j]
  }

  ghost predicate Aligned(L: Levels, E: Entries)
  {
    && |L| == |E| >= 1
    && (forall d :: 0 <= d < |L| ==> |L[d]| == |E[d]| >= 1)
  }

  /** Between M/2 and M - 1 entries; the root may have as few as two children, or no record. */
  ghost predicate SizeOK(E: Entries, d: nat, j: nat)
    requires d < |E| && j < |E[d]|
  {
    && |E[d][j]| < M
    && (d < |E| - 1 ==> M <= 2 * |E[d][j]|)
    && (d == |E| - 1 && d > 0 ==> 2 <= |E[d][j]|)
  }

  ghost predicate SizesExcept(E: Entries, xd: int, xj: int)
  {
    forall d, j :: 0 <= d < |E| && 0 <= j < |E[d]| && !(d == xd && j == xj) ==> SizeOK(E, d, j)
  }

  ghost predicate IndexedAt(L: Levels, E: Entries, d: nat)
    requires Aligned(L, E) && 1 <= d < |L|
  {
    Flat(E[d]) == Index(L[d - 1], E[d - 1])
  }

  ghost predicate IndexedExcept(L: Levels, E: Entries, a: int, b: int)
    requires Aligned(L, E)
  {
    forall d :: 1 <= d < |L| && d != a && d != b ==> IndexedAt(L, E, d)
  }

  ghost predicate Sorted(E: Entries)
  {
    forall d :: 0 <= d < |E| ==> SortedKeys(Flat(E[d]))
  }

  ghost predicate AllDistinct(L: Levels)
  {
    forall d :: 0 <= d < |L| ==> Distinct(L[d]) && forall j :: 0 <= j < |L[d]| ==> L[d][j].level == d
  }

  ghost predicate RecordsBelow(E: Entries)
    requires |E| >= 1
  {
    forall j, i :: 0 <= j < |E[0]| && 0 <= i < |E[0][j]| ==> E[0][j][i].v.Rec?
  }

  /** What the memory must hold for node j of level d. */
  ghost predicate NodeOK(L: Levels, E: Entries, R: set<Node>, d: nat, j: nat)
    requires Aligned(L, E) && d < |L| && j < |L[d]|
    reads R`keyNum, R`key, R`child, R`isLeaf, R`isRoot
  {
    var n := L[d][j];
    && n in R
    && n.Holds(E[d][j])
    && n.isLeaf == (d == 0)
    && n.isRoot == (n == L[|L| - 1][0])
  }

  ghost predicate NodesExcept(L: Levels, E: Entries, R: set<Node>, X: set<Node>)
    requires Aligned(L, E)
    reads R`keyNum, R`key, R`child, R`isLeaf, R`isRoot
  {
    forall d, j :: 0 <= d < |L| && 0 <= j < |L[d]| && L[d][j] !in X ==> NodeOK(L, E, R, d, j)
  }

  /** Every child not in X has the node that lists it as its father. */
  ghost predicate FathersExcept(L: Levels, E: Entries, R: set<Node>, X: set<Node>)
    requires Aligned(L, E)
    reads R`father
  {
    forall d, j, i :: 1 <= d < |L| && 0 <= j < |L[d]| && 0 <= i < |E[d][j]| ==>
      ChildOK(L[d][j], E[d][j][i].v, R, X)
  }

  ghost predicate ChildOK(n: Node, v: Slot, R: set<Node>, X: set<Node>)
    reads R`father
  {
    v.Ptr? && v.node in R && (v.node in X || v.node.father == n)
  }

  /** The doubly linked list through c, from end to end. */
  ghost predicate Chain(c: seq<Node>)
    reads c`next, c`last
  {
    forall i :: 0 <= i < |c| ==> LinkedAt(c, i)
  }

  ghost predicate LinkedAt(c: seq<Node>, i: nat)
    requires i < |c|
    reads c`next, c`last
  {
    && c[i].next == (if i + 1 < |c| then c[i + 1] else null)
    && c[i].last == (if i > 0 then c[i - 1] else null)
  }

  ghost predicate Linked(c: seq<Node>, R: set<Node>)
    reads R`next, R`last
  {
    (forall n :: n in c ==> n in R) && Chain(c)
  }

  /** Everything about the shape, except the index equations of levels a and b and the size of node (xd, xj). */
  ghost predicate Pure(L: Levels, E: Entries, a: int, b: int, xd: int, xj: int)
  {
    && Aligned(L, E)
    && AllDistinct(L)
    && SizesExcept(E, xd, xj)
    && IndexedExcept(L, E, a, b)
    && Sorted(E)
    && RecordsBelow(E)
  }

  /** The shape, and the memory that holds it; the leaf chain is kept apart. */
  ghost predicate Core(L: Levels, E: Entries, R: set<Node>, a: int, b: int, xd: int, xj: int)
    reads R`keyNum, R`key, R`child, R`isLeaf, R`isRoot, R`father
  {
    && Pure(L, E, a, b, xd, xj)
    && NodesExcept(L, E, R, {})
    && FathersExcept(L, E, R, {})
  }

  /** The last level holds exactly the root. */
  ghost predicate Rooted(L: Levels, root: Node)
  {
    |L| > 0 && L[|L| - 1] == [root]
  }

  /** Distinct places of a sorted level hold distinct keys. */
  lemma KeysApart(es: seq<seq<Entry>>, j: nat, i: nat, j': nat, i': nat)
    requires SortedKeys(Flat(es))
    requires j < |es| && i < |es[j]| && j' < |es| && i' < |es[j']|
    requires j < j' || (j == j' && i < i')
    ensures es[j][i].k < es[j'][i'].k
  {
    FlatIndex(es, j, i);
    FlatIndex(es, j', i');
    if j < j' {
      StartMonotone(es, j + 1, j');
    }
  }

  lemma NodeSorted(es: seq<seq<Entry>>, j: nat)
    requires SortedKeys(Flat(es)) && j < |es|
    ensures SortedKeys(es[j])
  {
    forall i, i' | 0 <= i < i' < |es[j]| ensures es[j][i].k < es[j][i'].k {
      KeysApart(es, j, i, j, i');
    }
  }

  /** Place (j, i) of level d lists node Start(E[d], j) + i of the level below. */
  lemma ChildAt(L: Levels, E: Entries, d: nat, j: nat, i: nat) returns (p: nat)
    requires Aligned(L, E) && 1 <= d < |L| && IndexedAt(L, E, d)
    requires j < |E[d]| && i < |E[d][j]|
    ensures p == Start(E[d], j) + i < |L[d - 1]|
    ensures E[d][j][i] == Entry(FirstKey(E[d - 1][p]), Ptr(L[d - 1][p]))
  {
    hide Flat;
    FlatIndex(E[d], j, i);
    p := Start(E[d], j) + i;
  }

  /** A node below the root is listed by exactly one father. */
  lemma FatherOf(L: Levels, E: Entries, R: set<Node>, d: nat, j: nat) returns (f: nat, i: nat)
    requires Aligned(L, E) && d + 1 < |L| && j < |L[d]| && IndexedAt(L, E, d + 1) && FathersExcept(L, E, R, {})
    ensures f < |L[d + 1]| && i < |E[d + 1][f]| && Start(E[d + 1], f) + i == j
    ensures E[d + 1][f][i] == Entry(FirstKey(E[d][j]), Ptr(L[d][j]))
    ensures L[d][j].father == L[d + 1][f]
  {
    f, i := Locate(E[d + 1], j);
    assert ChildOK(L[d + 1][f], E[d + 1][f][i].v, R, {});
  }

  // ---- what a change to a few nodes leaves alone ----

  twostate lemma KeepNodes(new L: Levels, new E: Entries, new R: set<Node>, new X: set<Node>)
    requires old(allocated(L) && allocated(E) && allocated(R))
    requires Aligned(L, E) && old(NodesExcept(L, E, R, {}))
    requires forall n :: n in R && n !in X ==>
      && n.key == old(n.key) && n.child == old(n.child) && n.keyNum == old(n.keyNum)
      && n.isLeaf == old(n.isLeaf) && n.isRoot == old(n.isRoot)
    ensures NodesExcept(L, E, R, X)
  {
    forall d, j | 0 <= d < |L| && 0 <= j < |L[d]| && L[d][j] !in X ensures NodeOK(L, E, R, d, j) {
      assert old(NodeOK(L, E, R, d, j));
    }
  }

  twostate lemma KeepFathers(new L: Levels, new E: Entries, new R: set<Node>, new X: set<Node>)
    requires old(allocated(L) && allocated(E) && allocated(R))
    requires Aligned(L, E) && old(FathersExcept(L, E, R, {}))
    requires forall n :: n in R && n !in X ==> n.father == old(n.father)
    ensures FathersExcept(L, E, R, X)
  {
    forall d, j, i | 1 <= d < |L| && 0 <= j < |L[d]| && 0 <= i < |E[d][j]|
      ensures ChildOK(L[d][j], E[d][j][i].v, R, X)
    {
      assert old(ChildOK(L[d][j], E[d][j][i].v, R, {}));
    }
  }

  lemma ChainGrows(c: seq<Node>, R: set<Node>, R': set<Node>)
    requires Linked(c, R) && R <= R'
    ensures Linked(c, R')
  {
  }

  // ---- splitting node j of a level ----

  ghost function SplitNodes(ns: seq<Node>, j: nat, t: Node): seq<Node>
    requires j < |ns|
  {
    InsertAt(ns, j + 1, t)
  }

  ghost function SplitEntries(es: seq<seq<Entry>>, j: nat): seq<seq<Entry>>
    requires j < |es| && |es[j]| == M
  {
    InsertAt(es[j := es[j][..M / 2]], j + 1, es[j][M / 2..])
  }

  lemma SplitKeepsEntries(es: seq<seq<Entry>>, j: nat)
    requires j < |es| && |es[j]| == M
    ensures Flat(SplitEntries(es, j)) == Flat(es)
  {
    var lo, hi := es[j][..M / 2], es[j][M / 2..];
    FlatSplice(es, j, j + 1, [lo, hi]);
    assert SplitEntries(es, j) == es[..j] + [lo, hi] + es[j + 1..];
    assert [lo, hi] == [lo] + [hi];
    FlatConcat([lo], [hi]);
    FlatOne(lo);
    FlatOne(hi);
    FlatAt(es, j);
  }

  lemma SplitExtendsIndex(ns: seq<Node>, es: seq<seq<Entry>>, j: nat, t: Node)
    requires |ns| == |es| && j < |es| && |es[j]| == M
    ensures Index(SplitNodes(ns, j, t), SplitEntries(es, j))
      == InsertAt(Index(ns, es), j + 1, Entry(es[j][M / 2].k, Ptr(t)))
  {
  }

  lemma SplitLevel(L: Levels, E: Entries, d: nat, j: nat, t: Node)
    requires Pure(L, E, -1, -1, d, j) && d < |L| && j < |L[d]| && |E[d][j]| == M
    requires t !in L[d] && t.level == d
    ensures Pure(L[d := SplitNodes(L[d], j, t)], E[d := SplitEntries(E[d], j)], d + 1, -1, -1, -1)
  {
    var L': Levels, E': Entries := L[d := SplitNodes(L[d], j, t)], E[d := SplitEntries(E[d], j)];
    SplitKeepsEntries(E[d], j);
    assert Distinct(L'[d]);
    assert AllDistinct(L') by {
      forall x | 0 <= x < |L'| ensures Distinct(L'[x]) && forall y :: 0 <= y < |L'[x]| ==>
        L'[x][y].level == x { assert Distinct(L[x]); }
    }
    forall x | 1 <= x < |L'| && x != d + 1 ensures IndexedAt(L', E', x) {
      assert IndexedAt(L, E, x);
    }
    SplitSizes(E, d, j);
  }

  lemma SplitSizes(E: Entries, d: nat, j: nat)
    requires SizesExcept(E, d, j) && d < |E| && j < |E[d]| && |E[d][j]| == M
    ensures SizesExcept(E[d := SplitEntries(E[d], j)], -1, -1)
  {
    hide SizeOK;
    var E': Entries := E[d := SplitEntries(E[d], j)];
    forall x, y | 0 <= x < |E'| && 0 <= y < |E'[x]| ensures SizeOK(E', x, y) {
      if x != d {
        SameSize(E, E', x, y, y);
      } else if y < j {
        SameSize(E, E', x, y, y);
      } else if y > j + 1 {
        SameSize(E, E', x, y - 1, y);
      } else {
        HalfSize(E', x, y);
      }
    }
  }

  lemma SameSize(E: Entries, E': Entries, d: nat, j: nat, j': nat)
    requires |E'| == |E| && d < |E| && j < |E[d]| && j' < |E'[d]| && E'[d][j'] == E[d][j] && SizeOK(E, d, j)
    ensures SizeOK(E', d, j')
  {
  }

  lemma HalfSize(E: Entries, d: nat, j: nat)
    requires d < |E| && j < |E[d]| && |E[d][j]| == M / 2
    ensures SizeOK(E, d, j)
  {
  }

  /** In a level whose last-but-entries are known, the child's position fixes its slot. */
  lemma SlotOfKey(es: seq<seq<Entry>>, j: nat, p: nat, e: Entry, ins: nat)
    requires j < |es| && Start(es, j) <= p <= Start(es, j) + |es[j]| && p <= |Flat(es)|
    requires SortedKeys(InsertAt(Flat(es), p, e))
    requires ins <= |es[j]|
    requires ins > 0 ==> es[j][ins - 1].k <= e.k
    requires ins < |es[j]| ==> e.k < es[j][ins].k
    ensures ins == p - Start(es, j)
  {
    var s, o := InsertAt(Flat(es), p, e), Start(es, j);
    InsertedAt(Flat(es), p, e, p);
    if ins < |es[j]| {
      FlatIndex(es, j, ins);
      InsertedAt(Flat(es), p, e, o + ins);
    }
    if ins > 0 {
      FlatIndex(es, j, ins - 1);
      InsertedAt(Flat(es), p, e, o + ins);
    }
  }

  lemma SplitMemory(L: Levels, E: Entries, R: set<Node>, d: nat, j: nat, t: Node)
    requires Pure(L, E, -1, -1, d, j) && d < |L| && j < |L[d]| && |E[d][j]| == M
    requires t !in R
    requires NodesExcept(L, E, R, {L[d][j]})
    requires L[d][j] in R && L[d][j].Holds(E[d][j][..M / 2]) && t.Holds(E[d][j][M / 2..])
    requires L[d][j].isLeaf == t.isLeaf == (d == 0)
    requires !t.isRoot && L[d][j].isRoot == (L[d][j] == L[|L| - 1][0])
    ensures Aligned(L[d := SplitNodes(L[d], j, t)], E[d := SplitEntries(E[d], j)])
    ensures NodesExcept(L[d := SplitNodes(L[d], j, t)], E[d := SplitEntries(E[d], j)], R + {t}, {})
  {
    var L': Levels, E': Entries, R' := L[d := SplitNodes(L[d], j, t)], E[d := SplitEntries(E[d], j)], R + {t};
    assert L'[|L'| - 1][0] == L[|L| - 1][0];
    forall x, y | 0 <= x < |L'| && 0 <= y < |L'[x]| ensures NodeOK(L', E', R', x, y) {
      if x != d || (y != j && y != j + 1) {
        var y0 := if x == d && y > j then y - 1 else y;
        assert Distinct(L[x]);
        assert L'[x][y] == L[x][y0] && E'[x][y] == E[x][y0];
        assert NodeOK(L, E, R, x, y0);
      }
    }
  }

  lemma SplitFathers(L: Levels, E: Entries, R: set<Node>, d: nat, j: nat, t: Node)
    requires Pure(L, E, -1, -1, d, j) && d < |L| && j < |L[d]| && |E[d][j]| == M
    requires FathersExcept(L, E, R, Children(E[d][j][M / 2..]))
    requires t !in R
    requires forall i :: M / 2 <= i < M && E[d][j][i].v.Ptr? && E[d][j][i].v.node in R ==> E[d][j][i].v.node.father == t
    ensures Aligned(L[d := SplitNodes(L[d], j, t)], E[d := SplitEntries(E[d], j)])
    ensures FathersExcept(L[d := SplitNodes(L[d], j, t)], E[d := SplitEntries(E[d], j)], R, {})
  {
    var L': Levels, E': Entries := L[d := SplitNodes(L[d], j, t)], E[d := SplitEntries(E[d], j)];
    forall x: nat, y: nat, i: nat | 1 <= x < |L'| && 0 <= y < |L'[x]| && 0 <= i < |E'[x][y]|
      ensures ChildOK(L'[x][y], E'[x][y][i].v, R, {})
    {
      var y0 := if x == d && y > j then y - 1 else y;
      var i0 := if x == d && y == j + 1 then i + M / 2 else i;
      assert E'[x][y][i] == E[x][y0][i0];
      assert ChildOK(L[x][y0], E[x][y0][i0].v, R, Children(E[d][j][M / 2..]));
      if E[x][y0][i0].v.node in Children(E[d][j][M / 2..]) {
        MovedChildren(L, E, d, j, x, y0, i0);
      }
    }
  }

  /** A child stands in one slot of one node only. */
  lemma SameChild(L: Levels, E: Entries, x: nat, y: nat, i: nat, x': nat, y': nat, i': nat)
    requires Aligned(L, E) && AllDistinct(L) && Sorted(E)
    requires 1 <= x < |L| && y < |L[x]| && i < |E[x][y]| && IndexedAt(L, E, x)
    requires 1 <= x' < |L| && y' < |L[x']| && i' < |E[x'][y']| && IndexedAt(L, E, x')
    requires E[x][y][i].v == E[x'][y'][i'].v
    ensures x == x' && y == y' && i == i'
  {
    var p := ChildAt(L, E, x, y, i);
    var p' := ChildAt(L, E, x', y', i');
    assert L[x - 1][p].level == x - 1 && L[x' - 1][p'].level == x' - 1;
    assert Distinct(L[x - 1]);
    if y < y' || (y == y' && i < i') {
      KeysApart(E[x], y, i, y', i');
    } else if y' < y || (y == y' && i' < i) {
      KeysApart(E[x], y', i', y, i);
    }
  }

  /** Only the upper half of node (d, j) lists the children that moved. */
  lemma MovedChildren(L: Levels, E: Entries, d: nat, j: nat, x: nat, y: nat, i: nat)
    requires Pure(L, E, -1, -1, d, j) && d < |L| && j < |L[d]| && |E[d][j]| == M
    requires 1 <= x < |L| && y < |L[x]| && i < |E[x][y]| && E[x][y][i].v.Ptr?
    requires E[x][y][i].v.node in Children(E[d][j][M / 2..])
    ensures x == d && y == j && M / 2 <= i
  {
    var i' :| M / 2 <= i' < M && E[d][j][i'].v.Ptr? && E[d][j][i'].v.node == E[x][y][i].v.node;
    assert d > 0;
    assert IndexedAt(L, E, x) && IndexedAt(L, E, d);
    SameChild(L, E, x, y, i, d, j, i');
  }

  /** What Core says about one node. */
  lemma AtNode(L: Levels, E: Entries, R: set<Node>, a: int, b: int, xd: int, xj: int, d: nat, j: nat)
    requires Core(L, E, R, a, b, xd, xj) && d < |L| && j < |L[d]|
    ensures |L| == |E| && |L[d]| == |E[d]|
    ensures L[d][j] in R && L[d][j].Holds(E[d][j]) && SortedKeys(E[d][j])
    ensures d != xd || j != xj ==> SizeOK(E, d, j)
    ensures L[d][j].level == d && L[d][j].isLeaf == (d == 0) && L[d][j].isRoot == (L[d][j] == L[|L| - 1][0])
    ensures if d == 0 then forall i :: 0 <= i < |E[d][j]| ==> E[d][j][i].v.Rec?
            else forall i :: 0 <= i < |E[d][j]| ==>
              (E[d][j][i].v.Ptr? && E[d][j][i].v.node in R && E[d][j][i].v.node.father == L[d][j])
    ensures Children(E[d][j]) <= R
    ensures d != a && d != b ==> forall n :: n in Children(E[d][j]) ==> n.level == d - 1
  {
    assert NodeOK(L, E, R, d, j);
    NodeSorted(E[d], j);
    forall i | 0 <= i < |E[d][j]| && d > 0
      ensures E[d][j][i].v.Ptr? && E[d][j][i].v.node in R && E[d][j][i].v.node.father == L[d][j]
      ensures d != a && d != b ==> E[d][j][i].v.node.level == d - 1
    {
      assert ChildOK(L[d][j], E[d][j][i].v, R, {});
      if d != a && d != b {
        assert IndexedAt(L, E, d);
        var p := ChildAt(L, E, d, j, i);
      }
    }
  }

  lemma EmptyTree(n: Node)
    requires n.level == 0 && n.isRoot && n.isLeaf && n.Holds([]) && n.next == n.last == null
    ensures Core([[n]], [[[]]], {n}, -1, -1, -1, -1) && Linked([n], {n}) && Rooted([[n]], n)
  {
    hide Pure;
    EmptyPure(n);
    assert NodeOK([[n]], [[[]]], {n}, 0, 0);
  }

  lemma EmptyPure(n: Node)
    requires n.level == 0
    ensures Pure([[n]], [[[]]], -1, -1, -1, -1)
  {
    FlatOne<Entry>([]);
  }

  lemma FathersGrow(L: Levels, E: Entries, R: set<Node>, R': set<Node>)
    requires Aligned(L, E) && FathersExcept(L, E, R, {}) && R <= R'
    ensures FathersExcept(L, E, R', {})
  {
    forall d: nat, j: nat, i: nat | 1 <= d < |L| && 0 <= j < |L[d]| && 0 <= i < |E[d][j]|
      ensures ChildOK(L[d][j], E[d][j][i].v, R', {})
    {
      assert ChildOK(L[d][j], E[d][j][i].v, R, {});
    }
  }

  lemma SplitCore(L: Levels, E: Entries, R: set<Node>, d: nat, j: nat, t: Node)
    requires Pure(L, E, -1, -1, d, j) && d < |L| && j < |L[d]| && |E[d][j]| == M
    requires t !in R && t.level == d && (forall n :: n in L[d] ==> n in R)
    requires NodesExcept(L, E, R, {L[d][j]})
    requires L[d][j].Holds(E[d][j][..M / 2]) && t.Holds(E[d][j][M / 2..])
    requires L[d][j].isLeaf == t.isLeaf == (d == 0)
    requires !t.isRoot && L[d][j].isRoot == (L[d][j] == L[|L| - 1][0])
    requires FathersExcept(L, E, R, Children(E[d][j][M / 2..]))
    requires d > 0 ==> forall i :: M / 2 <= i < M && E[d][j][i].v.Ptr? ==> E[d][j][i].v.node.father == t
    ensures Core(L[d := SplitNodes(L[d], j, t)], E[d := SplitEntries(E[d], j)], R + {t}, d + 1, -1, -1, -1)
    ensures FathersExcept(L[d := SplitNodes(L[d], j, t)], E[d := SplitEntries(E[d], j)], R, {})
  {
    SplitLevel(L, E, d, j, t);
    SplitMemory(L, E, R, d, j, t);
    SplitFathers(L, E, R, d, j, t);
    FathersGrow(L[d := SplitNodes(L[d], j, t)], E[d := SplitEntries(E[d], j)], R, R + {t});
  }

  /** The whole effect of moving the upper half of node (d, j) to the new node t. */
  twostate lemma Halved(new L: Levels, new E: Entries, new R: set<Node>, new d: nat, new j: nat, new t: Node)
    requires old(allocated(L) && allocated(E) && allocated(R)) && !old(allocated(t))
    requires old(Core(L, E, R, -1, -1, d, j)) && d < |L| && j < |L[d]| && |E[d][j]| == M
    requires L[d][j].Holds(E[d][j][..M / 2]) && t.Holds(E[d][j][M / 2..])
    requires L[d][j].isLeaf == t.isLeaf && !t.isRoot && t.level == d
    requires !t.isLeaf ==> forall i :: M / 2 <= i < M && E[d][j][i].v.Ptr? ==> E[d][j][i].v.node.father == t
    requires forall n :: n in R ==>
      && n.key == old(n.key) && n.child == old(n.child) && n.isLeaf == old(n.isLeaf) && n.isRoot == old(n.isRoot)
    requires forall n :: n in R && n != L[d][j] ==> n.keyNum == old(n.keyNum)
    requires forall n :: n in R && n !in Children(E[d][j][M / 2..]) ==> n.father == old(n.father)
    ensures Core(L[d := SplitNodes(L[d], j, t)], E[d := SplitEntries(E[d], j)], R + {t}, d + 1, -1, -1, -1)
    ensures FathersExcept(L[d := SplitNodes(L[d], j, t)], E[d := SplitEntries(E[d], j)], R, {})
  {
    assert old(NodeOK(L, E, R, d, j));
    forall i | 0 <= i < |L[d]| ensures L[d][i] in R {
      assert old(NodeOK(L, E, R, d, i));
    }
    KeepNodes(L, E, R, {L[d][j]});
    KeepFathers(L, E, R, Children(E[d][j][M / 2..]));
    SplitCore(L, E, R, d, j, t);
  }

  /** The memory after the slots of node (d, j) alone were rewritten to x. */
  twostate lemma Rewritten(new L: Levels, new E: Entries, new R: set<Node>, new d: nat, new j: nat, new x: seq<Entry>,
      new a: int, new b: int, new xd: int, new xj: int, new a': int, new xd': int, new xj': int)
    requires old(allocated(L) && allocated(E) && allocated(R) && allocated(x))
    requires old(Core(L, E, R, a, b, xd, xj)) && d < |L| && j < |L[d]|
    requires Pure(L, E[d := E[d][j := x]], a', -1, xd', xj')
    requires L[d][j].Holds(x)
    requires d > 0 ==> forall t :: 0 <= t < |x| ==> x[t].v.Ptr? && x[t].v.node in R && x[t].v.node.father == L[d][j]
    requires forall n :: n in R ==> n.isLeaf == old(n.isLeaf) && n.isRoot == old(n.isRoot) && n.father == old(n.father)
    requires forall n :: n in R && n != L[d][j] ==>
      n.keyNum == old(n.keyNum) && n.key == old(n.key) && n.child == old(n.child)
    ensures Core(L, E[d := E[d][j := x]], R, a', -1, xd', xj')
  {
    var E': Entries := E[d := E[d][j := x]];
    KeepNodes(L, E, R, {L[d][j]});
    KeepFathers(L, E, R, {});
    forall y, z | 0 <= y < |L| && 0 <= z < |L[y]| ensures NodeOK(L, E', R, y, z) {
      assert old(NodeOK(L, E, R, y, z));
      if y != d || z != j {
        assert L[y][z] != L[d][j] by { assert Distinct(L[y]); }
        assert NodeOK(L, E, R, y, z);
      }
    }
    forall y: nat, z: nat, t: nat | 1 <= y < |L| && 0 <= z < |L[y]| && 0 <= t < |E'[y][z]|
      ensures ChildOK(L[y][z], E'[y][z][t].v, R, {})
    {
      if y != d || z != j {
        assert ChildOK(L[y][z], E[y][z][t].v, R, {});
      }
    }
  }

  // ---- inserting one entry into node j of a level ----

  /** The entry (key, value) is due at position p of level d, inside node j. Below that level nothing is missing; the
      level above already agrees with the outcome. */
  ghost predicate Due(L: Levels, E: Entries, d: nat, j: nat, p: nat, e: Entry)
    requires Aligned(L, E)
  {
    && d < |L| && j < |L[d]|
    && Start(E[d], j) <= p <= Start(E[d], j) + |E[d][j]| && p <= |Flat(E[d])|
    && SortedKeys(InsertAt(Flat(E[d]), p, e))
    && (d == 0 ==> e.v.Rec?)
    && (d > 0 ==> Start(E[d], j) < p && InsertAt(Flat(E[d]), p, e) == Index(L[d - 1], E[d - 1]))
    && (d + 1 < |L| ==> Flat(E[d + 1]) == Index(L[d], E[d][j := InsertAt(E[d][j], p - Start(E[d], j), e)]))
  }

  lemma InsertLevel(L: Levels, E: Entries, d: nat, j: nat, p: nat, e: Entry)
    requires Pure(L, E, d, d + 1, -1, -1) && Due(L, E, d, j, p, e)
    ensures Pure(L, E[d := E[d][j := InsertAt(E[d][j], p - Start(E[d], j), e)]], -1, -1, d, j)
    ensures Flat(E[d := E[d][j := InsertAt(E[d][j], p - Start(E[d], j), e)]][d]) == InsertAt(Flat(E[d]), p, e)
  {
    hide Flat;
    var i := p - Start(E[d], j);
    var E' := E[d := E[d][j := InsertAt(E[d][j], i, e)]];
    FlatInsert(E[d], j, i, e);
    forall x, y | 0 <= x < |E'| && 0 <= y < |E'[x]| && !(x == d && y == j) ensures SizeOK(E', x, y) {
      assert SizeOK(E, x, y);
    }
    forall x | 1 <= x < |L| ensures IndexedAt(L, E', x) {
      if x != d && x != d + 1 {
        assert IndexedAt(L, E, x);
      }
    }
  }

  /** The memory after one entry was added to node (d, j). */
  twostate lemma Inserted(new L: Levels, new E: Entries, new R: set<Node>, new d: nat, new j: nat, new p: nat,
                          new e: Entry)
    requires old(allocated(L) && allocated(E) && allocated(R) && allocated(e))
    requires old(Core(L, E, R, d, d + 1, -1, -1)) && Due(L, E, d, j, p, e)
    requires L[d][j].Holds(InsertAt(E[d][j], p - Start(E[d], j), e))
    requires d > 0 ==> e.v.Ptr? && e.v.node in R && e.v.node.father == L[d][j]
    requires forall n :: n in R ==> n.isLeaf == old(n.isLeaf) && n.isRoot == old(n.isRoot) && n.father == old(n.father)
    requires forall n :: n in R && n != L[d][j] ==>
      n.keyNum == old(n.keyNum) && n.key == old(n.key) && n.child == old(n.child)
    ensures Core(L, E[d := E[d][j := InsertAt(E[d][j], p - Start(E[d], j), e)]], R, -1, -1, d, j)
  {
    var i := p - Start(E[d], j);
    var x := InsertAt(E[d][j], i, e);
    InsertLevel(L, E, d, j, p, e);
    forall t | 0 <= t < |x| && d > 0 ensures x[t].v.Ptr? && x[t].v.node in R && x[t].v.node.father == L[d][j] {
      InsertedAt(E[d][j], i, e, t);
      if t != i {
        assert old(ChildOK(L[d][j], E[d][j][if t < i then t else t - 1].v, R, {}));
      }
    }
    Rewritten(L, E, R, d, j, x, d, d + 1, -1, -1, -1, d, j);
  }

  // ---- a new root over the two halves of the old one ----

  ghost function RootEntries(L: Levels, E: Entries): seq<Entry>
    requires Aligned(L, E)
  {
    Index(L[|L| - 1], E[|L| - 1])
  }

  lemma GrowLevel(L: Levels, E: Entries, root: Node)
    requires Pure(L, E, |L|, -1, -1, -1) && |L[|L| - 1]| == 2 && root.level == |L|
    requires forall e :: e in E[|L| - 1] ==> M <= 2 * |e|
    ensures Pure(L + [[root]], E + [[RootEntries(L, E)]], -1, -1, -1, -1)
  {
    hide RootEntries, Index, SortedKeys, Flat;
    var L': Levels, E': Entries, h := L + [[root]], E + [[RootEntries(L, E)]], |L|;
    TwoInRoot(L, E);
    FlatOne(RootEntries(L, E));
    forall x, y | 0 <= x < |E'| && 0 <= y < |E'[x]| ensures SizeOK(E', x, y) {
      if x < h {
        assert SizeOK(E, x, y);
      }
    }
    forall x | 1 <= x < |L'| ensures IndexedAt(L', E', x) {
      if x < h {
        assert IndexedAt(L, E, x);
      }
    }
  }

  lemma TwoInRoot(L: Levels, E: Entries)
    requires Pure(L, E, |L|, -1, -1, -1) && |L[|L| - 1]| == 2
    requires forall e :: e in E[|L| - 1] ==> M <= 2 * |e|
    ensures |RootEntries(L, E)| == 2 && SortedKeys(RootEntries(L, E))
    ensures RootEntries(L, E) == Index(L[|L| - 1], E[|L| - 1])
  {
    hide Flat;
    var es := E[|L| - 1];
    assert es[0] in es && es[1] in es;
    KeysApart(es, 0, 0, 1, 0);
  }

  /** The leaf chain after a new root was put over c and t. */
  twostate lemma GrownChain(new L: Levels, new R: set<Node>, new R': set<Node>, new c: Node, new t: Node)
    requires old(allocated(L) && allocated(R)) && R <= R'
    requires |L| > 0 && L[|L| - 1] == [c, t] && c in R && t in R
    requires AllDistinct(L)
    requires forall n :: n in R && n != c && n != t ==> n.next == old(n.next) && n.last == old(n.last)
    requires if |L| == 1 then c.last == null && c.next == t && t.last == c && t.next == null
             else old(Linked(L[0], R))
    ensures Linked(L[0], R')
  {
    if |L| > 1 {
      assert forall n :: n in L[0] ==> n.level == 0;
      assert L[|L| - 1][0] == c && L[|L| - 1][1] == t;
      forall i | 0 <= i < |L[0]| ensures LinkedAt(L[0], i) {
        assert old(LinkedAt(L[0], i));
      }
    }
  }
  lemma TwoRoots(L: Levels, E: Entries, R: set<Node>, c: Node, t: Node)
    requires Core(L, E, R, |L|, -1, -1, -1) && L[|L| - 1] == [c, t]
    requires forall e :: e in E[|L| - 1] ==> M <= 2 * |e|
    ensures c != t && c in R && t in R
    ensures Aligned(L, E) && AllDistinct(L) && |L| == |E| && |E[|L| - 1]| == 2 && E[|L| - 1][0] != []
      && E[|L| - 1][1] != []
    ensures c.Holds(E[|L| - 1][0]) && t.Holds(E[|L| - 1][1]) && c.isLeaf == (|L| == 1)
    ensures c.level == |L| - 1
    ensures RootEntries(L, E) == [Entry(E[|L| - 1][0][0].k, Ptr(c)), Entry(E[|L| - 1][1][0].k, Ptr(t))]
    ensures !t.isRoot
  {
    AtNode(L, E, R, |L|, -1, -1, -1, |L| - 1, 0);
    AtNode(L, E, R, |L|, -1, -1, -1, |L| - 1, 1);
    assert Distinct(L[|L| - 1]);
    assert E[|L| - 1][0] in E[|L| - 1] && E[|L| - 1][1] in E[|L| - 1];
  }

  lemma GrownNodes(L: Levels, E: Entries, R: set<Node>, root: Node)
    requires Pure(L, E, |L|, -1, -1, -1) && |L[|L| - 1]| == 2 && root.level == |L| && root !in R
    requires NodesExcept(L, E, R, {L[|L| - 1][0], L[|L| - 1][1]})
    requires root.Holds(RootEntries(L, E)) && root.isRoot && !root.isLeaf
    requires L[|L| - 1][0].Holds(E[|L| - 1][0]) && L[|L| - 1][1].Holds(E[|L| - 1][1])
    requires forall n :: n in L[|L| - 1] ==> n in R && n.isLeaf == (|L| == 1) && !n.isRoot
    ensures NodesExcept(L + [[root]], E + [[RootEntries(L, E)]], R + {root}, {})
  {
    var L': Levels, E': Entries, R', h := L + [[root]], E + [[RootEntries(L, E)]], R + {root}, |L|;
    assert L'[h] == [root] && E'[h] == [RootEntries(L, E)];
    forall x, y | 0 <= x < |L'| && 0 <= y < |L'[x]| ensures NodeOK(L', E', R', x, y) {
      if x < h - 1 {
        assert NodeOK(L, E, R, x, y);
      }
    }
  }

  lemma GrownFathers(L: Levels, E: Entries, R: set<Node>, root: Node)
    requires Pure(L, E, |L|, -1, -1, -1) && |L[|L| - 1]| == 2
    requires FathersExcept(L, E, R, {L[|L| - 1][0], L[|L| - 1][1]})
    requires forall n :: n in L[|L| - 1] ==> n in R && n.father == root
    ensures FathersExcept(L + [[root]], E + [[RootEntries(L, E)]], R + {root}, {})
  {
    var L': Levels, E': Entries, R', h := L + [[root]], E + [[RootEntries(L, E)]], R + {root}, |L|;
    assert L'[h] == [root] && E'[h] == [RootEntries(L, E)];
    forall x: nat, y: nat, t: nat | 1 <= x < |L'| && 0 <= y < |L'[x]| && 0 <= t < |E'[x][y]|
      ensures ChildOK(L'[x][y], E'[x][y][t].v, R', {})
    {
      if x < h {
        assert ChildOK(L[x][y], E[x][y][t].v, R, {L[h - 1][0], L[h - 1][1]});
        assert IndexedAt(L, E, x);
        var p := ChildAt(L, E, x, y, t);
        assert L[x - 1][p].level == x - 1;
      }
    }
  }

  lemma NewTop(L: Levels, E: Entries, root: Node)
    requires Aligned(L, E)
    ensures Rooted(L + [[root]], root) && (L + [[root]])[0] == L[0] && (E + [[RootEntries(L, E)]])[0] == E[0]
  {
  }

  twostate lemma Grown(new L: Levels, new E: Entries, new R: set<Node>, new root: Node, new c: Node, new t: Node)
    requires old(allocated(L) && allocated(E) && allocated(R)) && !old(allocated(root))
    requires old(Core(L, E, R, |L|, -1, -1, -1)) && L[|L| - 1] == [c, t] && root.level == |L|
    requires forall e :: e in E[|L| - 1] ==> M <= 2 * |e|
    requires root.Holds(RootEntries(L, E)) && root.isRoot && !root.isLeaf
    requires c.father == t.father == root && !c.isRoot && !t.isRoot
    requires forall n :: n in R ==>
      n.isLeaf == old(n.isLeaf) && n.keyNum == old(n.keyNum) && n.key == old(n.key) && n.child == old(n.child)
    requires forall n :: n in R && n != c && n != t ==>
      n.isRoot == old(n.isRoot) && n.father == old(n.father) && n.next == old(n.next) && n.last == old(n.last)
    requires if |L| == 1 then c.last == null && c.next == t && t.last == c && t.next == null
             else old(Linked(L[0], R))
    ensures Core(L + [[root]], E + [[RootEntries(L, E)]], R + {root}, -1, -1, -1, -1)
    ensures Linked(L[0], R + {root})
  {
    assert old(NodeOK(L, E, R, |L| - 1, 0)) && old(NodeOK(L, E, R, |L| - 1, 1));
    KeepNodes(L, E, R, {c, t});
    KeepFathers(L, E, R, {c, t});
    GrowLevel(L, E, root);
    GrownNodes(L, E, R, root);
    GrownFathers(L, E, R, root);
    GrownChain(L, R, R + {root}, c, t);
  }

  lemma IndexSorted(ns: seq<Node>, es: seq<seq<Entry>>)
    requires |ns| == |es| && SortedKeys(Flat(es)) && forall e :: e in es ==> e != []
    ensures SortedKeys(Index(ns, es))
  {
    forall a, b | 0 <= a < b < |es| ensures FirstKey(es[a]) < FirstKey(es[b]) {
      assert es[a] in es && es[b] in es;
      KeysApart(es, a, 0, b, 0);
    }
  }

  /** After node (d, j) below the root was split, its new half is due in the father. */
  lemma SplitIsDue(L: Levels, E: Entries, d: nat, j: nat, f: nat, i: nat, t: Node)
    requires Pure(L, E, -1, -1, d, j) && d + 1 < |L| && j < |L[d]| && |E[d][j]| == M
    requires t !in L[d] && t.level == d
    requires f < |E[d + 1]| && i < |E[d + 1][f]| && Start(E[d + 1], f) + i == j
    ensures
      var L', E' := L[d := SplitNodes(L[d], j, t)], E[d := SplitEntries(E[d], j)];
      Aligned(L', E') && Due(L', E', d + 1, f, j + 1, Entry(E[d][j][M / 2].k, Ptr(t)))
  {
    var L': Levels, E': Entries, e := L[d := SplitNodes(L[d], j, t)], E[d := SplitEntries(E[d], j)],
      Entry(E[d][j][M / 2].k, Ptr(t));
    SplitLevel(L, E, d, j, t);
    SplitExtendsIndex(L[d], E[d], j, t);
    assert IndexedAt(L, E, d + 1);
    FlatIndex(E[d + 1], f, i);
    forall x | x in E'[d] ensures x != [] {
      var y :| 0 <= y < |E'[d]| && E'[d][y] == x;
      assert SizeOK(E', d, y);
    }
    IndexSorted(L'[d], E'[d]);
    if d + 2 < |L| {
      assert IndexedAt(L, E, d + 2);
      var es := E[d + 1];
      assert InsertAt(es[f], i + 1, e)[0] == es[f][0];
      assert Index(L[d + 1], es[f := InsertAt(es[f], i + 1, e)]) == Index(L[d + 1], es);
    }
  }

  /** Naming the father of a node that no one lists yet disturbs nothing. */
  twostate lemma FatherNamed(new L: Levels, new E: Entries, new R: set<Node>, new R': set<Node>, new a: int,
                             new t: Node)
    requires old(allocated(L) && allocated(E) && allocated(R')) && R <= R' && t !in R
    requires old(Core(L, E, R', a, -1, -1, -1) && FathersExcept(L, E, R, {}))
    requires forall n :: n in R' ==>
      && n.isLeaf == old(n.isLeaf) && n.isRoot == old(n.isRoot)
      && n.keyNum == old(n.keyNum) && n.key == old(n.key) && n.child == old(n.child)
    requires forall n :: n in R' && n != t ==> n.father == old(n.father)
    ensures Core(L, E, R', a, a + 1, -1, -1)
  {
    KeepNodes(L, E, R', {});
    KeepFathers(L, E, R, {});
    FathersGrow(L, E, R, R');
  }

  /** Where the node to be split stands. */
  lemma BeforeSplit(L: Levels, E: Entries, R: set<Node>, root: Node, d: nat, j: nat) returns (f: nat, i: nat)
    requires Core(L, E, R, -1, -1, d, j) && Rooted(L, root) && Linked(L[0], R)
    requires d < |L| && j < |L[d]| && |E[d][j]| == M
    ensures Pure(L, E, -1, -1, d, j) && |L| == |E| && |L[d]| == |E[d]|
    ensures |L[d][j].key| == M + 1 && L[d][j].key[M / 2] == E[d][j][M / 2].k
    ensures L[d][j].isRoot == (d == |L| - 1) && L[d][j] in R && (forall n :: n in L[d] ==> n in R)
    ensures d == |L| - 1 ==> L[d] == [L[d][j]] && j == 0
    ensures |L| == 1 ==> L[d][j].next == L[d][j].last == null
    ensures d < |L| - 1 ==>
      && f < |L[d + 1]| && f < |E[d + 1]| && i < |E[d + 1][f]| && Start(E[d + 1], f) + i == j
      && L[d][j].father == L[d + 1][f] && L[d + 1][f] in R
  {
    AtNode(L, E, R, -1, -1, d, j, d, j);
    forall y | 0 <= y < |L[d]| ensures L[d][y] in R {
      assert NodeOK(L, E, R, d, y);
    }
    f, i := 0, 0;
    if |L| == 1 {
      assert L[0] == [root] && j == 0;
      assert LinkedAt(L[0], 0);
    }
    if d < |L| - 1 {
      assert IndexedAt(L, E, d + 1);
      f, i := FatherOf(L, E, R, d, j);
      assert NodeOK(L, E, R, d + 1, f);
    }
  }

  lemma BeforeInsert(L: Levels, E: Entries, R: set<Node>, d: nat, j: nat, p: nat, e: Entry)
    requires Core(L, E, R, d, d + 1, -1, -1) && Due(L, E, d, j, p, e)
    ensures Aligned(L, E) && d < |L| == |E| && j < |L[d]| == |E[d]|
    ensures SizeOK(E, d, j) && SortedKeys(E[d][j]) && (d > 0 ==> E[d][j] != [])
    ensures L[d][j] in R && L[d][j].Holds(E[d][j]) && L[d][j].isLeaf == (d == 0)
    ensures Start(E[d], j) <= p <= Start(E[d], j) + |E[d][j]|
    ensures d > 0 ==> Start(E[d], j) < p
  {
    AtNode(L, E, R, d, d + 1, -1, -1, d, j);
    assert SizeOK(E, d, j);
  }

  /** The slot that Insert picks is the one the entry is due at. */
  lemma PickedSlot(L: Levels, E: Entries, d: nat, j: nat, p: nat, e: Entry, ins: int)
    requires Aligned(L, E) && Due(L, E, d, j, p, e) && SortedKeys(E[d][j])
    requires ins == if E[d][j] == [] || e.k < E[d][j][0].k then 0 else ins
    requires E[d][j] != [] && E[d][j][0].k <= e.k ==> 0 < ins <= |E[d][j]| && IsSlotFor(E[d][j], e.k, ins - 1)
    ensures ins == p - Start(E[d], j)
  {
    SlotOfKey(E[d], j, p, e, ins);
  }

  /** The children of node (d, j), in terms of the level below. */
  lemma ChildrenAre(L: Levels, E: Entries, R: set<Node>, xd: int, xj: int, d: nat, j: nat)
    requires Core(L, E, R, -1, -1, xd, xj) && 1 <= d < |L| && j < |L[d]|
    ensures |E| == |L| && |E[d]| == |L[d]| && Start(E[d], j) + |E[d][j]| <= |L[d - 1]|
    ensures forall i :: 0 <= i < |E[d][j]| ==> E[d][j][i].v == Ptr(L[d - 1][Start(E[d], j) + i])
    ensures forall n :: n in L[d - 1] ==> n in R && n.isLeaf == (d == 1)
    ensures Distinct(L[d - 1])
  {
    hide Flat;
    assert IndexedAt(L, E, d);
    StartNext(E[d], j);
    forall i | 0 <= i < |E[d][j]| ensures E[d][j][i].v == Ptr(L[d - 1][Start(E[d], j) + i]) {
      var p := ChildAt(L, E, d, j, i);
    }
    LevelNodes(L, E, R, xd, xj, d - 1);
  }

  lemma LevelNodes(L: Levels, E: Entries, R: set<Node>, xd: int, xj: int, d: nat)
    requires Core(L, E, R, -1, -1, xd, xj) && d < |L|
    ensures |E| == |L| && |E[d]| == |L[d]|
    ensures forall n :: n in L[d] ==> n in R && n.isLeaf == (d == 0)
    ensures Distinct(L[d])
  {
    var ns := L[d];
    forall y | 0 <= y < |ns| ensures ns[y] in R && ns[y].isLeaf == (d == 0) {
      assert NodeOK(L, E, R, d, y);
    }
  }

  lemma SizeRestored(L: Levels, E: Entries, R: set<Node>, d: nat, j: nat)
    requires Core(L, E, R, -1, -1, d, j) && d < |E| && j < |E[d]| && SizeOK(E, d, j)
    ensures Core(L, E, R, -1, -1, -1, -1)
  {
  }

  // ---- searching from the root ----

  /** Node j is the one of its level whose subtree key k belongs to. */
  ghost predicate RightNode(es: seq<seq<Entry>>, j: nat, k: int)
  {
    && j < |es|
    && (j > 0 ==> FirstKey(es[j]) <= k)
    && (j + 1 < |es| ==> k < FirstKey(es[j + 1]))
  }

  /** From the right node, the slot for k leads to the right node one level down. */
  lemma Descend(L: Levels, E: Entries, d: nat, j: nat, i: nat, k: int) returns (p: nat)
    requires Aligned(L, E) && 1 <= d < |L| && IndexedAt(L, E, d)
    requires RightNode(E[d], j, k) && i < |E[d][j]| && IsSlotFor(E[d][j], k, i)
    requires forall e :: e in E[d] ==> e != []
    ensures p < |L[d - 1]| && E[d][j][i].v == Ptr(L[d - 1][p])
    ensures RightNode(E[d - 1], p, k)
    ensures i == j == 0 ==> p == 0
  {
    p := ChildAt(L, E, d, j, i);
    FlatIndex(E[d], j, i);
    if i + 1 < |E[d][j]| {
      FlatIndex(E[d], j, i + 1);
    } else if j + 1 < |E[d]| {
      assert E[d][j + 1] in E[d];
      FlatIndex(E[d], j + 1, 0);
    } else {
      StartMonotone(E[d], j + 1, j + 1);
      assert E[d][..j + 1] == E[d];
    }
    if j == 0 {
      assert E[d][..0] == [];
    }
  }

  /** A key of the last level is in the right leaf if it is anywhere. */
  lemma InRightLeaf(es: seq<seq<Entry>>, j: nat, k: int, e: Entry)
    requires RightNode(es, j, k) && SortedKeys(Flat(es)) && e in Flat(es) && e.k == k
    requires |es| > 1 ==> forall x :: x in es ==> x != []
    ensures e in es[j]
  {
    var p :| 0 <= p < |Flat(es)| && Flat(es)[p] == e;
    var j', i' := Locate(es, p);
    assert forall y :: 0 <= y < |es| ==> es[y] in es;
    if j' < j {
      KeysApart(es, j', i', j, 0);
    } else if j < j' {
      if j' > j + 1 {
        KeysApart(es, j + 1, 0, j', i');
      } else if i' > 0 {
        KeysApart(es, j', 0, j', i');
      }
    }
  }

  lemma Nonempty(L: Levels, E: Entries, R: set<Node>, a: int, b: int, d: nat)
    requires Core(L, E, R, a, b, -1, -1) && d < |L| && |L| > 1
    ensures forall e :: e in E[d] ==> e != []
  {
    forall e | e in E[d] ensures e != [] {
      var j :| 0 <= j < |E[d]| && E[d][j] == e;
      assert SizeOK(E, d, j);
    }
  }

  // ---- lowering the separators on the leftmost path ----

  /** Level d + 1 is the index of level d, except that it gives key k to node p. */
  ghost predicate Promised(L: Levels, E: Entries, d: nat, p: nat, k: int)
  {
    d + 1 < |L| ==>
      d + 1 < |E| && p < |L[d]| == |E[d]| && Flat(E[d + 1]) == Index(L[d], E[d])[p := Entry(k, Ptr(L[d][p]))]
  }

  ghost function LowerFirst(E: Entries, d: nat, k: int): Entries
    requires d < |E| && |E[d]| > 0 && E[d][0] != []
  {
    E[d := E[d][0 := E[d][0][0 := Entry(k, E[d][0][0].v)]]]
  }

  lemma LowerLevel(L: Levels, E: Entries, d: nat, k: int)
    requires Pure(L, E, d + 1, -1, -1, -1) && 1 <= d < |L| && E[d][0] != []
    requires Promised(L, E, d, 0, k) && k < FirstKey(E[d][0])
    ensures Pure(L, LowerFirst(E, d, k), d, -1, -1, -1) && Promised(L, LowerFirst(E, d, k), d - 1, 0, k)
    ensures k < FirstKey(E[d - 1][0])
  {
    var E' := LowerFirst(E, d, k);
    FlatUpdate(E[d], 0, 0, Entry(k, E[d][0][0].v));
    FlatIndex(E[d], 0, 0);
    assert E[d][..0] == [];
    assert IndexedAt(L, E, d);
    forall x, y | 0 <= x < |E'| && 0 <= y < |E'[x]| ensures SizeOK(E', x, y) {
      assert SizeOK(E, x, y);
    }
    forall x | 1 <= x < |L| && x != d ensures IndexedAt(L, E', x) {
      if x != d + 1 {
        assert IndexedAt(L, E, x);
      } else {
        assert Index(L[d], E'[d]) == Index(L[d], E[d])[0 := Entry(k, Ptr(L[d][0]))];
      }
    }
  }

  /** The memory after slot 0 of the first node of level d was lowered to k. */
  twostate lemma Lowered(new L: Levels, new E: Entries, new R: set<Node>, new d: nat, new k: int)
    requires old(allocated(L) && allocated(E) && allocated(R))
    requires old(Core(L, E, R, d + 1, -1, -1, -1)) && 1 <= d < |L| && E[d][0] != []
    requires Promised(L, E, d, 0, k) && k < FirstKey(E[d][0])
    requires |old(L[d][0].key)| == M + 1 && L[d][0].key == old(L[d][0].key)[0 := k]
    requires forall n :: n in R && n != L[d][0] ==> n.key == old(n.key)
    requires forall n :: n in R ==>
      && n.isLeaf == old(n.isLeaf) && n.isRoot == old(n.isRoot) && n.father == old(n.father)
      && n.keyNum == old(n.keyNum) && n.child == old(n.child)
    ensures Core(L, LowerFirst(E, d, k), R, d, -1, -1, -1) && Promised(L, LowerFirst(E, d, k), d - 1, 0, k)
    ensures k < FirstKey(E[d - 1][0])
  {
    var x := E[d][0][0 := Entry(k, E[d][0][0].v)];
    LowerLevel(L, E, d, k);
    assert old(NodeOK(L, E, R, d, 0));
    forall t | 0 <= t < |x| ensures x[t].v.Ptr? && x[t].v.node in R && x[t].v.node.father == L[d][0] {
      assert old(ChildOK(L[d][0], E[d][0][t].v, R, {}));
    }
    Rewritten(L, E, R, d, 0, x, d + 1, -1, -1, -1, d, -1, -1);
  }

  lemma InsertSorted(s: seq<Entry>, p: nat, e: Entry)
    requires SortedKeys(s) && p <= |s|
    requires p > 0 ==> s[p - 1].k < e.k
    requires p < |s| ==> e.k < s[p].k
    ensures SortedKeys(InsertAt(s, p, e))
  {
  }

  /** A key that fits slot ins of its right leaf fits there in the whole sequence. */
  lemma FitsInLevel(es: seq<seq<Entry>>, j: nat, ins: nat, e: Entry)
    requires SortedKeys(Flat(es)) && RightNode(es, j, e.k) && ins <= |es[j]|
    requires |es| > 1 ==> forall x :: x in es ==> x != []
    requires ins == 0 ==> es[j] == [] || (j == 0 && e.k < es[j][0].k)
    requires ins > 0 ==> es[j][ins - 1].k < e.k && (ins < |es[j]| ==> e.k < es[j][ins].k)
    ensures Start(es, j) + ins <= |Flat(es)|
    ensures SortedKeys(InsertAt(Flat(es), Start(es, j) + ins, e))
  {
    StartNext(es, j);
    if ins > 0 {
      FlatIndex(es, j, ins - 1);
    } else {
      assert es[j] in es;
    }
    NextKeyAbove(es, j, ins, e.k);
    InsertSorted(Flat(es), Start(es, j) + ins, e);
  }

  lemma NextKeyAbove(es: seq<seq<Entry>>, j: nat, ins: nat, k: int)
    requires RightNode(es, j, k) && ins <= |es[j]|
    requires |es| > 1 ==> forall x :: x in es ==> x != []
    requires ins < |es[j]| ==> k < es[j][ins].k
    ensures Start(es, j) + ins <= |Flat(es)|
    ensures Start(es, j) + ins < |Flat(es)| ==> k < Flat(es)[Start(es, j) + ins].k
  {
    StartNext(es, j);
    if ins < |es[j]| {
      FlatIndex(es, j, ins);
    } else if j + 1 < |es| {
      assert es[j + 1] in es;
      FlatIndex(es, j + 1, 0);
    }
  }

  /** The index when one node's entries change. */
  lemma IndexPut(ns: seq<Node>, es: seq<seq<Entry>>, j: nat, e: seq<Entry>)
    requires |ns| == |es| && j < |es|
    ensures Index(ns, es[j := e]) == Index(ns, es)[j := Entry(FirstKey(e), Ptr(ns[j]))]
    ensures FirstKey(e) == FirstKey(es[j]) ==> Index(ns, es[j := e]) == Index(ns, es)
  {
  }

  /** Where a key that is absent from its leaf is due. */
  lemma DueInLeaf(L: Levels, E: Entries, R: set<Node>, j: nat, ins: nat, k: int, v: Slot, low: bool)
    requires Core(L, E, R, if low then 1 else -1, -1, -1, -1) && v.Rec? && (|L| == 1 ==> |L[0]| == 1)
    requires RightNode(E[0], j, k) && ins <= |E[0][j]|
    requires ins == 0 ==> E[0][j] == [] || k < E[0][j][0].k
    requires ins > 0 ==> E[0][j][ins - 1].k < k && (ins < |E[0][j]| ==> k < E[0][j][ins].k)
    requires if low then j == 0 && k < FirstKey(E[0][0]) && Promised(L, E, 0, 0, k)
             else |L| > 1 ==> FirstKey(E[0][j]) <= k
    ensures Start(E[0], j) + ins <= |Flat(E[0])|
    ensures Due(L, E, 0, j, Start(E[0], j) + ins, Entry(k, v))
    ensures SortedKeys(InsertAt(Flat(E[0]), Start(E[0], j) + ins, Entry(k, v)))
  {
    var e := Entry(k, v);
    if |L| > 1 {
      Nonempty(L, E, R, if low then 1 else -1, -1, 0);
      assert E[0][j] in E[0];
    }
    FitsInLevel(E[0], j, ins, e);
    if |L| > 1 {
      IndexPut(L[0], E[0], j, InsertAt(E[0][j], ins, e));
      if !low {
        assert IndexedAt(L, E, 1);
      }
    }
  }

  // ---- the sorted map ----

  /** The map that a sorted list of leaf entries stands for. */
  ghost function Table(s: seq<Entry>): map<int, Record>
  {
    if s == [] then map[] else Table(s[..|s| - 1])[s[|s| - 1].k := RecordOf(s[|s| - 1].v)]
  }

  function RecordOf(v: Slot): Record
  {
    if v.Rec? then v.rec else NULL
  }

  lemma {:induction false} TableLookup(s: seq<Entry>, k: int)
    requires SortedKeys(s)
    ensures k in Table(s) <==> exists i :: 0 <= i < |s| && s[i].k == k
    ensures forall i :: 0 <= i < |s| && s[i].k == k ==> k in Table(s) && Table(s)[k] == RecordOf(s[i].v)
  {
    if s != [] {
      TableLookup(s[..|s| - 1], k);
    }
  }

  lemma TableOfOne(s: seq<Entry>, k: int)
    requires SortedKeys(s) && Table(s).Keys == {k}
    ensures |s| == 1 && s[0].k == k
  {
    TableLookup(s, k);
    forall i | 0 <= i < |s| ensures s[i].k == k {
      TableLookup(s, s[i].k);
    }
    assert s != [];
    assert s[0].k == k && s[|s| - 1].k == k;
  }

  lemma {:induction false} TableInsert(s: seq<Entry>, p: nat, e: Entry)
    requires p <= |s| && SortedKeys(InsertAt(s, p, e))
    ensures Table(InsertAt(s, p, e)) == Table(s)[e.k := RecordOf(e.v)]
  {
    var t := InsertAt(s, p, e);
    if p == |s| {
      assert t[..|t| - 1] == s;
    } else {
      var n := |s| - 1;
      InsertedAt(s, p, e, p);
      InsertedAt(s, p, e, n + 1);
      assert t[..n + 1] == InsertAt(s[..n], p, e);
      TableInsert(s[..n], p, e);
    }
  }

  lemma TableAbsent(s: seq<Entry>, p: nat, e: Entry)
    requires p <= |s| && SortedKeys(InsertAt(s, p, e))
    ensures SortedKeys(s) && e.k !in Table(s)
  {
    hide InsertAt, Table;
    var t := InsertAt(s, p, e);
    InsertedAt(s, p, e, p);
    forall i | 0 <= i < |s| ensures s[i] == t[if i < p then i else i + 1] {
      InsertedAt(s, p, e, if i < p then i else i + 1);
    }
    TableLookup(s, e.k);
  }

  lemma TableRemove(s: seq<Entry>, p: nat)
    requires SortedKeys(s) && p < |s|
    ensures SortedKeys(RemoveAt(s, p)) && s[p].k in Table(s)
    ensures Table(RemoveAt(s, p)) == Table(s) - {s[p].k}
  {
    hide InsertAt, RemoveAt, Table;
    var t, e := RemoveAt(s, p), s[p];
    InsertRemoved(s, p);
    TableAbsent(t, p, e);
    TableInsert(t, p, e);
  }

  /** One step of the search, for a caller that knows only Core. */
  lemma Step(L: Levels, E: Entries, R: set<Node>, a: int, d: nat, j: nat, i: nat, k: int) returns (p: nat)
    requires Core(L, E, R, a, -1, -1, -1) && 1 <= d < |L| && a != d
    requires RightNode(E[d], j, k) && i < |E[d][j]| && IsSlotFor(E[d][j], k, i)
    ensures p < |L[d - 1]| == |E[d - 1]| && E[d][j][i].v == Ptr(L[d - 1][p])
    ensures RightNode(E[d - 1], p, k)
    ensures i == j == 0 ==> p == 0
    ensures FirstKey(E[d - 1][p]) == E[d][j][i].k
  {
    assert IndexedAt(L, E, d);
    Nonempty(L, E, R, a, -1, d);
    p := Descend(L, E, d, j, i, k);
    var p' := ChildAt(L, E, d, j, i);
    assert Distinct(L[d - 1]);
  }

  lemma AtRoot(L: Levels, E: Entries, R: set<Node>, root: Node, k: int)
    requires Core(L, E, R, -1, -1, -1, -1) && Rooted(L, root)
    ensures |L| == |E| > 0 && L[|L| - 1] == [root] && |E[|L| - 1]| == 1
    ensures RightNode(E[|L| - 1], 0, k)
  {
  }

  /** A leaf's own binary search decides whether the whole level has the key. */
  lemma KeyInLevel(es: seq<seq<Entry>>, j: nat, l: int, k: int)
    requires RightNode(es, j, k) && SortedKeys(Flat(es))
    requires |es| > 1 ==> forall x :: x in es ==> x != []
    requires 0 <= l && (es[j] != [] ==> l < |es[j]| && IsSlotFor(es[j], k, l))
    ensures k in Table(Flat(es)) <==> l < |es[j]| && es[j][l].k == k
    ensures l < |es[j]| && es[j][l].k == k ==> Table(Flat(es))[k] == RecordOf(es[j][l].v)
  {
    hide Flat, Table;
    var s := Flat(es);
    TableLookup(s, k);
    NodeSorted(es, j);
    if es[j] != [] {
      FlatIndex(es, j, l);
    }
    forall q | 0 <= q < |s| && s[q].k == k ensures l < |es[j]| && es[j][l].k == k {
      InRightLeaf(es, j, k, s[q]);
      var t :| 0 <= t < |es[j]| && es[j][t] == s[q];
    }
  }

  lemma LeafDecides(L: Levels, E: Entries, R: set<Node>, root: Node, a: int, j: nat, l: int, k: int)
    requires Core(L, E, R, a, -1, -1, -1) && Rooted(L, root) && |L[0]| > j && RightNode(E[0], j, k)
    requires 0 <= l && (E[0][j] != [] ==> l < |E[0][j]| && IsSlotFor(E[0][j], k, l))
    ensures SortedKeys(Flat(E[0]))
    ensures k in Table(Flat(E[0])) <==> l < |E[0][j]| && E[0][j][l].k == k
    ensures l < |E[0][j]| && E[0][j][l].k == k ==> Table(Flat(E[0]))[k] == RecordOf(E[0][j][l].v)
    ensures E[0][j] == [] <==> Flat(E[0]) == []
    ensures E[0][j] == [] ==> j == 0 && L == [[root]]
  {
    hide Table, SortedKeys, IsSlotFor;
    assert E[0][j] in E[0];
    if |L| > 1 {
      Nonempty(L, E, R, a, -1, 0);
      FlatIndex(E[0], j, 0);
    } else {
      assert E[0] == [E[0][0]];
      FlatOne(E[0][0]);
    }
    KeyInLevel(E[0], j, l, k);
  }

  lemma Weaken(L: Levels, E: Entries, R: set<Node>, a: int)
    requires Core(L, E, R, -1, -1, -1, -1)
    ensures Core(L, E, R, a, -1, -1, -1)
  {
  }

  lemma WeakenForLeaf(L: Levels, E: Entries, R: set<Node>, a: int)
    requires Core(L, E, R, a, -1, -1, -1) && a <= 1
    ensures Core(L, E, R, 0, 1, -1, -1)
  {
    forall d | 1 <= d < |L| && d != 1 ensures IndexedAt(L, E, d) {
    }
  }

  lemma LeafLacks(L: Levels, E: Entries, R: set<Node>, root: Node, j: nat, k: int)
    requires Core(L, E, R, -1, -1, -1, -1) && Rooted(L, root) && |L[0]| > j && RightNode(E[0], j, k)
    requires forall t :: 0 <= t < |E[0][j]| ==> E[0][j][t].k != k
    ensures k !in Table(Flat(E[0]))
  {
    var s := Flat(E[0]);
    TableLookup(s, k);
    if |L| > 1 {
      Nonempty(L, E, R, -1, -1, 0);
    }
    forall q | 0 <= q < |s| ensures s[q].k != k {
      if s[q].k == k {
        InRightLeaf(E[0], j, k, s[q]);
      }
    }
  }

  // ---- removing one entry from node j of a level ----

  /** Entry i of node (d, j) is to go: below the leaves' level it lists a node that no longer counts. */
  ghost predicate Gone(L: Levels, E: Entries, d: nat, j: nat, i: nat)
    requires Aligned(L, E)
  {
    && d < |L| && j < |L[d]| && i < |E[d][j]| && Start(E[d], j) + i < |Flat(E[d])|
    && (d > 0 ==> i > 0 && RemoveAt(Flat(E[d]), Start(E[d], j) + i) == Index(L[d - 1], E[d - 1]))
  }

  ghost function Without(E: Entries, d: nat, j: nat, i: nat): Entries
    requires d < |E| && j < |E[d]| && i < |E[d][j]|
  {
    E[d := E[d][j := RemoveAt(E[d][j], i)]]
  }

  lemma RemoveSorted(s: seq<Entry>, p: nat)
    requires SortedKeys(s) && p < |s|
    ensures SortedKeys(RemoveAt(s, p))
  {
  }

  lemma RemoveKeepsFirst(e: seq<Entry>, i: nat)
    requires i < |e|
    ensures i > 0 ==> FirstKey(RemoveAt(e, i)) == FirstKey(e)
    ensures forall t :: 0 <= t < |e| - 1 ==> RemoveAt(e, i)[t] == e[if t < i then t else t + 1]
  {
  }

  lemma RemoveLevel(L: Levels, E: Entries, d: nat, j: nat, i: nat)
    requires Pure(L, E, d, -1, -1, -1) && Gone(L, E, d, j, i)
    ensures Pure(L, Without(E, d, j, i), if i == 0 then d + 1 else -1, -1, d, j)
    ensures Flat(Without(E, d, j, i)[d]) == RemoveAt(Flat(E[d]), Start(E[d], j) + i)
    ensures i == 0 ==> Promised(L, Without(E, d, j, i), d, j, E[d][j][0].k)
  {
    hide RemoveAt, Flat;
    var E' := Without(E, d, j, i);
    FlatRemove(E[d], j, i);
    RemoveSorted(Flat(E[d]), Start(E[d], j) + i);
    RemoveKeepsFirst(E[d][j], i);
    forall x, y | 0 <= x < |E'| && 0 <= y < |E'[x]| && !(x == d && y == j) ensures SizeOK(E', x, y) {
      assert SizeOK(E, x, y);
    }
    if d + 1 < |L| {
      assert IndexedAt(L, E, d + 1);
      if i == 0 {
        assert Index(L[d], E[d]) == Index(L[d], E'[d])[j := Entry(E[d][j][0].k, Ptr(L[d][j]))];
      } else {
        assert Index(L[d], E[d]) == Index(L[d], E'[d]);
      }
    }
    forall x | 1 <= x < |L| && !(i == 0 && x == d + 1) ensures IndexedAt(L, E', x) {
      if x != d && x != d + 1 {
        assert IndexedAt(L, E, x);
      }
    }
  }

  // ---- correcting the key that level c + 1 gives to node p of level c ----

  ghost function WithKey(E: Entries, d: nat, f: nat, i: nat, k: int): Entries
    requires d < |E| && f < |E[d]| && i < |E[d][f]|
  {
    E[d := E[d][f := E[d][f][i := Entry(k, E[d][f][i].v)]]]
  }

  lemma SetKey(L: Levels, E: Entries, c: nat, p: nat, f: nat, i: nat, k: int, xd: int, xj: int)
    requires Pure(L, E, c + 1, -1, xd, xj) && c + 1 < |L| && p < |L[c]|
    requires Promised(L, E, c, p, k)
    requires f < |E[c + 1]| && i < |E[c + 1][f]| && Start(E[c + 1], f) + i == p
    requires forall e :: e in E[c] ==> e != []
    ensures Pure(L, WithKey(E, c + 1, f, i, FirstKey(E[c][p])), if i == 0 then c + 2 else -1, -1, xd, xj)
    ensures i == 0 ==> Promised(L, WithKey(E, c + 1, f, i, FirstKey(E[c][p])), c + 1, f, k)
    ensures E[c + 1][f][i].k == k
  {
    hide Flat;
    var nk := FirstKey(E[c][p]);
    var E': Entries := WithKey(E, c + 1, f, i, nk);
    FlatUpdate(E[c + 1], f, i, Entry(nk, E[c + 1][f][i].v));
    FlatIndex(E[c + 1], f, i);
    assert Flat(E'[c + 1]) == Index(L[c], E[c]);
    IndexSorted(L[c], E[c]);
    forall x, y | 0 <= x < |E'| && 0 <= y < |E'[x]| && !(x == xd && y == xj) ensures SizeOK(E', x, y) {
      assert SizeOK(E, x, y);
    }
    if c + 2 < |L| {
      assert IndexedAt(L, E, c + 2);
      if i == 0 {
        assert Index(L[c + 1], E[c + 1]) == Index(L[c + 1], E'[c + 1])[f := Entry(k, Ptr(L[c + 1][f]))];
      } else {
        assert Index(L[c + 1], E[c + 1]) == Index(L[c + 1], E'[c + 1]);
      }
    }
    forall x | 1 <= x < |L| && !(i == 0 && x == c + 2) ensures IndexedAt(L, E', x) {
      if x != c + 1 && x != c + 2 {
        assert IndexedAt(L, E, x);
      }
    }
  }

  /** The memory after entry i of node (d, j) was removed. */
  twostate lemma Removed(new L: Levels, new E: Entries, new R: set<Node>, new d: nat, new j: nat, new i: nat)
    requires old(allocated(L) && allocated(E) && allocated(R))
    requires old(Core(L, E, R, d, -1, -1, -1)) && Gone(L, E, d, j, i)
    requires L[d][j].Holds(RemoveAt(E[d][j], i))
    requires forall n :: n in R ==> n.isLeaf == old(n.isLeaf) && n.isRoot == old(n.isRoot) && n.father == old(n.father)
    requires forall n :: n in R && n != L[d][j] ==>
      n.keyNum == old(n.keyNum) && n.key == old(n.key) && n.child == old(n.child)
    ensures Core(L, Without(E, d, j, i), R, if i == 0 then d + 1 else -1, -1, d, j)
    ensures Flat(Without(E, d, j, i)[d]) == RemoveAt(Flat(E[d]), Start(E[d], j) + i)
    ensures i == 0 ==> Promised(L, Without(E, d, j, i), d, j, E[d][j][0].k)
  {
    var x := RemoveAt(E[d][j], i);
    RemoveLevel(L, E, d, j, i);
    RemoveKeepsFirst(E[d][j], i);
    forall t | 0 <= t < |x| && d > 0 ensures x[t].v.Ptr? && x[t].v.node in R && x[t].v.node.father == L[d][j] {
      assert old(ChildOK(L[d][j], E[d][j][if t < i then t else t + 1].v, R, {}));
    }
    Rewritten(L, E, R, d, j, x, d, -1, -1, -1, if i == 0 then d + 1 else -1, d, j);
  }

  /** The memory after the key that level c + 1 gives to node p of level c was corrected. */
  twostate lemma KeySet(new L: Levels, new E: Entries, new R: set<Node>, new c: nat, new p: nat, new f: nat,
                        new i: nat, new k: int, new xd: int, new xj: int)
    requires old(allocated(L) && allocated(E) && allocated(R))
    requires old(Core(L, E, R, c + 1, -1, xd, xj)) && c + 1 < |L| && p < |L[c]|
    requires Promised(L, E, c, p, k)
    requires f < |E[c + 1]| && i < |E[c + 1][f]| && Start(E[c + 1], f) + i == p
    requires forall e :: e in E[c] ==> e != []
    requires |old(L[c + 1][f].key)| == M + 1 && L[c + 1][f].key == old(L[c + 1][f].key)[i := FirstKey(E[c][p])]
    requires forall n :: n in R && n != L[c + 1][f] ==> n.key == old(n.key)
    requires forall n :: n in R ==>
      && n.isLeaf == old(n.isLeaf) && n.isRoot == old(n.isRoot) && n.father == old(n.father)
      && n.keyNum == old(n.keyNum) && n.child == old(n.child)
    ensures Core(L, WithKey(E, c + 1, f, i, FirstKey(E[c][p])), R, if i == 0 then c + 2 else -1, -1, xd, xj)
    ensures i == 0 ==> Promised(L, WithKey(E, c + 1, f, i, FirstKey(E[c][p])), c + 1, f, k)
  {
    var x := E[c + 1][f][i := Entry(FirstKey(E[c][p]), E[c + 1][f][i].v)];
    SetKey(L, E, c, p, f, i, k, xd, xj);
    assert old(NodeOK(L, E, R, c + 1, f));
    forall t | 0 <= t < |x| ensures x[t].v.Ptr? && x[t].v.node in R && x[t].v.node.father == L[c + 1][f] {
      assert old(ChildOK(L[c + 1][f], E[c + 1][f][t].v, R, {}));
    }
    Rewritten(L, E, R, c + 1, f, x, c + 1, -1, xd, xj, if i == 0 then c + 2 else -1, xd, xj);
  }

  // ---- evening out nodes j and j + 1 of a level ----

  ghost function Both(E: Entries, d: nat, j: nat): seq<Entry>
    requires d < |E| && j + 1 < |E[d]|
  {
    E[d][j] + E[d][j + 1]
  }

  ghost function Evened(E: Entries, d: nat, j: nat): Entries
    requires d < |E| && j + 1 < |E[d]|
  {
    var z := Both(E, d, j);
    E[d := E[d][j := z[..|z| / 2]][j + 1 := z[|z| / 2..]]]
  }

  lemma EvenLevel(L: Levels, E: Entries, d: nat, j: nat, xj: int)
    requires Pure(L, E, -1, -1, d, xj) && d + 1 < |L| && j + 1 < |L[d]| && (xj == j || xj == j + 1)
    requires E[d][j] != [] && E[d][j + 1] != [] && M <= |Both(E, d, j)| <= 2 * M - 2
    ensures Pure(L, Evened(E, d, j), d + 1, -1, -1, -1)
    ensures Flat(Evened(E, d, j)[d]) == Flat(E[d])
    ensures Promised(L, Evened(E, d, j), d, j + 1, FirstKey(E[d][j + 1]))
  {
    hide Flat;
    var z, E' := Both(E, d, j), Evened(E, d, j);
    var h := |z| / 2;
    assert z[..h] + z[h..] == z;
    FlatShare(E[d], j, z[..h], z[h..]);
    assert E'[d] == E[d][j := z[..h]][j + 1 := z[h..]];
    forall x, y | 0 <= x < |E'| && 0 <= y < |E'[x]| ensures SizeOK(E', x, y) {
      if x != d || (y != j && y != j + 1) {
        assert SizeOK(E, x, y);
      }
    }
    assert IndexedAt(L, E, d + 1);
    assert Index(L[d], E[d]) == Index(L[d], E'[d])[j + 1 := Entry(FirstKey(E[d][j + 1]), Ptr(L[d][j + 1]))];
    forall x | 1 <= x < |L| && x != d + 1 ensures IndexedAt(L, E', x) {
      assert IndexedAt(L, E, x);
    }
  }

  // ---- joining nodes j and j + 1 of a level ----

  ghost function Joined(E: Entries, d: nat, j: nat): Entries
    requires d < |E| && j + 1 < |E[d]|
  {
    E[d := RemoveAt(E[d][j := Both(E, d, j)], j + 1)]
  }

  ghost function Dropped(L: Levels, d: nat, j: nat): Levels
    requires d < |L| && j + 1 < |L[d]|
  {
    L[d := RemoveAt(L[d], j + 1)]
  }

  lemma DropDistinct(s: seq<Node>, p: nat)
    requires Distinct(s) && p < |s|
    ensures Distinct(RemoveAt(s, p)) && s[p] !in RemoveAt(s, p)
    ensures forall t :: 0 <= t < |s| - 1 ==> RemoveAt(s, p)[t] == s[if t < p then t else t + 1]
  {
  }

  lemma JoinedAt(es: seq<seq<Entry>>, j: nat, z: seq<Entry>)
    requires j + 1 < |es|
    ensures var r := RemoveAt(es[j := z], j + 1);
      forall t {:trigger r[t]} :: 0 <= t < |r| ==> r[t] == if t == j then z else es[if t <= j then t else t + 1]
  {
    var r := RemoveAt(es[j := z], j + 1);
    forall t | 0 <= t < |r| ensures r[t] == if t == j then z else es[if t <= j then t else t + 1] {
    }
  }

  lemma JoinLevel(L: Levels, E: Entries, d: nat, j: nat, xj: int)
    requires Pure(L, E, -1, -1, d, xj) && d + 1 < |L| && j + 1 < |L[d]| && (xj == j || xj == j + 1)
    requires E[d][j] != [] && M <= 2 * |Both(E, d, j)| && |Both(E, d, j)| < M
    ensures Pure(Dropped(L, d, j), Joined(E, d, j), d + 1, -1, -1, -1)
    ensures Flat(Joined(E, d, j)[d]) == Flat(E[d])
    ensures RemoveAt(Index(L[d], E[d]), j + 1) == Index(Dropped(L, d, j)[d], Joined(E, d, j)[d])
  {
    hide Flat, RemoveAt;
    var L': Levels, E': Entries, z := Dropped(L, d, j), Joined(E, d, j), Both(E, d, j);
    FlatJoin(E[d], j);
    DropDistinct(L[d], j + 1);
    JoinedAt(E[d], j, z);
    RemovedIndex(L[d], E[d], j);
    forall x | 0 <= x < |L'| ensures Distinct(L'[x]) && forall y :: 0 <= y < |L'[x]| ==> L'[x][y].level == x {
      assert Distinct(L[x]);
    }
    forall x, y | 0 <= x < |E'| && 0 <= y < |E'[x]| ensures SizeOK(E', x, y) {
      if x != d || y != j {
        assert SizeOK(E, x, if x == d && y > j then y + 1 else y);
      }
    }
    forall x | 1 <= x < |L'| && x != d + 1 ensures IndexedAt(L', E', x) {
      assert IndexedAt(L, E, x);
    }
  }

  lemma RemovedIndex(ns: seq<Node>, es: seq<seq<Entry>>, j: nat)
    requires |ns| == |es| && j + 1 < |es| && es[j] != []
    ensures RemoveAt(Index(ns, es), j + 1) == Index(RemoveAt(ns, j + 1), RemoveAt(es[j := es[j] + es[j + 1]], j + 1))
  {
  }

  /** What the loops of Resort and the merging loop need to know of two neighbours. */
  lemma Neighbours(L: Levels, E: Entries, R: set<Node>, d: nat, j: nat, xj: int)
    requires Core(L, E, R, -1, -1, d, xj) && d < |L| && j + 1 < |L[d]|
    ensures |E| == |L| && |E[d]| == |L[d]| && L[d][j] != L[d][j + 1] && L[d][j] in R && L[d][j + 1] in R
    ensures L[d][j].Holds(Both(E, d, j)[..|E[d][j]|]) && L[d][j + 1].Holds(Both(E, d, j)[|E[d][j]|..])
    ensures L[d][j].isLeaf == L[d][j + 1].isLeaf == (d == 0)
    ensures Children(Both(E, d, j)) <= R
    ensures d > 0 ==>
      && Apart(Both(E, d, j)) && Owned(Both(E, d, j), 0, |E[d][j]|, L[d][j])
      && Owned(Both(E, d, j), |E[d][j]|, |Both(E, d, j)|, L[d][j + 1])
  {
    AtNode(L, E, R, -1, -1, d, xj, d, j);
    AtNode(L, E, R, -1, -1, d, xj, d, j + 1);
    assert Distinct(L[d]);
    var z, m := Both(E, d, j), |E[d][j]|;
    assert z[..m] == E[d][j] && z[m..] == E[d][j + 1];
    forall p, q | d > 0 && 0 <= p < q < |z| ensures z[p].v != z[q].v {
      if z[p].v == z[q].v {
        assert IndexedAt(L, E, d);
        SameChild(L, E, d, if p < m then j
            else j + 1, if p < m then p else p - m, d, if q < m then j else j + 1, if q < m then q else q - m);
      }
    }
  }

  /** The children of two neighbours are listed nowhere else. */
  lemma OthersChild(L: Levels, E: Entries, d: nat, j: nat, xj: int, x: nat, y: nat, i: nat)
    requires Pure(L, E, -1, -1, d, xj) && d < |L| && j + 1 < |L[d]|
    requires 1 <= x < |L| && y < |L[x]| && i < |E[x][y]| && E[x][y][i].v.Ptr?
    requires E[x][y][i].v.node in Children(Both(E, d, j))
    ensures x == d && (y == j || y == j + 1)
  {
    var z, m := Both(E, d, j), |E[d][j]|;
    var q :| 0 <= q < |z| && z[q].v.Ptr? && z[q].v.node == E[x][y][i].v.node;
    var y', i' := if q < m then j else j + 1, if q < m then q else q - m;
    assert E[d][y'][i'] == z[q];
    assert d > 0;
    assert IndexedAt(L, E, x) && IndexedAt(L, E, d);
    SameChild(L, E, x, y, i, d, y', i');
  }

  /** The memory after nodes j and j + 1 of level d were evened out. */
  twostate lemma EvenedOut(new L: Levels, new E: Entries, new R: set<Node>, new d: nat, new j: nat, new xj: int)
    requires old(allocated(L) && allocated(E) && allocated(R))
    requires old(Core(L, E, R, -1, -1, d, xj)) && d + 1 < |L| && j + 1 < |L[d]| && (xj == j || xj == j + 1)
    requires E[d][j] != [] && E[d][j + 1] != [] && M <= |Both(E, d, j)| <= 2 * M - 2
    requires var z := Both(E, d, j);
      && L[d][j].Holds(z[..|z| / 2]) && L[d][j + 1].Holds(z[|z| / 2..])
      && (d > 0 ==> Owned(z, 0, |z| / 2, L[d][j]) && Owned(z, |z| / 2, |z|, L[d][j + 1]))
    requires forall n :: n in R ==> n.isLeaf == old(n.isLeaf) && n.isRoot == old(n.isRoot)
    requires forall n :: n in R && n != L[d][j] && n != L[d][j + 1] ==>
      n.keyNum == old(n.keyNum) && n.key == old(n.key) && n.child == old(n.child)
    requires forall n :: n in R && n !in Children(Both(E, d, j)) ==> n.father == old(n.father)
    ensures Core(L, Evened(E, d, j), R, d + 1, -1, -1, -1) && Flat(Evened(E, d, j)[d]) == Flat(E[d])
    ensures Promised(L, Evened(E, d, j), d, j + 1, FirstKey(E[d][j + 1]))
  {
    EvenLevel(L, E, d, j, xj);
    KeepNodes(L, E, R, {L[d][j], L[d][j + 1]});
    KeepFathers(L, E, R, Children(Both(E, d, j)));
    EvenedNodes(L, E, R, d, j, xj);
    EvenedFathers(L, E, R, d, j, xj);
  }

  lemma EvenedNodes(L: Levels, E: Entries, R: set<Node>, d: nat, j: nat, xj: int)
    requires Pure(L, E, -1, -1, d, xj) && d < |L| && j + 1 < |L[d]|
    requires NodesExcept(L, E, R, {L[d][j], L[d][j + 1]})
    requires var z := Both(E, d, j); L[d][j].Holds(z[..|z| / 2]) && L[d][j + 1].Holds(z[|z| / 2..])
    requires forall t :: t == L[d][j] || t == L[d][j + 1] ==>
      t in R && t.isLeaf == (d == 0) && t.isRoot == (t == L[|L| - 1][0])
    ensures NodesExcept(L, Evened(E, d, j), R, {})
  {
    var E': Entries := Evened(E, d, j);
    forall x, y | 0 <= x < |L| && 0 <= y < |L[x]| ensures NodeOK(L, E', R, x, y) {
      if x != d || (y != j && y != j + 1) {
        assert Distinct(L[x]);
        assert NodeOK(L, E, R, x, y);
      }
    }
  }

  lemma EvenedFathers(L: Levels, E: Entries, R: set<Node>, d: nat, j: nat, xj: int)
    requires Pure(L, E, -1, -1, d, xj) && d < |L| && j + 1 < |L[d]|
    requires FathersExcept(L, E, R, Children(Both(E, d, j)))
    requires var z := Both(E, d, j);
      d > 0 ==> Owned(z, 0, |z| / 2, L[d][j]) && Owned(z, |z| / 2, |z|, L[d][j + 1])
    ensures FathersExcept(L, Evened(E, d, j), R, {})
  {
    var E': Entries, z := Evened(E, d, j), Both(E, d, j);
    var m, h := |E[d][j]|, |z| / 2;
    forall x: nat, y: nat, t: nat | 1 <= x < |L| && 0 <= y < |L[x]| && 0 <= t < |E'[x][y]|
      ensures ChildOK(L[x][y], E'[x][y][t].v, R, {})
    {
      if x == d && (y == j || y == j + 1) {
        var q := if y == j then t else t + h;
        assert E'[x][y][t] == z[q];
        assert ChildOK(L[d][if q < m then j else j + 1],
            E[d][if q < m then j else j + 1][if q < m then q else q - m].v, R, Children(z));
      } else {
        assert ChildOK(L[x][y], E[x][y][t].v, R, Children(z));
        if E[x][y][t].v.node in Children(z) {
          OthersChild(L, E, d, j, xj, x, y, t);
        }
      }
    }
  }

  /** The memory after node j of level d took over node j + 1. */
  twostate lemma JoinedUp(new L: Levels, new E: Entries, new R: set<Node>, new d: nat, new j: nat, new xj: int)
    requires old(allocated(L) && allocated(E) && allocated(R))
    requires old(Core(L, E, R, -1, -1, d, xj)) && d + 1 < |L| && j + 1 < |L[d]| && (xj == j || xj == j + 1)
    requires E[d][j] != [] && M <= 2 * |Both(E, d, j)| && |Both(E, d, j)| < M
    requires L[d][j].Holds(Both(E, d, j)) && (d > 0 ==> Owned(Both(E, d, j), 0, |Both(E, d, j)|, L[d][j]))
    requires forall n :: n in R ==> n.isLeaf == old(n.isLeaf) && n.isRoot == old(n.isRoot)
    requires forall n :: n in R && n != L[d][j] ==>
      n.keyNum == old(n.keyNum) && n.key == old(n.key) && n.child == old(n.child)
    requires forall n :: n in R && n !in Children(Both(E, d, j)) ==> n.father == old(n.father)
    ensures Core(Dropped(L, d, j), Joined(E, d, j), R, d + 1, -1, -1, -1)
    ensures Flat(Joined(E, d, j)[d]) == Flat(E[d])
    ensures RemoveAt(Index(L[d], E[d]), j + 1) == Index(Dropped(L, d, j)[d], Joined(E, d, j)[d])
  {
    JoinLevel(L, E, d, j, xj);
    KeepNodes(L, E, R, {L[d][j]});
    KeepFathers(L, E, R, Children(Both(E, d, j)));
    assert old(NodeOK(L, E, R, d, j));
    JoinedNodes(L, E, R, d, j, xj);
    JoinedFathers(L, E, R, d, j, xj);
  }

  lemma JoinedNodes(L: Levels, E: Entries, R: set<Node>, d: nat, j: nat, xj: int)
    requires Pure(L, E, -1, -1, d, xj) && d + 1 < |L| && j + 1 < |L[d]|
    requires NodesExcept(L, E, R, {L[d][j]})
    requires L[d][j] in R && L[d][j].Holds(Both(E, d, j)) && L[d][j].isLeaf == (d == 0)
    requires L[d][j].isRoot == (L[d][j] == L[|L| - 1][0])
    ensures |L[d]| == |E[d]| && Aligned(Dropped(L, d, j), Joined(E, d, j))
    ensures NodesExcept(Dropped(L, d, j), Joined(E, d, j), R, {})
  {
    hide RemoveAt;
    var L': Levels, E': Entries := Dropped(L, d, j), Joined(E, d, j);
    DropDistinct(L[d], j + 1);
    JoinedAt(E[d], j, Both(E, d, j));
    assert L'[|L'| - 1] == L[|L| - 1];
    forall x, y | 0 <= x < |L'| && 0 <= y < |L'[x]| ensures NodeOK(L', E', R, x, y) {
      if x != d || y != j {
        assert Distinct(L[x]);
        assert NodeOK(L, E, R, x, if x == d && y > j then y + 1 else y);
      }
    }
  }

  lemma JoinedFathers(L: Levels, E: Entries, R: set<Node>, d: nat, j: nat, xj: int)
    requires Pure(L, E, -1, -1, d, xj) && d + 1 < |L| && j + 1 < |L[d]|
    requires FathersExcept(L, E, R, Children(Both(E, d, j)))
    requires d > 0 ==> Owned(Both(E, d, j), 0, |Both(E, d, j)|, L[d][j])
    ensures |L[d]| == |E[d]| && Aligned(Dropped(L, d, j), Joined(E, d, j))
    ensures FathersExcept(Dropped(L, d, j), Joined(E, d, j), R, {})
  {
    hide RemoveAt;
    var L': Levels, E': Entries, z, m := Dropped(L, d, j), Joined(E, d, j), Both(E, d, j), |E[d][j]|;
    DropDistinct(L[d], j + 1);
    JoinedAt(E[d], j, z);
    forall x: nat, y: nat, t: nat | 1 <= x < |L'| && 0 <= y < |L'[x]| && 0 <= t < |E'[x][y]|
      ensures ChildOK(L'[x][y], E'[x][y][t].v, R, {})
    {
      if x == d && y == j {
        assert E'[x][y][t] == z[t];
        assert ChildOK(L[d][if t < m then j else j + 1],
            E[d][if t < m then j else j + 1][if t < m then t else t - m].v, R, Children(z));
      } else {
        var y0 := if x == d && y > j then y + 1 else y;
        assert ChildOK(L[x][y0], E[x][y0][t].v, R, Children(z));
        if E[x][y0][t].v.node in Children(z) {
          OthersChild(L, E, d, j, xj, x, y0, t);
        }
      }
    }
  }

  // ---- a root left with one child gives way to it ----

  lemma ShrinkLevel(L: Levels, E: Entries)
    requires |L| > 1 && Pure(L, E, -1, -1, |L| - 1, 0) && |L[|L| - 1]| == 1 && |E[|L| - 1][0]| == 1
    ensures Pure(L[..|L| - 1], E[..|L| - 1], -1, -1, -1, -1)
    ensures |L[|L| - 2]| == 1 && E[|L| - 1][0][0].v == Ptr(L[|L| - 2][0])
  {
    var h := |L| - 1;
    var L': Levels, E': Entries := L[..h], E[..h];
    assert IndexedAt(L, E, h);
    FlatOne(E[h][0]);
    assert E[h] == [E[h][0]];
    var p := ChildAt(L, E, h, 0, 0);
    forall x, y | 0 <= x < |E'| && 0 <= y < |E'[x]| ensures SizeOK(E', x, y) {
      assert SizeOK(E, x, y);
    }
    forall x | 1 <= x < |L'| ensures IndexedAt(L', E', x) {
      assert IndexedAt(L, E, x);
    }
  }

  /** The memory after the only child of the root became the root. */
  twostate lemma Shrunk(new L: Levels, new E: Entries, new R: set<Node>)
    requires old(allocated(L) && allocated(E) && allocated(R))
    requires |L| > 1 && old(Core(L, E, R, -1, -1, |L| - 1, 0)) && |L[|L| - 1]| == 1 && |E[|L| - 1][0]| == 1
    requires |L[|L| - 2]| > 0 && L[|L| - 2][0].isRoot
    requires forall n :: n in R ==>
      && n.isLeaf == old(n.isLeaf) && n.father == old(n.father)
      && n.keyNum == old(n.keyNum) && n.key == old(n.key) && n.child == old(n.child)
    requires forall n :: n in R && n != L[|L| - 2][0] ==> n.isRoot == old(n.isRoot)
    ensures Core(L[..|L| - 1], E[..|L| - 1], R, -1, -1, -1, -1) && Rooted(L[..|L| - 1], L[|L| - 2][0])
  {
    var h := |L| - 1;
    var L': Levels, E': Entries := L[..h], E[..h];
    ShrinkLevel(L, E);
    KeepFathers(L, E, R, {});
    forall x, y | 0 <= x < |L'| && 0 <= y < |L'[x]| ensures NodeOK(L', E', R, x, y) {
      assert old(NodeOK(L, E, R, x, y));
    }
    forall x: nat, y: nat, t: nat | 1 <= x < |L'| && 0 <= y < |L'[x]| && 0 <= t < |E'[x][y]|
      ensures ChildOK(L'[x][y], E'[x][y][t].v, R, {})
    {
      assert ChildOK(L[x][y], E[x][y][t].v, R, {});
    }
  }

  /** The father of node p of level c, while level c + 1 gives that node the key k. */
  lemma FatherWhilePromised(L: Levels, E: Entries, R: set<Node>, a: int, xd: int, xj: int, c: nat, p: nat, k: int)
                            returns (f: nat, i: nat)
    requires Core(L, E, R, a, -1, xd, xj) && c + 1 < |L| && p < |L[c]| && Promised(L, E, c, p, k)
    ensures |E| == |L| && f < |L[c + 1]| == |E[c + 1]| && i < |E[c + 1][f]| && Start(E[c + 1], f) + i == p
    ensures E[c + 1][f][i] == Entry(k, Ptr(L[c][p])) && L[c][p].father == L[c + 1][f]
    ensures L[c + 1][f].Holds(E[c + 1][f]) && L[c + 1][f] in R && SortedKeys(E[c + 1][f]) && E[c + 1][f] != []
    ensures L[c + 1][f].child[0] == Ptr(L[c][p]) <==> i == 0
  {
    AtNode(L, E, R, a, -1, xd, xj, c, p);
    f, i := Locate(E[c + 1], p);
    AtNode(L, E, R, a, -1, xd, xj, c + 1, f);
    if i > 0 {
      FlatIndex(E[c + 1], f, 0);
      assert Distinct(L[c]);
    }
  }

  lemma SlotOfExactKey(e: seq<Entry>, k: int, i: nat, l: int)
    requires SortedKeys(e) && i < |e| && e[i].k == k && 0 <= l < |e| && IsSlotFor(e, k, l)
    ensures l == i
  {
  }

  lemma NoLevelLeft(L: Levels, E: Entries, R: set<Node>, a: int, xd: int, xj: int)
    requires Core(L, E, R, a, -1, xd, xj) && a >= |L|
    ensures Core(L, E, R, -1, -1, xd, xj)
  {
  }

  lemma NonemptyBut(L: Levels, E: Entries, R: set<Node>, a: int, xd: int, xj: int, d: nat)
    requires Core(L, E, R, a, -1, xd, xj) && d < |L| && |L| > 1
    requires d == xd && 0 <= xj < |E[d]| ==> E[d][xj] != []
    ensures forall e :: e in E[d] ==> e != []
  {
    forall e | e in E[d] ensures e != [] {
      var j :| 0 <= j < |E[d]| && E[d][j] == e;
      if d != xd || j != xj {
        assert SizeOK(E, d, j);
      }
    }
  }

  /** Slot i of node (c + 1, f) lists node p of level c, with key k. */
  ghost predicate Under(L: Levels, E: Entries, c: nat, p: nat, f: nat, i: nat, k: int)
    reads (if c + 1 < |L| && p < |L[c]| then {L[c][p]} else {})`father
    reads (if c + 1 < |L| && f < |L[c + 1]| then {L[c + 1][f]} else {})
  {
    && c + 1 < |L| == |E| && p < |L[c]| == |E[c]| && f < |L[c + 1]| == |E[c + 1]| && i < |E[c + 1][f]|
    && Start(E[c + 1], f) + i == p
    && E[c + 1][f][i] == Entry(k, Ptr(L[c][p])) && L[c][p].father == L[c + 1][f]
    && L[c + 1][f].Holds(E[c + 1][f]) && SortedKeys(E[c + 1][f])
    && L[c + 1][f].child[0].Ptr? && (L[c + 1][f].child[0].node == L[c][p] <==> i == 0)
    && L[c + 1][f].level == c + 1
  }

  /** Everything the loop of Delete over separators needs at node p of level c. */
  lemma PathStep(L: Levels, E: Entries, R: set<Node>, root: Node, c: nat, p: nat, k: int, xd: int, xj: int)
                 returns (f: nat, i: nat)
    requires Core(L, E, R, c + 1, -1, xd, xj) && Rooted(L, root) && c < |L| && p < |L[c]| && |L| > 1
    requires Promised(L, E, c, p, k)
    requires c == xd && 0 <= xj < |E[c]| ==> E[c][xj] != []
    ensures |E| == |L| && |E[c]| == |L[c]| && L[c][p] in R && L[c][p].level == c
    ensures L[c][p].isRoot <==> c + 1 == |L|
    ensures c + 1 < |L| ==> Under(L, E, c, p, f, i, k) && L[c + 1][f] in R
    ensures forall e :: e in E[c] ==> e != []
    ensures c + 1 == |L| ==> Core(L, E, R, -1, -1, xd, xj)
  {
    AtNode(L, E, R, c + 1, -1, xd, xj, c, p);
    NonemptyBut(L, E, R, c + 1, xd, xj, c);
    f, i := 0, 0;
    if c + 1 < |L| {
      f, i := FatherWhilePromised(L, E, R, c + 1, xd, xj, c, p, k);
      AtNode(L, E, R, c + 1, -1, xd, xj, c + 1, f);
    } else {
      NoLevelLeft(L, E, R, c + 1, xd, xj);
    }
  }

  lemma BeforeDelete(L: Levels, E: Entries, R: set<Node>, root: Node, d: nat, j: nat, i: nat)
    requires Core(L, E, R, d, -1, -1, -1) && Rooted(L, root) && Gone(L, E, d, j, i)
    ensures d < |L| == |E| && j < |L[d]| == |E[d]| && SizeOK(E, d, j) && SortedKeys(E[d][j])
    ensures i < |E[d][j]| && (d > 0 ==> i > 0)
    ensures L[d][j] in R && L[d][j].Holds(E[d][j]) && L[d][j].isLeaf == (d == 0) && L[d][j].isRoot == (d == |L| - 1)
    ensures d == |L| - 1 ==> j == 0
    ensures d > 0 ==> forall t :: 0 <= t < |E[d][j]| ==> E[d][j][t].v.Ptr? && E[d][j][t].v.node in R
  {
    AtNode(L, E, R, d, -1, -1, -1, d, j);
    if d == |L| - 1 {
      assert L[d] == [root];
    }
  }

  /** After the removal, the first child is a leaf exactly at level 1. */
  lemma FirstChildLevel(L: Levels, E: Entries, R: set<Node>, d: nat, j: nat)
    requires Core(L, E, R, -1, -1, d, j) && 1 <= d < |L| && j < |L[d]| && E[d][j] != []
    ensures E[d][j][0].v.Ptr? && E[d][j][0].v.node.isLeaf == (d == 1)
  {
    ChildrenAre(L, E, R, d, j, d, j);
  }

  /** A removed entry leaves a node that is at most one short. */
  lemma AfterRemoval(L: Levels, E: Entries, R: set<Node>, d: nat, j: nat)
    requires Core(L, E, R, -1, -1, d, j) && d < |E| && j < |E[d]|
    requires |E[d][j]| < M && M <= 2 * |E[d][j]|
    ensures Core(L, E, R, -1, -1, -1, -1)
  {
  }

  /** What Redistribute needs to know of the node it repairs. */
  lemma BeforeRepair(L: Levels, E: Entries, R: set<Node>, root: Node, d: nat, j: nat) returns (f: nat, i: nat)
    requires Core(L, E, R, -1, -1, d, j) && Rooted(L, root) && d < |L| && j < |L[d]|
    ensures |L| == |E| && |L[d]| == |E[d]| && L[d][j].Holds(E[d][j]) && L[d][j].isRoot == (d == |L| - 1)
    ensures L[d][j].isLeaf == (d == 0) && L[d][j] in R
    ensures d == |L| - 1 ==> j == 0 && L[|L| - 1] == [L[d][j]]
    ensures d < |L| - 1 ==>
      && f < |L[d + 1]| == |E[d + 1]| && i < |E[d + 1][f]| && Start(E[d + 1], f) + i == j
      && L[d][j].father == L[d + 1][f] && L[d + 1][f] in R && L[d + 1][f].level == d + 1
      && L[d + 1][f].Holds(E[d + 1][f]) && SortedKeys(E[d + 1][f]) && 2 <= |E[d + 1][f]|
      && E[d + 1][f][i] == Entry(FirstKey(E[d][j]), Ptr(L[d][j]))
  {
    AtNode(L, E, R, -1, -1, d, j, d, j);
    f, i := 0, 0;
    if d < |L| - 1 {
      assert IndexedAt(L, E, d + 1);
      f, i := FatherOf(L, E, R, d, j);
      AtNode(L, E, R, -1, -1, d, j, d + 1, f);
    } else {
      assert L[d] == [root];
    }
  }

  /** The node that slot s of the father lists is the brother at the same distance. */
  lemma Brother(L: Levels, E: Entries, R: set<Node>, d: nat, j: nat, f: nat, i: nat, s: nat)
    requires Core(L, E, R, -1, -1, d, j) && d + 1 < |L| && j < |L[d]|
    requires f < |L[d + 1]| && i < |E[d + 1][f]| && Start(E[d + 1], f) + i == j && s < |E[d + 1][f]| && s != i
    ensures |L| == |E| && |L[d]| == |E[d]|
    ensures 0 <= j + s - i < |L[d]| && L[d + 1][f].child[s] == Ptr(L[d][j + s - i]) && SizeOK(E, d, j + s - i)
    ensures E[d + 1][f][s] == Entry(FirstKey(E[d][j + s - i]), Ptr(L[d][j + s - i]))
    ensures L[d][j + s - i] in R && L[d][j + s - i].Holds(E[d][j + s - i]) && L[d][j + s - i].level == d
  {
    assert IndexedAt(L, E, d + 1);
    var p := ChildAt(L, E, d + 1, f, s);
    AtNode(L, E, R, -1, -1, d, j, d + 1, f);
    AtNode(L, E, R, -1, -1, d, j, d, p);
  }

  /** Once nodes j and j + 1 of level d are joined, slot s of the father, which lists the second, is to go. */
  lemma JoinIsGone(L: Levels, E: Entries, R: set<Node>, d: nat, j: nat, xj: int, f: nat, s: nat)
    requires Core(L, E, R, -1, -1, d, xj) && d + 1 < |L| && j + 1 < |L[d]| && (xj == j || xj == j + 1)
    requires E[d][j] != [] && M <= 2 * |Both(E, d, j)| && |Both(E, d, j)| < M
    requires f < |L[d + 1]| && 0 < s < |E[d + 1][f]| && Start(E[d + 1], f) + s == j + 1
    ensures Gone(Dropped(L, d, j), Joined(E, d, j), d + 1, f, s)
    ensures InsertAt(Dropped(L, d, j)[d], j + 1, L[d][j + 1]) == L[d] && Distinct(L[d])
  {
    hide RemoveAt, InsertAt, Flat;
    JoinLevel(L, E, d, j, xj);
    assert IndexedAt(L, E, d + 1);
    InsertRemoved(L[d], j + 1);
  }

  /** Deleting record i of leaf j, as an operation on the map. */
  lemma LeafEntry(L: Levels, E: Entries, R: set<Node>, j: nat, i: nat)
    requires Core(L, E, R, -1, -1, -1, -1) && j < |L[0]| && i < |E[0][j]|
    ensures Gone(L, E, 0, j, i)
    ensures Start(E[0], j) + i < |Flat(E[0])| && Flat(E[0])[Start(E[0], j) + i] == E[0][j][i]
    ensures SortedKeys(Flat(E[0])) && |E[0][j]| <= |Flat(E[0])| && |E| == |L|
    ensures |Flat(E[0])| == 1 ==> |L| == 1
    ensures Core(L, E, R, 0, -1, -1, -1)
    ensures Table(RemoveAt(Flat(E[0]), Start(E[0], j) + i)) == Table(Flat(E[0])) - {E[0][j][i].k}
  {
    hide Table, RemoveAt, Flat;
    FlatIndex(E[0], j, i);
    assert |L| > 1 ==> SizeOK(E, 0, j);
    TableRemove(Flat(E[0]), Start(E[0], j) + i);
  }

  // ---- reading along the leaves ----

  ghost predicate AllRecords(s: seq<Entry>)
  {
    forall i :: 0 <= i < |s| ==> s[i].v.Rec?
  }

  /** What a reader standing on leaf j can rely on. */
  lemma OnLeaf(L: Levels, E: Entries, R: set<Node>, root: Node, j: nat)
    requires Core(L, E, R, -1, -1, -1, -1) && Rooted(L, root) && Linked(L[0], R) && j < |L[0]|
    ensures |L| == |E| && |L[0]| == |E[0]| && L[0][j] in R && L[0][j].isLeaf
    ensures L[0][j].Holds(E[0][j])
    ensures L[0][j].next == if j + 1 < |L[0]| then L[0][j + 1] else null
    ensures Start(E[0], j) + |E[0][j]| == Start(E[0], j + 1) <= |Flat(E[0])|
    ensures j + 1 == |L[0]| ==> Start(E[0], j + 1) == |Flat(E[0])|
    ensures j == 0 ==> Start(E[0], j) == 0
    ensures forall i :: 0 <= i < |E[0][j]| ==> Flat(E[0])[Start(E[0], j) + i] == E[0][j][i]
    ensures E[0][j] == [] ==> Flat(E[0]) == [] && |L[0]| == 1
    ensures SortedKeys(Flat(E[0])) && AllRecords(Flat(E[0]))
  {
    AtNode(L, E, R, -1, -1, -1, -1, 0, j);
    assert LinkedAt(L[0], j);
    StartNext(E[0], j);
    forall i | 0 <= i < |E[0][j]| ensures Flat(E[0])[Start(E[0], j) + i] == E[0][j][i] {
      FlatIndex(E[0], j, i);
    }
    if E[0][j] == [] {
      assert L[0] == [root] && E[0] == [E[0][0]];
      FlatOne(E[0][0]);
    }
    forall q | 0 <= q < |Flat(E[0])| ensures Flat(E[0])[q].v.Rec? {
      var y, t := Locate(E[0], q);
    }
  }

  /** The entries with l <= key <= r, in order. */
  ghost function InRange(s: seq<Entry>, l: int, r: int): seq<Entry>
  {
    if s == [] then []
    else (if l <= s[0].k <= r then [s[0]] else []) + InRange(s[1..], l, r)
  }

  lemma {:induction false} NoneInRange(s: seq<Entry>, l: int, r: int)
    requires forall i :: 0 <= i < |s| ==> r < s[i].k
    ensures InRange(s, l, r) == []
  {
    if s != [] {
      NoneInRange(s[1..], l, r);
    }
  }

  /** In a sorted sequence the entries in range are one stretch. */
  lemma {:induction false} RangeIsStretch(s: seq<Entry>, l: int, r: int, p: nat, q: nat)
    requires p <= q <= |s|
    requires forall i :: 0 <= i < p ==> s[i].k < l
    requires forall i :: p <= i < q ==> l <= s[i].k <= r
    requires forall i :: q <= i < |s| ==> r < s[i].k
    ensures InRange(s, l, r) == s[p..q]
  {
    if q == 0 {
      NoneInRange(s, l, r);
    } else if p > 0 {
      RangeIsStretch(s[1..], l, r, p - 1, q - 1);
      assert s[1..][p - 1..q - 1] == s[p..q];
    } else {
      RangeIsStretch(s[1..], l, r, 0, q - 1);
      assert s[0..q] == [s[0]] + s[1..][..q - 1];
    }
  }

  /** The records of a list of entries. */
  ghost function RecordsOf(s: seq<Entry>): (r: seq<Record>)
    ensures |r| == |s|
  {
    seq(|s|, i requires 0 <= i < |s| => RecordOf(s[i].v))
  }

  /** Slot i of the right leaf for l, the first not below l, starts the range. */
  lemma BelowStart(L: Levels, E: Entries, R: set<Node>, root: Node, j: nat, i: nat, l: int)
    requires Core(L, E, R, -1, -1, -1, -1) && Rooted(L, root) && j < |L[0]| && RightNode(E[0], j, l) && i <= |E[0][j]|
    requires forall t :: 0 <= t < i ==> E[0][j][t].k < l
    requires i < |E[0][j]| ==> l <= E[0][j][i].k
    ensures Start(E[0], j) + i <= |Flat(E[0])|
    ensures forall t :: 0 <= t < Start(E[0], j) + i ==> Flat(E[0])[t].k < l
    ensures forall t :: Start(E[0], j) + i <= t < |Flat(E[0])| ==> l <= Flat(E[0])[t].k
    ensures SortedKeys(Flat(E[0]))
  {
    hide Flat;
    var s, p := Flat(E[0]), Start(E[0], j) + i;
    StartNext(E[0], j);
    if |L| > 1 {
      Nonempty(L, E, R, -1, -1, 0);
    }
    assert |L| == 1 ==> L[0] == [root];
    NextKeyNotBelow(E[0], j, i, l);
    if i > 0 {
      FlatIndex(E[0], j, i - 1);
    } else if j > 0 {
      assert E[0][j - 1] in E[0] && E[0][j] in E[0];
      FlatIndex(E[0], j, 0);
    }
  }

  lemma NextKeyNotBelow(es: seq<seq<Entry>>, j: nat, ins: nat, k: int)
    requires RightNode(es, j, k) && ins <= |es[j]|
    requires |es| > 1 ==> forall x :: x in es ==> x != []
    requires ins < |es[j]| ==> k <= es[j][ins].k
    ensures Start(es, j) + ins <= |Flat(es)|
    ensures Start(es, j) + ins < |Flat(es)| ==> k <= Flat(es)[Start(es, j) + ins].k
  {
    StartNext(es, j);
    if ins < |es[j]| {
      FlatIndex(es, j, ins);
    } else if j + 1 < |es| {
      assert es[j + 1] in es;
      FlatIndex(es, j + 1, 0);
    }
  }

  lemma RecordsInLeaf(s: seq<Entry>, o: nat, x: seq<Entry>)
    requires o + |x| <= |s| && AllRecords(s)
    requires forall i :: 0 <= i < |x| ==> s[o + i] == x[i]
    ensures AllRecords(x)
  {
    forall i | 0 <= i < |x| ensures x[i].v.Rec? {
      assert s[o + i] == x[i];
    }
  }

  /** Slots i to k - 1 of a leaf, none above r, continue the stretch that began at p. */
  lemma SameStretch(s: seq<Entry>, o: nat, x: seq<Entry>, i: nat, k: nat, p: nat, r: int)
    requires o + |x| <= |s| && i <= k <= |x| && p <= o + i
    requires forall t :: 0 <= t < |x| ==> s[o + t] == x[t]
    requires forall t :: i <= t < k ==> x[t].k <= r
    requires forall t :: p <= t < o + i ==> s[t].k <= r
    ensures RecordsOf(s[p..o + k]) == RecordsOf(s[p..o + i]) + RecordsOf(x[i..k])
    ensures forall t :: p <= t < o + k ==> s[t].k <= r
    ensures k < |x| ==> s[o + k] == x[k]
  {
    forall t | o + i <= t < o + k ensures s[t] == x[t - o] {
      assert s[o + (t - o)] == x[t - o];
    }
    assert s[p..o + k] == s[p..o + i] + x[i..k];
  }

  lemma RestAbove(s: seq<Entry>, q: nat, r: int)
    requires SortedKeys(s) && q < |s| && r < s[q].k
    ensures forall t :: q <= t < |s| ==> r < s[t].k
  {
  }

  lemma LeafLinks(L: Levels, E: Entries, R: set<Node>, j: nat)
    requires Core(L, E, R, -1, -1, -1, -1) && Linked(L[0], R) && j < |L[0]|
    ensures var n := L[0][j];
      (n.next != null ==> n.next.isLeaf && n.next.last == n) && (n.last != null ==> n.last.isLeaf && n.last.next == n)
  {
    var c := L[0];
    LevelNodes(L, E, R, -1, -1, 0);
    assert LinkedAt(c, j);
    if j + 1 < |c| {
      assert LinkedAt(c, j + 1) && c[j + 1] in c;
    }
    if j > 0 {
      assert LinkedAt(c, j - 1) && c[j - 1] in c;
    }
  }
}
