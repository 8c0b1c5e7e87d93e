/** BPlusTreeLib/BPlusTree.c. */
module BPlusTrees {
  import opened Sequences
  import opened BPlusNodes
  import opened BPlusMoves
  import opened BPlusLevels

  class BPlusTree {
    var Root: Node
    ghost var L: Levels
    ghost var E: Entries
    ghost var R: set<Node>

    /** BPlusTree_init. */
    constructor ()
      ensures Valid() && fresh(R) && Records() == [] && Map() == map[]
      ensures (forall k :: Stale(k) <==> k == 0) && LeftOver() == Empty
    {
      var root := new Node(0);
      root.isRoot := true;
      root.isLeaf := true;
      Root := root;
      L, E, R := [[root]], [[[]]], {root};
      new;
      hide Core, Linked, Rooted;
      EmptyTree(root);
    }

    ghost predicate Valid()
      reads this, R
    {
      Core(L, E, R, -1, -1, -1, -1) && Rooted(L, Root) && Linked(L[0], R)
    }

    ghost predicate Partial(a: int, b: int, xd: int, xj: int)
      reads this, R
    {
      Core(L, E, R, a, b, xd, xj) && Rooted(L, Root)
    }

    /** The records in leaf order. */
    ghost function Records(): seq<Entry>
      reads this
    {
      if |E| == 0 then [] else Flat(E[0])
    }


    /** The first part of Split, on the nodes alone: the upper half of the full node moves to a new node. */
    static method MoveTail(Cur: Node, ghost x: seq<Entry>) returns (Temp: Node)
      requires Cur.Holds(x) && |x| == M
      requires Cur.isLeaf || forall i :: 0 <= i < |x| ==> x[i].v.Ptr?
      requires Cur !in Children(x)
      modifies Cur`keyNum, Children(x[M / 2..])`father
      ensures fresh(Temp) && Temp.Holds(x[M / 2..]) && Temp.isLeaf == Cur.isLeaf && !Temp.isRoot
        && Temp.level == Cur.level
      ensures Temp.next == Temp.last == Temp.father == null
      ensures Cur.Holds(x[..M / 2])
      ensures !Cur.isLeaf ==> forall i :: M / 2 <= i < M ==> x[i].v.node.father == Temp
    {
      Temp := new Node(Cur.level);
      Temp.isLeaf := Cur.isLeaf;
      Temp.keyNum := M - M / 2;
      for i := M / 2 to M
        invariant |Temp.key| == M + 1 && |Temp.child| == M + 2 && Temp.keyNum == M - M / 2
        invariant Temp.isLeaf == Cur.isLeaf && !Temp.isRoot && Temp.next == Temp.last == Temp.father == null
        invariant forall t :: M / 2 <= t < i ==> Temp.key[t - M / 2] == x[t].k && Temp.child[t - M / 2] == x[t].v
        invariant !Cur.isLeaf ==> forall t :: M / 2 <= t < i ==> x[t].v.node.father == Temp
        invariant Cur.Holds(x)
      {
        Temp.child := Temp.child[i - M / 2 := Cur.child[i]];
        Temp.key := Temp.key[i - M / 2 := Cur.key[i]];
        if !Temp.isLeaf {
          var ch := Temp.child[i - M / 2].node;
          ch.father := Temp;
        }
      }
      Cur.keyNum := M / 2;
    }

    /** MoveTail seen from the whole tree. */
    method Halve(Cur: Node, ghost d: nat, ghost j: nat) returns (Temp: Node)
      requires Partial(-1, -1, d, j)
      requires d < |L| && j < |L[d]| && Cur == L[d][j] && |E[d][j]| == M
      modifies `L, `E, `R, R`keyNum, R`father
      ensures fresh(Temp) && R == old(R) + {Temp} && Temp.level == d && Records() == old(Records())
      ensures L == old(L)[d := SplitNodes(old(L)[d], j, Temp)]
      ensures E == old(E)[d := SplitEntries(old(E)[d], j)]
      ensures Core(L, E, R, d + 1, -1, -1, -1) && FathersExcept(L, E, old(R), {})
      ensures Cur.Holds(E[d][j])
      ensures Cur.father == old(Cur.father) && Temp.next == null && Temp.last == null
    {
      hide Core, FathersExcept, SplitNodes, Flat, Node.Holds;
      ghost var l, e, r := L, E, R;
      AtNode(l, e, r, -1, -1, d, j, d, j);
      ghost var x := e[d][j];
      SplitKeepsEntries(e[d], j);
      assert Children(x[M / 2..]) <= Children(x);
      Temp := MoveTail(Cur, x);
      Halved(l, e, r, d, j, Temp);
      L, E, R := l[d := SplitNodes(l[d], j, Temp)], e[d := SplitEntries(e[d], j)], r + {Temp};
    }

    /** The root case of Split, on the nodes alone. */
    static method NewRoot(Cur: Node, Temp: Node, ghost x: seq<Entry>, ghost y: seq<Entry>) returns (root: Node)
      requires Cur.Holds(x) && Temp.Holds(y) && x != [] && y != [] && Cur != Temp
      modifies Cur`isRoot, Cur`father, Cur`next, Temp`father, Temp`last
      ensures fresh(root) && root.isRoot && !root.isLeaf && root.level == Cur.level + 1
      ensures root.Holds([Entry(x[0].k, Ptr(Cur)), Entry(y[0].k, Ptr(Temp))])
      ensures Cur.father == root == Temp.father && !Cur.isRoot
      ensures if Cur.isLeaf then Cur.next == Temp && Temp.last == Cur
        else Cur.next == old(Cur.next) && Temp.last == old(Temp.last)
    {
      root := new Node(Cur.level + 1);
      root.keyNum := 2;
      root.isRoot := true;
      root.key := root.key[0 := Cur.key[0]];
      root.child := root.child[0 := Ptr(Cur)];
      root.key := root.key[1 := Temp.key[0]];
      root.child := root.child[1 := Ptr(Temp)];
      Cur.father := root;
      Temp.father := root;
      Cur.isRoot := false;
      if Cur.isLeaf {
        Cur.next := Temp;
        Temp.last := Cur;
      }
    }

    /** NewRoot seen from the levels of the tree. */
    static method NewLevel(Cur: Node, Temp: Node, ghost l: Levels, ghost e: Entries, ghost r: set<Node>)
                           returns (root: Node)
      requires Core(l, e, r, |l|, -1, -1, -1) && l[|l| - 1] == [Cur, Temp]
      requires forall x :: x in e[|l| - 1] ==> M <= 2 * |x|
      requires if |l| == 1 then Cur.last == Cur.next == Temp.next == null else Linked(l[0], r)
      modifies Cur`isRoot, Cur`father, Cur`next, Temp`father, Temp`last
      ensures fresh(root) && |l| == |e| > 0 && Aligned(l, e)
      ensures Core(l + [[root]], e + [[RootEntries(l, e)]], r + {root}, -1, -1, -1, -1) && Linked(l[0], r + {root})
    {
      hide Core, Index, RootEntries, Node.Holds, Linked, AllDistinct, Aligned, Flat;
      TwoRoots(l, e, r, Cur, Temp);
      root := NewRoot(Cur, Temp, e[|l| - 1][0], e[|l| - 1][1]);
      Grown(l, e, r, root, Cur, Temp);
    }

    /** NewRoot seen from the whole tree. */
    method GrowRoot(Cur: Node, Temp: Node)
      requires Core(L, E, R, |L|, -1, -1, -1) && L[|L| - 1] == [Cur, Temp]
      requires forall e :: e in E[|L| - 1] ==> M <= 2 * |e|
      requires if |L| == 1 then Cur.last == Cur.next == Temp.next == null else Linked(L[0], R)
      modifies `L, `E, `R, `Root, Cur`isRoot, Cur`father, Cur`next, Temp`father, Temp`last
      ensures Valid() && fresh(R - old(R)) && Records() == old(Records())
    {
      hide Core, Index, RootEntries, Linked, Rooted, Aligned, Flat;
      ghost var l, e, r := L, E, R;
      var root := NewLevel(Cur, Temp, l, e, r);
      NewTop(l, e, root);
      Root := root;
      L, E, R := l + [[root]], e + [[RootEntries(l, e)]], r + {root};
    }

    method NameFather(Temp: Node, father: Node?, ghost a: nat, ghost r: set<Node>)
      requires Core(L, E, R, a, -1, -1, -1) && FathersExcept(L, E, r, {}) && r <= R && Temp !in r
      modifies Temp`father
      ensures Core(L, E, R, a, a + 1, -1, -1) && Temp.father == father
    {
      hide Core, Pure, FathersExcept, NodesExcept;
      Temp.father := father;
      FatherNamed(L, E, r, R, a, Temp);
    }

    method Split(Cur: Node, ghost d: nat, ghost j: nat)
      requires Partial(-1, -1, d, j) && Linked(L[0], R)
      requires d < |L| && j < |L[d]| && Cur == L[d][j] && |E[d][j]| == M
      modifies this, R
      ensures Valid() && fresh(R - old(R)) && Records() == old(Records())
      decreases |L| - d, 0
    {
      hide Core, Pure, Aligned, NodesExcept, FathersExcept, Linked, Due, Node.Holds;
      ghost var l, e, r := L, E, R;
      ghost var f, i := BeforeSplit(l, e, r, Root, d, j);
      var Temp := Halve(Cur, d, j);
      if Cur.isRoot {
        ChainGrows(l[0], r, R);
        GrowRoot(Cur, Temp);
      } else {
        SplitIsDue(l, e, d, j, f, i, Temp);
        RemoveInserted(l[d], j + 1, Temp);
        NameFather(Temp, Cur.father, d + 1, r);
        ChainGrows(l[0], r, R);
        Insert(Cur.father, Cur.key[M / 2], Ptr(Temp), d + 1, f, j + 1);
      }
    }

    /** Insert's relinking of the leaves: temp goes in after prev. */
    static method LinkAfter(prev: Node, temp: Node, ghost c: seq<Node>, ghost p: nat, ghost r: set<Node>)
      requires 0 < p < |c| && Distinct(c) && c[p - 1] == prev && c[p] == temp && temp in r
      requires Linked(RemoveAt(c, p), r)
      modifies r`next, r`last
      ensures Linked(c, r)
    {
      ghost var c' := RemoveAt(c, p);
      assert LinkedAt(c', p - 1);
      var succ := prev.next;
      prev.next := temp;
      temp.next := succ;
      temp.last := prev;
      if succ != null {
        succ.last := temp;
      }
      forall i | 0 <= i < |c| ensures LinkedAt(c, i) {
        if i != p {
          assert old(LinkedAt(c', if i < p then i else i - 1));
        }
      }
    }

    /** The second part of Insert: a new leaf, stored in slot ins of its father, is linked in after the leaf before
        it. */
    method LinkNew(Cur: Node, value: Slot, ins: nat, ghost d: nat, ghost j: nat, ghost p: nat)
      requires Core(L, E, R, -1, -1, d, j) && 1 <= d < |L| == |E| && j < |L[d]| == |E[d]| && Cur == L[d][j]
      requires 0 < ins < |E[d][j]| && E[d][j][ins].v == value && p == Start(E[d], j) + ins
      requires p < |L[d - 1]| && Linked(if d == 1 then RemoveAt(L[0], p) else L[0], R)
      modifies R`next, R`last
      ensures Linked(L[0], R)
    {
      hide Core, Linked, Flat;
      AtNode(L, E, R, -1, -1, d, j, d, j);
      ChildrenAre(L, E, R, d, j, d, j);
      var firstChild := Cur.child[0].node;
      if firstChild.isLeaf {
        var temp := value.node;
        if ins > 0 {
          var prevChild := Cur.child[ins - 1].node;
          LinkAfter(prevChild, temp, L[0], p, R);
        } else {
          assert false;
        }
      }
    }

    /** The slot in which Insert stores a key: before the first larger one. */
    static method PickSlot(Cur: Node, key: int, ghost x: seq<Entry>) returns (ins: nat)
      requires Cur.Holds(x) && SortedKeys(x)
      ensures ins <= |x| && (x == [] || key < x[0].k ==> ins == 0)
      ensures x != [] && x[0].k <= key ==> 0 < ins && IsSlotFor(x, key, ins - 1)
    {
      if Cur.keyNum == 0 {
        return 0;
      }
      if Compare(key, Cur.key[0]) > 0 {
        return 0;
      }
      var l := Cur.BinarySearch(key, x);
      return l + 1;
    }

    /** The first part of Insert: find the slot and store the pair. */
    method Place(Cur: Node, key: int, value: Slot, ghost d: nat, ghost j: nat, ghost p: nat) returns (ins: nat)
      requires Core(L, E, R, d, d + 1, -1, -1)
      requires Due(L, E, d, j, p, Entry(key, value)) && Cur == L[d][j]
      requires d > 0 ==> value.Ptr? && value.node in R && value.node.father == Cur
      modifies `E, Cur`keyNum, Cur`key, Cur`child
      ensures |E| == |old(E)| && |E[d]| == |old(E)[d]| && ins == p - Start(old(E)[d], j) <= |old(E)[d][j]|
      ensures E == old(E)[d := old(E)[d][j := InsertAt(old(E)[d][j], ins, Entry(key, value))]]
      ensures Core(L, E, R, -1, -1, d, j) && |E[d][j]| <= M
      ensures |E[d][j]| < M ==> Core(L, E, R, -1, -1, -1, -1)
    {
      hide Core, Pure, Aligned, NodesExcept, FathersExcept, Due;
      ghost var l, e, r := L, E, R;
      ghost var entry := Entry(key, value);
      BeforeInsert(l, e, r, d, j, p, entry);
      ghost var x := e[d][j];
      ins := PickSlot(Cur, key, x);
      PickedSlot(l, e, d, j, p, entry, ins);
      Cur.InsertSlot(ins, key, value, x);
      Inserted(l, e, r, d, j, p, entry);
      E := e[d := e[d][j := InsertAt(x, ins, entry)]];
      if |E[d][j]| < M {
        SizeRestored(l, E, r, d, j);
      }
    }

    /** Insert (key, value) into Cur, and split Cur when it becomes full. */
    method Insert(Cur: Node, key: int, value: Slot, ghost d: nat, ghost j: nat, ghost p: nat)
      requires Partial(d, d + 1, -1, -1)
      requires Due(L, E, d, j, p, Entry(key, value)) && Cur == L[d][j]
      requires d > 0 ==> value.Ptr? && value.node in R && value.node.father == Cur
      requires Linked(if d == 1 then RemoveAt(L[0], p) else L[0], R)
      modifies this, R
      ensures Valid() && fresh(R - old(R))
      ensures Records() == if d == 0 then InsertAt(old(Records()), p, Entry(key, value)) else old(Records())
      decreases |L| - d, 1
    {
      hide Core, Pure, Aligned, NodesExcept, FathersExcept, Linked, Due;
      ghost var l, e, r := L, E, R;
      BeforeInsert(l, e, r, d, j, p, Entry(key, value));
      var ins := Place(Cur, key, value, d, j, p);
      FlatInsert(e[d], j, ins, Entry(key, value));
      AtNode(l, E, r, -1, -1, d, j, d, j);
      assert E[d][j][ins] == Entry(key, value);
      if !Cur.isLeaf {
        ChildrenAre(l, E, r, d, j, d, j);
        LinkNew(Cur, value, ins, d, j, p);
      }
      if Cur.keyNum == M {
        Split(Cur, d, j);
      }
    }

    /** Find with modify false: walk down to the leaf that key belongs to. */
    method Find(key: int) returns (Cur: Node, ghost j: nat)
      requires Valid()
      ensures |L| > 0 && j < |L[0]| && Cur == L[0][j] && RightNode(E[0], j, key)
    {
      hide Core, Linked, RightNode;
      AtRoot(L, E, R, Root, key);
      Cur := Root;
      j := 0;
      ghost var d: nat := |L| - 1;
      while true
        invariant d < |L| == |E| && j < |L[d]| == |E[d]| && Cur == L[d][j] && RightNode(E[d], j, key)
        decreases d
      {
        AtNode(L, E, R, -1, -1, -1, -1, d, j);
        if Cur.isLeaf {
          break;
        }
        ghost var i: nat;
        if Compare(key, Cur.key[0]) > 0 {
          i := 0;
          Cur := Cur.child[0].node;
        } else {
          var b := Cur.BinarySearch(key, E[d][j]);
          i := b;
          Cur := Cur.child[b].node;
        }
        j := Step(L, E, R, -1, d, j, i, key);
        d := d - 1;
      }
    }

    /** One lowering of a separator, at the first node of level d. */
    method LowerKey(Cur: Node, key: int, ghost d: nat)
      requires Core(L, E, R, d + 1, -1, -1, -1) && 1 <= d < |L| == |E| && Cur == L[d][0]
      requires Promised(L, E, d, 0, key) && key < FirstKey(E[d][0])
      modifies `E, Cur`key
      ensures old(|E[d]| > 0 && E[d][0] != []) && E == LowerFirst(old(E), d, key)
      ensures Core(L, E, R, d, -1, -1, -1) && Promised(L, E, d - 1, 0, key) && key < FirstKey(E[d - 1][0])
    {
      AtNode(L, E, R, d + 1, -1, -1, -1, d, 0);
      hide Core, Promised;
      ghost var e := E;
      Cur.key := Cur.key[0 := key];
      E := LowerFirst(e, d, key);
      Lowered(L, e, R, d, key);
    }

    /** Find with modify true: on the way down, separators above key are lowered to it. */
    method FindForInsert(key: int) returns (Cur: Node, ghost j: nat, ghost low: bool)
      requires Valid()
      modifies `E, R`key
      ensures |L| > 0 && |E| == |L| && j < |L[0]| && Cur == L[0][j] && RightNode(E[0], j, key)
      ensures E[0] == old(E)[0]
      ensures Core(L, E, R, if low then 1 else -1, -1, -1, -1)
      ensures if low then |L| > 1 && j == 0 && key < FirstKey(E[0][0]) && Promised(L, E, 0, 0, key)
              else E == old(E) && (forall n :: n in R ==> n.key == old(n.key)) && (|L| > 1 ==> FirstKey(E[0][j]) <= key)
    {
      hide Core, Linked;
      AtRoot(L, E, R, Root, key);
      Cur := Root;
      j := 0;
      low := false;
      ghost var d: nat := |L| - 1;
      while true
        invariant d < |L| == |E| && j < |L[d]| == |E[d]| && Cur == L[d][j] && RightNode(E[d], j, key)
        invariant E[..d + 1] == old(E)[..d + 1]
        invariant Core(L, E, R, if low then d + 1 else -1, -1, -1, -1)
        invariant if low then d + 1 < |L| && j == 0 && key < FirstKey(E[d][0]) && Promised(L, E, d, 0, key)
                  else
                    && E == old(E) && (forall n :: n in R ==> n.key == old(n.key))
                    && (d + 1 < |L| ==> FirstKey(E[d][j]) <= key)
        decreases d
      {
        AtNode(L, E, R, if low then d + 1 else -1, -1, -1, -1, d, j);
        if Cur.isLeaf {
          break;
        }
        ghost var i: nat;
        if Compare(key, Cur.key[0]) > 0 {
          i := 0;
          ghost var p := Step(L, E, R, if low then d + 1 else -1, d, j, i, key);
          if !low {
            Weaken(L, E, R, d + 1);
          }
          LowerKey(Cur, key, d);
          low, j := true, p;
          Cur := Cur.child[0].node;
        } else {
          var b := Cur.BinarySearch(key, E[d][j]);
          i := b;
          Cur := Cur.child[b].node;
          j := Step(L, E, R, if low then d + 1 else -1, d, j, i, key);
        }
        d := d - 1;
      }
    }

    /** The map the tree stands for. */
    ghost function Map(): map<int, Record>
      reads this
    {
      Table(Records())
    }

    /** The tree is empty, but slot 0 of its root still holds key from an earlier life. */
    ghost predicate Stale(key: int)
      reads this, Root
    {
      Records() == [] && |Root.key| > 0 && Root.key[0] == key
    }

    /** What slot 0 of the root holds, occupied or not. */
    ghost function LeftOver(): Slot
      reads this, Root
    {
      if |Root.child| > 0 then Root.child[0] else Empty
    }

    /** The key comparison with which BPlusTree_Insert and BPlusTree_Delete look for key in its leaf. */
    method AtLeaf(Leaf: Node, key: int, ghost a: int, ghost j: nat) returns (i: nat, found: bool)
      requires Core(L, E, R, a, -1, -1, -1) && Rooted(L, Root) && |L| == |E|
      requires j < |L[0]| && Leaf == L[0][j] && RightNode(E[0], j, key)
      ensures |E[0]| == |L[0]| && SortedKeys(Records()) && SortedKeys(E[0][j]) && Leaf.Holds(E[0][j])
      ensures E[0][j] == [] <==> Records() == []
      ensures E[0][j] == [] ==> i == 0 && key !in Map() && (found <==> Stale(key)) && |L| == 1
      ensures E[0][j] != [] ==> i < |E[0][j]| && IsSlotFor(E[0][j], key, i) && !Stale(key)
      ensures E[0][j] != [] ==> (found <==> key in Map()) && (found <==> E[0][j][i].k == key)
      ensures found && E[0][j] != [] ==> Map()[key] == RecordOf(E[0][j][i].v)
    {
      hide Core, RightNode, SortedKeys, Flat, Table;
      AtNode(L, E, R, a, -1, -1, -1, 0, j);
      i := Leaf.BinarySearch(key, E[0][j]);
      found := Compare(Leaf.key[i], key) == 0;
      LeafDecides(L, E, R, Root, a, j, i, key);
    }

    /** The search part of BPlusTree_Insert; when the key is new, the pair is due at position p of the leaves. */
    method SearchForInsert(key: int, ghost value: Record) returns (Leaf: Node, found: bool, ghost j: nat, ghost p: nat)
      requires Valid()
      modifies `E, R`key
      ensures Records() == old(Records()) && SortedKeys(Records())
      ensures found <==> key in Map() || old(Stale(key))
      ensures found ==> Core(L, E, R, -1, -1, -1, -1) && forall q :: Stale(q) == old(Stale(q))
      ensures !found ==>
        && Core(L, E, R, 0, 1, -1, -1) && Due(L, E, 0, j, p, Entry(key, Rec(value)))
        && |L| > 0 && j < |L[0]| && Leaf == L[0][j]
        && p <= |Records()| && SortedKeys(InsertAt(Records(), p, Entry(key, Rec(value))))
    {
      hide Core, Linked, Table, Due, Promised, Node.Holds, Flat;
      AtRoot(L, E, R, Root, key);
      ghost var low;
      Leaf, j, low := FindForInsert(key);
      var i;
      i, found := AtLeaf(Leaf, key, if low then 1 else -1, j);
      ghost var x := E[0][j];
      p := 0;
      if !found {
        ghost var ins := if x == [] || key < x[0].k then 0 else i + 1;
        DueInLeaf(L, E, R, j, ins, key, Rec(value), low);
        WeakenForLeaf(L, E, R, if low then 1 else -1);
        p := Start(E[0], j) + ins;
      }
    }

    /** BPlusTree_Insert: false means nothing changed. */
    method InsertRecord(key: int, value: Record) returns (ok: bool)
      requires Valid()
      modifies this, R
      ensures Valid() && fresh(R - old(R))
      ensures ok <==> key !in old(Map()) && !old(Stale(key))
      ensures Map() == if ok then old(Map())[key := value] else old(Map())
      ensures !ok ==> Records() == old(Records()) && LeftOver() == old(LeftOver())
      ensures !ok ==> forall q :: Stale(q) == old(Stale(q))
    {
      hide Core, Linked, Table, Due, Flat, SortedKeys;
      var Leaf, found, j, p := SearchForInsert(key, value);
      if found {
        return false;
      }
      TableInsert(Records(), p, Entry(key, Rec(value)));
      Insert(Leaf, key, Rec(value), 0, j, p);
      return true;
    }

    /** BPlusTree_Query_Key: the record under key, or NULL. */
    method QueryKey(key: int) returns (r: Record)
      requires Valid()
      ensures r == if key in Map() then Map()[key] else NULL
    {
      hide Core, Linked, Table;
      var Leaf, j := Find(key);
      AtNode(L, E, R, -1, -1, -1, -1, 0, j);
      var i := 0;
      while i < Leaf.keyNum
        invariant 0 <= i <= Leaf.keyNum == |E[0][j]|
        invariant forall t :: 0 <= t < i ==> E[0][j][t].k != key
      {
        if Compare(Leaf.key[i], key) == 0 {
          LeafDecides(L, E, R, Root, -1, j, i, key);
          return Leaf.child[i].rec;
        }
        i := i + 1;
      }
      LeafLacks(L, E, R, Root, j, key);
      return NULL;
    }

    /** Store in slot the smallest key of the child it lists. */
    method CorrectKey(Father: Node, slot: nat, newKey: int, ghost c: nat, ghost p: nat, ghost f: nat, ghost k: int,
                      ghost xd: int, ghost xj: int)
      requires Core(L, E, R, c + 1, -1, xd, xj) && c + 1 < |L| == |E| && p < |L[c]| == |E[c]| && Promised(L, E, c, p, k)
      requires f < |L[c + 1]| == |E[c + 1]| && slot < |E[c + 1][f]| && Start(E[c + 1], f) + slot == p
        && Father == L[c + 1][f]
      requires newKey == FirstKey(E[c][p]) && forall e :: e in E[c] ==> e != []
      modifies `E, Father`key
      ensures E == WithKey(old(E), c + 1, f, slot, newKey)
      ensures Core(L, E, R, if slot == 0 then c + 2 else -1, -1, xd, xj) && (slot == 0 ==> Promised(L, E, c + 1, f, k))
    {
      hide Core, Promised;
      AtNode(L, E, R, c + 1, -1, xd, xj, c + 1, f);
      ghost var e := E;
      Father.key := Father.key[slot := newKey];
      E := WithKey(e, c + 1, f, slot, newKey);
      KeySet(L, e, R, c, p, f, slot, k, xd, xj);
    }

    /** Delete's loop: after node (d, j) lost its first key, correct every separator that was that key. */
    method CorrectPath(Cur: Node, key: int, ghost d: nat, ghost j: nat)
      requires Core(L, E, R, d + 1, -1, d, j) && Rooted(L, Root) && d < |L| - 1 && |E| == |L| && j < |L[d]| == |E[d]|
        && Cur == L[d][j]
      requires Promised(L, E, d, j, key) && E[d][j] != []
      modifies `E, R`key
      ensures Core(L, E, R, -1, -1, d, j) && |E| == |L| && E[..d + 1] == old(E)[..d + 1]
    {
      hide Core, Promised;
      AtNode(L, E, R, d + 1, -1, d, j, d, j);
      var temp := Cur;
      ghost var c: nat, p: nat := d, j;
      ghost var f, i := PathStep(L, E, R, Root, c, p, key, d, j);
      while !temp.isRoot && temp == temp.father.child[0].node
        invariant d <= c < |L| == |E| && p < |L[c]| == |E[c]| && temp == L[c][p]
        invariant E[..d + 1] == old(E)[..d + 1]
        invariant Core(L, E, R, c + 1, -1, d, j) && Promised(L, E, c, p, key)
        invariant |Cur.key| > 0 && Cur.key[0] == FirstKey(E[c][p])
        invariant temp.isRoot <==> c + 1 == |L|
        invariant c + 1 < |L| ==> Under(L, E, c, p, f, i, key) && L[c + 1][f] in R
        invariant forall e :: e in E[c] ==> e != []
        invariant c + 1 == |L| ==> Core(L, E, R, -1, -1, d, j)
        decreases |L| - c
      {
        CorrectKey(temp.father, 0, Cur.key[0], c, p, f, key, d, j);
        temp := temp.father;
        c, p := c + 1, f;
        f, i := PathStep(L, E, R, Root, c, p, key, d, j);
      }
      if !temp.isRoot {
        temp := temp.father;
        var s := temp.BinarySearch(key, E[c + 1][f]);
        SlotOfExactKey(E[c + 1][f], key, i, s);
        CorrectKey(temp, s, Cur.key[0], c, p, f, key, d, j);
      }
    }

    /** Delete's relinking of the leaves: temp, at position p of c, drops out. */
    static method Unlink(temp: Node, ghost c: seq<Node>, ghost p: nat, ghost r: set<Node>)
      requires p < |c| && Distinct(c) && c[p] == temp && Linked(c, r)
      modifies r`next, r`last
      ensures Linked(RemoveAt(c, p), r)
    {
      assert LinkedAt(c, p);
      var prevChild, succChild := temp.last, temp.next;
      if prevChild != null {
        prevChild.next := succChild;
      }
      if succChild != null {
        succChild.last := prevChild;
      }
      ghost var c' := RemoveAt(c, p);
      forall i | 0 <= i < |c'| ensures LinkedAt(c', i) {
        assert old(LinkedAt(c, if i < p then i else i + 1));
      }
    }

    /** Redistribute at the root: a root left with one child gives way to it. */
    method ShrinkRoot(Cur: Node)
      requires Partial(-1, -1, |L| - 1, 0) && Linked(L[0], R)
      requires |L| > 1 && |E[|L| - 1][0]| == 1 && Cur == Root
      modifies this, R`isRoot
      ensures Valid() && R == old(R) && Records() == old(Records())
    {
      ghost var l, e, r := L, E, R;
      AtNode(l, e, r, -1, -1, |l| - 1, 0, |l| - 1, 0);
      ShrinkLevel(l, e);
      ChildrenAre(l, e, r, |l| - 1, 0, |l| - 1, 0);
      hide Core, Linked, Pure;
      Root := Cur.child[0].node;
      Root.isRoot := true;
      L, E := l[..|l| - 1], e[..|l| - 1];
      Shrunk(l, e, r);
    }

    /** Resort(Left, Right) seen from the whole tree: only the father's key for Right is still the old one. */
    method Even(Left: Node, Right: Node, ghost d: nat, ghost j: nat, ghost xj: nat)
      requires Core(L, E, R, -1, -1, d, xj) && d + 1 < |L| == |E| && j + 1 < |L[d]| == |E[d]|
        && (xj == j || xj == j + 1)
      requires Left == L[d][j] && Right == L[d][j + 1]
      requires E[d][j] != [] && E[d][j + 1] != [] && M <= |Both(E, d, j)| <= 2 * M - 2
      modifies `E, R`key, R`child, R`keyNum, R`father
      ensures E == Evened(old(E), d, j) && Flat(E[d]) == Flat(old(E)[d])
      ensures Core(L, E, R, d + 1, -1, -1, -1) && Promised(L, E, d, j + 1, FirstKey(old(E)[d][j + 1]))
      ensures Right.Holds(E[d][j + 1]) && E[d][j + 1] != []
    {
      hide Core, Promised, Flat, Node.Holds;
      ghost var l, e, r := L, E, R;
      Neighbours(l, e, r, d, j, xj);
      Resort(Left, Right, Both(e, d, j), |e[d][j]|);
      E := Evened(e, d, j);
      EvenedOut(l, e, r, d, j, xj);
    }

    /** Even, and the correction of the father's key for Right. */
    method EvenOut(Left: Node, Right: Node, Father: Node, slot: nat, ghost d: nat, ghost j: nat, ghost xj: nat,
                   ghost f: nat)
      requires Core(L, E, R, -1, -1, d, xj) && d + 1 < |L| == |E| && j + 1 < |L[d]| == |E[d]|
        && (xj == j || xj == j + 1)
      requires Left == L[d][j] && Right == L[d][j + 1]
      requires f < |L[d + 1]| == |E[d + 1]| && slot < |E[d + 1][f]| && Start(E[d + 1], f) + slot == j + 1
      requires Father == L[d + 1][f] && Father in R
      requires slot > 0 && E[d][j] != [] && E[d][j + 1] != [] && M <= |Both(E, d, j)| <= 2 * M - 2
      modifies `E, R`key, R`child, R`keyNum, R`father
      ensures Core(L, E, R, -1, -1, -1, -1) && |E| == |L| && Records() == old(Records())
    {
      hide Core, Promised, Flat, Both;
      ghost var e := E;
      Even(Left, Right, d, j, xj);
      NonemptyBut(L, E, R, d + 1, -1, -1, d);
      CorrectKey(Father, slot, Right.key[0], d, j + 1, f, FirstKey(e[d][j + 1]), -1, -1);
    }

    /** The merging loop seen from the whole tree: Right is emptied into Left and leaves its level. */
    method Join(Left: Node, Right: Node, ghost d: nat, ghost j: nat, ghost xj: nat)
      requires Core(L, E, R, -1, -1, d, xj) && d + 1 < |L| == |E| && j + 1 < |L[d]| == |E[d]|
        && (xj == j || xj == j + 1)
      requires Left == L[d][j] && Right == L[d][j + 1]
      requires E[d][j] != [] && M <= 2 * |Both(E, d, j)| && |Both(E, d, j)| < M
      modifies `L, `E, R`key, R`child, R`keyNum, R`father
      ensures L == Dropped(old(L), d, j) && E == Joined(old(E), d, j) && Flat(E[d]) == Flat(old(E)[d])
      ensures Core(L, E, R, d + 1, -1, -1, -1) && |E| == |L|
    {
      hide Core, Flat, RemoveAt, Index;
      ghost var l, e := L, E;
      Neighbours(l, e, R, d, j, xj);
      Absorb(Left, Right, Both(e, d, j), |e[d][j]|);
      L, E := Dropped(l, d, j), Joined(e, d, j);
      JoinedUp(l, e, R, d, j, xj);
    }

    /** Merging and the deletion of the emptied node from the father. */
    method MergeInto(Left: Node, Right: Node, Father: Node, key: int, ghost d: nat, ghost j: nat, ghost xj: nat,
                     ghost f: nat, ghost s: nat)
      requires Partial(-1, -1, d, xj) && Linked(L[0], R)
      requires d + 1 < |L| == |E| && j + 1 < |L[d]| == |E[d]| && (xj == j || xj == j + 1)
      requires Left == L[d][j] && Right == L[d][j + 1] && Right in R
      requires f < |L[d + 1]| == |E[d + 1]| && 0 < s < |E[d + 1][f]| && Start(E[d + 1], f) + s == j + 1
        && Father == L[d + 1][f]
      requires E[d + 1][f][s] == Entry(key, Ptr(Right))
      requires E[d][j] != [] && M <= 2 * |Both(E, d, j)| && |Both(E, d, j)| < M
      modifies this, R
      ensures Valid() && R == old(R) && Records() == old(Records())
      decreases |L| - d, 1
    {
      hide Core, Gone, Flat, RemoveAt, Index, Linked, Both;
      JoinIsGone(L, E, R, d, j, xj, f, s);
      Join(Left, Right, d, j, xj);
      var _ := Delete(Father, key, d + 1, f, s, Right, j + 1);
    }

    /** Repair node (d, j), which is one short: take from a brother, or merge with one. */
    method Redistribute(Cur: Node, ghost d: nat, ghost j: nat)
      requires Partial(-1, -1, d, j) && Linked(L[0], R)
      requires d < |L| && j < |L[d]| && Cur == L[d][j] && j < |E[d]|
      requires 2 * |E[d][j]| < M && (d > 0 ==> E[d][j] != []) && (d < |L| - 1 ==> M <= 2 * |E[d][j]| + 2)
      modifies this, R
      ensures Valid() && R == old(R) && Records() == old(Records())
      ensures |old(L)| == 1 ==> Root == old(Root) && Root.key == old(Root.key) && Root.child == old(Root.child)
      decreases |L| - d, 2
    {
      hide Core, Flat, RemoveAt, Index, Linked;
      ghost var f, i := BeforeRepair(L, E, R, Root, d, j);
      if Cur.isRoot {
        if Cur.keyNum == 1 && !Cur.isLeaf {
          ShrinkRoot(Cur);
        } else {
          SizeRestored(L, E, R, d, j);
        }
        return;
      }
      var Father := Cur.father;
      var myIndex := Father.BinarySearch(Cur.key[0], E[d + 1][f]);
      SlotOfExactKey(E[d + 1][f], Cur.key[0], i, myIndex);
      if myIndex + 1 < Father.keyNum {
        Brother(L, E, R, d, j, f, i, i + 1);
        var succChild := Father.child[myIndex + 1].node;
        if (succChild.keyNum - 1) * 2 >= M {
          EvenOut(Cur, succChild, Father, myIndex + 1, d, j, j, f);
          return;
        }
      }
      if myIndex - 1 >= 0 {
        Brother(L, E, R, d, j, f, i, i - 1);
        var prevChild := Father.child[myIndex - 1].node;
        if (prevChild.keyNum - 1) * 2 >= M {
          EvenOut(prevChild, Cur, Father, myIndex, d, j - 1, j, f);
          return;
        }
      }
      if myIndex + 1 < Father.keyNum {
        Brother(L, E, R, d, j, f, i, i + 1);
        var succChild := Father.child[myIndex + 1].node;
        MergeInto(Cur, succChild, Father, succChild.key[0], d, j, j, f, i + 1);
      } else if myIndex - 1 >= 0 {
        Brother(L, E, R, d, j, f, i, i - 1);
        var prevChild := Father.child[myIndex - 1].node;
        MergeInto(prevChild, Cur, Father, Cur.key[0], d, j - 1, j, f, i);
      } else {
        assert false;
      }
    }

    /** The first part of Delete: find the slot and close it. */
    method TakeOut(Cur: Node, key: int, ghost d: nat, ghost j: nat, ghost i: nat) returns (del: nat, delChild: Slot)
      requires Partial(d, -1, -1, -1) && Gone(L, E, d, j, i) && Cur == L[d][j] && E[d][j][i].k == key
      modifies `E, Cur`key, Cur`child, Cur`keyNum
      ensures d < |L| == |E| == |old(E)| && j < |E[d]| == |old(E)[d]| == |L[d]| && i < |old(E)[d][j]|
      ensures del == i && delChild == old(E)[d][j][i].v
      ensures E == Without(old(E), d, j, i) && Flat(E[d]) == RemoveAt(Flat(old(E)[d]), Start(old(E)[d], j) + i)
      ensures Core(L, E, R, if i == 0 then d + 1 else -1, -1, d, j)
      ensures d == |L| - 1 ==> Core(L, E, R, -1, -1, d, j)
      ensures d > 0 ==> i > 0
      ensures i == 0 ==> Promised(L, E, d, j, key)
      ensures Cur.Holds(E[d][j]) && Cur.isLeaf == (d == 0) && Cur.isRoot == (d == |L| - 1)
      ensures d == |L| - 1 ==> j == 0
      ensures SizeOK(old(E), d, j)
      ensures d > 0 ==> E[d][j] != [] && E[d][j][0] == old(E)[d][j][0]
      ensures |old(E)[d][j]| == 1 ==> Cur.key == old(Cur.key) && Cur.child == old(Cur.child)
    {
      hide Core, Gone, Flat, Promised;
      ghost var l, e, r := L, E, R;
      BeforeDelete(l, e, r, Root, d, j, i);
      del := Cur.BinarySearch(key, e[d][j]);
      SlotOfExactKey(e[d][j], key, i, del);
      delChild := Cur.child[del];
      Cur.RemoveSlot(del, e[d][j]);
      E := Without(e, d, j, i);
      Removed(l, e, r, d, j, i);
      RemoveKeepsFirst(e[d][j], i);
      if d == |l| - 1 && i == 0 {
        NoLevelLeft(l, E, r, d + 1, d, j);
      }
    }

    /** Delete slot i of Cur: a record of a leaf, or a node that was merged away. What the slot held is handed to
        free_fn. */
    method Delete(Cur: Node, key: int, ghost d: nat, ghost j: nat, ghost i: nat, ghost dead: Node, ghost p: nat)
      returns (freed: Slot)
      requires Partial(d, -1, -1, -1) && Gone(L, E, d, j, i) && Cur == L[d][j] && E[d][j][i].k == key
      requires d > 0 ==> E[d][j][i].v == Ptr(dead) && p <= |L[d - 1]| && Distinct(InsertAt(L[d - 1], p, dead))
      requires if d == 1 then Linked(InsertAt(L[0], p, dead), R) else Linked(L[0], R)
      modifies this, R
      ensures Valid() && R == old(R)
      ensures Records() == if d == 0 then RemoveAt(old(Records()), Start(old(E)[0], j) + i) else old(Records())
      ensures |old(L)| == 1 && |old(E)[0][j]| == 1 ==>
        Root == old(Root) && Root.key == old(Root.key) && Root.child == old(Root.child)
      ensures |old(E)| > d && |old(E)[d]| > j && |old(E)[d][j]| > i && freed == old(E)[d][j][i].v
      decreases |L| - d, 3
    {
      hide Core, Gone, Flat, Promised, Linked, RemoveAt, InsertAt;
      BeforeDelete(L, E, R, Root, d, j, i);
      var del, delChild := TakeOut(Cur, key, d, j, i);
      if !Cur.isLeaf {
        FirstChildLevel(L, E, R, d, j);
        var firstChild := Cur.child[0].node;
        if firstChild.isLeaf {
          var temp := delChild.node;
          RemoveInserted(L[0], p, dead);
          InsertedAt(L[0], p, dead, p);
          Unlink(temp, InsertAt(L[0], p, dead), p, R);
        }
      }
      if del == 0 && !Cur.isRoot {
        CorrectPath(Cur, key, d, j);
      }
      freed := delChild;
      if Cur.keyNum * 2 < M {
        Redistribute(Cur, d, j);
      } else {
        AfterRemoval(L, E, R, d, j);
      }
    }

    /** Delete called on an empty root leaf, whose stale slot 0 was taken for a record; free_fn gets what the slot still
        holds. */
    method DeleteFromEmpty(Leaf: Node, key: int) returns (freed: Slot)
      requires Leaf.Holds([])
      modifies Leaf`key, Leaf`child, Leaf`keyNum
      ensures Leaf.keyNum == -1 && Leaf.key == old(Leaf.key)
      ensures |old(Leaf.child)| > 0 && freed == old(Leaf.child)[0]
    {
      var del := Leaf.BinarySearch(key, []);
      freed := Leaf.child[del];
      Leaf.RemoveSlot(del, []);
    }

    /** BPlusTree_Delete, and what it hands to free_fn. The tree stays a tree unless key is stale. */
    method DeleteRecord(key: int) returns (freed: Slot)
      requires Valid()
      modifies this, R
      ensures Valid() <==> !old(Stale(key))
      ensures !old(Stale(key)) ==> R == old(R) && Map() == old(Map()) - {key}
      ensures old(Stale(key)) ==> Root == old(Root) && Root.keyNum == -1
      ensures key !in old(Map()) && !old(Stale(key)) ==> forall q :: Stale(q) == old(Stale(q))
      ensures key in old(Map()) && |old(Records())| == 1 ==> Stale(key) && LeftOver() == freed
      ensures key in old(Map()) ==> freed == Rec(old(Map())[key])
      ensures old(Stale(key)) ==> freed == old(LeftOver())
      ensures key !in old(Map()) && !old(Stale(key)) ==> freed == Empty && LeftOver() == old(LeftOver())
    {
      hide Core, Linked, Table, Gone, Flat, RightNode, RemoveAt;
      AtRoot(L, E, R, Root, key);
      var Leaf, j := Find(key);
      var i, found := AtLeaf(Leaf, key, -1, j);
      if !found {
        return Empty;
      }
      AtNode(L, E, R, -1, -1, -1, -1, 0, j);
      if Leaf.keyNum == 0 {
        freed := DeleteFromEmpty(Leaf, key);
        if Valid() {
          AtNode(L, E, R, -1, -1, -1, -1, 0, 0);
        }
      } else {
        LeafEntry(L, E, R, j, i);
        freed := Delete(Leaf, key, 0, j, i, Leaf, 0);
      }
    }

    /** The leftmost leaf, as every scan starts. */
    method FirstLeaf() returns (node: Node)
      requires Valid()
      ensures |L| > 0 && |L[0]| > 0 && node == L[0][0]
    {
      hide Core, Linked;
      AtRoot(L, E, R, Root, 0);
      node := Root;
      ghost var d: nat := |L| - 1;
      while true
        invariant d < |L| == |E| && |L[d]| == |E[d]| > 0 && node == L[d][0]
        decreases d
      {
        AtNode(L, E, R, -1, -1, -1, -1, d, 0);
        if node.isLeaf {
          break;
        }
        ChildrenAre(L, E, R, -1, -1, d, 0);
        StartNext(E[d], 0);
        LevelNodes(L, E, R, -1, -1, d - 1);
        node := node.child[0].node;
        d := d - 1;
      }
    }

    /** Where a scan stands: before the first record (p is -1), or on record p of the leaf order. */
    ghost predicate ScanAt(bnode: Node?, index: int, j: nat, p: int)
      reads this
    {
      if bnode == null then p == -1
      else
        && |L| > 0 && |E| == |L| && |L[0]| == |E[0]| && j < |L[0]|
        && bnode == L[0][j] && 0 <= index < |E[0][j]| && p == Start(E[0], j) + index
    }

    /** BPlusTree_get_next_record: one step of a scan; a null node afterwards means the scan is over and rewound. */
    method NextRecord(bnode: Node?, index: int, ghost j: nat, ghost p: int)
      returns (rec: Record, bnode': Node?, index': int, ghost j': nat)
      requires Valid() && ScanAt(bnode, index, j, p)
      ensures p + 1 < |Records()| ==> bnode' != null && rec == RecordOf(Records()[p + 1].v)
      ensures p + 1 >= |Records()| ==> bnode' == null && rec == NULL
      ensures bnode' != null ==> ScanAt(bnode', index', j', p + 1)
    {
      hide Core, Linked, Flat;
      bnode', index', j' := bnode, index, j;
      if bnode' == null {
        var node := FirstLeaf();
        OnLeaf(L, E, R, Root, 0);
        if node.keyNum > 0 {
          return node.child[0].rec, node, 0, 0;
        }
        return NULL, null, index, 0;
      }
      OnLeaf(L, E, R, Root, j);
      index' := index' + 1;
      if index' < bnode'.keyNum {
        return bnode'.child[index'].rec, bnode', index', j;
      }
      index' := 0;
      bnode' := bnode'.next;
      j' := j + 1;
      if bnode' != null {
        OnLeaf(L, E, R, Root, j + 1);
        return bnode'.child[index'].rec, bnode', index', j';
      }
      return NULL, null, 0, j';
    }

    /** The BPTREE_ITERATE_ALL_RECORDS loop: every record once, in key order. */
    method ScanAll() returns (out: seq<Record>)
      requires Valid()
      ensures out == RecordsOf(Records())
    {
      hide Core, Linked, Flat;
      AtRoot(L, E, R, Root, 0);
      out := [];
      var rec, bnode, index: int;
      ghost var j, p: int := 0, -1;
      rec, bnode, index, j := NextRecord(null, 0, 0, -1);
      while bnode != null
        invariant -1 <= p < |Records()| || p == |Records()| - 1
        invariant out == RecordsOf(Records())[..p + 1]
        invariant if p + 1 < |Records()| then bnode != null && ScanAt(bnode, index, j, p + 1)
          && rec == RecordOf(Records()[p + 1].v) else bnode == null
        decreases |Records()| - p
      {
        out := out + [rec];
        p := p + 1;
        rec, bnode, index, j := NextRecord(bnode, index, j, p);
      }
    }

    /** The inner loop of BPlusTree_Query_Range: the slots of one leaf from i on, up to the first key above r. */
    static method VisitLeaf(Leaf: Node, i: nat, r: int, ghost x: seq<Entry>)
                            returns (k: nat, finish: bool, seen: seq<Record>)
      requires Leaf.Holds(x) && i <= |x| && AllRecords(x)
      ensures i <= k <= |x| && seen == RecordsOf(x[i..k])
      ensures forall t :: i <= t < k ==> x[t].k <= r
      ensures if finish then k < |x| && r < x[k].k else k == |x|
    {
      k, finish, seen := i, false, [];
      while k < Leaf.keyNum
        invariant i <= k <= |x| && seen == RecordsOf(x[i..k])
        invariant forall t :: i <= t < k ==> x[t].k <= r
      {
        if Compare(Leaf.key[k], r) < 0 {
          finish := true;
          break;
        }
        seen := seen + [Leaf.child[k].rec];
        k := k + 1;
      }
    }

    /** BPlusTree_Query_Range: the records it visits, in order; their number is QueryAnsNum. They are one stretch of the
        leaf order, from place p on, and exactly the entries there have keys between l and r. */
    method QueryRange(l: int, r: int) returns (visited: seq<Record>, queryAnsNum: nat, ghost p: nat)
      requires Valid()
      ensures visited == RecordsOf(InRange(Records(), l, r)) && queryAnsNum == |visited|
      ensures p + queryAnsNum <= |Records()| && visited == RecordsOf(Records()[p..p + queryAnsNum])
      ensures forall t :: 0 <= t < |Records()| ==> (p <= t < p + queryAnsNum <==> l <= Records()[t].k <= r)
    {
      hide Core, Linked, Flat, RightNode;
      var Leaf, j := Find(l);
      OnLeaf(L, E, R, Root, j);
      var i := 0;
      while i < Leaf.keyNum
        invariant 0 <= i <= |E[0][j]| == Leaf.keyNum
        invariant forall t :: 0 <= t < i ==> E[0][j][t].k < l
      {
        if Compare(Leaf.key[i], l) <= 0 { break; }
        i := i + 1;
      }
      BelowStart(L, E, R, Root, j, i, l);
      p := Start(E[0], j) + i;
      visited, queryAnsNum := VisitFrom(Leaf, i, r, j, p);
      RangeIsStretch(Records(), l, r, p, p + queryAnsNum);
    }

    /** The outer loop of BPlusTree_Query_Range, from record p of the leaf order on. */
    method VisitFrom(start: Node, first: nat, r: int, ghost startLeaf: nat, ghost p: nat)
                     returns (visited: seq<Record>, queryAnsNum: nat)
      requires Valid() && |L| == |E| && startLeaf < |L[0]| == |E[0]| && start == L[0][startLeaf]
      requires first <= |E[0][startLeaf]| && p == Start(E[0], startLeaf) + first <= |Records()|
      ensures p + queryAnsNum <= |Records()| && visited == RecordsOf(Records()[p..p + queryAnsNum])
        && queryAnsNum == |visited|
      ensures forall t :: p <= t < p + queryAnsNum ==> Records()[t].k <= r
      ensures forall t :: p + queryAnsNum <= t < |Records()| ==> r < Records()[t].k
    {
      hide Core, Linked, Flat, RecordsOf, AllRecords, Node.Holds, SortedKeys, Start;
      var Leaf, i: nat := start, first;
      ghost var j, s := startLeaf, Records();
      visited, queryAnsNum := [], 0;
      while true
        invariant j < |L[0]| && Leaf == L[0][j] && i <= |E[0][j]|
        invariant p + queryAnsNum == Start(E[0], j) + i <= |s|
        invariant visited == RecordsOf(s[p..p + queryAnsNum])
        invariant forall t :: p <= t < p + queryAnsNum ==> s[t].k <= r
        decreases |L[0]| - j
      {
        OnLeaf(L, E, R, Root, j);
        ghost var q, x := p + queryAnsNum, E[0][j];
        RecordsInLeaf(s, Start(E[0], j), x);
        var k, finish, seen := VisitLeaf(Leaf, i, r, x);
        SameStretch(s, Start(E[0], j), x, i, k, p, r);
        visited, queryAnsNum := visited + seen, queryAnsNum + (k - i);
        if finish {
          RestAbove(s, p + queryAnsNum, r);
        }
        if finish || Leaf.next == null { break; }
        Leaf, i := Leaf.next, 0;
        j := j + 1;
      }
    }
  }

  /** What Valid promises about the fields of every node of the tree. */
  lemma NodeInvariant(t: BPlusTree, d: nat, j: nat)
    requires t.Valid() && d < |t.L| && j < |t.L[d]|
    ensures var n := t.L[d][j];
      && 0 <= n.keyNum <= 3 && |n.key| == 5 && |n.child| == 6
      && n.isLeaf == (d == 0) && n.isRoot == (n == t.Root) && (!n.isRoot || !n.isLeaf ==> 2 <= n.keyNum)
      && forall a, b :: 0 <= a < b < n.keyNum ==> n.key[a] < n.key[b]
    ensures var n := t.L[d][j];
      !n.isLeaf ==> forall i :: 0 <= i < n.keyNum ==>
        && n.child[i].Ptr? && n.child[i].node.father == n && n.child[i].node.isLeaf == (d == 1)
        && n.child[i].node.keyNum > 0 && |n.child[i].node.key| > 0 && n.child[i].node.key[0] == n.key[i]
    ensures var n := t.L[d][j];
      n.isLeaf ==>
        (n.next != null ==> n.next.isLeaf && n.next.last == n) && (n.last != null ==> n.last.isLeaf && n.last.next == n)
  {
    var L: Levels, E: Entries, R := t.L, t.E, t.R;
    AtNode(L, E, R, -1, -1, -1, -1, d, j);
    if d == 0 {
      LeafLinks(L, E, R, j);
    } else {
      forall i | 0 <= i < |E[d][j]|
        ensures E[d][j][i].v.node.isLeaf == (d == 1) && E[d][j][i].v.node.keyNum > 0
        ensures |E[d][j][i].v.node.key| > 0 && E[d][j][i].v.node.key[0] == E[d][j][i].k
      {
        assert IndexedAt(L, E, d);
        var p := ChildAt(L, E, d, j, i);
        AtNode(L, E, R, -1, -1, -1, -1, d - 1, p);
      }
    }
  }

  /** The records come in the order of their keys, no key twice, and they are the map's. */
  lemma KeyOrder(t: BPlusTree)
    requires t.Valid()
    ensures forall p, q :: 0 <= p < q < |t.Records()| ==> t.Records()[p].k < t.Records()[q].k
    ensures forall p :: 0 <= p < |t.Records()| ==>
      var e := t.Records()[p]; e.k in t.Map() && e.v == Rec(t.Map()[e.k])
    ensures forall key :: key in t.Map() ==> exists p :: 0 <= p < |t.Records()| && t.Records()[p].k == key
  {
    hide Flat, Table;
    AtRoot(t.L, t.E, t.R, t.Root, 0);
    OnLeaf(t.L, t.E, t.R, t.Root, 0);
    var s := t.Records();
    forall p | 0 <= p < |s| ensures var e := s[p]; e.k in t.Map() && e.v == Rec(t.Map()[e.k]) {
      TableLookup(s, s[p].k);
    }
    forall key | key in t.Map() ensures exists p :: 0 <= p < |s| && s[p].k == key {
      TableLookup(s, key);
    }
  }

  lemma OneRecord(t: BPlusTree, key: int)
    requires t.Valid() && t.Map().Keys == {key}
    ensures |t.Records()| == 1
  {
    TableOfOne(t.Records(), key);
  }
}
