/** One node of the B+ tree (BPlusTreeLib/BPlusTree.h), its slot arrays, and the loops of BPlusTreeLib/BPlusTree.c that
    work inside one or two nodes. */
module BPlusNodes {
  import opened Sequences

  const M := 4  // MAX_CHILD_NUMBER

  /** A record's address; 0 is NULL. */
  type Record = int
  const NULL: Record := 0

  /** The comparator's convention: positive when the first key is the smaller. */
  function Compare(a: int, b: int): int
  {
    b - a
  }

  /** What a child slot (a void pointer) can hold: a record in a leaf, a node elsewhere. */
  datatype Slot = Empty | Rec(rec: Record) | Ptr(node: Node)

  datatype Entry = Entry(k: int, v: Slot)

  class Node {
    var isRoot: bool
    var isLeaf: bool
    var keyNum: int
    var key: seq<int>     // M + 1 slots; those from keyNum on keep whatever was there
    var child: seq<Slot>  // M + 2 slots
    var father: Node?
    var next: Node?
    var last: Node?
    ghost const level: nat  // distance to the leaves

    /** New_BPlusTreeNode: every field zero. */
    constructor (ghost level: nat)
      ensures !isRoot && !isLeaf && keyNum == 0
      ensures key == seq(M + 1, i => 0) && child == seq(M + 2, i => Empty)
      ensures father == null && next == null && last == null
      ensures this.level == level
    {
      isRoot, isLeaf, keyNum := false, false, 0;
      key, child := seq(M + 1, i => 0), seq(M + 2, i => Empty);
      father, next, last := null, null, null;
      this.level := level;
    }

    /** The occupied slots are exactly e. */
    ghost predicate Holds(e: seq<Entry>)
      reads this`keyNum, this`key, this`child
    {
      && |key| == M + 1 && |child| == M + 2
      && keyNum == |e| <= M
      && forall i :: 0 <= i < |e| ==> key[i] == e[i].k && child[i] == e[i].v
    }

    /** Binary_Search: the last slot whose key is not above k, or 0. It reads slot 0 even of an empty node. */
    method BinarySearch(k: int, ghost e: seq<Entry>) returns (l: int)
      requires Holds(e) && SortedKeys(e)
      ensures 0 <= l && (e == [] ==> l == 0) && (e != [] ==> l < |e|)
      ensures IsSlotFor(e, k, l)
    {
      l := 0;
      var r := keyNum;
      if Compare(k, key[l]) > 0 { return l; }
      if r == 0 { return 0; }
      if Compare(key[r - 1], k) >= 0 { return r - 1; }
      while l < r - 1
        invariant 0 <= l < r <= |e|
        invariant e[l].k <= k && (r < |e| ==> k < e[r].k)
      {
        var mid := (l + r) / 2;
        if Compare(key[mid], k) < 0 {
          r := mid;
        } else {
          l := mid;
        }
      }
    }

    /** The shifting loop of Insert: open slot ins and store the pair there. */
    method InsertSlot(ins: nat, k: int, v: Slot, ghost e: seq<Entry>)
      requires Holds(e) && |e| < M && ins <= |e|
      modifies this`key, this`child, this`keyNum
      ensures Holds(InsertAt(e, ins, Entry(k, v)))
    {
      var i := keyNum;
      while i > ins
        invariant ins <= i <= |e|
        invariant keyNum == |e| && |key| == M + 1 && |child| == M + 2
        invariant forall t :: 0 <= t < i ==> key[t] == e[t].k && child[t] == e[t].v
        invariant forall t :: i < t <= |e| ==> key[t] == e[t - 1].k && child[t] == e[t - 1].v
      {
        key := key[i := key[i - 1]];
        child := child[i := child[i - 1]];
        i := i - 1;
      }
      keyNum := keyNum + 1;
      key := key[ins := k];
      child := child[ins := v];
    }

    /** The shifting loop of Delete: close slot del. The last slot keeps its old contents, and nothing guards against a
        node that is already empty. */
    method RemoveSlot(del: nat, ghost e: seq<Entry>)
      requires Holds(e) && (del < |e| || (e == [] && del == 0))
      modifies this`key, this`child, this`keyNum
      ensures if e == [] then keyNum == -1 else Holds(RemoveAt(e, del))
      ensures |e| <= 1 ==> key == old(key) && child == old(child)
    {
      var i := del;
      while i < keyNum - 1
        invariant del <= i && (i <= |e| - 1 || i == del)
        invariant keyNum == |e| && |key| == M + 1 && |child| == M + 2
        invariant e != [] ==>
          forall t :: 0 <= t < i ==> key[t] == RemoveAt(e, del)[t].k && child[t] == RemoveAt(e, del)[t].v
        invariant forall t :: i <= t < |e| ==> key[t] == e[t].k && child[t] == e[t].v
        invariant i == del ==> key == old(key) && child == old(child)
      {
        key := key[i := key[i + 1]];
        child := child[i := child[i + 1]];
        i := i + 1;
      }
      keyNum := keyNum - 1;
    }
  }

  ghost predicate SortedKeys(e: seq<Entry>)
  {
    forall i, j :: 0 <= i < j < |e| ==> e[i].k < e[j].k
  }

  /** Slot l is where key k belongs: the last one not above k, or 0 when every key is above k. */
  ghost predicate IsSlotFor(e: seq<Entry>, k: int, l: int)
  {
    && (0 < l < |e| ==> e[l].k <= k)
    && (0 <= l && l + 1 < |e| ==> k < e[l + 1].k)
  }

  ghost function Children(e: seq<Entry>): set<Node>
  {
    set i | 0 <= i < |e| && e[i].v.Ptr? :: e[i].v.node
  }
}
