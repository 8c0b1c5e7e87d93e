/** The loops of Resort and Redistribute in BPlusTreeLib/BPlusTree.c that move slots between two neighbouring nodes and
    rename the fathers of the children they carry. */
module BPlusMoves {
  import opened BPlusNodes

  /** No child is listed twice. */
  ghost predicate Apart(e: seq<Entry>)
  {
    forall i, j :: 0 <= i < j < |e| ==> e[i].v != e[j].v
  }

  /** The children in slots lo to hi - 1 of z name n as their father. */
  ghost predicate Owned(z: seq<Entry>, lo: int, hi: int, n: Node)
    requires 0 <= lo <= hi <= |z|
    reads Children(z)`father
  {
    forall i :: lo <= i < hi ==> z[i].v.Ptr? && z[i].v.node.father == n
  }

  /** Slot i of Right, which is entry m of z, becomes the last slot of Left. */
  method TakeSlot(Left: Node, Right: Node, i: nat, ghost z: seq<Entry>, ghost m: nat)
    requires Left != Right && m < |z| && m < M + 1 && Left.Holds(z[..m]) && m < M
    requires i < |Right.key| && i < |Right.child| && Right.key[i] == z[m].k && Right.child[i] == z[m].v
    requires Left.isLeaf || (Apart(z) && Owned(z, 0, m, Left) && Owned(z, m, |z|, Right))
    modifies Left`key, Left`child, Left`keyNum, Children(z)`father
    ensures Left.Holds(z[..m + 1])
    ensures !Left.isLeaf ==> Owned(z, 0, m + 1, Left) && Owned(z, m + 1, |z|, Right)
  {
    Left.key := Left.key[Left.keyNum := Right.key[i]];
    Left.child := Left.child[Left.keyNum := Right.child[i]];
    if !Left.isLeaf {
      var temp := Right.child[i].node;
      temp.father := Left;
    }
    Left.keyNum := Left.keyNum + 1;
  }

  /** The merging loop of Redistribute: Left takes over every slot of Right. */
  method Absorb(Left: Node, Right: Node, ghost z: seq<Entry>, ghost m: nat)
    requires Left != Right && m <= |z| <= M && Left.Holds(z[..m]) && Right.Holds(z[m..])
    requires Left.isLeaf || (Apart(z) && Owned(z, 0, m, Left) && Owned(z, m, |z|, Right))
    modifies Left`key, Left`child, Left`keyNum, Children(z)`father
    ensures Left.Holds(z) && (!Left.isLeaf ==> Owned(z, 0, |z|, Left))
  {
    var i := 0;
    while i < Right.keyNum
      invariant 0 <= i <= |z| - m
      invariant Left.Holds(z[..m + i]) && Right.Holds(z[m..])
      invariant !Left.isLeaf ==> Owned(z, 0, m + i, Left) && Owned(z, m + i, |z|, Right)
    {
      assert z[m..][i] == z[m + i];
      TakeSlot(Left, Right, i, z, m + i);
      i := i + 1;
    }
    assert z[..|z|] == z;
  }

  /** Resort: even out two neighbours that together hold z; the left one gets the smaller half. */
  method Resort(Left: Node, Right: Node, ghost z: seq<Entry>, ghost m: nat)
    requires Left != Right && m <= |z| <= 2 * M && Left.Holds(z[..m]) && Right.Holds(z[m..])
    requires Left.isLeaf == Right.isLeaf
    requires Left.isLeaf || (Apart(z) && Owned(z, 0, m, Left) && Owned(z, m, |z|, Right))
    modifies Left`key, Left`child, Left`keyNum, Right`key, Right`child, Right`keyNum, Children(z)`father
    ensures Left.Holds(z[..|z| / 2]) && Right.Holds(z[|z| / 2..])
    ensures !Left.isLeaf ==> Owned(z, 0, |z| / 2, Left) && Owned(z, |z| / 2, |z|, Right)
  {
    if Left.keyNum < Right.keyNum {
      TakeFromRight(Left, Right, z, m);
    } else {
      GiveToRight(Left, Right, z, m);
    }
  }

  /** The first loop of Resort: Left takes slots from the front of Right until it has leftSize. */
  method TakeUntil(Left: Node, Right: Node, leftSize: nat, ghost z: seq<Entry>, ghost m: nat) returns (i: nat)
    requires Left != Right && m <= leftSize <= M && leftSize <= |z| && Left.Holds(z[..m]) && Right.Holds(z[m..])
    requires Left.isLeaf || (Apart(z) && Owned(z, 0, m, Left) && Owned(z, m, |z|, Right))
    modifies Left`key, Left`child, Left`keyNum, Children(z)`father
    ensures i == leftSize - m && Left.Holds(z[..leftSize])
    ensures !Left.isLeaf ==> Owned(z, 0, leftSize, Left) && Owned(z, leftSize, |z|, Right)
  {
    hide Owned, Apart;
    i := 0;
    while Left.keyNum < leftSize
      invariant 0 <= i && m + i == Left.keyNum <= leftSize
      invariant Left.Holds(z[..m + i]) && Right.Holds(z[m..])
      invariant !Left.isLeaf ==> Owned(z, 0, m + i, Left) && Owned(z, m + i, |z|, Right)
    {
      assert z[m..][i] == z[m + i];
      TakeSlot(Left, Right, i, z, m + i);
      i := i + 1;
    }
  }

  /** The first branch of Resort: the front of Right moves to the end of Left, then Right is compacted. */
  method TakeFromRight(Left: Node, Right: Node, ghost z: seq<Entry>, ghost m: nat)
    requires Left != Right && 2 * m < |z| <= 2 * M && Left.Holds(z[..m]) && Right.Holds(z[m..])
    requires Left.isLeaf || (Apart(z) && Owned(z, 0, m, Left) && Owned(z, m, |z|, Right))
    modifies Left`key, Left`child, Left`keyNum, Right`key, Right`child, Right`keyNum, Children(z)`father
    ensures Left.Holds(z[..|z| / 2]) && Right.Holds(z[|z| / 2..])
    ensures !Left.isLeaf ==> Owned(z, 0, |z| / 2, Left) && Owned(z, |z| / 2, |z|, Right)
  {
    hide Owned, Apart;
    var total := Left.keyNum + Right.keyNum;
    var leftSize := total / 2;
    var i := TakeUntil(Left, Right, leftSize, z, m);
    assert z[leftSize..] == z[m..][i..];
    Compact(Right, i, z[m..]);
  }

  /** The loop that moves what is left of a node to its front. */
  method Compact(Right: Node, m: nat, ghost y: seq<Entry>)
    requires Right.Holds(y) && m <= |y|
    modifies Right`key, Right`child, Right`keyNum
    ensures Right.Holds(y[m..])
  {
    var i, j := m, 0;
    while i < Right.keyNum
      invariant m <= i <= |y| == Right.keyNum && j == i - m
      invariant |Right.key| == M + 1 && |Right.child| == M + 2
      invariant forall t :: 0 <= t < j ==> Right.key[t] == y[m + t].k && Right.child[t] == y[m + t].v
      invariant forall t :: i <= t < |y| ==> Right.key[t] == y[t].k && Right.child[t] == y[t].v
    {
      Right.key := Right.key[j := Right.key[i]];
      Right.child := Right.child[j := Right.child[i]];
      i := i + 1;
      j := j + 1;
    }
    Right.keyNum := j;
  }

  /** Slot i of Left, which is entry i of z, is copied to slot j of Right. */
  method GiveSlot(Left: Node, Right: Node, i: nat, j: nat, ghost z: seq<Entry>, ghost lo: nat, ghost hi: nat)
    requires Left != Right && lo <= i < hi <= |z| && j <= M && |Right.key| == M + 1 && |Right.child| == M + 2
    requires i < |Left.key| && i < |Left.child| && Left.key[i] == z[i].k && Left.child[i] == z[i].v
    requires Right.isLeaf || (Apart(z) && Owned(z, 0, lo, Left) && Owned(z, lo, i, Right) && Owned(z, i, hi, Left)
        && Owned(z, hi, |z|, Right))
    modifies Right`key, Right`child, Children(z)`father
    ensures Right.key == old(Right.key)[j := z[i].k] && Right.child == old(Right.child)[j := z[i].v]
    ensures !Right.isLeaf ==>
      Owned(z, 0, lo, Left) && Owned(z, lo, i + 1, Right) && Owned(z, i + 1, hi, Left) && Owned(z, hi, |z|, Right)
  {
    Right.key := Right.key[j := Left.key[i]];
    Right.child := Right.child[j := Left.child[i]];
    if !Right.isLeaf {
      var temp := Left.child[i].node;
      temp.father := Right;
    }
  }

  /** The last loop of Resort: the slots of Left from leftSize on are copied to the front of Right. */
  method GiveFrom(Left: Node, Right: Node, leftSize: nat, ghost z: seq<Entry>, ghost m: nat)
    requires Left != Right && leftSize <= m <= |z| && Left.Holds(z[..m]) && |z| - leftSize <= M
    requires Left.isLeaf == Right.isLeaf && |Right.key| == M + 1 && |Right.child| == M + 2
    requires Left.isLeaf || (Apart(z) && Owned(z, 0, m, Left) && Owned(z, m, |z|, Right))
    modifies Right`key, Right`child, Children(z)`father
    ensures |Right.key| == M + 1 && |Right.child| == M + 2
    ensures forall t :: 0 <= t < m - leftSize ==>
      Right.key[t] == z[leftSize + t].k && Right.child[t] == z[leftSize + t].v
    ensures forall t :: m - leftSize <= t <= M ==>
      Right.key[t] == old(Right.key[t]) && Right.child[t] == old(Right.child[t])
    ensures !Left.isLeaf ==> Owned(z, 0, leftSize, Left) && Owned(z, leftSize, |z|, Right)
  {
    hide Apart;
    var i, j := leftSize, 0;
    while i < Left.keyNum
      invariant leftSize <= i <= m == Left.keyNum && j == i - leftSize
      invariant Left.Holds(z[..m]) && |Right.key| == M + 1 && |Right.child| == M + 2
      invariant forall t :: 0 <= t < j ==> Right.key[t] == z[leftSize + t].k && Right.child[t] == z[leftSize + t].v
      invariant forall t :: j <= t <= M ==> Right.key[t] == old(Right.key[t]) && Right.child[t] == old(Right.child[t])
      invariant !Left.isLeaf ==>
        Owned(z, 0, leftSize, Left) && Owned(z, leftSize, i, Right) && Owned(z, i, m, Left) && Owned(z, m, |z|, Right)
    {
      assert z[..m][i] == z[i];
      GiveSlot(Left, Right, i, j, z, leftSize, m);
      j := j + 1;
      i := i + 1;
    }
  }

  /** The second branch of Resort: Right makes room and takes the end of Left. */
  method GiveToRight(Left: Node, Right: Node, ghost z: seq<Entry>, ghost m: nat)
    requires Left != Right && m <= |z| <= 2 * m && Left.Holds(z[..m]) && Right.Holds(z[m..]) && |z| - |z| / 2 <= M
    requires Left.isLeaf == Right.isLeaf
    requires Left.isLeaf || (Apart(z) && Owned(z, 0, m, Left) && Owned(z, m, |z|, Right))
    modifies Left`keyNum, Right`key, Right`child, Right`keyNum, Children(z)`father
    ensures Left.Holds(z[..|z| / 2]) && Right.Holds(z[|z| / 2..])
    ensures !Left.isLeaf ==> Owned(z, 0, |z| / 2, Left) && Owned(z, |z| / 2, |z|, Right)
  {
    hide Owned, Apart;
    var total := Left.keyNum + Right.keyNum;
    var leftSize := total / 2;
    var move := Left.keyNum - leftSize;
    MakeRoom(Right, move, z[m..]);
    GiveFrom(Left, Right, leftSize, z, m);
    forall t | m - leftSize <= t < |z| - leftSize
      ensures Right.key[t] == z[leftSize + t].k && Right.child[t] == z[leftSize + t].v
    {
      assert z[m..][t - move] == z[leftSize + t];
    }
    Left.keyNum := leftSize;
    Right.keyNum := total - leftSize;
  }

  /** The loop that shifts a node's slots up by move places. */
  method MakeRoom(Right: Node, move: nat, ghost y: seq<Entry>)
    requires Right.Holds(y) && |y| + move <= M + 1
    modifies Right`key, Right`child
    ensures |Right.key| == M + 1 && |Right.child| == M + 2
    ensures forall t :: 0 <= t < |y| ==> Right.key[t + move] == y[t].k && Right.child[t + move] == y[t].v
  {
    var i := Right.keyNum - 1;
    while i >= 0
      invariant -1 <= i < |y| && |Right.key| == M + 1 && |Right.child| == M + 2
      invariant forall t :: 0 <= t <= i ==> Right.key[t] == y[t].k && Right.child[t] == y[t].v
      invariant forall t :: i < t < |y| ==> Right.key[t + move] == y[t].k && Right.child[t + move] == y[t].v
    {
      Right.key := Right.key[i + move := Right.key[i]];
      Right.child := Right.child[i + move := Right.child[i]];
      i := i - 1;
    }
  }
}
