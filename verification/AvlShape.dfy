/** The nodes of Tree/avl.c, and what it means that they form a balanced search tree. */
module AvlShape {

  class Node {
    var left: Node?
    var right: Node?
    var parent: Node?
    var balance: int
    const key: int                 // nodes compare like their keys

    constructor (key: int)
      ensures this.key == key && left == right == parent == null && balance == 0
    {
      this.key := key;
      left, right, parent, balance := null, null, null, 0;
    }
  }

  /** The tree the nodes are meant to form. */
  datatype Tree = Nil | Fork(left: Tree, node: Node, right: Tree)

  /** A tree with a hole: the path from the hole up to the root, with what hangs off it. */
  datatype Context = Top | InLeft(up: Context, node: Node, right: Tree) | InRight(up: Context, left: Tree, node: Node)

  ghost function Root(t: Tree): Node?
  {
    if t.Nil? then null else t.node
  }

  ghost function Nodes(t: Tree): set<Node>
  {
    if t.Nil? then {} else Nodes(t.left) + {t.node} + Nodes(t.right)
  }

  ghost function Max(a: int, b: int): int
  {
    if a < b then b else a
  }

  /** The height of a tree; -1 if it is empty. */
  ghost function Height(t: Tree): (h: int)
    ensures h >= -1 && (h == -1 <==> t.Nil?)
  {
    if t.Nil? then -1 else 1 + Max(Height(t.left), Height(t.right))
  }

  ghost function InOrder(t: Tree): seq<Node>
  {
    if t.Nil? then [] else InOrder(t.left) + [t.node] + InOrder(t.right)
  }

  /** All links of t are right, p being the parent of its root. */
  ghost predicate Linked(t: Tree, p: Node?)
    reads Nodes(t)`left, Nodes(t)`right, Nodes(t)`parent
  {
    t.Fork? ==>
      && t.node.left == Root(t.left) && t.node.right == Root(t.right) && t.node.parent == p
      && t.node !in Nodes(t.left) && t.node !in Nodes(t.right) && Nodes(t.left) !! Nodes(t.right)
      && Linked(t.left, t.node) && Linked(t.right, t.node)
  }

  /** Every balance field is the difference of the heights, and that is at most one. */
  ghost predicate Balanced(t: Tree)
    reads Nodes(t)`balance
  {
    t.Fork? ==>
      && t.node.balance == Height(t.right) - Height(t.left) && -1 <= t.node.balance <= 1
      && Balanced(t.left) && Balanced(t.right)
  }

  // ---- trees with a hole ----

  ghost function Plug(c: Context, t: Tree): Tree
  {
    match c
    case Top => t
    case InLeft(up, n, r) => Plug(up, Fork(t, n, r))
    case InRight(up, l, n) => Plug(up, Fork(l, n, t))
  }

  ghost function Around(c: Context): set<Node>
  {
    match c
    case Top => {}
    case InLeft(up, n, r) => Around(up) + {n} + Nodes(r)
    case InRight(up, l, n) => Around(up) + {n} + Nodes(l)
  }

  /** The parent of what fills the hole, if p is the parent of the whole. */
  ghost function ParentIn(c: Context, p: Node?): Node?
  {
    if c.Top? then p else c.node
  }

  /** The root of the whole, if f is the root of what fills the hole. */
  ghost function RootOf(c: Context, f: Node?): Node?
  {
    if c.Top? then f else RootOf(c.up, c.node)
  }

  /** The links around the hole are right, f being the root of what fills it. */
  ghost predicate Embeds(c: Context, f: Node?, p: Node?)
    reads Around(c)`left, Around(c)`right, Around(c)`parent
  {
    match c
    case Top => true
    case InLeft(up, n, r) =>
      && n.left == f && n.right == Root(r) && n.parent == ParentIn(up, p)
      && n !in Nodes(r) && n !in Around(up) && Nodes(r) !! Around(up)
      && Linked(r, n) && Embeds(up, n, p)
    case InRight(up, l, n) =>
      && n.left == Root(l) && n.right == f && n.parent == ParentIn(up, p)
      && n !in Nodes(l) && n !in Around(up) && Nodes(l) !! Around(up)
      && Linked(l, n) && Embeds(up, n, p)
  }

  ghost function Sibling(c: Context): Tree
    requires !c.Top?
  {
    if c.InLeft? then c.right else c.left
  }

  /** The subtree above the hole, when s fills it. */
  ghost function Filled(c: Context, s: Tree): (r: Tree)
    requires !c.Top?
    ensures r.Fork? && r.node == c.node
  {
    if c.InLeft? then Fork(s, c.node, c.right) else Fork(c.left, c.node, s)
  }

  /** The balance of the node above the hole, when h is the height of what fills it. */
  ghost function Difference(c: Context, h: int): int
    requires !c.Top?
  {
    if c.InLeft? then Height(c.right) - h else h - Height(c.left)
  }

  ghost function HeightOver(c: Context, h: int): int
    requires !c.Top?
  {
    if c.InLeft? then 1 + Max(h, Height(c.right)) else 1 + Max(Height(c.left), h)
  }

  /** The balances around the hole are right, h being the height of what fills it. */
  ghost predicate BalancedAround(c: Context, h: int)
    reads Around(c)`balance
  {
    c.Top? ||
    (c.node.balance == Difference(c, h) && -1 <= c.node.balance <= 1 && Balanced(Sibling(c))
        && BalancedAround(c.up, HeightOver(c, h)))
  }

  ghost function HeightAround(c: Context, h: int): int
  {
    if c.Top? then h else HeightAround(c.up, HeightOver(c, h))
  }

  ghost function Before(c: Context): seq<Node>
  {
    match c
    case Top => []
    case InLeft(up, n, r) => Before(up)
    case InRight(up, l, n) => Before(up) + InOrder(l) + [n]
  }

  ghost function After(c: Context): seq<Node>
  {
    match c
    case Top => []
    case InLeft(up, n, r) => [n] + InOrder(r) + After(up)
    case InRight(up, l, n) => After(up)
  }

  lemma {:induction false} PlugOrder(c: Context, t: Tree)
    ensures InOrder(Plug(c, t)) == Before(c) + InOrder(t) + After(c)
    decreases c
  {
    match c
    case Top =>
    case InLeft(up, n, r) =>
      PlugOrder(up, Fork(t, n, r));
      Regroup(Before(up), InOrder(t), [n], InOrder(r), After(up));
    case InRight(up, l, n) =>
      PlugOrder(up, Fork(l, n, t));
      Regroup(Before(up), InOrder(l), [n], InOrder(t), After(up));
  }

  lemma Regroup(a: seq<Node>, b: seq<Node>, x: seq<Node>, d: seq<Node>, e: seq<Node>)
    ensures a + (b + x + d) + e == a + b + (x + d + e) == (a + b + x) + d + e
  {
  }

  lemma {:induction false} PlugNodes(c: Context, t: Tree)
    ensures Nodes(Plug(c, t)) == Nodes(t) + Around(c)
    ensures Root(Plug(c, t)) == RootOf(c, Root(t))
    decreases c
  {
    match c
    case Top =>
    case InLeft(up, n, r) => PlugNodes(up, Fork(t, n, r));
    case InRight(up, l, n) => PlugNodes(up, Fork(l, n, t));
  }

  /** The links of the whole are right exactly if those of the filling and those around the hole are. */
  lemma {:induction false} PlugLinked(c: Context, t: Tree, p: Node?)
    ensures Linked(Plug(c, t), p) <==> Linked(t, ParentIn(c, p)) && Embeds(c, Root(t), p) && Nodes(t) !! Around(c)
    decreases c
  {
    match c
    case Top =>
    case InLeft(up, n, r) => PlugLinked(up, Fork(t, n, r), p);
    case InRight(up, l, n) => PlugLinked(up, Fork(l, n, t), p);
  }

  lemma {:induction false} PlugBalanced(c: Context, t: Tree)
    ensures Balanced(Plug(c, t)) <==> Balanced(t) && BalancedAround(c, Height(t))
    ensures Height(Plug(c, t)) == HeightAround(c, Height(t))
    decreases c
  {
    if !c.Top? {
      hide Balanced, Height;
      FilledBalanced(c, t);
      PlugBalanced(c.up, Filled(c, t));
    }
  }

  lemma FilledBalanced(c: Context, t: Tree)
    requires !c.Top?
    ensures Balanced(Filled(c, t)) <==>
      Balanced(t) && Balanced(Sibling(c)) && c.node.balance == Difference(c, Height(t)) && -1 <= c.node.balance <= 1
    ensures Height(Filled(c, t)) == HeightOver(c, Height(t))
  {
  }

  lemma {:induction false} InOrderNodes(t: Tree)
    ensures forall n :: n in Nodes(t) <==> n in InOrder(t)
  {
    if t.Fork? {
      InOrderNodes(t.left);
      InOrderNodes(t.right);
    }
  }

  /** A fork taken apart. */
  lemma Unfold(s: Tree, p: Node?)
    requires s.Fork? && Linked(s, p)
    ensures s.node.left == Root(s.left) && s.node.right == Root(s.right) && s.node.parent == p
    ensures s.node !in Nodes(s.left) && s.node !in Nodes(s.right) && Nodes(s.left) !! Nodes(s.right)
    ensures Linked(s.left, s.node) && Linked(s.right, s.node)
    ensures Nodes(s) == Nodes(s.left) + {s.node} + Nodes(s.right)
  {
  }

  /** And put together. */
  lemma Fold(l: Tree, n: Node, r: Tree, p: Node?)
    requires n.left == Root(l) && n.right == Root(r) && n.parent == p
    requires n !in Nodes(l) && n !in Nodes(r) && Nodes(l) !! Nodes(r) && Linked(l, n) && Linked(r, n)
    ensures Linked(Fork(l, n, r), p) && Nodes(Fork(l, n, r)) == Nodes(l) + {n} + Nodes(r)
  {
  }

  lemma BalancedFork(l: Tree, n: Node, r: Tree)
    requires Balanced(l) && Balanced(r) && n.balance == Height(r) - Height(l) && -1 <= n.balance <= 1
    ensures Balanced(Fork(l, n, r))
  {
  }

  lemma BalancedParts(s: Tree)
    requires s.Fork? && Balanced(s)
    ensures Balanced(s.left) && Balanced(s.right) && s.node.balance == Height(s.right) - Height(s.left)
      && -1 <= s.node.balance <= 1
  {
  }

  lemma ForkHeight(l: Tree, n: Node, r: Tree)
    ensures Height(Fork(l, n, r)) == 1 + Max(Height(l), Height(r))
  {
  }

  // ---- one step up from the hole ----

  lemma StepUp(c: Context, s: Tree)
    requires !c.Top?
    ensures Plug(c.up, Filled(c, s)) == Plug(c, s)
    ensures Height(Filled(c, s)) == HeightOver(c, Height(s))
    ensures Nodes(Filled(c, s)) == Nodes(s) + {c.node} + Nodes(Sibling(c))
    ensures Around(c) == Around(c.up) + {c.node} + Nodes(Sibling(c))
    ensures forall h :: HeightAround(c, h) == HeightAround(c.up, HeightOver(c, h))
  {
  }

  lemma AroundParts(c: Context, h: int)
    requires !c.Top? && BalancedAround(c, h)
    ensures c.node.balance == Difference(c, h) && -1 <= c.node.balance <= 1
    ensures Balanced(Sibling(c)) && BalancedAround(c.up, HeightOver(c, h))
  {
  }

  lemma EmbedParts(c: Context, f: Node?, p: Node?)
    requires !c.Top? && Embeds(c, f, p)
    ensures c.node.parent == ParentIn(c.up, p) && Embeds(c.up, c.node, p) && Linked(Sibling(c), c.node)
    ensures c.node !in Nodes(Sibling(c)) && c.node !in Around(c.up) && Nodes(Sibling(c)) !! Around(c.up)
    ensures if c.InLeft? then c.node.left == f && c.node.right == Root(c.right)
      else c.node.right == f && c.node.left == Root(c.left)
  {
  }

  // ---- a hole in the filling of a hole ----

  ghost function Join(c: Context, d: Context): Context
  {
    match c
    case Top => d
    case InLeft(up, n, r) => InLeft(Join(up, d), n, r)
    case InRight(up, l, n) => InRight(Join(up, d), l, n)
  }

  lemma {:induction false} JoinPlug(c: Context, d: Context, t: Tree)
    ensures Plug(Join(c, d), t) == Plug(d, Plug(c, t))
    ensures Around(Join(c, d)) == Around(c) + Around(d)
    decreases c
  {
    match c
    case Top =>
    case InLeft(up, n, r) => JoinPlug(up, d, Fork(t, n, r));
    case InRight(up, l, n) => JoinPlug(up, d, Fork(l, n, t));
  }

  lemma {:induction false} JoinEmbeds(c: Context, d: Context, f: Node?, p: Node?)
    requires Embeds(c, f, ParentIn(d, p)) && Embeds(d, RootOf(c, f), p) && Around(c) !! Around(d)
    ensures Embeds(Join(c, d), f, p) && RootOf(Join(c, d), f) == RootOf(d, RootOf(c, f))
    ensures ParentIn(Join(c, d), p) == if c.Top? then ParentIn(d, p) else c.node
    decreases c
  {
    if !c.Top? {
      JoinPlug(c.up, d, Nil);
      JoinEmbeds(c.up, d, c.node, p);
    }
  }

  lemma {:induction false} JoinBalanced(c: Context, d: Context, h: int)
    requires BalancedAround(c, h) && BalancedAround(d, HeightAround(c, h))
    ensures BalancedAround(Join(c, d), h) && HeightAround(Join(c, d), h) == HeightAround(d, HeightAround(c, h))
    decreases c
  {
    if !c.Top? {
      hide Join, Height, Balanced, HeightOver, Difference, Sibling;
      JoinStep(c, d, h);
      JoinBalanced(c.up, d, HeightOver(c, h));
    } else {
      assert Join(c, d) == d;
    }
  }

  lemma JoinStep(c: Context, d: Context, h: int)
    requires !c.Top?
    ensures var e := Join(c, d);
      && !e.Top? && e.up == Join(c.up, d) && e.node == c.node && Sibling(e) == Sibling(c)
      && HeightOver(e, h) == HeightOver(c, h) && Difference(e, h) == Difference(c, h)
  {
  }

  // ---- search trees ----

  ghost predicate Sorted(s: seq<Node>)
  {
    forall i, j :: 0 <= i < j < |s| ==> s[i].key < s[j].key
  }

  lemma SortedParts(a: seq<Node>, b: seq<Node>)
    requires Sorted(a + b)
    ensures Sorted(a) && Sorted(b)
    ensures forall i, j :: 0 <= i < |a| && 0 <= j < |b| ==> a[i].key < b[j].key
  {
    var s := a + b;
    forall i, j | 0 <= i < |a| && 0 <= j < |b| ensures a[i].key < b[j].key {
      assert s[i] == a[i] && s[|a| + j] == b[j];
    }
    forall i, j | 0 <= i < j < |a| ensures a[i].key < a[j].key {
      assert s[i] == a[i] && s[j] == a[j];
    }
    forall i, j | 0 <= i < j < |b| ensures b[i].key < b[j].key {
      assert s[|a| + i] == b[i] && s[|a| + j] == b[j];
    }
  }

  /** A new node between two parts that are below and above it. */
  lemma SortedInsert(a: seq<Node>, x: Node, b: seq<Node>)
    requires Sorted(a + b)
    requires (forall i :: 0 <= i < |a| ==> a[i].key < x.key) && (forall i :: 0 <= i < |b| ==> x.key < b[i].key)
    ensures Sorted(a + [x] + b)
  {
    SortedParts(a, b);
  }

  // ---- how many nodes a tree of some height needs ----

  ghost function Fib(n: nat): nat
  {
    if n < 2 then n else Fib(n - 1) + Fib(n - 2)
  }

  lemma {:induction false} FibGrows(m: nat, n: nat)
    requires m <= n
    ensures Fib(m) <= Fib(n)
    decreases n - m
  {
    if m < n {
      FibGrows(m, n - 1);
    }
  }

  /** The numbers more than double every other step, starting from 1 and 1. */
  lemma {:induction false} FibDoubles(n: nat)
    requires n > 0
    ensures Fib(1) == Fib(2) == 1 && Fib(n + 2) == Fib(n + 1) + Fib(n)
    ensures Fib(n + 2) >= 2 * Fib(n) > 0
  {
    assert Fib(2) == 1;
    if n > 2 {
      FibDoubles(n - 2);
    }
    FibGrows(n, n + 1);
  }

  /** A balanced tree of height h (-1 when empty) has at least Fib(h + 3) - 1 nodes. */
  lemma {:induction false} FibonacciBound(t: Tree)
    requires Balanced(t)
    ensures |InOrder(t)| >= Fib(Height(t) + 3) - 1
  {
    if t.Nil? {
      assert Fib(2) == 1;
    } else {
      hide Fib, Balanced, Max, InOrder;
      FibonacciBound(t.left);
      FibonacciBound(t.right);
      BalancedParts(t);
      ForkSize(t.left, t.node, t.right);
      ForkHeight(t.left, t.node, t.right);
      FibStep(Height(t.left), Height(t.right));
    }
  }

  lemma ForkSize(l: Tree, n: Node, r: Tree)
    ensures |InOrder(Fork(l, n, r))| == |InOrder(l)| + 1 + |InOrder(r)|
  {
  }

  lemma FibStep(a: int, b: int)
    requires a >= -1 && b >= -1 && -1 <= b - a <= 1
    ensures Fib(a + 3) + Fib(b + 3) >= Fib(Max(a, b) + 4)
  {
    FibGrows(Max(a, b) + 2, a + 3);
    FibGrows(Max(a, b) + 2, b + 3);
  }
}
