/** The operations of Tree/avl.c, in the form with separate parent and balance fields. */
module AvlTrees {
  import opened AvlShape

  ghost function First(s: seq<Node>): Node?
  {
    if s == [] then null else s[0]
  }

  ghost function Last(s: seq<Node>): Node?
  {
    if s == [] then null else s[|s| - 1]
  }

  /** The tree after a left rotation at its root. */
  ghost function RotatedLeft(s: Tree): (r: Tree)
    requires s.Fork? && s.right.Fork?
    ensures Nodes(r) == Nodes(s) && InOrder(r) == InOrder(s) && r.Fork?
  {
    RotationOrder(s.left, s.node, s.right.left, s.right.node, s.right.right);
    Fork(Fork(s.left, s.node, s.right.left), s.right.node, s.right.right)
  }

  ghost function RotatedRight(s: Tree): (r: Tree)
    requires s.Fork? && s.left.Fork?
    ensures Nodes(r) == Nodes(s) && InOrder(r) == InOrder(s) && r.Fork?
  {
    RotationOrder(s.left.left, s.left.node, s.left.right, s.node, s.right);
    Fork(s.left.left, s.left.node, Fork(s.left.right, s.node, s.right))
  }

  lemma RotationOrder(a: Tree, p: Node, b: Tree, q: Node, d: Tree)
    ensures InOrder(Fork(a, p, Fork(b, q, d))) == InOrder(Fork(Fork(a, p, b), q, d))
  {
    var x, y, z := InOrder(a), InOrder(b), InOrder(d);
    assert x + [p] + (y + [q] + z) == (x + [p] + y) + [q] + z;
  }

  lemma Exist(b: Tree)
    ensures forall n :: n in Nodes(b) ==> allocated(n)
  {
    assert allocated(Nodes(b));
  }

  lemma ExistAround(c: Context)
    ensures forall n :: n in Around(c) ==> allocated(n)
  {
    assert allocated(Around(c));
  }

  lemma ExistAll(c: Context, s: Tree)
    ensures forall n :: n in Nodes(s) ==> allocated(n)
    ensures forall n :: n in Around(c) ==> allocated(n)
  {
    Exist(s);
    ExistAround(c);
  }

  lemma AroundRight(c: Context, l: Tree, n: Node)
    ensures Around(InRight(c, l, n)) == Around(c) + {n} + Nodes(l)
  {
  }

  lemma AroundLeft(c: Context, n: Node, r: Tree)
    ensures Around(InLeft(c, n, r)) == Around(c) + {n} + Nodes(r)
  {
  }

  lemma OrderFork(l: Tree, n: Node, r: Tree, r': Tree)
    requires InOrder(r') == InOrder(r) && Nodes(r') == Nodes(r)
    ensures InOrder(Fork(l, n, r')) == InOrder(Fork(l, n, r)) && Nodes(Fork(l, n, r')) == Nodes(Fork(l, n, r))
    ensures InOrder(Fork(r', n, l)) == InOrder(Fork(r, n, l)) && Nodes(Fork(r', n, l)) == Nodes(Fork(r, n, l))
  {
  }

  lemma RootInNodes(b: Tree)
    ensures b.Fork? ==> b.node in Nodes(b)
  {
  }

  /** The node above the hole is not one of those elsewhere around it. */
  lemma HoleOutside(c: Context, f: Node?, p: Node?)
    requires Embeds(c, f, p)
    ensures !c.Top? ==> c.node in Around(c)
  {
  }

  /** Up from the hole of c to u every balance is zero, and u's own is not, or u is the root. */
  ghost predicate ZeroUpTo(c: Context, u: Node)
    reads Around(c)`balance
  {
    !c.Top? && if c.node == u then c.node.balance != 0 || c.up.Top? else c.node.balance == 0 && ZeroUpTo(c.up, u)
  }

  lemma ZeroWithin(c: Context, u: Node)
    requires ZeroUpTo(c, u)
    ensures u in Around(c)
  {
  }

  /** The topmost node around the hole gets another parent. */
  twostate lemma Reparented(new c: Context, new f: Node?, new p: Node?, new q: Node?, new o: Node)
    requires old(allocated(c) && allocated(f) && allocated(p) && allocated(q) && allocated(o))
    requires !c.Top? && o == RootOf(c, f) && old(Embeds(c, f, p))
    requires forall n :: n in Around(c) ==> old(allocated(n))
    requires o.parent == q && o.left == old(o.left) && o.right == old(o.right)
    requires forall n :: n in Around(c) && n != o ==>
      n.left == old(n.left) && n.right == old(n.right) && n.parent == old(n.parent)
    ensures Embeds(c, f, q)
    decreases c
  {
    TopmostAround(c, f);
    if c.up.Top? {
      assert Linked(Sibling(c), c.node);
    } else {
      TopmostAround(c.up, c.node);
      Reparented(c.up, c.node, p, q, o);
    }
  }

  lemma TopmostAround(c: Context, f: Node?)
    requires !c.Top?
    ensures RootOf(c, f) != null && RootOf(c, f) in Around(c)
      && (if c.up.Top? then RootOf(c, f) == c.node
          else RootOf(c, f) == RootOf(c.up, c.node) && RootOf(c, f) in Around(c.up))
    decreases c
  {
    if !c.up.Top? {
      TopmostAround(c.up, c.node);
    }
  }

  class AvlTree {
    var root: Node?
    var first: Node?
    var last: Node?
    var height: int
    ghost var t: Tree
    ghost var turns: nat           // how many rotations there were

    /** Subtree s fills the hole of c, and together they are what hangs below the root. */
    ghost predicate Holds(c: Context, s: Tree)
      reads `root, Around(c)`left, Around(c)`right, Around(c)`parent, Nodes(s)`left, Nodes(s)`right, Nodes(s)`parent
    {
      Linked(s, ParentIn(c, null)) && Embeds(c, Root(s), null) && Nodes(s) !! Around(c) && root == RootOf(c, Root(s))
    }

    /** A balanced search tree hangs below the root. */
    ghost predicate Shaped()
      reads `t, `root, Nodes(t)
    {
      Linked(t, null) && root == Root(t) && Balanced(t) && Sorted(InOrder(t))
    }

    ghost predicate Valid()
      reads this, Nodes(t)
    {
      Shaped() && height == Height(t) && first == First(InOrder(t)) && last == Last(InOrder(t))
    }

    /** The nodes, in key order. */
    ghost function Elements(): seq<Node>
      reads `t
    {
      InOrder(t)
    }

    /** avltree_init. */
    constructor ()
      ensures Valid() && Elements() == []
    {
      root, first, last, height, t, turns := null, null, null, -1, Nil, 0;
    }

    /** Where p hung below its parent, or was the root, q hangs now. */
    method Attach(parent: Node?, p: Node, q: Node?, ghost c: Context)
      requires Embeds(c, p, null) && parent == ParentIn(c, null) && root == RootOf(c, p) && p !in Around(c)
      modifies `root, (if c.Top? then {} else {c.node})`left, (if c.Top? then {} else {c.node})`right
      ensures Embeds(c, q, null) && root == RootOf(c, q)
    {
      if parent != null {
        if parent.left == p {
          parent.left := q;
        } else {
          parent.right := q;
        }
      } else {
        root := q;
      }
    }

    /** set_parent on the root of a subtree, if there is one. */
    static method Adopt(child: Node?, p: Node?, ghost b: Tree, ghost before: Node?)
      requires Linked(b, before) && child == Root(b)
      modifies (if b.Nil? then {} else {b.node})`parent
      ensures Linked(b, p)
    {
      if child != null {
        child.parent := p;
      }
    }

    /** The links between the two nodes of a left rotation and their subtrees. */
    static method SwingLeft(p: Node, q: Node, parent: Node?, ghost s: Tree)
      requires s.Fork? && s.node == p && s.right.Fork? && s.right.node == q && Linked(s, parent)
      modifies Nodes(s)`left, Nodes(s)`right, Nodes(s)`parent
      ensures Linked(RotatedLeft(s), parent)
    {
      hide Linked, Nodes;
      ghost var a, b, d := s.left, s.right.left, s.right.right;
      Unfold(s, parent);
      Unfold(s.right, p);
      RootInNodes(b);
      Exist(a);
      Exist(b);
      Exist(d);
      q.parent := parent;
      p.parent := q;
      p.right := q.left;
      Adopt(p.right, p, b, q);
      q.left := p;
      Fold(a, p, b, q);
      Fold(Fork(a, p, b), q, d, parent);
    }

    static method SwingRight(p: Node, q: Node, parent: Node?, ghost s: Tree)
      requires s.Fork? && s.node == p && s.left.Fork? && s.left.node == q && Linked(s, parent)
      modifies Nodes(s)`left, Nodes(s)`right, Nodes(s)`parent
      ensures Linked(RotatedRight(s), parent)
    {
      hide Linked, Nodes;
      ghost var a, b, d := s.left.left, s.left.right, s.right;
      Unfold(s, parent);
      Unfold(s.left, p);
      RootInNodes(b);
      Exist(a);
      Exist(b);
      Exist(d);
      q.parent := parent;
      p.parent := q;
      p.left := q.right;
      Adopt(p.left, p, b, q);
      q.right := p;
      Fold(b, p, d, q);
      Fold(a, q, Fork(b, p, d), parent);
    }

    /** rotate_left, for subtree s below the hole c. */
    method RotateLeft(node: Node, ghost c: Context, ghost s: Tree)
      requires s.Fork? && s.node == node && s.right.Fork? && Holds(c, s)
      modifies `root, `turns, Around(c)`left, Around(c)`right, Nodes(s)`left, Nodes(s)`right, Nodes(s)`parent
      ensures Holds(c, RotatedLeft(s))
      ensures turns == old(turns) + 1
    {
      hide Linked, Embeds, Nodes, Around, RootOf;
      Unfold(s, ParentIn(c, null));
      RootInNodes(s.right);
      HoleOutside(c, Root(s), null);
      Exist(s);
      ExistAround(c);
      var p := node;
      var q := node.right;
      var parent := p.parent;
      Attach(parent, p, q, c);
      SwingLeft(p, q, parent, s);
      turns := turns + 1;
    }

    method RotateRight(node: Node, ghost c: Context, ghost s: Tree)
      requires s.Fork? && s.node == node && s.left.Fork? && Holds(c, s)
      modifies `root, `turns, Around(c)`left, Around(c)`right, Nodes(s)`left, Nodes(s)`right, Nodes(s)`parent
      ensures Holds(c, RotatedRight(s))
      ensures turns == old(turns) + 1
    {
      hide Linked, Embeds, Nodes, Around, RootOf;
      Unfold(s, ParentIn(c, null));
      RootInNodes(s.left);
      HoleOutside(c, Root(s), null);
      Exist(s);
      ExistAround(c);
      var p := node;
      var q := node.left;
      var parent := p.parent;
      Attach(parent, p, q, c);
      SwingRight(p, q, parent, s);
      turns := turns + 1;
    }

    /** From a subtree to its children, and back. */
    lemma Descend(c: Context, s: Tree)
      requires s.Fork? && Holds(c, s)
      ensures Holds(InLeft(c, s.node, s.right), s.left) && Holds(InRight(c, s.left, s.node), s.right)
    {
    }

    lemma Ascend(c: Context, l: Tree, n: Node, r: Tree)
      ensures Holds(InLeft(c, n, r), l) ==> Holds(c, Fork(l, n, r))
      ensures Holds(InRight(c, l, n), r) ==> Holds(c, Fork(l, n, r))
    {
    }

    /** The balances a double rotation leaves: p and q end up below r, with a, b under p and e, d under q (or
        mirrored). */
    static method SetBalances(p: Node, q: Node, r: Node, ghost a: Tree, ghost b: Tree, ghost e: Tree, ghost d: Tree)
      requires p != q && p != r && q != r && Clear(p, q, r, a) && Clear(p, q, r, b) && Clear(p, q, r, e)
        && Clear(p, q, r, d)
      requires Balanced(a) && Balanced(b) && Balanced(e) && Balanced(d)
      requires r.balance == Height(e) - Height(b) && Height(d) == Height(a) == Max(Height(b), Height(e))
        && -1 <= r.balance <= 1
      modifies p`balance, q`balance, r`balance
      ensures var t := Fork(Fork(a, p, b), r, Fork(e, q, d)); Balanced(t) && Height(t) == Height(a) + 2
    {
      hide Balanced, Nodes, Height;
      if r.balance == 1 {
        p.balance := -1;
        q.balance := 0;
      } else if r.balance == 0 {
        p.balance := 0;
        q.balance := 0;
      } else {
        p.balance := 0;
        q.balance := 1;
      }
      r.balance := 0;
      BalancedFork(a, p, b);
      BalancedFork(e, q, d);
      ForkHeight(a, p, b);
      ForkHeight(e, q, d);
      BalancedFork(Fork(a, p, b), r, Fork(e, q, d));
      ForkHeight(Fork(a, p, b), r, Fork(e, q, d));
    }

    /** The right subtree is too high on its inner side: two rotations. */
    method DoubleLeft(node: Node, right: Node, ghost c: Context, ghost s: Tree) returns (ghost s': Tree)
      requires s.Fork? && s.node == node && s.right.Fork? && s.right.node == right && s.right.left.Fork? && Holds(c, s)
      requires Balanced(s.left) && Balanced(s.right.left) && Balanced(s.right.right)
      requires Height(s.right.left) == Height(s.left) + 1 && Height(s.right.right) == Height(s.left)
      modifies `root, `turns, Around(c)`left, Around(c)`right, Nodes(s)
      ensures Holds(c, s') && Balanced(s') && Height(s') == Height(s.left) + 2
      ensures Nodes(s') == Nodes(s) && InOrder(s') == InOrder(s)
      ensures turns == old(turns) + 2
    {
      hide Linked, Embeds, Nodes, Around, RootOf, Balanced, Height, InOrder;
      ghost var a, m, d := s.left, s.right.left, s.right.right;
      ghost var mid := Fork(a, node, RotatedRight(s.right));
      MiddleRight(c, s);
      AroundRight(c, a, node);
      ExistAll(c, s);
      OrderFork(a, node, s.right, RotatedRight(s.right));
      SetBalances(node, right, right.left, a, m.left, m.right, d);
      s' := RotatedLeft(mid);
      assert Nodes(s') == Nodes(s) && Balanced(s');
      Descend(c, s);
      RotateRight(right, InRight(c, a, node), s.right);
      Ascend(c, a, node, RotatedRight(s.right));
      RotateLeft(node, c, mid);
    }

    lemma MiddleRight(c: Context, s: Tree)
      requires s.Fork? && s.right.Fork? && s.right.left.Fork? && Holds(c, s) && Balanced(s.right.left)
      ensures var p, q, m := s.node, s.right.node, s.right.left;
        && q.left == m.node && p != q && p != m.node && q != m.node && {p, q, m.node} <= Nodes(s)
        && Nodes(s.right) <= Nodes(s) && Nodes(s.left) <= Nodes(s)
        && Clear(p, q, m.node, s.left) && Clear(p, q, m.node, m.left) && Clear(p, q, m.node, m.right)
        && Clear(p, q, m.node, s.right.right)
        && m.node.balance == Height(m.right) - Height(m.left) && -1 <= m.node.balance <= 1
        && Balanced(m.left) && Balanced(m.right) && Height(m) == 1 + Max(Height(m.left), Height(m.right))
    {
      hide Linked, Embeds, Nodes, Around, RootOf, Balanced;
      Unfold(s, ParentIn(c, null));
      Unfold(s.right, s.node);
      Unfold(s.right.left, s.right.node);
      BalancedParts(s.right.left);
    }

    ghost static predicate Clear(p: Node, q: Node, r: Node, t: Tree)
    {
      p !in Nodes(t) && q !in Nodes(t) && r !in Nodes(t)
    }

    /** The left subtree is too high on its inner side. */
    method DoubleRight(node: Node, left: Node, ghost c: Context, ghost s: Tree) returns (ghost s': Tree)
      requires s.Fork? && s.node == node && s.left.Fork? && s.left.node == left && s.left.right.Fork? && Holds(c, s)
      requires Balanced(s.right) && Balanced(s.left.right) && Balanced(s.left.left)
      requires Height(s.left.right) == Height(s.right) + 1 && Height(s.left.left) == Height(s.right)
      modifies `root, `turns, Around(c)`left, Around(c)`right, Nodes(s)
      ensures Holds(c, s') && Balanced(s') && Height(s') == Height(s.right) + 2
      ensures Nodes(s') == Nodes(s) && InOrder(s') == InOrder(s)
      ensures turns == old(turns) + 2
    {
      hide Linked, Embeds, Nodes, Around, RootOf, Balanced, Height, InOrder;
      ghost var a, m, d := s.right, s.left.right, s.left.left;
      ghost var mid := Fork(RotatedLeft(s.left), node, a);
      MiddleLeft(c, s);
      AroundLeft(c, node, a);
      ExistAll(c, s);
      OrderFork(a, node, s.left, RotatedLeft(s.left));
      SetBalances(left, node, left.right, d, m.left, m.right, a);
      s' := RotatedRight(mid);
      assert Nodes(s') == Nodes(s) && Balanced(s');
      Descend(c, s);
      RotateLeft(left, InLeft(c, node, a), s.left);
      Ascend(c, RotatedLeft(s.left), node, a);
      RotateRight(node, c, mid);
    }

    lemma MiddleLeft(c: Context, s: Tree)
      requires s.Fork? && s.left.Fork? && s.left.right.Fork? && Holds(c, s) && Balanced(s.left.right)
      ensures var p, q, m := s.node, s.left.node, s.left.right;
        && q.right == m.node && p != q && p != m.node && q != m.node && {p, q, m.node} <= Nodes(s)
        && Nodes(s.right) <= Nodes(s) && Nodes(s.left) <= Nodes(s)
        && Clear(q, p, m.node, s.right) && Clear(q, p, m.node, m.left) && Clear(q, p, m.node, m.right)
        && Clear(q, p, m.node, s.left.left)
        && m.node.balance == Height(m.right) - Height(m.left) && -1 <= m.node.balance <= 1
        && Balanced(m.left) && Balanced(m.right) && Height(m) == 1 + Max(Height(m.left), Height(m.right))
    {
      hide Linked, Embeds, Nodes, Around, RootOf, Balanced;
      Unfold(s, ParentIn(c, null));
      Unfold(s.left, s.node);
      Unfold(s.left.right, s.left.node);
      BalancedParts(s.left.right);
    }

    /** One left rotation, after which p and q = p.right have the balances bp and bq. */
    method SingleLeft(p: Node, q: Node, bp: int, bq: int, ghost c: Context, ghost s: Tree) returns (ghost s': Tree)
      requires s.Fork? && s.node == p && s.right.Fork? && s.right.node == q && Holds(c, s)
      requires Balanced(s.left) && Balanced(s.right.left) && Balanced(s.right.right)
      requires bp == Height(s.right.left) - Height(s.left) && -1 <= bp <= 1
      requires bq == Height(s.right.right) - (1 + Max(Height(s.left), Height(s.right.left))) && -1 <= bq <= 1
      modifies `root, `turns, Around(c)`left, Around(c)`right, Nodes(s)
      ensures Holds(c, s') && Balanced(s')
        && Height(s') == 1 + Max(1 + Max(Height(s.left), Height(s.right.left)), Height(s.right.right))
      ensures Nodes(s') == Nodes(s) && InOrder(s') == InOrder(s)
      ensures turns == old(turns) + 1
    {
      hide Linked, Embeds, Nodes, Around, RootOf, Balanced, Height, InOrder;
      Unfold(s, ParentIn(c, null));
      Unfold(s.right, p);
      ExistAll(c, s);
      s' := RotatedLeft(s);
      p.balance := bp;
      q.balance := bq;
      BalancedFork(s.left, p, s.right.left);
      ForkHeight(s.left, p, s.right.left);
      BalancedFork(s'.left, q, s.right.right);
      ForkHeight(s'.left, q, s.right.right);
      RotateLeft(p, c, s);
    }

    method SingleRight(p: Node, q: Node, bp: int, bq: int, ghost c: Context, ghost s: Tree) returns (ghost s': Tree)
      requires s.Fork? && s.node == p && s.left.Fork? && s.left.node == q && Holds(c, s)
      requires Balanced(s.right) && Balanced(s.left.left) && Balanced(s.left.right)
      requires bp == Height(s.right) - Height(s.left.right) && -1 <= bp <= 1
      requires bq == (1 + Max(Height(s.left.right), Height(s.right))) - Height(s.left.left) && -1 <= bq <= 1
      modifies `root, `turns, Around(c)`left, Around(c)`right, Nodes(s)
      ensures Holds(c, s') && Balanced(s')
        && Height(s') == 1 + Max(Height(s.left.left), 1 + Max(Height(s.left.right), Height(s.right)))
      ensures Nodes(s') == Nodes(s) && InOrder(s') == InOrder(s)
      ensures turns == old(turns) + 1
    {
      hide Linked, Embeds, Nodes, Around, RootOf, Balanced, Height, InOrder;
      Unfold(s, ParentIn(c, null));
      Unfold(s.left, p);
      ExistAll(c, s);
      s' := RotatedRight(s);
      p.balance := bp;
      q.balance := bq;
      BalancedFork(s.left.right, p, s.right);
      ForkHeight(s.left.right, p, s.right);
      BalancedFork(s.left.left, q, s'.right);
      ForkHeight(s.left.left, q, s'.right);
      RotateRight(p, c, s);
    }

    /** The cases of avltree_remove for a node whose right subtree is two higher: the result, and whether it is lower
        than before. */
    method FixRightHeavy(node: Node, ghost c: Context, ghost s: Tree) returns (shorter: bool, ghost s': Tree)
      requires s.Fork? && s.node == node && Holds(c, s) && Balanced(s.left) && Balanced(s.right)
        && Height(s.right) == Height(s.left) + 2
      modifies `root, `turns, Around(c)`left, Around(c)`right, Nodes(s)
      ensures Holds(c, s') && Balanced(s') && Nodes(s') == Nodes(s) && InOrder(s') == InOrder(s)
      ensures Height(s') == if shorter then Height(s.right) else Height(s.right) + 1
      ensures shorter <==> old(s.right.Fork? && s.right.node.balance != 0)
      ensures turns <= old(turns) + 2
    {
      hide Linked, Embeds, Nodes, Around, RootOf, Balanced, Height, InOrder;
      Unfold(s, ParentIn(c, null));
      BalancedParts(s.right);
      ForkHeight(s.right.left, s.right.node, s.right.right);
      var right := node.right;
      if right.balance == 0 {
        s' := SingleLeft(node, right, 1, -1, c, s);
        shorter := false;
      } else if right.balance == 1 {
        s' := SingleLeft(node, right, 0, 0, c, s);
        shorter := true;
      } else {
        s' := DoubleLeft(node, right, c, s);
        shorter := true;
      }
    }

    method FixLeftHeavy(node: Node, ghost c: Context, ghost s: Tree) returns (shorter: bool, ghost s': Tree)
      requires s.Fork? && s.node == node && Holds(c, s) && Balanced(s.left) && Balanced(s.right)
        && Height(s.left) == Height(s.right) + 2
      modifies `root, `turns, Around(c)`left, Around(c)`right, Nodes(s)
      ensures Holds(c, s') && Balanced(s') && Nodes(s') == Nodes(s) && InOrder(s') == InOrder(s)
      ensures Height(s') == if shorter then Height(s.left) else Height(s.left) + 1
      ensures shorter <==> old(s.left.Fork? && s.left.node.balance != 0)
      ensures turns <= old(turns) + 2
    {
      hide Linked, Embeds, Nodes, Around, RootOf, Balanced, Height, InOrder;
      Unfold(s, ParentIn(c, null));
      BalancedParts(s.left);
      ForkHeight(s.left.left, s.left.node, s.left.right);
      var left := node.left;
      if left.balance == 0 {
        s' := SingleRight(node, left, -1, 1, c, s);
        shorter := false;
      } else if left.balance == -1 {
        s' := SingleRight(node, left, 0, 0, c, s);
        shorter := true;
      } else {
        s' := DoubleRight(node, left, c, s);
        shorter := true;
      }
    }

    lemma Parts()
      requires Shaped()
      ensures Linked(t, null) && root == Root(t) && Balanced(t) && Sorted(InOrder(t))
      ensures Holds(Top, t)
    {
    }

    /** do_lookup: the node with the key, or the place where it belongs and the deepest unbalanced node above it. */
    method DoLookup(key: int) returns (found: Node?, parent: Node?, unbalanced: Node?, isLeft: bool, ghost c: Context)
      requires Valid()
      ensures found != null ==> found in Nodes(t) && found.key == key
      ensures found == null ==>
        && Plug(c, Nil) == t && parent == ParentIn(c, null) && (!c.Top? ==> isLeft == c.InLeft?)
        && Below(Before(c), key) && Above(After(c), key)
        && (!c.Top? ==> unbalanced != null && ZeroUpTo(c, unbalanced))
    {
      hide Linked, Nodes, Around, Plug, Embeds, Balanced, ZeroUpTo, Before, After, InOrder, Sorted, Below, Above;
      var node := root;
      ghost var s := t;
      c := Top;
      found, parent, unbalanced, isLeft := null, null, node, false;
      PlugTop(t);
      NothingBeside(key);
      Exist(t);
      Parts();
      while node != null
        invariant Linked(t, null) && Balanced(t) && Sorted(InOrder(t))
        invariant Plug(c, s) == t && node == Root(s) && parent == ParentIn(c, null)
        invariant Below(Before(c), key) && Above(After(c), key) && (!c.Top? ==> isLeft == c.InLeft?)
        invariant if c.Top? then unbalanced == node else unbalanced != null && ZeroUpTo(c, unbalanced)
        invariant found == null
        decreases s
      {
        PlugLinked(c, s, null);
        PlugNodes(c, s);
        Unfold(s, parent);
        ZeroStep(InLeft(c, s.node, s.right), node, unbalanced);
        ZeroStep(InRight(c, s.left, s.node), node, unbalanced);
        if node.balance != 0 {
          unbalanced := node;
        }
        var res := node.key - key;
        if res == 0 {
          return node, parent, unbalanced, isLeft, c;
        }
        SearchStep(c, s, key);
        PlugDown(c, s);
        parent := node;
        isLeft := res > 0;
        if isLeft {
          c, s := InLeft(c, s.node, s.right), s.left;
          node := node.left;
        } else {
          c, s := InRight(c, s.left, s.node), s.right;
          node := node.right;
        }
      }
    }

    static lemma NothingBeside(key: int)
      ensures Below(Before(Top), key) && Above(After(Top), key)
    {
    }

    /** Going down to the side the key belongs to keeps it between what is before and what is after. */
    static lemma SearchStep(c: Context, s: Tree, key: int)
      requires s.Fork? && Sorted(InOrder(Plug(c, s))) && Below(Before(c), key) && Above(After(c), key)
      ensures key < s.node.key ==>
        Below(Before(InLeft(c, s.node, s.right)), key) && Above(After(InLeft(c, s.node, s.right)), key)
      ensures s.node.key < key ==>
        Below(Before(InRight(c, s.left, s.node)), key) && Above(After(InRight(c, s.left, s.node)), key)
    {
      hide InOrder, Sorted, Plug;
      Beside(c, s);
      if key < s.node.key {
        AboveJoin(s.node, InOrder(s.right), After(c), key);
      }
      if s.node.key < key {
        BelowJoin(Before(c), InOrder(s.left), s.node, key);
      }
    }

    static lemma AboveJoin(n: Node, r: seq<Node>, b: seq<Node>, key: int)
      requires key < n.key && Above(r, n.key) && Above(b, key)
      ensures Above([n] + r + b, key)
    {
    }

    static lemma BelowJoin(a: seq<Node>, l: seq<Node>, n: Node, key: int)
      requires n.key < key && Below(l, n.key) && Below(a, key)
      ensures Below(a + l + [n], key)
    {
    }

    static lemma PlugTop(s: Tree)
      ensures Plug(Top, s) == s
    {
    }

    static lemma PlugDown(c: Context, s: Tree)
      requires s.Fork?
      ensures Plug(InLeft(c, s.node, s.right), s.left) == Plug(c, s) == Plug(InRight(c, s.left, s.node), s.right)
    {
    }

    static lemma ZeroStep(c: Context, node: Node, u: Node)
      requires !c.Top? && c.node == node && node !in Around(c.up)
      requires if c.up.Top? then u == node else ZeroUpTo(c.up, u)
      ensures ZeroUpTo(c, if node.balance != 0 then node else u)
    {
      if !c.up.Top? {
        ZeroWithin(c.up, u);
      }
    }

    ghost static predicate Below(s: seq<Node>, key: int)
    {
      forall i :: 0 <= i < |s| ==> s[i].key < key
    }

    ghost static predicate Above(s: seq<Node>, key: int)
    {
      forall i :: 0 <= i < |s| ==> key < s[i].key
    }

    /** What lies left and right of a subtree's root in a search tree. */
    static lemma Beside(c: Context, s: Tree)
      requires s.Fork? && Sorted(InOrder(Plug(c, s)))
      ensures Below(InOrder(s.left), s.node.key) && Above(InOrder(s.right), s.node.key)
    {
      hide Plug, Before, After, Sorted;
      PlugOrder(c, s);
      var a, l, r, b := Before(c), InOrder(s.left), InOrder(s.right), After(c);
      Regroup(a, l, [s.node], r, b);
      assert [s.node] + r + b == [s.node] + (r + b);
      Around1(a + l, s.node, r + b);
      Around2(a, l, r, b, s.node.key);
    }

    static lemma Around1(a: seq<Node>, x: Node, b: seq<Node>)
      requires Sorted(a + ([x] + b))
      ensures Below(a, x.key) && Above(b, x.key)
    {
      SortedParts(a, [x] + b);
      assert ([x] + b)[0] == x;
      assert a + ([x] + b) == (a + [x]) + b;
      SortedParts(a + [x], b);
      assert (a + [x])[|a|] == x;
    }

    static lemma Around2(a: seq<Node>, l: seq<Node>, r: seq<Node>, b: seq<Node>, key: int)
      requires Below(a + l, key) && Above(r + b, key)
      ensures Below(l, key) && Above(r, key)
    {
      assert forall i :: 0 <= i < |l| ==> (a + l)[|a| + i] == l[i];
      assert forall i :: 0 <= i < |r| ==> (r + b)[i] == r[i];
    }

    /** avltree_lookup. */
    method Lookup(key: int) returns (found: Node?)
      requires Valid()
      ensures if exists n :: n in Elements() && n.key == key then found != null && found in Elements()
        && found.key == key else found == null
    {
      var parent, unbalanced, isLeft;
      ghost var c;
      found, parent, unbalanced, isLeft, c := DoLookup(key);
      InOrderNodes(t);
      if found == null {
        PlugOrder(c, Nil);
        assert Elements() == Before(c) + After(c);
      }
    }

    lemma AscendFilled(c: Context, s: Tree)
      requires !c.Top? && Holds(c, s)
      ensures Holds(c.up, Filled(c, s))
    {
    }

    /** A subtree that has just grown: its root leans, unless it is the new leaf itself. */
    ghost static predicate Grown(s: Tree)
      reads Nodes(s)`balance
    {
      s.Fork? && (s.node.balance != 0 || (s.left.Nil? && s.right.Nil?))
    }

    /** The loop of avltree_insert: subtree s0, one higher than before, fills the hole of c0; balances are corrected up
        to `unbalanced`. Above it nothing changes; below it every subtree is one higher than before. */
    method AdjustUpwards(node0: Node, parent0: Node, unbalanced: Node, ghost c0: Context, ghost s0: Tree)
      returns (ghost c: Context, ghost s: Tree)
      requires !c0.Top? && parent0 == c0.node && Holds(c0, s0) && s0.Fork? && node0 == s0.node
      requires Balanced(s0) && BalancedAround(c0, Height(s0) - 1) && ZeroUpTo(c0, unbalanced) && Grown(s0)
      modifies Around(c0)`balance
      ensures !c.Top? && c.node == unbalanced && Holds(c, s) && Balanced(s) && Balanced(Sibling(c)) && Grown(s)
      ensures unbalanced.balance == Difference(c, Height(s)) && -1 <= Difference(c, Height(s) - 1) <= 1
      ensures Difference(c, Height(s) - 1) != 0 || c.up.Top?
      ensures BalancedAround(c.up, HeightOver(c, Height(s) - 1))
      ensures Plug(c, s) == Plug(c0, s0) && HeightAround(c, Height(s) - 1) == HeightAround(c0, Height(s0) - 1)
    {
      hide Linked, Embeds, Nodes, Around, RootOf, Balanced, BalancedAround, HeightAround, Height, Plug, ZeroUpTo;
      var node, parent := node0, parent0;
      c, s := c0, s0;
      while true
        invariant !c.Top? && parent == c.node && Holds(c, s) && s.Fork? && node == s.node
        invariant Balanced(s) && BalancedAround(c, Height(s) - 1) && ZeroUpTo(c, unbalanced) && Grown(s)
        invariant Plug(c, s) == Plug(c0, s0) && HeightAround(c, Height(s) - 1) == HeightAround(c0, Height(s0) - 1)
        invariant Around(c) <= Around(c0)
        decreases c
      {
        AroundParts(c, Height(s) - 1);
        EmbedParts(c, node, null);
        StepUp(c, s);
        ExistAll(c, s);
        RootInNodes(s);
        RootInNodes(Sibling(c));
        ZeroParts(c, unbalanced);
        AscendFilled(c, s);
        if parent.left == node {
          parent.balance := parent.balance - 1;
        } else {
          parent.balance := parent.balance + 1;
        }
        if parent == unbalanced {
          break;
        }
        BalancedFilled(c, s);
        c, s := c.up, Filled(c, s);
        node := parent;
        parent := parent.parent;
      }
    }

    static lemma ZeroParts(c: Context, u: Node)
      requires !c.Top? && ZeroUpTo(c, u)
      ensures if c.node == u then c.node.balance != 0 || c.up.Top?
        else c.node.balance == 0 && ZeroUpTo(c.up, u) && !c.up.Top?
    {
    }

    static lemma BalancedFilled(c: Context, s: Tree)
      requires !c.Top? && Balanced(s) && Balanced(Sibling(c)) && c.node.balance == Difference(c, Height(s))
        && -1 <= c.node.balance <= 1
      ensures Balanced(Filled(c, s))
    {
    }

    /** The case 2 of avltree_insert: the right subtree has grown and is two higher. */
    method FixGrownRight(unbalanced: Node, ghost c: Context, ghost w: Tree) returns (ghost w': Tree)
      requires w.Fork? && w.node == unbalanced && Holds(c, w) && Balanced(w.left) && Balanced(w.right)
      requires Height(w.right) == Height(w.left) + 2 && Grown(w.right)
      modifies `root, `turns, Around(c)`left, Around(c)`right, Nodes(w)
      ensures Holds(c, w') && Balanced(w') && Height(w') == Height(w.right)
      ensures Nodes(w') == Nodes(w) && InOrder(w') == InOrder(w)
      ensures turns <= old(turns) + 2
    {
      hide Linked, Embeds, Nodes, Around, RootOf, Balanced, Height, InOrder;
      Unfold(w, ParentIn(c, null));
      BalancedParts(w.right);
      ForkHeight(w.right.left, w.right.node, w.right.right);
      var right := unbalanced.right;
      if right.balance == 1 {
        w' := SingleLeft(unbalanced, right, 0, 0, c, w);
      } else {
        w' := DoubleLeft(unbalanced, right, c, w);
      }
    }

    method FixGrownLeft(unbalanced: Node, ghost c: Context, ghost w: Tree) returns (ghost w': Tree)
      requires w.Fork? && w.node == unbalanced && Holds(c, w) && Balanced(w.left) && Balanced(w.right)
      requires Height(w.left) == Height(w.right) + 2 && Grown(w.left)
      modifies `root, `turns, Around(c)`left, Around(c)`right, Nodes(w)
      ensures Holds(c, w') && Balanced(w') && Height(w') == Height(w.left)
      ensures Nodes(w') == Nodes(w) && InOrder(w') == InOrder(w)
      ensures turns <= old(turns) + 2
    {
      hide Linked, Embeds, Nodes, Around, RootOf, Balanced, Height, InOrder;
      Unfold(w, ParentIn(c, null));
      BalancedParts(w.left);
      ForkHeight(w.left.left, w.left.node, w.left.right);
      var left := unbalanced.left;
      if left.balance == -1 {
        w' := SingleRight(unbalanced, left, 0, 0, c, w);
      } else {
        w' := DoubleRight(unbalanced, left, c, w);
      }
    }

    /** The end of avltree_insert: w is the subtree of the deepest unbalanced node, its balance field already corrected,
        one of its subtrees s having grown; h is the height w had before. At most two rotations give it that height
        back, or the whole tree has grown. */
    method Settle(unbalanced: Node, ghost c: Context, ghost h: int, ghost w: Tree) returns (ghost t': Tree)
      requires w.Fork? && w.node == unbalanced && Holds(c, w) && Balanced(w.left) && Balanced(w.right)
      requires unbalanced.balance == Height(w.right) - Height(w.left)
      requires BalancedAround(c, h) && height == HeightAround(c, h)
      requires unbalanced.balance == 0 ==> Height(w) == h
      requires unbalanced.balance in {1, -1} ==> c.Top? && Height(w) == h + 1
      requires unbalanced.balance == 2 ==> Height(w) == h + 1 && Grown(w.right)
      requires unbalanced.balance == -2 ==> Height(w) == h + 1 && Grown(w.left)
      requires -2 <= unbalanced.balance <= 2
      modifies `root, `turns, `height, Around(c)`left, Around(c)`right, Nodes(w)
      ensures Linked(t', null) && root == Root(t') && Balanced(t') && height == Height(t')
      ensures InOrder(t') == InOrder(Plug(c, w)) && Nodes(t') == Nodes(Plug(c, w))
      ensures turns <= old(turns) + 2
    {
      hide Linked, Embeds, Nodes, Around, RootOf, Balanced, BalancedAround, HeightAround, Plug, Height, InOrder;
      ExistAll(c, w);
      Unfold(w, ParentIn(c, null));
      ForkHeight(w.left, w.node, w.right);
      ghost var w' := w;
      if unbalanced.balance == 1 || unbalanced.balance == -1 {
        height := height + 1;
        BalancedFork(w.left, w.node, w.right);
        WholeTop(h, w);
      } else if unbalanced.balance == 2 {
        w' := FixGrownRight(unbalanced, c, w);
      } else if unbalanced.balance == -2 {
        w' := FixGrownLeft(unbalanced, c, w);
      } else {
        BalancedFork(w.left, w.node, w.right);
      }
      t' := Plug(c, w');
      Whole(c, w', w);
    }

    lemma WholeTop(h: int, w: Tree)
      ensures BalancedAround(Top, h) && HeightAround(Top, h) == h && BalancedAround(Top, Height(w))
        && HeightAround(Top, Height(w)) == Height(w)
    {
    }

    /** A hole filled with something else that has the same nodes in the same order. */
    lemma Whole(c: Context, s: Tree, s0: Tree)
      requires Holds(c, s) && Balanced(s) && BalancedAround(c, Height(s)) && Nodes(s) == Nodes(s0)
        && InOrder(s) == InOrder(s0)
      ensures var t' := Plug(c, s);
        && Linked(t', null) && root == Root(t') && Balanced(t') && Height(t') == HeightAround(c, Height(s))
        && InOrder(t') == InOrder(Plug(c, s0)) && Nodes(t') == Nodes(Plug(c, s0))
    {
      PlugLinked(c, s, null);
      PlugNodes(c, s);
      PlugNodes(c, s0);
      PlugBalanced(c, s);
      PlugOrder(c, s);
      PlugOrder(c, s0);
    }

    /** set_child, filling the hole of c. */
    static method SetChild(child: Node?, node: Node, left: bool, ghost c: Context, ghost before: Node?, ghost p: Node?)
      requires !c.Top? && c.node == node && left == c.InLeft? && Embeds(c, before, p)
      modifies node`left, node`right
      ensures Embeds(c, child, p)
    {
      if left {
        node.left := child;
      } else {
        node.right := child;
      }
    }

    /** Whether a node put next to the hole becomes the first or the last one. */
    static lemma Ends(c: Context, x: Node)
      requires !c.Top? && Sorted(Before(c) + After(c))
      ensures var s, s' := Before(c) + After(c), Before(c) + [x] + After(c);
        && s != [] && (c.InLeft? ==> Last(s') == Last(s) && First(s') == if First(s) == c.node then x else First(s))
        && (c.InRight? ==> First(s') == First(s) && Last(s') == if Last(s) == c.node then x else Last(s))
    {
      hide Before, After, Sorted;
      EndsBetween(Before(c), After(c), x);
      NextToHole(c);
    }

    static lemma NextToHole(c: Context)
      requires !c.Top?
      ensures if c.InLeft? then After(c) != [] && After(c)[0] == c.node
        else Before(c) != [] && Before(c)[|Before(c)| - 1] == c.node
    {
    }

    static lemma EndsBetween(a: seq<Node>, b: seq<Node>, x: Node)
      requires Sorted(a + b)
      ensures b != [] ==> Last(a + [x] + b) == Last(a + b) && First(a + [x] + b) == if First(a + b) == b[0] then x
        else First(a + b)
      ensures a != [] ==>
        First(a + [x] + b) == First(a + b) && Last(a + [x] + b) == if Last(a + b) == a[|a| - 1] then x else Last(a + b)
    {
      var s := a + b;
      assert b != [] ==> s[|a|] == b[0];
      assert a != [] ==> s[|a| - 1] == a[|a| - 1];
    }

    static lemma Leaf(node: Node, p: Node?)
      requires node.left == null && node.right == null && node.parent == p && node.balance == 0
      ensures var s := Fork(Nil, node, Nil);
        Linked(s, p) && Balanced(s) && Height(s) == 0 && Grown(s) && Nodes(s) == {node} && InOrder(s) == [node]
    {
    }

    static lemma EmptyHole(c: Context, t: Tree)
      requires Plug(c, Nil) == t && Linked(t, null) && Balanced(t)
      ensures Embeds(c, null, null) && BalancedAround(c, -1) && Around(c) == Nodes(t)
        && InOrder(t) == Before(c) + After(c)
      ensures Height(t) == HeightAround(c, -1) && RootOf(c, null) == Root(t)
    {
      hide Linked, Balanced, Embeds, BalancedAround, HeightAround, RootOf, Plug, Around, Before, After;
      PlugLinked(c, Nil, null);
      PlugBalanced(c, Nil);
      PlugNodes(c, Nil);
      PlugOrder(c, Nil);
      assert InOrder(Nil) == [] && Nodes(Nil) == {};
    }

    static lemma RootUnchanged(c: Context, f: Node?, g: Node?)
      requires !c.Top?
      ensures RootOf(c, f) == RootOf(c, g)
    {
    }

    /** INIT_NODE. */
    static method InitNode(node: Node)
      modifies node
      ensures node.left == null && node.right == null && node.parent == null && node.balance == 0
    {
      node.left := null;
      node.right := null;
      node.parent := null;
      node.balance := 0;
    }

    /** A node put next to the first or last one may take its place. */
    method MoveEnds(node: Node, parent: Node, isLeft: bool)
      modifies `first, `last
      ensures first == if isLeft && old(first) == parent then node else old(first)
      ensures last == if !isLeft && old(last) == parent then node else old(last)
    {
      if isLeft {
        if parent == first {
          first := node;
        }
      } else {
        if parent == last {
          last := node;
        }
      }
    }

    /** avltree_insert: the node that is already there, or null, and then the new node is where its key belongs. It
        never takes more than two rotations. */
    method Insert(node: Node) returns (existing: Node?, ghost k: nat)
      requires Valid()
      modifies this, Nodes(t), node
      ensures Valid() && k <= |old(Elements())|
      ensures existing != null ==>
        existing in old(Elements()) && existing.key == node.key && Elements() == old(Elements())
      ensures existing == null ==> forall n :: n in old(Elements()) ==> n.key != node.key
      ensures existing == null ==> Elements() == old(Elements())[..k] + [node] + old(Elements())[k..]
      ensures turns <= old(turns) + 2
    {
      hide Linked, Embeds, Nodes, Around, RootOf, Balanced, BalancedAround, HeightAround, Plug, Height, ZeroUpTo,
        Before, After, InOrder, Sorted;
      k := 0;
      ExistAll(Top, t);
      InOrderNodes(t);
      Parts();
      var found, parent, unbalanced, isLeft;
      ghost var c;
      found, parent, unbalanced, isLeft, c := DoLookup(node.key);
      if found != null {
        return found, 0;
      }
      NotInTree(c, t, node);
      EmptyHole(c, t);
      k := |Before(c)|;
      NewPlace(Before(c), node, After(c));
      InitNode(node);
      if parent == null {
        OnlyNode(c);
        PutFirst(node);
        return null, k;
      }
      Put(node, parent, unbalanced, isLeft, c);
      return null, k;
    }

    /** A node whose key is not in the tree is not in the tree. */
    static lemma NotInTree(c: Context, t: Tree, node: Node)
      requires Plug(c, Nil) == t && Below(Before(c), node.key) && Above(After(c), node.key)
      ensures node !in Nodes(t)
    {
      PlugOrder(c, Nil);
      InOrderNodes(t);
      assert node !in Before(c) && node !in After(c);
    }

    /** The first node of an empty tree. */
    method PutFirst(node: Node)
      requires height == -1 && node.left == null && node.right == null && node.parent == null && node.balance == 0
      modifies this
      ensures Valid() && Elements() == [] + [node] + [] && turns == old(turns)
    {
      hide Linked, Nodes, Balanced, Height, InOrder;
      root := node;
      first, last := node, node;
      height := height + 1;
      t := Fork(Nil, node, Nil);
      Leaf(node, null);
      assert [] + [node] + [] == [node];
    }

    /** avltree_insert once the place is found and the node initialised. */
    method Put(node: Node, parent: Node, unbalanced: Node, isLeft: bool, ghost c: Context)
      requires !c.Top? && parent == c.node && isLeft == c.InLeft? && node !in Around(c)
      requires node.left == null && node.right == null && node.balance == 0
      requires Embeds(c, null, null) && root == RootOf(c, null) && BalancedAround(c, -1)
        && height == HeightAround(c, -1) && ZeroUpTo(c, unbalanced)
      requires first == First(Before(c) + After(c)) && last == Last(Before(c) + After(c))
      requires Sorted(Before(c) + After(c)) && Sorted(Before(c) + [node] + After(c))
      modifies this, Around(c), node
      ensures Valid() && Elements() == Before(c) + [node] + After(c)
      ensures turns <= old(turns) + 2
    {
      hide Linked, Embeds, Nodes, Around, RootOf, Balanced, BalancedAround, HeightAround, Plug, Height, ZeroUpTo,
        Before, After, InOrder, Sorted;
      ExistAround(c);
      Ends(c, node);
      MoveEnds(node, parent, isLeft);
      t := Grow(node, parent, unbalanced, isLeft, c);
    }

    /** The rest of avltree_insert: the initialised node is linked at its place, and balance is restored. */
    method Grow(node: Node, parent: Node, unbalanced: Node, isLeft: bool, ghost c: Context) returns (ghost t': Tree)
      requires !c.Top? && parent == c.node && isLeft == c.InLeft? && node !in Around(c)
      requires node.left == null && node.right == null && node.balance == 0
      requires Embeds(c, null, null) && root == RootOf(c, null) && BalancedAround(c, -1)
        && height == HeightAround(c, -1) && ZeroUpTo(c, unbalanced)
      modifies `root, `turns, `height, Around(c), node
      ensures Linked(t', null) && root == Root(t') && Balanced(t') && height == Height(t')
      ensures InOrder(t') == Before(c) + [node] + After(c) && Nodes(t') == Around(c) + {node}
      ensures turns <= old(turns) + 2
    {
      hide Linked, Embeds, Nodes, Around, RootOf, Balanced, BalancedAround, HeightAround, Plug, Height, ZeroUpTo,
        Before, After, InOrder, Grown;
      ExistAll(c, Nil);
      HoleOutside(c, null, null);
      node.parent := parent;
      SetChild(node, parent, isLeft, c, null, null);
      ghost var leaf := Fork(Nil, node, Nil);
      Leaf(node, parent);
      RootUnchanged(c, null, node);
      PlugOrder(c, leaf);
      PlugNodes(c, leaf);
      ghost var c2, s := AdjustUpwards(node, parent, unbalanced, c, leaf);
      StepUp(c2, s);
      AscendFilled(c2, s);
      PlugNodes(c2, s);
      t' := Settle(unbalanced, c2.up, HeightOver(c2, Height(s) - 1), Filled(c2, s));
    }

    /** A key that fits between a and b is new, and its node put there keeps the order. */
    static lemma NewPlace(a: seq<Node>, x: Node, b: seq<Node>)
      requires Sorted(a + b) && Below(a, x.key) && Above(b, x.key)
      ensures Sorted(a + [x] + b) && (a + b)[..|a|] == a && (a + b)[|a|..] == b
      ensures forall n :: n in a + b ==> n.key != x.key
    {
      SortedInsert(a, x, b);
    }

    static lemma OnlyNode(c: Context)
      requires c.Top?
      ensures Before(c) == [] && After(c) == [] && forall h :: HeightAround(c, h) == h
    {
    }

    // ---- iteration ----

    /** get_first: the leftmost node of a subtree, which has only a right subtree x of its own. */
    static method GetFirst(node0: Node, ghost s: Tree, ghost p: Node?)
                           returns (node: Node, ghost spine: Context, ghost x: Tree)
      requires s.Fork? && node0 == s.node && Linked(s, p)
      ensures Plug(spine, Fork(Nil, node, x)) == s && Before(spine) == []
    {
      hide Linked, Nodes, Around, Plug, Embeds, Before;
      Exist(s);
      node := node0;
      spine := Top;
      ghost var cur := s;
      PlugTop(s);
      NoneBefore();
      Unfold(s, p);
      while node.left != null
        invariant Linked(s, p) && cur.Fork? && node == cur.node && Plug(spine, cur) == s && Before(spine) == []
        invariant node.left == Root(cur.left)
        decreases cur
      {
        PlugDown(spine, cur);
        BeforeLeft(spine, cur.node, cur.right);
        spine, cur := InLeft(spine, cur.node, cur.right), cur.left;
        node := node.left;
        PlugLinked(spine, cur, p);
        Unfold(cur, ParentIn(spine, p));
      }
      x := cur.right;
      assert cur == Fork(Nil, node, x);
    }

    static lemma NoneBefore()
      ensures Before(Top) == [] && After(Top) == []
    {
    }

    static lemma BeforeLeft(c: Context, n: Node, r: Tree)
      ensures Before(InLeft(c, n, r)) == Before(c)
    {
    }

    static lemma AfterRight(c: Context, l: Tree, n: Node)
      ensures After(InRight(c, l, n)) == After(c)
    {
    }

    static method GetLast(node0: Node, ghost s: Tree, ghost p: Node?)
                          returns (node: Node, ghost spine: Context, ghost x: Tree)
      requires s.Fork? && node0 == s.node && Linked(s, p)
      ensures Plug(spine, Fork(x, node, Nil)) == s && After(spine) == []
    {
      hide Linked, Nodes, Around, Plug, Embeds, After;
      Exist(s);
      node := node0;
      spine := Top;
      ghost var cur := s;
      PlugTop(s);
      NoneBefore();
      Unfold(s, p);
      while node.right != null
        invariant Linked(s, p) && cur.Fork? && node == cur.node && Plug(spine, cur) == s && After(spine) == []
        invariant node.right == Root(cur.right)
        decreases cur
      {
        PlugDown(spine, cur);
        AfterRight(spine, cur.left, cur.node);
        spine, cur := InRight(spine, cur.left, cur.node), cur.right;
        node := node.right;
        PlugLinked(spine, cur, p);
        Unfold(cur, ParentIn(spine, p));
      }
      x := cur.left;
      assert cur == Fork(x, node, Nil);
    }

    /** The place of a node in the tree. */
    static lemma Locate(c: Context, s: Tree, n: Node) returns (c': Context, s': Tree)
      requires n in Nodes(s)
      ensures s'.Fork? && s'.node == n && Plug(c', s') == Plug(c, s)
      decreases s
    {
      if s.node == n {
        c', s' := c, s;
      } else if n in Nodes(s.left) {
        c', s' := Locate(InLeft(c, s.node, s.right), s.left, n);
      } else {
        c', s' := Locate(InRight(c, s.left, s.node), s.right, n);
      }
    }

    static lemma Listed(s: Tree, i: nat)
      requires i < |InOrder(s)|
      ensures InOrder(s)[i] in Nodes(s)
    {
      var k := |InOrder(s.left)|;
      if i < k {
        Listed(s.left, i);
      } else if i > k {
        Listed(s.right, i - k - 1);
      }
    }

    /** The place of element i, and what comes before and after it. */
    lemma PlaceOf(i: nat) returns (c: Context, s: Tree)
      requires Shaped() && i < |Elements()|
      ensures s.Fork? && s.node == Elements()[i] && Plug(c, s) == t && Holds(c, s)
      ensures Elements()[..i] == Before(c) + InOrder(s.left) && Elements()[i + 1..] == InOrder(s.right) + After(c)
    {
      hide Before, After, Embeds, Around, RootOf;
      var n := Elements()[i];
      Listed(t, i);
      c, s := Locate(Top, t, n);
      PlugLinked(c, s, null);
      PlugNodes(c, s);
      PlugOrder(c, s);
      SplitOrder(Before(c), InOrder(s.left), n, InOrder(s.right), After(c), i);
    }

    static lemma SplitOrder(a: seq<Node>, l: seq<Node>, n: Node, r: seq<Node>, b: seq<Node>, i: nat)
      requires var s := a + (l + [n] + r) + b; Sorted(s) && i < |s| && s[i] == n
      ensures var s := a + (l + [n] + r) + b; s[..i] == a + l && s[i + 1..] == r + b
    {
      var s := a + (l + [n] + r) + b;
      var k := |a| + |l|;
      assert s == (a + l) + [n] + (r + b);
      assert s[k] == n;
      assert i == k;
    }

    /** avltree_next, on element i. */
    method Next(node: Node, ghost i: nat) returns (next: Node?)
      requires Shaped() && i < |Elements()| && Elements()[i] == node
      ensures next == if i + 1 < |Elements()| then Elements()[i + 1] else null
    {
      hide Linked, Nodes, Around, Plug, Embeds, Before, After, RootOf, Sorted, InOrder;
      ghost var c, s := PlaceOf(i);
      ghost var rest := Elements()[i + 1..];
      ExistAll(c, s);
      Unfold(s, ParentIn(c, null));
      if node.right != null {
        ghost var spine, x;
        next, spine, x := GetFirst(node.right, s.right, node);
        PlugOrder(spine, Fork(Nil, next, x));
        EndOrders(next, x);
        assert rest[0] == next;
        return;
      }
      EmptyOrder(s.right);
      var cur, parent := node, node.parent;
      ghost var up, sub := c, s;
      while parent != null && parent.right == cur
        invariant Holds(up, sub) && sub.Fork? && cur == sub.node && parent == ParentIn(up, null)
        invariant After(up) == rest
        decreases up
      {
        EmbedParts(up, cur, null);
        RootInNodes(sub);
        OnlySide(up, sub);
        AscendFilled(up, sub);
        AfterRight(up.up, up.left, up.node);
        cur := parent;
        up, sub := up.up, Filled(up, sub);
        parent := cur.parent;
      }
      next := parent;
      ClimbedLeft(up, sub);
    }

    static lemma EndOrders(n: Node, x: Tree)
      ensures InOrder(Fork(Nil, n, x)) == [n] + InOrder(x) && InOrder(Fork(x, n, Nil)) == InOrder(x) + [n]
    {
    }

    static lemma EmptyOrder(s: Tree)
      requires Root(s) == null
      ensures s.Nil? && InOrder(s) == []
    {
    }

    /** The side on which a subtree hangs can be read off its parent. */
    lemma OnlySide(c: Context, s: Tree)
      requires !c.Top? && s.Fork? && Holds(c, s)
      ensures (c.node.right == s.node <==> c.InRight?) && (c.node.left == s.node <==> c.InLeft?)
    {
      RootInNodes(s);
      RootInNodes(Sibling(c));
      EmbedParts(c, s.node, null);
    }

    lemma ClimbedLeft(c: Context, s: Tree)
      requires s.Fork? && Holds(c, s)
      ensures c.InRight? || ParentIn(c, null) == First(After(c))
      ensures c.InRight? <==> !c.Top? && c.node.right == s.node
    {
      if !c.Top? {
        OnlySide(c, s);
      }
    }

    lemma ClimbedRight(c: Context, s: Tree)
      requires s.Fork? && Holds(c, s)
      ensures c.InLeft? || ParentIn(c, null) == Last(Before(c))
      ensures c.InLeft? <==> !c.Top? && c.node.left == s.node
    {
      if !c.Top? {
        OnlySide(c, s);
      }
    }

    /** avltree_prev, on element i. */
    method Prev(node: Node, ghost i: nat) returns (prev: Node?)
      requires Shaped() && i < |Elements()| && Elements()[i] == node
      ensures prev == if i > 0 then Elements()[i - 1] else null
    {
      hide Linked, Nodes, Around, Plug, Embeds, Before, After, RootOf, Sorted, InOrder;
      ghost var c, s := PlaceOf(i);
      ghost var rest := Elements()[..i];
      ExistAll(c, s);
      Unfold(s, ParentIn(c, null));
      if node.left != null {
        ghost var spine, x;
        prev, spine, x := GetLast(node.left, s.left, node);
        PlugOrder(spine, Fork(x, prev, Nil));
        EndOrders(prev, x);
        assert rest[i - 1] == prev;
        return;
      }
      EmptyOrder(s.left);
      var cur, parent := node, node.parent;
      ghost var up, sub := c, s;
      while parent != null && parent.left == cur
        invariant Holds(up, sub) && sub.Fork? && cur == sub.node && parent == ParentIn(up, null)
        invariant Before(up) == rest
        decreases up
      {
        EmbedParts(up, cur, null);
        RootInNodes(sub);
        OnlySide(up, sub);
        AscendFilled(up, sub);
        BeforeLeft(up.up, up.node, up.right);
        cur := parent;
        up, sub := up.up, Filled(up, sub);
        parent := cur.parent;
      }
      prev := parent;
      ClimbedRight(up, sub);
    }

    // ---- removal ----

    /** One round of the loop of avltree_remove, at the node above the hole of c, whose filling x has become one lower:
        the rearranged subtree, and whether it is lower too. */
    method StepRemove(node: Node, isLeft: bool, ghost c: Context, ghost x: Tree, ghost h: int)
                      returns (lower: bool, ghost s: Tree)
      requires !c.Top? && node == c.node && isLeft == c.InLeft? && Holds(c, x) && Balanced(x) && Height(x) == h - 1
        && BalancedAround(c, h)
      modifies `root, `turns, Around(c), Nodes(x)
      ensures s.Fork? && Holds(c.up, s) && Balanced(s) && BalancedAround(c.up, HeightOver(c, h))
      ensures Height(s) == if lower then HeightOver(c, h) - 1 else HeightOver(c, h)
      ensures Nodes(s) == Nodes(Filled(c, x)) && InOrder(s) == InOrder(Filled(c, x))
      ensures turns <= old(turns) + 2
    {
      hide Linked, Embeds, Nodes, Around, RootOf, Balanced, BalancedAround, Height, InOrder;
      ExistAll(c, x);
      AroundParts(c, h);
      EmbedParts(c, Root(x), null);
      StepUp(c, x);
      s := Filled(c, x);
      if isLeft {
        node.balance := node.balance + 1;
      } else {
        node.balance := node.balance - 1;
      }
      assert Holds(c, x) && Balanced(x) && Balanced(Sibling(c)) && BalancedAround(c.up, HeightOver(c, h));
      AscendFilled(c, x);
      var balance := node.balance;
      if balance == 0 {
        BalancedFilled(c, x);
        return true, s;
      }
      if isLeft {
        if balance == 1 {
          BalancedFilled(c, x);
          return false, s;
        }
        lower, s := FixRightHeavy(node, c.up, s);
      } else {
        if balance == -1 {
          BalancedFilled(c, x);
          return false, s;
        }
        lower, s := FixLeftHeavy(node, c.up, s);
      }
    }

    /** The loop of avltree_remove: a filling that has become one lower is balanced upwards until some subtree keeps its
        height. */
    method RebalanceUp(parent0: Node?, isLeft0: bool, ghost c0: Context, ghost x0: Tree, ghost h0: int)
                       returns (ghost t': Tree)
      requires parent0 == ParentIn(c0, null) && (!c0.Top? ==> isLeft0 == c0.InLeft?)
      requires Holds(c0, x0) && Balanced(x0) && Height(x0) == h0 - 1 && BalancedAround(c0, h0)
        && height == HeightAround(c0, h0)
      modifies `root, `turns, `height, Around(c0), Nodes(x0)
      ensures Linked(t', null) && root == Root(t') && Balanced(t') && height == Height(t')
      ensures InOrder(t') == InOrder(Plug(c0, x0)) && Nodes(t') == Nodes(Plug(c0, x0))
      ensures turns <= old(turns) + 2 * old(height)
    {
      hide Linked, Embeds, Nodes, Around, RootOf, Balanced, BalancedAround, HeightAround, Height, InOrder, Plug;
      var parent, isLeft := parent0, isLeft0;
      ghost var c, x, h := c0, x0, h0;
      while parent != null
        invariant parent == ParentIn(c, null) && (!c.Top? ==> isLeft == c.InLeft?)
        invariant Holds(c, x) && Balanced(x) && Height(x) == h - 1 && BalancedAround(c, h)
          && height == HeightAround(c, h)
        invariant InOrder(Plug(c, x)) == InOrder(Plug(c0, x0)) && Nodes(Plug(c, x)) == Nodes(Plug(c0, x0))
        invariant Around(c) + Nodes(x) == Around(c0) + Nodes(x0)
        invariant h0 <= h && turns <= old(turns) + 2 * (h - h0) && height == old(height)
        decreases c
      {
        var node := parent;
        ExistAll(c, x);
        EmbedParts(c, Root(x), null);
        StepUp(c, x);
        AscendFilled(c, x);
        parent := parent.parent;
        var nextIsLeft := parent != null && parent.left == node;
        SideAbove(c, x);
        var lower;
        ghost var s;
        lower, s := StepRemove(node, isLeft, c, x, h);
        isLeft := nextIsLeft;
        SameFilling(c.up, s, Filled(c, x));
        h := HeightOver(c, h);
        c, x := c.up, s;
        if !lower {
          HigherAround(c, h);
          t' := Plug(c, x);
          Whole(c, x, x);
          return;
        }
      }
      HigherAround(c, h);
      height := height - 1;
      t' := Plug(c, x);
      WholeTop(h, x);
      Whole(c, x, x);
    }

    static lemma HigherAround(c: Context, h: int)
      ensures h <= HeightAround(c, h)
      decreases c
    {
      if !c.Top? {
        HigherAround(c.up, HeightOver(c, h));
      }
    }

    /** Which child the node above the hole is, its parent tells. */
    lemma SideAbove(c: Context, x: Tree)
      requires !c.Top? && Holds(c, x)
      ensures c.node.parent == ParentIn(c.up, null)
      ensures !c.up.Top? ==> c.up.InLeft? == (c.node.parent != null && c.node.parent.left == c.node)
    {
      AscendFilled(c, x);
      EmbedParts(c, Root(x), null);
      if !c.up.Top? {
        OnlySide(c.up, Filled(c, x));
      }
    }

    static lemma SameFilling(c: Context, s: Tree, s0: Tree)
      requires Nodes(s) == Nodes(s0) && InOrder(s) == InOrder(s0)
      ensures Nodes(Plug(c, s)) == Nodes(Plug(c, s0)) && InOrder(Plug(c, s)) == InOrder(Plug(c, s0))
    {
      PlugNodes(c, s);
      PlugNodes(c, s0);
      PlugOrder(c, s);
      PlugOrder(c, s0);
    }

    /** A node with at most one child is cut out: its child x takes its place. */
    method CutOut(node: Node, next: Node?, parent: Node?, ghost c: Context, ghost s: Tree, ghost x: Tree)
      requires s.Fork? && s.node == node && Holds(c, s) && Balanced(s) && parent == ParentIn(c, null)
      requires x in {s.left, s.right} && next == Root(x) && (s.left.Nil? || s.right.Nil?)
        && (x.Nil? ==> s.left.Nil? && s.right.Nil?)
      modifies `root, Around(c)`left, Around(c)`right, Nodes(s)`parent
      ensures Holds(c, x) && Balanced(x) && Height(x) == Height(s) - 1
      ensures InOrder(x) == InOrder(s.left) + InOrder(s.right) && Nodes(x) == Nodes(s) - {node}
    {
      hide Linked, Embeds, Nodes, Around, RootOf, Balanced, Height, InOrder;
      ExistAll(c, s);
      Unfold(s, ParentIn(c, null));
      BalancedParts(s);
      ForkHeight(s.left, node, s.right);
      RootInNodes(x);
      HoleOutside(c, node, null);
      OnlyChild(s, x);
      Attach(parent, node, next, c);
      Adopt(next, parent, x, node);
    }

    static lemma OnlyChild(s: Tree, x: Tree)
      requires s.Fork? && x in {s.left, s.right} && (s.left.Nil? || s.right.Nil?)
        && (x.Nil? ==> s.left.Nil? && s.right.Nil?)
      ensures InOrder(x) == InOrder(s.left) + InOrder(s.right) && Nodes(x) == Nodes(s.left) + Nodes(s.right)
      ensures Max(Height(s.left), Height(s.right)) == Height(x)
    {
      assert Height(Nil) == -1;
    }

    /** What the removal of a node with two children finds: the leftmost node of the right subtree, next, at the end of
        a spine. */
    lemma SuccessorLinks(c: Context, s: Tree, spine: Context, next: Node, x: Tree)
      requires s.Fork? && Holds(c, s) && s.right == Plug(spine, Fork(Nil, next, x))
      ensures s.node.parent == ParentIn(c, null)
      ensures s.node.left == Root(s.left) && s.node.right == Root(s.right) && Linked(s.left, s.node) && Linked(x, next)
        && next.right == Root(x)
      ensures next.parent == (if spine.Top? then s.node else spine.node) && Embeds(spine, next, s.node)
        && Root(s.right) == RootOf(spine, next)
      ensures Nodes(s.right) == {next} + Nodes(x) + Around(spine)
        && Nodes(s) == Nodes(s.left) + {s.node} + Nodes(s.right)
      ensures s.node !in Nodes(s.left) && s.node !in Nodes(s.right) && Nodes(s.left) !! Nodes(s.right)
      ensures next !in Nodes(x) && next !in Around(spine) && Nodes(x) !! Around(spine)
    {
      hide Linked, Embeds, Nodes, Around, RootOf, Plug;
      var b := Fork(Nil, next, x);
      Unfold(s, ParentIn(c, null));
      PlugLinked(spine, b, s.node);
      PlugNodes(spine, b);
      Unfold(b, ParentIn(spine, s.node));
      NoNodes();
    }

    lemma SuccessorBalance(s: Tree, spine: Context, next: Node, x: Tree)
      requires s.Fork? && Balanced(s) && s.right == Plug(spine, Fork(Nil, next, x)) && Before(spine) == []
      ensures Balanced(s.left) && Balanced(x) && BalancedAround(spine, Height(x) + 1)
        && HeightAround(spine, Height(x) + 1) == Height(s.right)
      ensures s.node.balance == Height(s.right) - Height(s.left) && -1 <= s.node.balance <= 1
      ensures InOrder(s.right) == [next] + InOrder(x) + After(spine)
      ensures !spine.Top? ==> spine.InLeft?
    {
      hide Balanced, BalancedAround, HeightAround, HeightOver, Difference, Sibling, Plug, Height, InOrder, After,
        Before;
      LeftSpine(spine);
      var b := Fork(Nil, next, x);
      assert InOrder(s.right) == [next] + InOrder(x) + After(spine) by {
        SpineOrder(spine, next, x);
      }
      BalancedParts(s);
      PlugBalanced(spine, b);
      BalancedParts(b);
      LeftmostHeight(next, x);
    }

    static lemma LeftSpine(spine: Context)
      requires Before(spine) == []
      ensures !spine.Top? ==> spine.InLeft?
    {
    }

    static lemma SpineOrder(spine: Context, n: Node, x: Tree)
      requires Before(spine) == []
      ensures InOrder(Plug(spine, Fork(Nil, n, x))) == [n] + InOrder(x) + After(spine)
    {
      hide Before, After, Plug, InOrder;
      PlugOrder(spine, Fork(Nil, n, x));
      EndOrders(n, x);
      var y := [n] + InOrder(x);
      assert [] + y + After(spine) == y + After(spine);
    }

    static lemma LeftmostHeight(n: Node, x: Tree)
      ensures Height(Fork(Nil, n, x)) == Height(x) + 1 && Height(Nil) == -1
    {
    }

    static lemma NoNodes()
      ensures Nodes(Nil) == {}
    {
    }

    /** The part of avltree_remove for a node with two children: its successor next takes its place, and next's right
        subtree x takes the place of next. */
    method SpliceIn(node: Node, parent0: Node?, left: Node, right: Node, next: Node, ghost c: Context, ghost s: Tree,
                    ghost spine: Context, ghost x: Tree)
      returns (parent: Node, isLeft: bool, ghost c': Context)
      requires s.Fork? && s.node == node && Holds(c, s) && Balanced(s) && parent0 == ParentIn(c, null)
      requires s.left.Fork? && s.left.node == left && s.right.Fork? && s.right.node == right
      requires s.right == Plug(spine, Fork(Nil, next, x)) && Before(spine) == [] && BalancedAround(c, Height(s))
      modifies `root, Around(c)`left, Around(c)`right, Nodes(s)
      ensures c' == Join(spine, InRight(c, s.left, next)) && Holds(c', x) && parent == ParentIn(c', null)
        && isLeft == c'.InLeft?
      ensures Balanced(x) && BalancedAround(c', Height(x) + 1)
        && HeightAround(c', Height(x) + 1) == HeightAround(c, Height(s))
      ensures Around(c') + Nodes(x) <= Nodes(s) + Around(c)
      ensures InOrder(Plug(c', x)) == (Before(c) + InOrder(s.left)) + (InOrder(s.right) + After(c))
    {
      hide Linked, Embeds, Nodes, Around, RootOf, Balanced, BalancedAround, HeightAround, Height, InOrder, After, Plug;
      ghost var l, p := s.left, ParentIn(c, null);
      c' := Join(spine, InRight(c, l, next));
      SuccessorLinks(c, s, spine, next, x);
      SuccessorBalance(s, spine, next, x);
      ExistAll(c, s);
      HoleOutside(c, node, null);
      RootInNodes(l);
      RootInNodes(x);
      SpineEnds(spine, next, s.node, Root(x));
      JoinPlug(spine, InRight(c, l, next), Nil);
      AroundRight(c, l, next);
      TakePlace(node, parent0, left, next, c, l);
      parent, isLeft := LeavePlace(node, parent0, right, next, c, l, spine, x);
      EmbedRight(c, l, next, RootOf(spine, Root(x)));
      JoinEmbeds(spine, InRight(c, l, next), Root(x), null);
      SpliceBalance(c, s, next, spine, x);
      SpliceOrder(c, l, next, spine, x);
    }

    static lemma SpliceBalance(c: Context, s: Tree, next: Node, spine: Context, x: Tree)
      requires s.Fork? && Balanced(s.left) && BalancedAround(c, Height(s))
        && next.balance == Height(s.right) - Height(s.left) && -1 <= next.balance <= 1
      requires BalancedAround(spine, Height(x) + 1) && HeightAround(spine, Height(x) + 1) == Height(s.right)
      ensures var c' := Join(spine, InRight(c, s.left, next));
        BalancedAround(c', Height(x) + 1) && HeightAround(c', Height(x) + 1) == HeightAround(c, Height(s))
    {
      hide Balanced, BalancedAround, HeightAround, Height;
      ForkHeight(s.left, s.node, s.right);
      BalanceRight(c, s.left, next, Height(s.right));
      JoinBalanced(spine, InRight(c, s.left, next), Height(x) + 1);
    }

    static lemma BalanceRight(c: Context, l: Tree, n: Node, h: int)
      requires Balanced(l) && BalancedAround(c, 1 + Max(Height(l), h)) && n.balance == h - Height(l)
        && -1 <= n.balance <= 1
      ensures BalancedAround(InRight(c, l, n), h)
        && HeightAround(InRight(c, l, n), h) == HeightAround(c, 1 + Max(Height(l), h))
    {
      hide Balanced, Height;
    }

    /** The order after the splice: the successor and what followed it, behind the left subtree. */
    static lemma SpliceOrder(c: Context, l: Tree, n: Node, spine: Context, x: Tree)
      requires Before(spine) == []
      ensures InOrder(Plug(Join(spine, InRight(c, l, n)), x))
        == (Before(c) + InOrder(l)) + (([n] + InOrder(x) + After(spine)) + After(c))
    {
      hide Before, After, Plug, InOrder, Join;
      var y := Plug(spine, x);
      JoinPlug(spine, InRight(c, l, n), x);
      PlugOrder(spine, x);
      assert [] + InOrder(x) + After(spine) == InOrder(x) + After(spine);
      PlugDown(c, Fork(l, n, y));
      PlugOrder(c, Fork(l, n, y));
      ForkOrder(l, n, y);
      assert [n] + (InOrder(x) + After(spine)) == [n] + InOrder(x) + After(spine);
      Regroup(Before(c), InOrder(l), [n], InOrder(y), After(c));
      assert Before(c) + InOrder(l) + ([n] + InOrder(y) + After(c))
        == (Before(c) + InOrder(l)) + (([n] + InOrder(y)) + After(c));
    }

    static lemma ForkOrder(l: Tree, n: Node, r: Tree)
      ensures InOrder(Fork(l, n, r)) == InOrder(l) + [n] + InOrder(r)
    {
    }

    /** The successor is hung where the node was, and takes over its balance and its left subtree. */
    method TakePlace(node: Node, parent0: Node?, left: Node, next: Node, ghost c: Context, ghost l: Tree)
      requires Embeds(c, node, null) && parent0 == ParentIn(c, null) && root == RootOf(c, node) && node !in Around(c)
        && node != next
      requires l.Fork? && left == l.node && Linked(l, node) && Nodes(l) !! Around(c) && next !in Nodes(l)
        && next !in Around(c)
      modifies `root, (if c.Top? then {} else {c.node})`left, (if c.Top? then {} else {c.node})`right, next`balance,
        next`left, left`parent
      ensures Embeds(c, next, null) && root == RootOf(c, next) && next.balance == node.balance && next.left == left
        && Linked(l, next)
    {
      hide Linked, Embeds, Nodes, Around, RootOf;
      ExistAll(c, l);
      RootInNodes(l);
      HoleOutside(c, node, null);
      Attach(parent0, node, next, c);
      next.balance := node.balance;
      next.left := left;
      Adopt(left, next, l, node);
    }

    /** The successor's own place is taken by its right subtree x. */
    method LeavePlace(node: Node, parent0: Node?, right: Node, next: Node, ghost c: Context, ghost l: Tree,
                      ghost spine: Context, ghost x: Tree)
      returns (parent: Node, isLeft: bool)
      requires Embeds(spine, next, node) && right == RootOf(spine, next)
        && next.parent == (if spine.Top? then node else spine.node) && (!spine.Top? ==> spine.InLeft?)
      requires Linked(x, next) && next.right == Root(x) && next !in Nodes(x) && next !in Around(spine)
        && Nodes(x) !! Around(spine)
      requires node !in Nodes(x) && node !in Around(spine) && node != next && node.parent == parent0
      requires Linked(l, next) && Nodes(l) !! Nodes(x) && Nodes(l) !! Around(spine) && next !in Nodes(l)
      requires Embeds(c, next, null) && Around(c) !! Nodes(x) && Around(c) !! Around(spine) && next !in Around(c)
      modifies next`parent, next`right, Around(spine)`left, Around(spine)`right, Around(spine)`parent, Nodes(x)`parent
      ensures Embeds(spine, Root(x), next) && Linked(x, parent) && parent == (if spine.Top? then next else spine.node)
        && isLeft == !spine.Top?
      ensures next.parent == parent0 && next.right == RootOf(spine, Root(x))
      ensures Linked(l, next) && Embeds(c, next, null)
    {
      hide Linked, Embeds, Nodes, Around, RootOf;
      ExistAll(spine, x);
      ExistAll(c, l);
      RootInNodes(x);
      SpineEnds(spine, next, node, Root(x));
      var rest: Node?;
      if next != right {
        parent, rest := Unhook(node, right, next, spine, x);
        isLeft := true;
      } else {
        next.parent := parent0;
        parent := next;
        rest := next.right;
        isLeft := false;
        TopEmbeds(spine, Root(x), next);
      }
      Adopt(rest, parent, x, next);
    }

    static lemma TopEmbeds(c: Context, f: Node?, p: Node?)
      requires c.Top?
      ensures Embeds(c, f, p)
    {
    }

    /** The successor leaves the lower end of a spine, its right subtree hanging there instead, and takes the spine as
        its own right subtree. */
    static method Unhook(node: Node, right: Node, next: Node, ghost spine: Context, ghost x: Tree)
                         returns (parent: Node, rest: Node?)
      requires !spine.Top? && spine.InLeft? && Embeds(spine, next, node) && next.parent == spine.node
        && right == RootOf(spine, next)
      requires Linked(x, next) && next.right == Root(x) && next !in Nodes(x) && next !in Around(spine)
        && Nodes(x) !! Around(spine)
      requires node !in Nodes(x) && node !in Around(spine) && node != next
      modifies next`parent, next`right, Around(spine)`left, Around(spine)`right, right`parent
      ensures parent == spine.node && rest == Root(x) && Embeds(spine, rest, next) && Linked(x, next)
      ensures next.parent == node.parent == old(node.parent) && next.right == right
    {
      hide Linked, Embeds, Nodes, Around, RootOf;
      ExistAll(spine, x);
      SpineEnds(spine, next, node, Root(x));
      parent := next.parent;
      next.parent := node.parent;
      rest := next.right;
      SetChild(rest, parent, true, spine, next, node);
      next.right := right;
      SetTopParent(right, next, spine, rest, node);
    }

    /** Whether the spine is empty, the topmost node tells. */
    static lemma SpineEnds(spine: Context, next: Node, p: Node?, f: Node?)
      requires Embeds(spine, next, p) && next !in Around(spine)
      ensures spine.Top? <==> RootOf(spine, next) == next
      ensures !spine.Top? ==>
        spine.node in Around(spine) && RootOf(spine, next) == RootOf(spine, f) && RootOf(spine, next) in Around(spine)
      ensures spine.Top? ==> RootOf(spine, f) == f && Around(spine) == {}
    {
      if !spine.Top? {
        TopmostAround(spine, next);
      }
    }

    static lemma EmbedRight(c: Context, l: Tree, n: Node, f: Node?)
      requires n.left == Root(l) && n.right == f && n.parent == ParentIn(c, null)
      requires n !in Nodes(l) && n !in Around(c) && Nodes(l) !! Around(c) && Linked(l, n) && Embeds(c, n, null)
      ensures Embeds(InRight(c, l, n), f, null) && RootOf(InRight(c, l, n), f) == RootOf(c, n)
    {
    }

    /** set_parent on the topmost node around a hole. */
    static method SetTopParent(o: Node, q: Node?, ghost spine: Context, ghost f: Node?, ghost p: Node?)
      requires !spine.Top? && o == RootOf(spine, f) && Embeds(spine, f, p)
      modifies o`parent
      ensures Embeds(spine, f, q)
    {
      ExistAround(spine);
      TopmostAround(spine, f);
      o.parent := q;
      Reparented(spine, f, p, q, o);
    }

    /** If the node to go is the first or the last one, the next or the previous one will be. */
    method LeaveEnds(node: Node, ghost i: nat)
      requires Valid() && i < |Elements()| && Elements()[i] == node
      modifies `first, `last
      ensures var e := Elements()[..i] + Elements()[i + 1..]; first == First(e) && last == Last(e) && Sorted(e)
    {
      hide Linked, Nodes, Balanced, Height, InOrder, Sorted;
      Exist(t);
      Parts();
      EndsWithout(Elements(), i);
      if node == first {
        first := Next(node, i);
      }
      if node == last {
        last := Prev(node, i);
      }
    }

    /** avltree_remove, of element i; it takes at most two rotations per level. */
    method Remove(node: Node, ghost i: nat)
      requires Valid() && i < |Elements()| && Elements()[i] == node
      modifies this, Nodes(t)
      ensures Valid() && Elements() == old(Elements())[..i] + old(Elements())[i + 1..]
      ensures turns <= old(turns) + 2 * old(height)
    {
      hide Linked, Embeds, Nodes, Around, RootOf, Balanced, BalancedAround, HeightAround, Height, InOrder, Before,
        After, Plug, Sorted;
      Exist(t);
      Parts();
      ghost var c, s := PlaceOf(i);
      InTree(c, s, t);
      PlugBalanced(c, s);
      Unfold(s, ParentIn(c, null));
      var parent, left, right := node.parent, node.left, node.right;
      LeaveEnds(node, i);
      t := Detach(node, parent, left, right, c, s);
    }

    /** The rest of avltree_remove, once first and last are settled. */
    method Detach(node: Node, parent0: Node?, left: Node?, right: Node?, ghost c: Context, ghost s: Tree)
                  returns (ghost t': Tree)
      requires s.Fork? && s.node == node && Holds(c, s) && Balanced(s) && BalancedAround(c, Height(s))
        && height == HeightAround(c, Height(s))
      requires parent0 == ParentIn(c, null) && left == Root(s.left) && right == Root(s.right)
      modifies `root, `turns, `height, Around(c), Nodes(s)
      ensures Linked(t', null) && root == Root(t') && Balanced(t') && height == Height(t')
      ensures InOrder(t') == (Before(c) + InOrder(s.left)) + (InOrder(s.right) + After(c))
      ensures turns <= old(turns) + 2 * old(height)
    {
      hide Linked, Embeds, Nodes, Around, RootOf, Balanced, BalancedAround, HeightAround, Height, InOrder, Before,
        After, Plug, Sorted;
      ExistAll(c, s);
      Unfold(s, ParentIn(c, null));
      SideOf(c, s);
      var parent := parent0;
      if left == null || right == null {
        var next := if left == null then right else left;
        ghost var x := if left == null then s.right else s.left;
        var isLeft := parent != null && parent.left == node;
        CutOut(node, next, parent, c, s, x);
        t' := RebalanceUp(parent, isLeft, c, x, Height(s));
        CutOrder(c, x, InOrder(s.left), InOrder(s.right));
      } else {
        var next, isLeft;
        ghost var spine, x, c';
        next, spine, x := GetFirst(right, s.right, node);
        parent, isLeft, c' := SpliceIn(node, parent, left, right, next, c, s, spine, x);
        t' := RebalanceUp(parent, isLeft, c', x, Height(x) + 1);
      }
    }

    /** A subtree's nodes are the tree's. */
    static lemma InTree(c: Context, s: Tree, t: Tree)
      requires Plug(c, s) == t
      ensures Nodes(t) == Nodes(s) + Around(c)
    {
      PlugNodes(c, s);
    }

    lemma SideOf(c: Context, s: Tree)
      requires s.Fork? && Holds(c, s)
      ensures s.node.parent == ParentIn(c, null)
      ensures !c.Top? ==> c.InLeft? == (s.node.parent != null && s.node.parent.left == s.node)
    {
      Unfold(s, ParentIn(c, null));
      if !c.Top? {
        OnlySide(c, s);
      }
    }

    /** First and last of what remains. */
    static lemma EndsWithout(e: seq<Node>, i: nat)
      requires i < |e| && Sorted(e)
      ensures var e' := e[..i] + e[i + 1..];
        && Sorted(e')
        && First(e') == (if e[i] == First(e) then (if i + 1 < |e| then e[i + 1] else null) else First(e))
        && Last(e') == (if e[i] == Last(e) then (if i > 0 then e[i - 1] else null) else Last(e))
    {
      assert i > 0 ==> e[0] != e[i];
      assert i < |e| - 1 ==> e[|e| - 1] != e[i];
    }

    static lemma CutOrder(c: Context, x: Tree, l: seq<Node>, r: seq<Node>)
      requires InOrder(x) == l + r
      ensures InOrder(Plug(c, x)) == (Before(c) + l) + (r + After(c))
    {
      PlugOrder(c, x);
    }

    /** avltree_replace: the new node takes the place of element i, whatever it orders like there. */
    method Replace(was: Node, node: Node, ghost i: nat)
      requires Valid() && i < |Elements()| && Elements()[i] == was && node !in Nodes(t) && Sorted(Elements()[i := node])
      modifies this, Nodes(t), node
      ensures Valid() && Elements() == old(Elements())[i := node]
    {
      hide Linked, Embeds, Nodes, Around, RootOf, Balanced, BalancedAround, HeightAround, Height, InOrder, Before,
        After, Plug, Sorted;
      Exist(t);
      Parts();
      ghost var c, s := PlaceOf(i);
      InTree(c, s, t);
      PlugBalanced(c, s);
      Unfold(s, ParentIn(c, null));
      EndsReplaced(Elements(), i, node);
      Substitute(was, node, c, s);
      if first == was {
        first := node;
      }
      if last == was {
        last := node;
      }
      t := Plug(c, Fork(s.left, node, s.right));
      PlugLinked(c, Fork(s.left, node, s.right), null);
      PlugNodes(c, Fork(s.left, node, s.right));
      PlugBalanced(c, Fork(s.left, node, s.right));
      ReplacedOrder(c, s, node, i);
    }

    /** The links of avltree_replace. */
    method Substitute(was: Node, node: Node, ghost c: Context, ghost s: Tree)
      requires s.Fork? && s.node == was && Holds(c, s) && Balanced(s) && node !in Nodes(s) && node !in Around(c)
      modifies `root, Around(c)`left, Around(c)`right, Nodes(s)`parent, node
      ensures Holds(c, Fork(s.left, node, s.right)) && Balanced(Fork(s.left, node, s.right))
        && Height(Fork(s.left, node, s.right)) == Height(s)
      ensures Nodes(Fork(s.left, node, s.right)) == Nodes(s) - {was} + {node}
    {
      hide Linked, Embeds, Nodes, Around, RootOf, Balanced, Height;
      ghost var l, r, p := s.left, s.right, ParentIn(c, null);
      ExistAll(c, s);
      Unfold(s, p);
      ForkHeight(l, was, r);
      ForkHeight(l, node, r);
      ForkNodes(l, node, r);
      HoleOutside(c, was, null);
      var parent := was.parent;
      Attach(parent, was, node, c);
      TakeOver(was, node, s, p);
    }

    static lemma ForkNodes(l: Tree, n: Node, r: Tree)
      ensures Nodes(Fork(l, n, r)) == Nodes(l) + {n} + Nodes(r)
    {
    }

    static method TakeOver(was: Node, node: Node, ghost s: Tree, ghost p: Node?)
      requires s.Fork? && s.node == was && Linked(s, p) && Balanced(s) && node !in Nodes(s)
      modifies Nodes(s)`parent, node
      ensures Linked(Fork(s.left, node, s.right), p) && Balanced(Fork(s.left, node, s.right))
    {
      hide Linked, Nodes, Balanced, Height;
      ghost var l, r := s.left, s.right;
      Exist(s);
      Unfold(s, p);
      BalancedParts(s);
      RootInNodes(l);
      RootInNodes(r);
      Adopt(was.left, node, l, was);
      Adopt(was.right, node, r, was);
      CopyNode(was, node);
      Fold(l, node, r, p);
      BalancedFork(l, node, r);
    }

    static method CopyNode(was: Node, node: Node)
      requires was != node
      modifies node
      ensures node.left == was.left && node.right == was.right && node.parent == was.parent
        && node.balance == was.balance
    {
      node.left := was.left;
      node.right := was.right;
      node.parent := was.parent;
      node.balance := was.balance;
    }

    static lemma EndsReplaced(e: seq<Node>, i: nat, x: Node)
      requires i < |e| && Sorted(e)
      ensures var e' := e[i := x];
        && First(e') == (if First(e) == e[i] then x else First(e))
        && Last(e') == (if Last(e) == e[i] then x else Last(e))
    {
      assert i > 0 ==> e[0] != e[i];
      assert i < |e| - 1 ==> e[|e| - 1] != e[i];
    }

    static lemma ReplacedOrder(c: Context, s: Tree, x: Node, i: nat)
      requires s.Fork? && i < |InOrder(Plug(c, s))|
      requires InOrder(Plug(c, s))[..i] == Before(c) + InOrder(s.left)
        && InOrder(Plug(c, s))[i + 1..] == InOrder(s.right) + After(c)
      ensures InOrder(Plug(c, Fork(s.left, x, s.right))) == InOrder(Plug(c, s))[i := x]
    {
      hide Before, After, Plug, InOrder;
      PlugOrder(c, Fork(s.left, x, s.right));
      ForkOrder(s.left, x, s.right);
      Reassemble(InOrder(Plug(c, s)), Before(c), InOrder(s.left), x, InOrder(s.right), After(c), i);
    }

    static lemma Reassemble(e: seq<Node>, a: seq<Node>, l: seq<Node>, x: Node, r: seq<Node>, b: seq<Node>, i: nat)
      requires i < |e| && e[..i] == a + l && e[i + 1..] == r + b
      ensures a + (l + [x] + r) + b == e[i := x]
    {
      assert a + (l + [x] + r) + b == (a + l) + [x] + (r + b);
      assert e[i := x] == e[..i] + [x] + e[i + 1..];
    }

    /** The ITERATE_AVL_TREE loop: every node once, in order. */
    method Walk() returns (out: seq<Node>)
      requires Valid()
      ensures out == Elements()
    {
      hide Linked, Nodes, Balanced, Height, InOrder, Sorted;
      out := [];
      Exist(t);
      var node := first;
      while node != null
        invariant Shaped() && |out| <= |Elements()| && out == Elements()[..|out|]
        invariant node == if |out| < |Elements()| then Elements()[|out|] else null
        decreases |Elements()| - |out|
      {
        var next := Next(node, |out|);
        out := out + [node];
        node := next;
      }
    }
  }
}
