/** gluethread/glthread.c: doubly linked lists threaded through memory. */
module Glthreads {

  const NULL := 0

  /** The two links of a node; addresses, or NULL. */
  datatype Glue = Glue(left: int, right: int)

  /** The nodes c are linked in this order, c[0] being the list's head. */
  ghost predicate Chain(glue: map<int, Glue>, c: seq<int>)
  {
    && c != []
    && (forall i, j :: 0 <= i < j < |c| ==> c[i] != c[j])
    && (forall i :: 0 <= i < |c| ==> LinkedAt(glue, c, i))
  }

  ghost predicate LinkedAt(glue: map<int, Glue>, c: seq<int>, i: nat)
    requires i < |c|
  {
    && c[i] != NULL && c[i] in glue
    && glue[c[i]].left == (if i == 0 then NULL else c[i - 1])
    && glue[c[i]].right == (if i == |c| - 1 then NULL else c[i + 1])
  }

  ghost predicate Loose(glue: map<int, Glue>, x: int)
  {
    x != NULL && x in glue && glue[x] == Glue(NULL, NULL)
  }

  /** The list with x put after its k-th node. */
  ghost function Inserted(c: seq<int>, k: nat, x: int): (r: seq<int>)
    requires k < |c|
    ensures |r| == |c| + 1
    ensures forall i :: 0 <= i <= k ==> r[i] == c[i]
    ensures r[k + 1] == x
    ensures forall i :: k + 1 < i < |r| ==> r[i] == c[i - 1]
  {
    c[..k + 1] + [x] + c[k + 1..]
  }

  /** The list without its k-th node. */
  ghost function Removed(c: seq<int>, k: nat): (r: seq<int>)
    requires k < |c|
    ensures |r| == |c| - 1
    ensures forall i :: 0 <= i < k ==> r[i] == c[i]
    ensures forall i :: k <= i < |r| ==> r[i] == c[i + 1]
  {
    c[..k] + c[k + 1..]
  }

  /** Nodes outside s are untouched. */
  ghost predicate SameOutside(glue: map<int, Glue>, glue': map<int, Glue>, s: set<int>)
  {
    glue.Keys == glue'.Keys && forall y :: y in glue && y !in s ==> glue'[y] == glue[y]
  }

  class GlueMemory {
    var glue: map<int, Glue>

    constructor (head: int)
      requires head != NULL
      ensures glue.Keys == {head} && Chain(glue, [head])
    {
      glue := map[head := Glue(NULL, NULL)];
    }

    /** init_glthread; the node's memory may be new. */
    method Init(x: int)
      modifies this
      ensures glue == old(glue)[x := Glue(NULL, NULL)]
    {
      glue := glue[x := Glue(NULL, NULL)];
    }

    /** glthread_add_next. */
    method AddNext(curr: int, x: int, ghost c: seq<int>, ghost k: nat)
      requires Chain(glue, c) && k < |c| && c[k] == curr && x !in c && Loose(glue, x)
      modifies this
      ensures Chain(glue, Inserted(c, k, x))
      ensures SameOutside(old(glue), glue, (set y | y in c) + {x})
    {
      ghost var g0 := glue;
      assert LinkedAt(glue, c, k);
      if glue[curr].right == NULL {
        glue := glue[curr := glue[curr].(right := x)];
        glue := glue[x := glue[x].(left := curr)];
      } else {
        assert LinkedAt(glue, c, k + 1);
        var temp := glue[curr].right;
        glue := glue[curr := glue[curr].(right := x)];
        glue := glue[x := glue[x].(left := curr)];
        glue := glue[x := glue[x].(right := temp)];
        glue := glue[temp := glue[temp].(left := x)];
      }
      ghost var r := Inserted(c, k, x);
      forall i | 0 <= i < |r| ensures LinkedAt(glue, r, i) {
        if i <= k {
          assert LinkedAt(g0, c, i);
        } else if i > k + 1 {
          assert LinkedAt(g0, c, i - 1);
        }
      }
    }

    /** remove_glthread: takes node k out of its list; a node in no list (k is -1) stays as it is. */
    method Remove(x: int, ghost c: seq<int>, ghost k: int)
      requires Chain(glue, c)
      requires if k == -1 then x !in c && Loose(glue, x) else 0 <= k < |c| && c[k] == x
      modifies this
      ensures Loose(glue, x)
      ensures if k == -1 || |c| == 1 then glue == old(glue) else Chain(glue, Removed(c, k))
      ensures SameOutside(old(glue), glue, set y | y in c)
    {
      if k >= 0 {
        assert LinkedAt(glue, c, k);
        assert k > 0 ==> LinkedAt(glue, c, k - 1);
        assert k + 1 < |c| ==> LinkedAt(glue, c, k + 1);
      }
      ghost var g0 := glue;
      var left, right := glue[x].left, glue[x].right;
      if left == NULL {
        if right != NULL {
          glue := glue[right := glue[right].(left := NULL)];
          glue := glue[x := glue[x].(right := NULL)];
        }
      } else if right == NULL {
        glue := glue[left := glue[left].(right := NULL)];
        glue := glue[x := glue[x].(left := NULL)];
      } else {
        glue := glue[left := glue[left].(right := right)];
        glue := glue[right := glue[right].(left := left)];
        glue := glue[x := Glue(NULL, NULL)];
      }
      if k >= 0 && |c| > 1 {
        ghost var r := Removed(c, k);
        forall i | 0 <= i < |r| ensures LinkedAt(glue, r, i) {
          assert LinkedAt(g0, c, if i < k then i else i + 1);
        }
      }
    }

    /** glthread_priority_insert: x goes behind every node it does not come before, up to the first it does. */
    method PriorityInsert(head: int, x: int, comp: (int, int) -> int, ghost c: seq<int>) returns (ghost k: nat)
      requires Chain(glue, c) && c[0] == head && x !in c && x != NULL
      modifies this
      ensures k < |c| && Chain(glue, Inserted(c, k, x))
      ensures forall i :: 0 < i <= k ==> comp(x, c[i]) != -1
      ensures k + 1 < |c| ==> comp(x, c[k + 1]) == -1
      ensures SameOutside(old(glue)[x := Glue(NULL, NULL)], glue, (set y | y in c) + {x})
    {
      Init(x);
      forall i | 0 <= i < |c| ensures LinkedAt(glue, c, i) {
        assert LinkedAt(old(glue), c, i);
      }
      k := 0;
      assert LinkedAt(glue, c, 0) && (|c| > 1 ==> LinkedAt(glue, c, 1)) && (|c| > 2 ==> LinkedAt(glue, c, 2));
      if glue[head].right == NULL && glue[head].left == NULL {
        AddNext(head, x, c, 0);
        return;
      }
      if glue[glue[head].right].right == NULL {
        if comp(x, glue[head].right) == -1 {
          AddNext(head, x, c, 0);
        } else {
          k := 1;
          AddNext(glue[head].right, x, c, 1);
        }
        return;
      }
      var prev, curr := NULL, glue[head].right;
      while curr != NULL
        invariant 0 <= k < |c|
        invariant if k + 1 < |c| then curr == c[k + 1] != NULL else curr == NULL
        invariant prev == if k == 0 then NULL else c[k]
        invariant forall i :: 0 < i <= k ==> comp(x, c[i]) != -1
        decreases |c| - k
      {
        assert LinkedAt(glue, c, k + 1) && (k + 2 < |c| ==> LinkedAt(glue, c, k + 2));
        var next := glue[curr].right;
        if comp(x, curr) != -1 {
          prev, curr, k := curr, next, k + 1;
          continue;
        }
        assert LinkedAt(glue, c, k);
        if prev == NULL {
          AddNext(head, x, c, 0);
        } else {
          AddNext(prev, x, c, k);
        }
        return;
      }
      assert LinkedAt(glue, c, k);
      AddNext(prev, x, c, k);
    }

    /** dequeue_glthread_first. */
    method DequeueFirst(head: int, ghost c: seq<int>) returns (x: int)
      requires Chain(glue, c) && c[0] == head
      modifies this
      ensures if |c| == 1 then x == NULL && glue == old(glue)
              else x == c[1] && Chain(glue, Removed(c, 1)) && Loose(glue, x)
      ensures SameOutside(old(glue), glue, set y | y in c)
    {
      assert LinkedAt(glue, c, 0) && (|c| > 1 ==> LinkedAt(glue, c, 1));
      if glue[head].right == NULL {
        return NULL;
      }
      x := glue[head].right;
      Remove(x, c, 1);
    }
  }
}
