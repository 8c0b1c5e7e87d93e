/** Rows of a join, and the order in which nested scans produce them. */
module Rows {

  /** The elements of s that p accepts, in order. */
  function Keep<T>(p: T -> bool, s: seq<T>): seq<T>
  {
    if s == [] then [] else (if p(s[0]) then [s[0]] else []) + Keep(p, s[1..])
  }

  /** Row prefix extended by each of xs in turn. */
  function Extend<T>(prefix: seq<T>, xs: seq<T>): (r: seq<seq<T>>)
    ensures |r| == |xs|
    ensures forall i :: 0 <= i < |xs| ==> r[i] == prefix + [xs[i]]
  {
    if xs == [] then [] else [prefix + [xs[0]]] + Extend(prefix, xs[1..])
  }

  /** Every row extended by each of xs, the new column varying fastest. */
  function Cross<T>(rows: seq<seq<T>>, xs: seq<T>): seq<seq<T>>
  {
    if rows == [] then [] else Extend(rows[0], xs) + Cross(rows[1..], xs)
  }

  /** The Cartesian product of the columns, in lexicographic order, the last column varying fastest. */
  function Product<T>(columns: seq<seq<T>>): seq<seq<T>>
  {
    if columns == [] then [[]] else Cross(Product(columns[..|columns| - 1]), columns[|columns| - 1])
  }

  lemma KeepHead<T>(p: T -> bool, x: T, s: seq<T>)
    ensures Keep(p, [x] + s) == if p(x) then [x] + Keep(p, s) else Keep(p, s)
  {
    assert ([x] + s)[1..] == s;
  }

  lemma FirstOut<T>(a: seq<T>, b: seq<T>)
    requires a != []
    ensures a == [a[0]] + a[1..] && a + b == [a[0]] + (a[1..] + b)
  {
  }

  lemma {:induction false} KeepConcat<T>(p: T -> bool, a: seq<T>, b: seq<T>)
    ensures Keep(p, a + b) == Keep(p, a) + Keep(p, b)
  {
    if a == [] {
      assert a + b == b;
    } else {
      hide Keep;
      KeepConcat(p, a[1..], b);
      KeepHead(p, a[0], a[1..]);
      KeepHead(p, a[0], a[1..] + b);
      FirstOut(a, b);
      Associate([a[0]], Keep(p, a[1..]), Keep(p, b));
    }
  }

  lemma {:induction false} CrossConcat<T>(a: seq<seq<T>>, b: seq<seq<T>>, xs: seq<T>)
    ensures Cross(a + b, xs) == Cross(a, xs) + Cross(b, xs)
  {
    if a == [] {
      assert a + b == b;
    } else {
      hide Cross, Extend;
      CrossConcat(a[1..], b, xs);
      CrossOnto(a[0], a[1..], xs);
      CrossOnto(a[0], a[1..] + b, xs);
      FirstOut(a, b);
      Associate(Extend(a[0], xs), Cross(a[1..], xs), Cross(b, xs));
    }
  }

  /** The rows still to come once the scans stand on row and have rest left to offer, looking at the first m columns
      only. */
  function Pending<T>(columns: seq<seq<T>>, row: seq<T>, rest: seq<seq<T>>, m: nat): seq<seq<T>>
    requires m <= |columns| && m <= |row| && m <= |rest|
  {
    if m == 0 then []
    else Extend(row[..m - 1], rest[m - 1]) + Cross(Pending(columns, row, rest, m - 1), columns[m - 1])
  }

  /** Columns from m on do not matter to the rows pending in the first m. */
  lemma {:induction false} PendingLocal<T>(columns: seq<seq<T>>, row: seq<T>, rest: seq<seq<T>>, row': seq<T>,
                                           rest': seq<seq<T>>, m: nat)
    requires m <= |columns| && m <= |row| && m <= |rest| && m <= |row'| && m <= |rest'|
    requires row[..m] == row'[..m] && rest[..m] == rest'[..m]
    ensures Pending(columns, row, rest, m) == Pending(columns, row', rest', m)
  {
    if m > 0 {
      assert row[..m - 1] == row[..m][..m - 1] == row'[..m - 1];
      assert rest[..m - 1] == rest[..m][..m - 1] == rest'[..m - 1];
      assert rest[m - 1] == rest[..m][m - 1] == rest'[m - 1];
      PendingLocal(columns, row, rest, row', rest', m - 1);
    }
  }

  lemma ExtendHead<T>(prefix: seq<T>, first: T, others: seq<T>)
    ensures Extend(prefix, [first] + others) == [prefix + [first]] + Extend(prefix, others)
  {
    var xs := [first] + others;
    assert xs[0] == first && xs[1..] == others;
  }

  lemma CrossOnto<T>(prefix: seq<T>, more: seq<seq<T>>, xs: seq<T>)
    ensures Cross([prefix] + more, xs) == Extend(prefix, xs) + Cross(more, xs)
  {
    var rows := [prefix] + more;
    assert rows[0] == prefix && rows[1..] == more;
  }

  lemma Associate<T>(a: seq<T>, b: seq<T>, c: seq<T>)
    ensures a + b + c == a + (b + c)
  {
  }

  /** The first row of a product, and what follows it. */
  lemma CrossHead<T>(prefix: seq<T>, more: seq<seq<T>>, first: T, others: seq<T>)
    ensures Cross([prefix] + more, [first] + others)
         == [prefix + [first]] + (Extend(prefix, others) + Cross(more, [first] + others))
  {
    hide Cross, Extend;
    CrossOnto(prefix, more, [first] + others);
    ExtendHead(prefix, first, others);
    Associate([prefix + [first]], Extend(prefix, others), Cross(more, [first] + others));
  }

  lemma ProductFront<T>(columns: seq<seq<T>>, m: nat)
    requires 0 < m <= |columns|
    ensures Product(columns[..m]) == Cross(Product(columns[..m - 1]), columns[m - 1])
  {
    assert columns[..m][..m - 1] == columns[..m - 1];
  }

  lemma PendingFront<T>(columns: seq<seq<T>>, row: seq<T>, rest: seq<seq<T>>, m: nat)
    requires 0 < m <= |columns| == |row| == |rest|
    ensures Pending(columns, row, rest, m)
         == Extend(row[..m - 1], rest[m - 1]) + Cross(Pending(columns, row, rest, m - 1), columns[m - 1])
  {
  }

  lemma FirstThenPendingStep<T>(columns: seq<seq<T>>, row: seq<T>, rest: seq<seq<T>>, m: nat)
    requires 0 < m <= |columns| == |row| == |rest|
    requires columns[m - 1] == [row[m - 1]] + rest[m - 1]
    requires Product(columns[..m - 1]) == [row[..m - 1]] + Pending(columns, row, rest, m - 1)
    ensures Product(columns[..m]) == [row[..m]] + Pending(columns, row, rest, m)
  {
    hide Cross, Extend, Product, Pending;
    ProductFront(columns, m);
    PendingFront(columns, row, rest, m);
    LastOut(row, m);
    CrossHead(row[..m - 1], Pending(columns, row, rest, m - 1), row[m - 1], rest[m - 1]);
  }

  lemma LastOut<T>(row: seq<T>, m: nat)
    requires 0 < m <= |row|
    ensures row[..m] == row[..m - 1] + [row[m - 1]]
  {
  }

  /** The scans' first row and the rows pending after it are the whole product. */
  lemma {:induction false} FirstThenPending<T>(columns: seq<seq<T>>, row: seq<T>, rest: seq<seq<T>>, m: nat)
    requires m <= |columns| == |row| == |rest|
    requires forall k :: 0 <= k < m ==> columns[k] == [row[k]] + rest[k]
    ensures Product(columns[..m]) == [row[..m]] + Pending(columns, row, rest, m)
  {
    if m > 0 {
      FirstThenPending(columns, row, rest, m - 1);
      FirstThenPendingStep(columns, row, rest, m);
    }
  }

  /** While column m - 1 has something left, the next row only changes that column. */
  lemma StepLast<T>(columns: seq<seq<T>>, row: seq<T>, rest: seq<seq<T>>, m: nat)
    requires 0 < m <= |columns| == |row| == |rest| && rest[m - 1] != []
    ensures
      var row', rest' := row[m - 1 := rest[m - 1][0]], rest[m - 1 := rest[m - 1][1..]];
      Pending(columns, row, rest, m) == [row'[..m]] + Pending(columns, row', rest', m)
  {
    var row', rest' := row[m - 1 := rest[m - 1][0]], rest[m - 1 := rest[m - 1][1..]];
    PendingLocal(columns, row, rest, row', rest', m - 1);
    assert row'[..m - 1] == row[..m - 1];
    assert row'[..m] == row[..m - 1] + [rest[m - 1][0]];
    assert Extend(row[..m - 1], rest[m - 1]) == [row'[..m]] + Extend(row'[..m - 1], rest'[m - 1]);
  }

  /** When column m - 1 is used up, the earlier columns step, and it starts over. */
  lemma StepCarry<T>(columns: seq<seq<T>>, row: seq<T>, rest: seq<seq<T>>, row': seq<T>, rest': seq<seq<T>>, m: nat)
    requires 0 < m <= |columns| == |row| == |rest| == |row'| == |rest'| && rest[m - 1] == []
    requires Pending(columns, row, rest, m - 1) == [row'[..m - 1]] + Pending(columns, row', rest', m - 1)
    requires columns[m - 1] == [row'[m - 1]] + rest'[m - 1]
    ensures Pending(columns, row, rest, m) == [row'[..m]] + Pending(columns, row', rest', m)
  {
    CrossHead(row'[..m - 1], Pending(columns, row', rest', m - 1), row'[m - 1], rest'[m - 1]);
    assert row'[..m] == row'[..m - 1] + [row'[m - 1]];
    assert Extend(row[..m - 1], []) == [];
  }

  // ---- filtering columns before the product, or the product afterwards ----

  /** Every column of the row passes its own test. */
  ghost predicate Passes<T(!new)>(p: (nat, T) -> bool, row: seq<T>)
  {
    forall k :: 0 <= k < |row| ==> p(k, row[k])
  }

  /** The test of column k. */
  function Test<T>(p: (nat, T) -> bool, k: nat): T -> bool
  {
    x => p(k, x)
  }

  lemma Tested<T>(p: (nat, T) -> bool, k: nat, x: T)
    ensures Test(p, k)(x) == p(k, x)
  {
  }

  ghost function Filtered<T(!new)>(p: (nat, T) -> bool, data: seq<seq<T>>): (r: seq<seq<T>>)
    ensures |r| == |data|
    ensures forall k :: 0 <= k < |data| ==> r[k] == Keep(Test(p, k), data[k])
  {
    seq(|data|, k requires 0 <= k < |data| => Keep(Test(p, k), data[k]))
  }

  lemma {:induction false} ExtendFiltered<T(!new)>(p: (nat, T) -> bool, q: seq<T> -> bool, row: seq<T>, xs: seq<T>)
    requires forall r :: q(r) <==> Passes(p, r)
    ensures Keep(q, Extend(row, xs)) == if q(row) then Extend(row, Keep(Test(p, |row|), xs)) else []
  {
    if xs != [] {
      ExtendFiltered(p, q, row, xs[1..]);
      var longer := row + [xs[0]];
      assert q(longer) <==> q(row) && p(|row|, xs[0]) by {
        assert longer[|row|] == xs[0] && forall k :: 0 <= k < |row| ==> longer[k] == row[k];
      }
      assert Extend(row, xs)[0] == longer && Extend(row, xs)[1..] == Extend(row, xs[1..]);
    }
  }

  lemma {:induction false} CrossFiltered<T(!new)>(p: (nat, T) -> bool, q: seq<T> -> bool, rows: seq<seq<T>>,
                                           xs: seq<T>, m: nat)
    requires forall r :: q(r) <==> Passes(p, r)
    requires forall r :: r in rows ==> |r| == m
    ensures Keep(q, Cross(rows, xs)) == Cross(Keep(q, rows), Keep(Test(p, m), xs))
  {
    if rows != [] {
      hide Extend, Passes;
      CrossFiltered(p, q, rows[1..], xs, m);
      KeepConcat(q, Extend(rows[0], xs), Cross(rows[1..], xs));
      assert rows[0] in rows && rows == [rows[0]] + rows[1..];
      KeepHead(q, rows[0], rows[1..]);
      ExtendFiltered(p, q, rows[0], xs);
      if q(rows[0]) {
        CrossOnto(rows[0], Keep(q, rows[1..]), Keep(Test(p, m), xs));
      }
    }
  }

  lemma {:induction false} CrossWidth<T>(rows: seq<seq<T>>, xs: seq<T>, m: nat)
    requires forall r :: r in rows ==> |r| == m
    ensures forall r :: r in Cross(rows, xs) ==> |r| == m + 1
  {
    if rows != [] {
      CrossWidth(rows[1..], xs, m);
      assert rows[0] in rows;
    }
  }

  lemma {:induction false} ProductWidth<T>(columns: seq<seq<T>>)
    ensures forall r :: r in Product(columns) ==> |r| == |columns|
  {
    if columns != [] {
      ProductWidth(columns[..|columns| - 1]);
      CrossWidth(Product(columns[..|columns| - 1]), columns[|columns| - 1], |columns| - 1);
    }
  }

  /** Filtering each column first gives the rows that pass column by column. */
  lemma {:induction false} ProductFiltered<T(!new)>(p: (nat, T) -> bool, q: seq<T> -> bool, data: seq<seq<T>>)
    requires forall r :: q(r) <==> Passes(p, r)
    ensures Product(Filtered(p, data)) == Keep(q, Product(data))
  {
    if data != [] {
      var m := |data| - 1;
      ProductFiltered(p, q, data[..m]);
      assert Filtered(p, data)[..m] == Filtered(p, data[..m]);
      ProductWidth(data[..m]);
      CrossFiltered(p, q, Product(data[..m]), data[m], m);
    }
  }

  lemma {:induction false} KeepKept<T(!new)>(w: T -> bool, q: T -> bool, s: seq<T>)
    requires forall x :: x in s && w(x) ==> q(x)
    ensures Keep(w, Keep(q, s)) == Keep(w, s)
  {
    if s != [] {
      assert s[0] in s && s == [s[0]] + s[1..];
      KeepKept(w, q, s[1..]);
      KeepHead(q, s[0], s[1..]);
      KeepHead(w, s[0], s[1..]);
      KeepHead(w, s[0], Keep(q, s[1..]));
    }
  }

  /** If the condition on whole rows implies every column's own test, filtering the columns first loses nothing. */
  lemma PushDown<T(!new)>(w: seq<T> -> bool, p: (nat, T) -> bool, data: seq<seq<T>>)
    requires forall row :: |row| == |data| && w(row) ==> Passes(p, row)
    ensures Keep(w, Product(Filtered(p, data))) == Keep(w, Product(data))
  {
    ghost var q := (row: seq<T>) => Passes(p, row);
    ProductFiltered(p, q, data);
    ProductWidth(data);
    KeepKept(w, q, Product(data));
  }

  /** What Keep keeps passes the test. */
  lemma {:induction false} KeptPass<T>(p: T -> bool, s: seq<T>)
    ensures forall x :: x in Keep(p, s) ==> p(x) && x in s
  {
    if s != [] {
      KeptPass(p, s[1..]);
    }
  }

  lemma {:induction false} KeepAll<T>(p: T -> bool, s: seq<T>)
    requires forall x :: x in s ==> p(x)
    ensures Keep(p, s) == s
  {
    if s != [] {
      KeepAll(p, s[1..]);
      assert s == [s[0]] + s[1..] && s[0] in s;
    }
  }

  lemma CrossEmpty<T>(rows: seq<seq<T>>, xs: seq<T>)
    ensures Cross(rows, xs) == [] <==> rows == [] || xs == []
    decreases rows
  {
    if rows != [] {
      CrossEmpty(rows[1..], xs);
    }
  }

  /** Once column m - 1 is used up, nothing is pending exactly when the earlier columns have nothing pending. */
  lemma PendingUsedUp<T>(columns: seq<seq<T>>, row: seq<T>, rest: seq<seq<T>>, m: nat)
    requires 0 < m <= |columns| == |row| == |rest| && rest[m - 1] == [] && columns[m - 1] != []
    ensures Pending(columns, row, rest, m) == [] <==> Pending(columns, row, rest, m - 1) == []
  {
    CrossEmpty(Pending(columns, row, rest, m - 1), columns[m - 1]);
  }

  /** Column m - 1 is used up; row and rest became row1 and rest1 in that column only; the earlier columns stepped to
      row2 and rest2; then column m - 1 started over with first. */
  lemma Carried<T>(columns: seq<seq<T>>, row: seq<T>, rest: seq<seq<T>>, row1: seq<T>, rest1: seq<seq<T>>,
                   row2: seq<T>, rest2: seq<seq<T>>, first: T, others: seq<T>, m: nat)
    requires 0 < m <= |columns| == |row| == |rest| == |row1| == |rest1| == |row2| == |rest2|
    requires rest[m - 1] == [] && row1[..m - 1] == row[..m - 1] && rest1[..m - 1] == rest[..m - 1]
    requires Pending(columns, row1, rest1, m - 1) == [row2[..m - 1]] + Pending(columns, row2, rest2, m - 1)
    requires columns[m - 1] == [first] + others
    ensures var row', rest' := row2[m - 1 := first], rest2[m - 1 := others];
      Pending(columns, row, rest, m) == [row'[..m]] + Pending(columns, row', rest', m)
  {
    var row', rest' := row2[m - 1 := first], rest2[m - 1 := others];
    PendingLocal(columns, row, rest, row1, rest1, m - 1);
    PendingLocal(columns, row2, rest2, row', rest', m - 1);
    assert row'[..m - 1] == row2[..m - 1];
    StepCarry(columns, row, rest, row', rest', m);
  }

  /** A product with an empty column has no rows. */
  lemma {:induction false} ProductEmpty<T>(columns: seq<seq<T>>)
    ensures Product(columns) == [] <==> exists k :: 0 <= k < |columns| && columns[k] == []
  {
    if columns != [] {
      var m := |columns| - 1;
      ProductEmpty(columns[..m]);
      CrossEmpty(Product(columns[..m]), columns[m]);
      assert forall k :: 0 <= k < m ==> columns[..m][k] == columns[k];
    }
  }

  /** The first n of s, or all of them where n is 0. */
  function FirstOf<T>(n: nat, s: seq<T>): seq<T>
  {
    if n == 0 || |s| <= n then s else s[..n]
  }

  /** On rows of one column, w is the column's own test. */
  ghost predicate SameTest<T(!new)>(w: seq<T> -> bool, p: (nat, T) -> bool)
  {
    forall row :: |row| == 1 ==> (w(row) <==> p(0, row[0]))
  }

  /** Pushing the condition of a single column down makes the condition itself superfluous. */
  lemma PushDownOne<T(!new)>(w: seq<T> -> bool, p: (nat, T) -> bool, data: seq<seq<T>>)
    requires |data| == 1 && SameTest(w, p)
    ensures Product(Filtered(p, data)) == Keep(w, Product(data))
  {
    hide Product, Keep, Filtered;
    ghost var q := (row: seq<T>) => Passes(p, row);
    PushDown(w, p, data);
    ProductFiltered(p, q, data);
    ProductWidth(data);
    KeptPass(q, Product(data));
    KeepAll(w, Product(Filtered(p, data)));
  }

  lemma {:induction false} CrossSize<T>(rows: seq<seq<T>>, xs: seq<T>)
    ensures |Cross(rows, xs)| == |rows| * |xs|
  {
    if rows != [] {
      CrossSize(rows[1..], xs);
      Distribute(|rows| - 1, |xs|);
    }
  }

  lemma Distribute(a: int, n: int)
    ensures (a + 1) * n == a * n + n
  {
  }

  lemma IndexLeft<T>(s: seq<T>, t: seq<T>, i: nat)
    requires i < |s|
    ensures (s + t)[i] == s[i]
  {
  }

  lemma IndexRight<T>(s: seq<T>, t: seq<T>, i: nat)
    requires i < |t|
    ensures (s + t)[|s| + i] == t[i]
  {
  }

  /** Row a of the old rows with element b of the new column stands at place a * |xs| + b. */
  lemma {:induction false} CrossAt<T>(rows: seq<seq<T>>, xs: seq<T>, a: nat, b: nat)
    requires a < |rows| && b < |xs|
    ensures var i := a * |xs| + b; 0 <= i < |Cross(rows, xs)| && Cross(rows, xs)[i] == rows[a] + [xs[b]]
  {
    hide Cross;
    FirstOut(rows, []);
    CrossOnto(rows[0], rows[1..], xs);
    if a == 0 {
      IndexLeft(Extend(rows[0], xs), Cross(rows[1..], xs), b);
    } else {
      CrossAt(rows[1..], xs, a - 1, b);
      Distribute(a - 1, |xs|);
      IndexRight(Extend(rows[0], xs), Cross(rows[1..], xs), (a - 1) * |xs| + b);
    }
  }

  /** The product lists every combination exactly once, in lexicographic order: it has as many rows as there are
      combinations, and the combination of the front part at place a with element b of the last column stands at place a
      * |last| + b. */
  lemma ProductAt<T>(columns: seq<seq<T>>, a: nat, b: nat)
    requires columns != [] && a < |Product(columns[..|columns| - 1])| && b < |columns[|columns| - 1]|
    ensures var front, last := Product(columns[..|columns| - 1]), columns[|columns| - 1];
      var i := a * |last| + b;
      |Product(columns)| == |front| * |last| && 0 <= i < |Product(columns)|
        && Product(columns)[i] == front[a] + [last[b]]
  {
    CrossSize(Product(columns[..|columns| - 1]), columns[|columns| - 1]);
    CrossAt(Product(columns[..|columns| - 1]), columns[|columns| - 1], a, b);
  }
}
