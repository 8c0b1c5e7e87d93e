/** The join part of core/qep.c: one cursor per table, moved like an odometer. */
module JoinExecutor {
  import opened Rows
  import opened BPlusNodes
  import opened BPlusLevels
  import opened BPlusTrees

  /** The records of every table, in key order. */
  ghost function Scans(tables: seq<BPlusTree>): (r: seq<seq<Record>>)
    reads tables
    ensures |r| == |tables|
    ensures forall k :: 0 <= k < |tables| ==> r[k] == RecordsOf(tables[k].Records())
  {
    if tables == [] then [] else
      var last := |tables| - 1;
      Scans(tables[..last]) + [RecordsOf(tables[last].Records())]
  }

  class Qep {
    const tables: seq<BPlusTree>
    // what the WHERE condition leaves for one table; always true where nothing is left
    const pred: (nat, Record) -> bool
    const condition: seq<Record> -> bool   // the whole WHERE condition
    var limit: nat                         // 0: none
    var bpnode: seq<Node?>
    var index: seq<int>
    var recArray: seq<Record>
    var isJoinStarted: bool
    var isJoinFinished: bool
    ghost const data: seq<seq<Record>>     // the records of every table, in key order
    ghost const columns: seq<seq<Record>>  // those that pass the table's own condition
    ghost var leaf: seq<nat>
    ghost var pos: seq<int>                // where each cursor stands in data; -1 before the first record
    ghost var rest: seq<seq<Record>>       // what each cursor has still to offer of its column

    /** Cursors before the first record, nothing started; whatever the query said, the limit is 0. */
    constructor (tables: seq<BPlusTree>, pred: (nat, Record) -> bool, condition: seq<Record> -> bool)
      requires |tables| > 0
      requires forall t :: t in tables ==> t.Valid() && NULL !in RecordsOf(t.Records())
      ensures this.tables == tables && this.pred == pred && this.condition == condition && limit == 0
      ensures !isJoinStarted && !isJoinFinished
      ensures data == Scans(tables) && Valid()
      ensures Remaining() == Product(columns)
    {
      hide BPlusTree.Valid, BPlusTree.Records, RecordsOf, Keep, Product, Pending, Cursors;
      this.tables, this.pred, this.condition, limit := tables, pred, condition, 0;
      bpnode, index := seq(|tables|, i => null), seq(|tables|, i => 0);
      recArray := seq(|tables|, i => NULL);
      isJoinStarted, isJoinFinished := false, false;
      data, columns := Scans(tables), Filtered(pred, Scans(tables));
      leaf, pos := seq(|tables|, i => 0), seq(|tables|, i => -1);
      rest := Filtered(pred, Scans(tables));
      new;
      Rewound(tables, pred, data, columns);
    }

    static lemma Rewound(tables: seq<BPlusTree>, p: (nat, Record) -> bool, data: seq<seq<Record>>,
                         columns: seq<seq<Record>>)
      requires forall t :: t in tables ==> t.Valid() && NULL !in RecordsOf(t.Records())
      requires data == Scans(tables) && columns == Filtered(p, data)
      ensures Cursors(tables, p, data, columns, seq(|tables|, i => null), seq(|tables|, i => 0), seq(|tables|, i => 0),
          seq(|tables|, i => -1), columns)
    {
      hide BPlusTree.Valid, BPlusTree.Records, RecordsOf, Keep, Scans, Filtered;
      forall k | 0 <= k < |tables|
        ensures CursorAt(tables[k], Test(p, k), data[k], columns[k], null, 0, 0, -1, columns[k])
      {
        assert tables[k] in tables && data[k][0..] == data[k];
      }
    }

    ghost predicate Sized()
      reads this
    {
      |tables| == |data| == |columns| == |bpnode| == |index| == |recArray| == |leaf| == |pos| == |rest|
    }

    /** The cursors stand where pos says, on unchanged tables. */
    ghost predicate Backed()
      reads `bpnode, `index, `leaf, `pos, `rest, tables, set t, n | t in tables && n in t.R :: n
    {
      Cursors(tables, pred, data, columns, bpnode, index, leaf, pos, rest)
    }

    static ghost predicate Cursors(tables: seq<BPlusTree>, p: (nat, Record) -> bool, data: seq<seq<Record>>,
                                   columns: seq<seq<Record>>,
                                   bpnode: seq<Node?>, index: seq<int>, leaf: seq<nat>, pos: seq<int>,
                                     rest: seq<seq<Record>>)
      reads tables, set t, n | t in tables && n in t.R :: n
    {
      && |tables| == |data| == |columns| == |bpnode| == |index| == |leaf| == |pos| == |rest|
      && forall k :: 0 <= k < |tables| ==>
      CursorAt(tables[k], Test(p, k), data[k], columns[k], bpnode[k], index[k], leaf[k], pos[k], rest[k])
    }

    static lemma CursorOf(tables: seq<BPlusTree>, p: (nat, Record) -> bool, data: seq<seq<Record>>,
                          columns: seq<seq<Record>>,
                          bpnode: seq<Node?>, index: seq<int>, leaf: seq<nat>, pos: seq<int>, rest: seq<seq<Record>>,
                            k: nat)
      requires Cursors(tables, p, data, columns, bpnode, index, leaf, pos, rest) && k < |tables|
      ensures |tables| == |data| == |columns| == |bpnode| == |index| == |leaf| == |pos| == |rest|
      ensures CursorAt(tables[k], Test(p, k), data[k], columns[k], bpnode[k], index[k], leaf[k], pos[k], rest[k])
    {
      hide CursorAt, Test;
    }

    static lemma CursorsUpdated(tables: seq<BPlusTree>, p: (nat, Record) -> bool, data: seq<seq<Record>>,
                                columns: seq<seq<Record>>,
                                bpnode: seq<Node?>, index: seq<int>, leaf: seq<nat>, pos: seq<int>,
                                  rest: seq<seq<Record>>, k: nat,
                                b: Node?, i: int, j: nat, x: int, r: seq<Record>)
      requires Cursors(tables, p, data, columns, bpnode, index, leaf, pos, rest) && k < |tables|
      requires CursorAt(tables[k], Test(p, k), data[k], columns[k], b, i, j, x, r)
      ensures Cursors(tables, p, data, columns, bpnode[k := b], index[k := i], leaf[k := j], pos[k := x], rest[k := r])
    {
      hide CursorAt, Test;
    }

    /** One table's cursor: it stands on record pos of the table, and rest is what passes p after it. */
    static ghost predicate CursorAt(table: BPlusTree, p: Record -> bool, d: seq<Record>, column: seq<Record>,
                                    bnode: Node?, i: int, j: nat, pos: int, rest: seq<Record>)
      reads table, table.R
    {
      && table.Valid() && d == RecordsOf(table.Records()) && NULL !in d
      && -1 <= pos < |d| && table.ScanAt(bnode, i, j, pos)
      && column == Keep(p, d) && rest == Keep(p, d[pos + 1..])
    }

    /** Before the join has started the cursors are rewound; once it runs, no column is empty. */
    ghost predicate Valid()
      reads this, tables, set t, n | t in tables && n in t.R :: n
    {
      && Sized() && Backed() && |tables| > 0 && columns == Filtered(pred, data)
      && (!isJoinStarted ==> !isJoinFinished && rest == columns && forall k :: 0 <= k < |tables| ==> pos[k] == -1)
      && (isJoinStarted && !isJoinFinished ==> forall k :: 0 <= k < |tables| ==> columns[k] != [])
    }

    /** The rows the join has still to deliver. */
    ghost function Remaining(): seq<seq<Record>>
      requires Valid()
      reads this, tables, set t, n | t in tables && n in t.R :: n
    {
      if !isJoinStarted then Product(columns)
      else if isJoinFinished then []
      else Pending(columns, recArray, rest, |tables|)
    }

    /** The tail of a column, looked at one record further on. */
    static lemma KeepNext(p: Record -> bool, s: seq<Record>, i: nat)
      requires i <= |s|
      ensures if i == |s| then Keep(p, s[i..]) == []
              else if p(s[i]) then Keep(p, s[i..]) != [] && Keep(p, s[i..])[0] == s[i]
                && Keep(p, s[i..])[1..] == Keep(p, s[i + 1..])
              else Keep(p, s[i..]) == Keep(p, s[i + 1..])
    {
      if i < |s| {
        assert s[i..][1..] == s[i + 1..];
      }
    }

    /** What the next record means for the cursor. */
    static lemma CursorMoved(table: BPlusTree, p: Record -> bool, d: seq<Record>, column: seq<Record>, b: Node?,
                             i: int, j: nat, pos: int,
                             rest: seq<Record>, rec: Record, b': Node?, i': int, j': nat)
      requires CursorAt(table, p, d, column, b, i, j, pos, rest)
      requires if pos + 1 < |table.Records()|
               then b' != null && table.ScanAt(b', i', j', pos + 1) && rec == RecordOf(table.Records()[pos + 1].v)
               else b' == null && rec == NULL
      ensures if rec == NULL then b' == null && rest == [] else b' != null && pos + 1 < |d| && rec == d[pos + 1]
      ensures rec == NULL ==> CursorAt(table, p, d, column, b', i', j', -1, column)
      ensures rec != NULL && p(rec) ==>
        rest != [] && rec == rest[0] && CursorAt(table, p, d, column, b', i', j', pos + 1, rest[1..])
      ensures rec != NULL && !p(rec) ==> CursorAt(table, p, d, column, b', i', j', pos + 1, rest)
    {
      hide BPlusTree.Valid, BPlusTree.Records, Keep;
      KeepNext(p, d, pos + 1);
      assert d[0..] == d;
      assert pos + 1 < |d| ==> rec == d[pos + 1] && d[pos + 1] in d;
    }

    static method NextOf(table: BPlusTree, ghost p: Record -> bool, ghost d: seq<Record>, ghost column: seq<Record>,
                         b: Node?, i: int,
                         ghost j: nat, ghost pos: int, ghost rest: seq<Record>)
      returns (rec: Record, b': Node?, i': int, ghost j': nat)
      requires CursorAt(table, p, d, column, b, i, j, pos, rest)
      ensures if rec == NULL then b' == null && rest == [] else b' != null && pos + 1 < |d| && rec == d[pos + 1]
      ensures rec == NULL ==> CursorAt(table, p, d, column, b', i', j', -1, column)
      ensures rec != NULL && p(rec) ==>
        rest != [] && rec == rest[0] && CursorAt(table, p, d, column, b', i', j', pos + 1, rest[1..])
      ensures rec != NULL && !p(rec) ==> CursorAt(table, p, d, column, b', i', j', pos + 1, rest)
    {
      rec, b', i', j' := table.NextRecord(b, i, j, pos);
      CursorMoved(table, p, d, column, b, i, j, pos, rest, rec, b', i', j');
    }

    /** One BPlusTree_get_next_record on the cursor of table k. */
    static method Advance(tables: seq<BPlusTree>, ghost p: (nat, Record) -> bool, ghost data: seq<seq<Record>>,
                          ghost columns: seq<seq<Record>>,
                          bpnode: seq<Node?>, index: seq<int>, ghost leaf: seq<nat>, ghost pos: seq<int>,
                            ghost rest: seq<seq<Record>>, k: nat)
      returns (rec: Record, bpnode': seq<Node?>, index': seq<int>, ghost leaf': seq<nat>, ghost pos': seq<int>,
          ghost rest': seq<seq<Record>>)
      requires Cursors(tables, p, data, columns, bpnode, index, leaf, pos, rest) && k < |tables|
      ensures Cursors(tables, p, data, columns, bpnode', index', leaf', pos', rest')
      ensures |tables| == |data| == |columns| == |bpnode'| == |index'| == |leaf'| == |pos'| == |rest'| == |rest|
      ensures rec == NULL ==> rest[k] == [] && rest' == rest[k := columns[k]]
      ensures rec != NULL ==> bpnode'[k] != null && pos[k] + 1 < |data[k]| && rec == data[k][pos[k] + 1]
      ensures rec != NULL ==> pos'[k] == pos[k] + 1
      ensures rec != NULL ==> if p(k, rec) then rest[k] != [] && rec == rest[k][0] && rest' == rest[k := rest[k][1..]]
        else rest' == rest
    {
      hide CursorAt, Keep, Test;
      CursorOf(tables, p, data, columns, bpnode, index, leaf, pos, rest, k);
      var b, i;
      ghost var j;
      rec, b, i, j := NextOf(tables[k], Test(p, k), data[k], columns[k], bpnode[k], index[k], leaf[k], pos[k], rest[k]);
      Tested(p, k, rec);
      ghost var x, r := if rec == NULL then -1
        else pos[k] + 1, if rec == NULL then columns[k] else if p(k, rec) then rest[k][1..] else rest[k];
      CursorsUpdated(tables, p, data, columns, bpnode, index, leaf, pos, rest, k, b, i, j, x, r);
      bpnode', index', leaf', pos', rest' := bpnode[k := b], index[k := i], leaf[k := j], pos[k := x], rest[k := r];
    }

    /** Advance on the cursors of the query. */
    method Fetch(k: nat) returns (rec: Record)
      requires Sized() && Backed() && k < |tables|
      modifies `bpnode, `index, `leaf, `pos, `rest
      ensures Sized() && Backed()
      ensures rec == NULL ==> old(rest)[k] == [] && rest == old(rest)[k := columns[k]]
      ensures rec != NULL ==> bpnode[k] != null && pos[k] == old(pos)[k] + 1 < |data[k]|
      ensures rec != NULL ==>
        if pred(k, rec) then old(rest)[k] != [] && rec == old(rest)[k][0] && rest == old(rest)[k := old(rest)[k][1..]]
        else rest == old(rest)
    {
      hide Cursors;
      rec, bpnode, index, leaf, pos, rest := Advance(tables, pred, data, columns, bpnode, index, leaf, pos, rest, k);
    }

    /** The scanning loop: the next record of table k that passes the table's condition, or NULL, and then the cursor is
        rewound. */
    method Search(k: nat) returns (rec: Record)
      requires Sized() && Backed() && k < |tables|
      modifies `bpnode, `index, `recArray, `leaf, `pos, `rest
      ensures Sized() && Backed()
      ensures recArray == old(recArray)[k := recArray[k]]
      ensures if rec == NULL then old(rest)[k] == [] && rest == old(rest)[k := columns[k]]
              else
                && old(rest)[k] != [] && rec == recArray[k] == old(rest)[k][0]
                && rest == old(rest)[k := old(rest)[k][1..]]
    {
      hide Backed;
      while true
        invariant Sized() && Backed() && recArray == old(recArray)[k := recArray[k]] && rest == old(rest)
        decreases |data[k]| - pos[k]
      {
        rec := Fetch(k);
        if rec == NULL {
          break;
        }
        recArray := recArray[k := rec];
        var rc := pred(k, rec);
        if rc || bpnode[k] == null {
          break;
        }
      }
    }

    /** table_iterators_first: the first row, or nothing when some column is empty. */
    method TableIteratorsFirst(m: nat)
      requires Sized() && Backed() && m <= |tables|
      requires forall k :: 0 <= k < m ==> rest[k] == columns[k]
      modifies `bpnode, `index, `recArray, `leaf, `pos, `rest, `isJoinFinished
      ensures Sized() && Backed()
      ensures recArray[m..] == old(recArray)[m..] && rest[m..] == old(rest)[m..]
      ensures isJoinFinished <==> old(isJoinFinished) || exists k :: 0 <= k < m && columns[k] == []
      ensures isJoinFinished || forall k :: 0 <= k < m ==> columns[k] == [recArray[k]] + rest[k]
    {
      hide Backed, Cursors;
      if m == 0 {
        return;
      }
      var rec := Search(m - 1);
      if rec == NULL {
        isJoinFinished := true;
        return;
      }
      label Found:
      TableIteratorsFirst(m - 1);
      assert recArray[m - 1] == recArray[m - 1..][0] == old@Found(recArray)[m - 1..][0];
      assert rest[m - 1] == rest[m - 1..][0] == old@Found(rest)[m - 1..][0];
    }

    /** The first m cursors made one step: to the next pending row, or past the last one, and that ends the join. */
    static ghost predicate Stepped(columns: seq<seq<Record>>, row: seq<Record>, rest: seq<seq<Record>>, over: bool,
                                   row': seq<Record>, rest': seq<seq<Record>>, over': bool, m: nat)
      requires m <= |columns| == |row| == |rest| == |row'| == |rest'|
    {
      && (over ==> over')
      && ((forall k :: 0 <= k < m ==> columns[k] != []) ==>
          var before := Pending(columns, row, rest, m);
          if before == [] then m > 0 ==> over' && row'[m - 1] == NULL
          else over' == over && row'[m - 1] != NULL && before == [row'[..m]] + Pending(columns, row', rest', m))
    }

    static lemma SteppedLast(columns: seq<seq<Record>>, row: seq<Record>, rest: seq<seq<Record>>, over: bool, m: nat)
      requires 0 < m <= |columns| == |row| == |rest| && rest[m - 1] != [] && rest[m - 1][0] != NULL
      ensures Stepped(columns, row, rest, over, row[m - 1 := rest[m - 1][0]], rest[m - 1 := rest[m - 1][1..]], over, m)
    {
      hide Pending;
      StepLast(columns, row, rest, m);
    }

    static lemma SteppedOver(columns: seq<seq<Record>>, row: seq<Record>, rest: seq<seq<Record>>, over: bool,
                             row1: seq<Record>, rest1: seq<seq<Record>>,
                             row2: seq<Record>, rest2: seq<seq<Record>>, over2: bool, m: nat)
      requires 0 < m <= |columns| == |row| == |rest| == |row1| == |rest1| == |row2| == |rest2|
      requires rest[m - 1] == [] && row1[..m - 1] == row[..m - 1] && rest1[..m - 1] == rest[..m - 1]
      requires Stepped(columns, row1, rest1, over, row2, rest2, over2, m - 1)
      requires row2[m - 1] == NULL && if m == 1 then over2 else row2[m - 2] == NULL
      ensures Stepped(columns, row, rest, over, row2, rest2, over2, m)
    {
      if forall k :: 0 <= k < m ==> columns[k] != [] {
        PendingUsedUp(columns, row, rest, m);
        PendingLocal(columns, row, rest, row1, rest1, m - 1);
      }
    }

    static lemma SteppedCarry(columns: seq<seq<Record>>, row: seq<Record>, rest: seq<seq<Record>>, over: bool,
                              row1: seq<Record>, rest1: seq<seq<Record>>,
                              row2: seq<Record>, rest2: seq<seq<Record>>, over2: bool, row3: seq<Record>,
                                rest3: seq<seq<Record>>, m: nat)
      requires 1 < m <= |columns| == |row| == |rest| == |row1| == |rest1| == |row2| == |rest2|
      requires rest[m - 1] == [] && row1[..m - 1] == row[..m - 1] && rest1[..m - 1] == rest[..m - 1]
      requires Stepped(columns, row1, rest1, over, row2, rest2, over2, m - 1) && row2[m - 2] != NULL
      requires |row3| == |row2| && |rest3| == |rest2| && row3 == row2[m - 1 := row3[m - 1]]
        && rest3 == rest2[m - 1 := rest3[m - 1]]
      requires columns[m - 1] != [] ==> row3[m - 1] != NULL && columns[m - 1] == [row3[m - 1]] + rest3[m - 1]
      ensures Stepped(columns, row, rest, over, row3, rest3, over2, m)
    {
      hide Pending;
      if forall k :: 0 <= k < m ==> columns[k] != [] {
        PendingUsedUp(columns, row, rest, m);
        PendingLocal(columns, row, rest, row1, rest1, m - 1);
        Carried(columns, row, rest, row1, rest1, row2, rest2, row3[m - 1], rest3[m - 1], m);
      }
    }

    /** table_iterators_next: the next row, or nothing and the join is over. */
    method TableIteratorsNext(m: nat)
      requires Sized() && Backed() && m <= |tables|
      modifies `bpnode, `index, `recArray, `leaf, `pos, `rest, `isJoinFinished
      ensures Sized() && Backed()
      ensures forall k :: m <= k < |tables| ==> recArray[k] == old(recArray)[k] && rest[k] == old(rest)[k]
      ensures Stepped(columns, old(recArray), old(rest), old(isJoinFinished), recArray, rest, isJoinFinished, m)
    {
      hide Backed, Cursors, Stepped;
      ghost var row, rest0, over := recArray, rest, isJoinFinished;
      if m == 0 {
        SteppedNone(columns, row, rest0, over, row, rest0, over);
        return;
      }
      var rec := Search(m - 1);
      if rec != NULL {
        SteppedLast(columns, row, rest0, over, m);
        return;
      }
      recArray := recArray[m - 1 := NULL];
      ghost var row1, rest1 := recArray, rest;
      TableIteratorsNext(m - 1);
      ghost var row2, rest2, over2 := recArray, rest, isJoinFinished;
      if m - 1 == 0 {
        isJoinFinished := true;
        SteppedNone(columns, row1, rest1, over, row2, rest2, true);
        SteppedOver(columns, row, rest0, over, row1, rest1, row2, rest2, true, m);
        return;
      }
      if recArray[m - 2] == NULL {
        SteppedOver(columns, row, rest0, over, row1, rest1, row2, rest2, over2, m);
        return;
      }
      rec := Search(m - 1);
      recArray := recArray[m - 1 := rec];
      SteppedCarry(columns, row, rest0, over, row1, rest1, row2, rest2, over2, recArray, rest, m);
    }

    static lemma SteppedNone(columns: seq<seq<Record>>, row: seq<Record>, rest: seq<seq<Record>>, over: bool,
                             row': seq<Record>, rest': seq<seq<Record>>, over': bool)
      requires |columns| == |row| == |rest| == |row'| == |rest'| && (over ==> over')
      ensures Stepped(columns, row, rest, over, row', rest', over', 0)
    {
    }

    /** qep_execute_join: delivers the rows of the product of the columns one by one, and then says it is over. */
    method ExecuteJoin() returns (ok: bool)
      requires Valid()
      modifies this
      ensures Valid() && limit == old(limit)
      ensures if old(Remaining()) == [] then !ok && Remaining() == []
              else ok && old(Remaining()) == [recArray] + Remaining()
    {
      hide Backed, Cursors, Pending, Product;
      var n := |tables|;
      if !isJoinStarted {
        TableIteratorsFirst(n);
        isJoinStarted := true;
        ProductEmpty(columns);
        if isJoinFinished {
          return false;
        }
        FirstThenPending(columns, recArray, rest, n);
        assert columns[..n] == columns && recArray[..n] == recArray;
        return true;
      }
      TableIteratorsNext(n);
      assert recArray[..n] == recArray;
      return !isJoinFinished;
    }

    /** Showing the product of the columns, filtered only if there is more than one table, shows the rows that meet the
        condition. */
    static lemma NothingLost(condition: seq<Record> -> bool, shown: seq<Record> -> bool, pred: (nat, Record) -> bool,
                             data: seq<seq<Record>>)
      requires forall row :: |row| == |data| && condition(row) ==> Passes(pred, row)
      requires |data| == 1 ==> SameTest(condition, pred) && forall row :: shown(row)
      requires |data| != 1 ==> shown == condition
      ensures Keep(shown, Product(Filtered(pred, data))) == Keep(condition, Product(data))
    {
      hide Product, Keep, SameTest, Passes;
      if |data| == 1 {
        PushDownOne(condition, pred, data);
        KeepAll(shown, Product(Filtered(pred, data)));
      } else {
        PushDown(condition, pred, data);
      }
    }

    /** The row loop of sql_execute_qep: the rows it emits, all that meet the condition, or the first so many of them if
        the limit is positive. */
    method Execute() returns (out: seq<seq<Record>>)
      requires Valid() && !isJoinStarted
      requires forall row :: |row| == |tables| && condition(row) ==> Passes(pred, row)
      requires |tables| == 1 ==> SameTest(condition, pred)
      modifies this
      ensures limit == old(limit) && out == FirstOf(limit, Keep(condition, Product(data)))
      ensures var all := Keep(condition, Product(data));
        out <= all && |out| == if 0 < limit < |all| then limit else |all|
    {
      hide Backed, Cursors, Pending, Product, Keep, Passes, SameTest, Filtered, FirstOf;
      ghost var shown: seq<Record> -> bool := if |tables| == 1 then row => true else condition;
      ghost var all := Keep(shown, Product(columns));
      NothingLost(condition, shown, pred, data);
      out := [];
      var rowNo := 0;
      while true
        invariant Valid() && all == out + Keep(shown, Remaining())
        invariant limit == old(limit) && rowNo == |out| && (limit > 0 ==> |out| < limit)
        decreases |Remaining()|
      {
        ghost var before := Remaining();
        var more := ExecuteJoin();
        if !more {
          KeepNone(shown);
          FirstAll(limit, out);
          break;
        }
        KeepHead(shown, recArray, Remaining());
        if |tables| > 1 && !condition(recArray) {
          continue;
        }
        rowNo := rowNo + 1;
        ghost var emitted := out;
        out := out + [recArray];
        Associate(emitted, [recArray], Keep(shown, Remaining()));
        if limit == rowNo {
          FirstSome(limit, out, Keep(shown, Remaining()));
          break;
        }
      }
    }

    static lemma FirstSome(n: nat, s: seq<seq<Record>>, more: seq<seq<Record>>)
      requires n == |s| > 0
      ensures FirstOf(n, s + more) == s
    {
      assert (s + more)[..n] == s;
    }

    static lemma FirstAll(n: nat, s: seq<seq<Record>>)
      requires n > 0 ==> |s| < n
      ensures FirstOf(n, s + []) == s
    {
      assert s + [] == s;
    }

    static lemma KeepNone(p: seq<Record> -> bool)
      ensures Keep(p, []) == []
    {
    }
  }
}
