/** Pull execution of scans and nested loops (src/sqlcore/executor/execNestLoop.c, src/sqlcore/executor/executor.c).

    Leaf scans are taken by contract: a call yields the next visible row of the table; a rescan starts over, but after
    the end of the table it goes back no further than the concrete scan does. */
module NestedLoop {
  import opened Commons
  import opened Rows
  import opened JoinTree

  /** The rows of a table that the statement's snapshot sees, in scan order, and those that a rescan yields once
      the table has been read to its end. */
  datatype TableScan = TableScan(rows: seq<TableRow>, again: seq<TableRow>)

  type Database = int -> TableScan

  function ScanRow(rte: RangTblEntry, data: TableRow): Row {
    [TableRowDataPosition(rte.rindex, rte.tblInfo, data)]
  }

  function ScanRows(rte: RangTblEntry, table: seq<TableRow>): seq<Row> {
    if table == [] then [] else [ScanRow(rte, table[0])] + ScanRows(rte, table[1..])
  }

  /** One outer row with every inner row. */
  function Pairs(outer: Row, inner: seq<Row>): seq<Row> {
    if inner == [] then [] else [outer + inner[0]] + Pairs(outer, inner[1..])
  }

  /** Every outer row in turn with every inner row. */
  function Cross(outer: seq<Row>, inner: seq<Row>): seq<Row> {
    if outer == [] then [] else Pairs(outer[0], inner) + Cross(outer[1..], inner)
  }

  /** The first outer row with one list of inner rows, and all others with another. */
  function CrossFrom(outer: seq<Row>, first: seq<Row>, again: seq<Row>): seq<Row> {
    if outer == [] then [] else Pairs(outer[0], first) + Cross(outer[1..], again)
  }

  /** Rows of so many tables. */
  ghost predicate Wide(rows: seq<Row>, w: nat) {
    forall i :: 0 <= i < |rows| ==> |rows[i]| == w
  }

  lemma {:induction false} ScanRowsWide(rte: RangTblEntry, table: seq<TableRow>)
    ensures Wide(ScanRows(rte, table), 1)
  {
    if table != [] {
      ScanRowsWide(rte, table[1..]);
    }
  }

  lemma {:induction false} PairsWide(outer: Row, inner: seq<Row>, w: nat)
    requires Wide(inner, w)
    ensures Wide(Pairs(outer, inner), |outer| + w)
  {
    if inner != [] {
      PairsWide(outer, inner[1..], w);
    }
  }

  lemma {:induction false} CrossWide(outer: seq<Row>, inner: seq<Row>, v: nat, w: nat)
    requires Wide(outer, v) && Wide(inner, w)
    ensures Wide(Cross(outer, inner), v + w)
  {
    if outer != [] {
      PairsWide(outer[0], inner, w);
      CrossWide(outer[1..], inner, v, w);
    }
  }

  lemma WideRest(rows: seq<Row>, w: nat)
    requires Wide(rows, w) && rows != []
    ensures |rows[0]| == w && Wide(rows[1..], w)
  {
  }

  lemma WideHead(rows: seq<Row>, w: nat)
    requires Wide(rows, w) && rows != []
    ensures |rows[0]| == w
  {
  }

  lemma CrossFromWide(outer: seq<Row>, first: seq<Row>, again: seq<Row>, v: nat, w: nat)
    requires Wide(outer, v) && Wide(first, w) && Wide(again, w)
    ensures Wide(CrossFrom(outer, first, again), v + w)
  {
    if outer != [] {
      PairsWide(outer[0], first, w);
      CrossWide(outer[1..], again, v, w);
    }
  }

  lemma CrossAgain(outer: seq<Row>, again: seq<Row>)
    ensures CrossFrom(outer, again, again) == Cross(outer, again)
  {
  }

  lemma PairsFirst(outer: Row, inner: seq<Row>)
    ensures Pairs(outer, inner) == if inner == [] then [] else [outer + inner[0]] + Pairs(outer, inner[1..])
  {
  }

  /** The row a node hands on: a buffer of table positions and how many of them are in use. */
  class ScanTableRowData {
    var tableNum: nat
    const tableRowData: array<TableRowDataPosition>

    constructor (width: nat)
      ensures tableRowData.Length == width && fresh(tableRowData) && tableNum == 0
    {
      tableNum := 0;
      tableRowData := new TableRowDataPosition[width](_ => TableRowDataPosition(0, 0, TableRow([], [])));
    }

    ghost predicate Holds(row: Row)
      reads this, tableRowData
    {
      tableNum == |row| <= tableRowData.Length && tableRowData[..tableNum] == row
    }
  }

  /** ExecMergeRowData: the left row's positions, then the right row's, into the join's own buffer. */
  method ExecMergeRowData(leftRow: ScanTableRowData, rightRow: ScanTableRowData, scanTblRowInfo: ScanTableRowData, ghost l: Row, ghost r: Row)
    requires leftRow.Holds(l) && rightRow.Holds(r) && 1 <= |l|
    requires scanTblRowInfo != leftRow && scanTblRowInfo != rightRow
    requires scanTblRowInfo.tableRowData != leftRow.tableRowData && scanTblRowInfo.tableRowData != rightRow.tableRowData
    requires |l| + |r| <= scanTblRowInfo.tableRowData.Length
    modifies scanTblRowInfo, scanTblRowInfo.tableRowData
    ensures scanTblRowInfo.Holds(l + r)
  {
    var tblRow := scanTblRowInfo.tableRowData;
    var tableNum := leftRow.tableNum + rightRow.tableNum;
    scanTblRowInfo.tableNum := tableNum;
    var index := 0;
    var tmpRow := leftRow;
    ghost var done, now := [], l;
    while true
      invariant index == |done| <= |l| && tblRow[..index] == done && tmpRow.Holds(now)
      invariant (done == [] && now == l && tmpRow == leftRow) || (done == l && now == r && tmpRow == rightRow)
      invariant leftRow.Holds(l) && rightRow.Holds(r) && scanTblRowInfo.tableNum == tableNum
      decreases |l| - |done|
    {
      var k := 0;
      while k < tmpRow.tableNum
        invariant k <= |now| && index == |done| + k
        invariant tblRow[..index] == done + now[..k]
        invariant leftRow.Holds(l) && rightRow.Holds(r) && scanTblRowInfo.tableNum == tableNum
      {
        assert tmpRow.tableRowData[..tmpRow.tableNum][k] == now[k];
        tblRow[index] := tmpRow.tableRowData[k];
        index, k := index + 1, k + 1;
      }
      if index == scanTblRowInfo.tableNum {
        break;
      }
      done, now := done + now, r;
      tmpRow := rightRow;
    }
  }

  /** The state of one plan node, with the nodes below it: a scan, or a join of a node and a scan. `pending` are the
      rows the node has yet to yield, `all` those it yields from the start, and `again` those a scan yields when it starts
      over after its end. */
  class ExecNode {
    const isScan: bool
    const rte: RangTblEntry
    const table: TableScan
    var rest: seq<TableRow>
    var restart: seq<TableRow>

    const left: ExecNode?
    const right: ExecNode?
    var outerNeedNew: bool
    var outerIsEnd: bool
    var innerNeedNew: bool
    var innerIsEnd: bool
    var outResultRow: ScanTableRowData?

    const row: ScanTableRowData
    ghost const width: nat
    ghost const height: nat
    ghost const Repr: set<object>
    ghost const all: seq<Row>
    ghost const again: seq<Row>
    ghost var pending: seq<Row>
    ghost var held: Row

    /** A scan before its first row. */
    constructor SeqScan(rte: RangTblEntry, table: TableScan)
      ensures Valid() && fresh(Repr) && isScan && width == 1 && this.table == table
      ensures pending == all == ScanRows(rte, table.rows) && restart == table.rows && again == ScanRows(rte, table.again)
    {
      isScan, this.rte, this.table, rest, restart := true, rte, table, table.rows, table.rows;
      left, right, outResultRow := null, null, null;
      outerNeedNew, outerIsEnd, innerNeedNew, innerIsEnd := false, false, false, false;
      var r := new ScanTableRowData(1);
      row := r;
      width, height, held := 1, 0, [];
      Repr := {this, r, r.tableRowData};
      all, pending, again := ScanRows(rte, table.rows), ScanRows(rte, table.rows), ScanRows(rte, table.again);
      new;
      ScanRowsWide(rte, table.rows);
      ScanRowsWide(rte, table.again);
    }

    /** ExecInitNestLoopNode, over children that have not yielded anything: the buffer has rtNum places. */
    constructor ExecInitNestLoopNode(left: ExecNode, right: ExecNode, rtNum: nat)
      requires left.Valid() && right.Valid() && right.isScan && left.Repr !! right.Repr && rtNum == left.width + right.width
      requires left.pending == left.all && right.pending == right.all && right.restart == right.table.rows
      ensures Valid() && fresh(Repr - left.Repr - right.Repr) && !isScan && width == rtNum
      ensures pending == all == CrossFrom(left.all, right.all, right.again)
    {
      hide Wide, Cross, CrossFrom;
      isScan, this.left, this.right := false, left, right;
      this.rte, table, rest, restart := right.rte, right.table, [], [];
      outerNeedNew, outerIsEnd, innerNeedNew, innerIsEnd := true, false, true, false;
      outResultRow := null;
      var r := new ScanTableRowData(rtNum);
      row := r;
      width, height, held := rtNum, left.height + right.height + 1, [];
      Repr := {this, r, r.tableRowData} + left.Repr + right.Repr;
      all, again := CrossFrom(left.all, right.all, right.again), [];
      pending := CrossFrom(left.all, right.all, right.again);
      new;
      CrossFromWide(left.all, right.all, right.again, left.width, right.width);
    }

    ghost predicate ValidScan()
      reads this
    {
      && left == null && right == null && width == 1 && Wide(again, 1)
      && (restart == table.rows || restart == table.again)
      && all == ScanRows(rte, table.rows) && again == ScanRows(rte, table.again) && pending == ScanRows(rte, rest)
    }

    ghost predicate Children()
      reads this
    {
      && left != null && right != null && right.isScan
      && left in Repr && right in Repr && left.Repr <= Repr && right.Repr <= Repr
      && left.Repr !! right.Repr && {this, row, row.tableRowData} !! left.Repr && {this, row, row.tableRowData} !! right.Repr
      && width == left.width + right.width && left.height < height && right.height < height
      && all == CrossFrom(left.all, right.all, right.again)
    }

    /** What a rescan would yield now. */
    ghost function Restart(): seq<Row>
      reads this
    {
      ScanRows(rte, restart)
    }

    /** Where the double loop stands. */
    ghost predicate Position()
      requires left != null && right != null
      reads this, left, right, left.row, left.row.tableRowData
    {
      if outerIsEnd then pending == [] && !outerNeedNew
      else if outerNeedNew then pending == CrossFrom(left.pending, right.Restart(), right.again)
      else
        && innerNeedNew && outResultRow == left.row && |held| == left.width && left.row.Holds(held)
        && pending == Pairs(held, right.pending) + Cross(left.pending, right.again)
    }

    ghost predicate Valid()
      reads this, Repr
      decreases Repr + {this}
    {
      && {this, row, row.tableRowData} <= Repr && row.tableRowData.Length == width && 1 <= width
      && Wide(all, width) && Wide(pending, width)
      && if isScan then ValidScan() else Children() && left.Valid() && right.Valid() && Position()
    }

    /** ExecNodeReScan: a scan starts over; a nested loop does nothing, and is never asked to. */
    method ExecNodeReScan()
      requires Valid()
      modifies this
      ensures Valid() && restart == old(restart)
      ensures if isScan then pending == Restart() else pending == old(pending)
    {
      if isScan {
        rest := restart;
        pending := ScanRows(rte, rest);
      }
    }

    /** The leaf's share of ExecNodeProc. */
    method SeqscanNext() returns (found: bool)
      requires Valid() && isScan
      modifies this, row, row.tableRowData
      ensures Valid()
      ensures found == (old(pending) != [])
      ensures if found then row.Holds(old(pending)[0]) && pending == old(pending)[1..] && restart == table.rows
              else pending == [] && restart == table.again
    {
      found := rest != [];
      if found {
        row.tableRowData[0] := TableRowDataPosition(rte.rindex, rte.tblInfo, rest[0]);
        row.tableNum := 1;
        assert row.tableRowData[..1] == ScanRow(rte, rest[0]);
        rest, restart := rest[1..], table.rows;
        pending := pending[1..];
      } else {
        restart := table.again;
      }
    }

    /** ExecNodeProc: the next row, in this node's buffer, or none. */
    method ExecNodeProc() returns (found: bool)
      requires Valid()
      modifies Repr
      ensures Valid()
      ensures found == (old(pending) != [])
      ensures if found then row.Holds(old(pending)[0]) && pending == old(pending)[1..] else pending == []
      ensures isScan && !found ==> restart == table.again
      decreases height, 3
    {
      if isScan {
        found := SeqscanNext();
      } else {
        found := ExecNestLoopScan();
      }
    }

    /** ExecNestLoopScan: flags remember between calls where the double loop stands. */
    method ExecNestLoopScan() returns (found: bool)
      requires Valid() && !isScan
      modifies Repr
      ensures Valid()
      ensures found == (old(pending) != [])
      ensures if found then row.Holds(old(pending)[0]) && pending == old(pending)[1..] else pending == []
      decreases height, 2
    {
      hide Wide, Cross, Pairs;
      while true
        invariant Valid() && pending == old(pending)
        decreases 2 * |left.pending| + if outerNeedNew then 0 else 1
      {
        if outerIsEnd {
          return false;
        }
        if outerNeedNew {
          found := NextOuter();
          if !found {
            return;
          }
        }
        if innerNeedNew {
          found := NextInner();
          if found {
            return;
          }
        }
      }
    }

    /** A join and its children, wherever the double loop stands. */
    ghost predicate Joined()
      reads this, Repr
    {
      && {this, row, row.tableRowData} <= Repr && row.tableRowData.Length == width && 1 <= width
      && Wide(all, width) && Wide(pending, width)
      && !isScan && Children() && left.Valid() && right.Valid()
    }

    /** The outer side of a step: a new row from the left child. */
    method FetchOuter() returns (found: bool, ghost l: Row)
      requires Valid() && !isScan && !outerIsEnd && outerNeedNew
      modifies left.Repr
      ensures Joined() && pending == old(pending)
      ensures if !found then pending == [] else
                && |left.pending| < old(|left.pending|) && |l| == left.width && left.row.Holds(l)
                && pending == Pairs(l, right.Restart()) + Cross(left.pending, right.again)
      decreases height, 0
    {
      hide Wide, Cross, Pairs;
      ghost var rows := left.pending;
      found := left.ExecNodeProc();
      l := [];
      if found {
        WideHead(rows, left.width);
        l := rows[0];
      }
    }

    /** The outer row is remembered by the address of the left child's buffer. */
    method HoldOuter(ghost l: Row)
      requires Joined()
      modifies this`outResultRow, this`held, this`outerNeedNew, this`innerNeedNew
      ensures Joined() && left.pending == old(left.pending) && right.Restart() == old(right.Restart())
      ensures outResultRow == left.row && held == l && !outerNeedNew && innerNeedNew
    {
      hide Wide;
      outResultRow, held := left.row, l;
      outerNeedNew := false;
      innerNeedNew := true;
    }

    /** A new outer row is fetched, and the inner scan starts over. */
    method NextOuter() returns (found: bool)
      requires Valid() && !isScan && !outerIsEnd && outerNeedNew
      modifies Repr
      ensures Valid() && pending == old(pending) && !outerNeedNew
      ensures if found then !outerIsEnd && innerNeedNew && |left.pending| < old(|left.pending|) else outerIsEnd && pending == []
      decreases height, 1
    {
      hide Wide, Cross, Pairs;
      ghost var l;
      found, l := FetchOuter();
      if !found {
        outerIsEnd := true;
        outerNeedNew := false;
        return;
      }
      HoldOuter(l);
      right.ExecNodeReScan();
    }

    /** The next inner row is fetched and merged with the outer row; at the inner end, a new outer row is due. */
    method NextInner() returns (found: bool)
      requires Valid() && !isScan && !outerIsEnd && !outerNeedNew
      modifies Repr
      ensures Valid() && !outerIsEnd && left.pending == old(left.pending)
      ensures if found then old(pending) != [] && row.Holds(old(pending)[0]) && pending == old(pending)[1..]
              else outerNeedNew && pending == old(pending)
      decreases height, 0
    {
      hide Wide, Cross, CrossFrom, Pairs, ScanRows;
      ghost var rows := right.pending;
      PairsFirst(held, rows);
      found := right.ExecNodeProc();
      if !found {
        innerNeedNew := false;
        innerIsEnd := true;
        outerNeedNew := true;
        CrossAgain(left.pending, right.again);
        return;
      }
      WideHead(rows, right.width);
      WideRest(pending, width);
      ExecMergeRowData(outResultRow, right.row, row, held, rows[0]);
      pending := pending[1..];
    }
  }

  /** The cross product of the tables, the last varying fastest. */
  function Product(rtable: seq<RangTblEntry>, db: Database): seq<Row>
    requires rtable != []
  {
    var n := |rtable| - 1;
    var inner := ScanRows(rtable[n], db(rtable[n].tblInfo).rows);
    if n == 0 then inner else Cross(Product(rtable[..n], db), inner)
  }

  /** What the join really yields: after the first row of its outer side, each inner scan starts over from its end. */
  function Yield(rtable: seq<RangTblEntry>, db: Database): seq<Row>
    requires rtable != []
  {
    var n := |rtable| - 1;
    var first, again := ScanRows(rtable[n], db(rtable[n].tblInfo).rows), ScanRows(rtable[n], db(rtable[n].tblInfo).again);
    if n == 0 then first else CrossFrom(Yield(rtable[..n], db), first, again)
  }

  /** The node tree of a left-deep plan, ready to yield the join of its tables. */
  method InitExecNode(plan: Plan, rtable: seq<RangTblEntry>, db: Database) returns (node: ExecNode)
    requires rtable != [] && plan == ScanPlan(rtable)
    ensures node.Valid() && fresh(node.Repr) && node.width == |rtable|
    ensures node.pending == node.all == Yield(rtable, db)
    ensures plan.SeqScan? ==> node.isScan && node.restart == node.table.rows && node.again == ScanRows(rtable[0], db(rtable[0].tblInfo).again)
    decreases plan
  {
    if plan.SeqScan? {
      var rte := plan.rte.value;
      node := new ExecNode.SeqScan(rte, db(rte.tblInfo));
    } else {
      var left := InitExecNode(plan.leftplan.value, rtable[..|rtable| - 1], db);
      var right := InitExecNode(plan.rightplan.value, rtable[|rtable| - 1..], db);
      node := new ExecNode.ExecInitNestLoopNode(left, right, plan.rtNum);
    }
  }

  /** A choice of one row of each table. */
  ghost predicate Choice(rtable: seq<RangTblEntry>, db: Database, choice: seq<nat>) {
    |choice| == |rtable| && forall i :: 0 <= i < |rtable| ==> choice[i] < |db(rtable[i].tblInfo).rows|
  }

  function ChosenRow(rtable: seq<RangTblEntry>, db: Database, choice: seq<nat>): Row
    requires Choice(rtable, db, choice)
  {
    if rtable == [] then []
    else
      var n := |rtable| - 1;
      ChosenRow(rtable[..n], db, choice[..n]) + ScanRow(rtable[n], db(rtable[n].tblInfo).rows[choice[n]])
  }

  /** The position of a choice when the last table varies fastest. */
  function Rank(rtable: seq<RangTblEntry>, db: Database, choice: seq<nat>): nat
    requires |choice| == |rtable|
  {
    if rtable == [] then 0
    else
      var n := |rtable| - 1;
      Rank(rtable[..n], db, choice[..n]) * |db(rtable[n].tblInfo).rows| + choice[n]
  }

  lemma {:induction false} ScanRowsAt(rte: RangTblEntry, table: seq<TableRow>)
    ensures |ScanRows(rte, table)| == |table|
    ensures forall i :: 0 <= i < |table| ==> ScanRows(rte, table)[i] == ScanRow(rte, table[i])
  {
    if table != [] {
      ScanRowsAt(rte, table[1..]);
    }
  }

  lemma {:induction false} PairsAt(outer: Row, inner: seq<Row>)
    ensures |Pairs(outer, inner)| == |inner|
    ensures forall j :: 0 <= j < |inner| ==> Pairs(outer, inner)[j] == outer + inner[j]
  {
    if inner != [] {
      PairsAt(outer, inner[1..]);
    }
  }

  lemma {:induction false} CrossSize(outer: seq<Row>, inner: seq<Row>)
    ensures |Cross(outer, inner)| == |outer| * |inner|
  {
    if outer != [] {
      PairsAt(outer[0], inner);
      CrossSize(outer[1..], inner);
      RowsOfTable(|outer|, |inner|);
    }
  }

  lemma RowsOfTable(n: nat, m: nat)
    ensures n > 0 ==> n * m == m + (n - 1) * m
  {
  }

  lemma {:induction false} CrossAt(outer: seq<Row>, inner: seq<Row>, i: nat, j: nat)
    requires i < |outer| && j < |inner|
    ensures i * |inner| + j < |Cross(outer, inner)| && Cross(outer, inner)[i * |inner| + j] == outer[i] + inner[j]
  {
    hide Pairs;
    PairsAt(outer[0], inner);
    if i > 0 {
      CrossAt(outer[1..], inner, i - 1, j);
      RowsOfTable(i, |inner|);
    }
  }

  /** Each choice of rows occurs in the product at its rank. */
  lemma {:induction false} ProductAt(rtable: seq<RangTblEntry>, db: Database, choice: seq<nat>)
    requires rtable != [] && Choice(rtable, db, choice)
    ensures Rank(rtable, db, choice) < |Product(rtable, db)|
    ensures Product(rtable, db)[Rank(rtable, db, choice)] == ChosenRow(rtable, db, choice)
  {
    var n := |rtable| - 1;
    var table := db(rtable[n].tblInfo).rows;
    ScanRowsAt(rtable[n], table);
    if n == 0 {
      assert ChosenRow(rtable[..n], db, choice[..n]) == [];
      assert Rank(rtable[..n], db, choice[..n]) == 0;
    } else {
      ProductAt(rtable[..n], db, choice[..n]);
      CrossAt(Product(rtable[..n], db), ScanRows(rtable[n], table), Rank(rtable[..n], db, choice[..n]), choice[n]);
    }
  }

  /** And every position of the product is the rank of a choice, so that each combination of rows occurs exactly once,
      with those of the first table outermost. */
  lemma {:induction false} ProductHasRank(rtable: seq<RangTblEntry>, db: Database, k: nat) returns (choice: seq<nat>)
    requires rtable != [] && k < |Product(rtable, db)|
    ensures Choice(rtable, db, choice) && Rank(rtable, db, choice) == k
  {
    var n := |rtable| - 1;
    var table := db(rtable[n].tblInfo).rows;
    ScanRowsAt(rtable[n], table);
    if n == 0 {
      choice := [k];
      assert Rank(rtable[..n], db, choice[..n]) == 0;
    } else {
      var outer := Product(rtable[..n], db);
      CrossSize(outer, ScanRows(rtable[n], table));
      var q, r := DivideBelow(k, |outer|, |table|);
      var rest := ProductHasRank(rtable[..n], db, q);
      choice := rest + [r];
      ChoiceSnoc(rtable, db, rest, r);
    }
  }

  lemma ChoiceSnoc(rtable: seq<RangTblEntry>, db: Database, rest: seq<nat>, r: nat)
    requires rtable != [] && Choice(rtable[..|rtable| - 1], db, rest) && r < |db(rtable[|rtable| - 1].tblInfo).rows|
    ensures Choice(rtable, db, rest + [r]) && (rest + [r])[..|rtable| - 1] == rest
  {
  }

  lemma DivideBelow(k: nat, a: nat, m: nat) returns (q: nat, r: nat)
    requires k < a * m
    ensures k == q * m + r && r < m && q < a
  {
    assert m > 0;
    q, r := k / m, k % m;
    TimesMonotone(a, q, m);
  }

  lemma TimesMonotone(a: nat, q: nat, m: nat)
    ensures a <= q ==> a * m <= q * m
  {
  }

  /** Different choices have different ranks. */
  lemma {:induction false} RankInjective(rtable: seq<RangTblEntry>, db: Database, x: seq<nat>, y: seq<nat>)
    requires Choice(rtable, db, x) && Choice(rtable, db, y) && Rank(rtable, db, x) == Rank(rtable, db, y)
    ensures x == y
  {
    if rtable != [] {
      var n := |rtable| - 1;
      SameDivision(Rank(rtable[..n], db, x[..n]), x[n], Rank(rtable[..n], db, y[..n]), y[n], |db(rtable[n].tblInfo).rows|);
      RankInjective(rtable[..n], db, x[..n], y[..n]);
      assert x == x[..n] + [x[n]] && y == y[..n] + [y[n]];
    }
  }

  lemma SameDivision(q: nat, r: nat, q': nat, r': nat, m: nat)
    requires r < m && r' < m && q * m + r == q' * m + r'
    ensures q == q' && r == r'
  {
    TimesMonotone(q + 1, q', m);
    TimesMonotone(q' + 1, q, m);
    assert (q + 1) * m == q * m + m && (q' + 1) * m == q' * m + m;
  }

  // ---------------------------------------------------------------- starting over

  /** A rescan goes on from some row of the table to its end. */
  predicate Suffix(t: TableScan) {
    |t.again| <= |t.rows| && t.again == t.rows[|t.rows| - |t.again|..]
  }

  predicate SomeEmpty(rtable: seq<RangTblEntry>, db: Database) {
    exists i :: 0 <= i < |rtable| && db(rtable[i].tblInfo).rows == []
  }

  predicate Single(rtable: seq<RangTblEntry>, db: Database) {
    forall i :: 0 <= i < |rtable| ==> |db(rtable[i].tblInfo).rows| <= 1
  }

  /** Some table is empty, or every table that starts over, that is, one behind a table with more than one row, does so
      from its first row. */
  predicate Restarts(rtable: seq<RangTblEntry>, db: Database) {
    || SomeEmpty(rtable, db)
    || forall k :: 0 <= k < |rtable| ==> Single(rtable[..k], db) || db(rtable[k].tblInfo).again == db(rtable[k].tblInfo).rows
  }

  lemma OneMore(rtable: seq<RangTblEntry>, db: Database)
    requires rtable != []
    ensures var n := |rtable| - 1;
            var last := db(rtable[n].tblInfo).rows;
            && (SomeEmpty(rtable, db) <==> SomeEmpty(rtable[..n], db) || last == [])
            && (Single(rtable, db) <==> Single(rtable[..n], db) && |last| <= 1)
  {
    var n := |rtable| - 1;
    assert forall i :: 0 <= i < n ==> rtable[..n][i] == rtable[i];
    if SomeEmpty(rtable[..n], db) {
      var i :| 0 <= i < n && db(rtable[..n][i].tblInfo).rows == [];
      assert db(rtable[i].tblInfo).rows == [];
    }
  }

  lemma Distribute(x: nat, y: nat, z: nat)
    ensures (x + y) * z == x * z + y * z && z * (x + y) == z * x + z * y
  {
  }

  lemma FewerTimes(o: nat, m: nat, f: nat, a: nat)
    requires 1 <= o <= m && 1 <= f && a <= f
    ensures f + (o - 1) * a <= m * f
    ensures f + (o - 1) * a == m * f <==> o == m && (o == 1 || a == f)
  {
    Distribute(o, m - o, f);
    Distribute(1, o - 1, f);
    Distribute(a, f - a, o - 1);
    SizeOne(m - o, f);
    SizeOne(o - 1, f - a);
  }

  /** The last table of a join, where its outer side may have lost rows. */
  lemma CrossFromIs(outer: seq<Row>, full: seq<Row>, first: seq<Row>, again: seq<Row>)
    requires outer != [] && full != [] && first != []
    requires |outer| <= |full| && (|outer| == |full| ==> outer == full)
    requires |again| <= |first| && (|again| == |first| ==> again == first)
    ensures var xs, ys := CrossFrom(outer, first, again), Cross(full, first);
            && xs != [] && |xs| <= |ys| && (|xs| == |ys| ==> xs == ys)
            && (xs == ys <==> outer == full && (|outer| == 1 || again == first))
  {
    hide Pairs;
    PairsAt(outer[0], first);
    CrossSize(outer[1..], again);
    CrossSize(full, first);
    FewerTimes(|outer|, |full|, |first|, |again|);
    if outer == full {
      assert again == first ==> CrossFrom(outer, first, again) == Cross(full, first);
      assert |outer| == 1 ==> outer[1..] == [] && Cross(outer[1..], again) == Cross(outer[1..], first);
    }
  }

  lemma {:induction false} ProductSize(rtable: seq<RangTblEntry>, db: Database)
    requires rtable != []
    ensures Product(rtable, db) == [] <==> SomeEmpty(rtable, db)
    ensures |Product(rtable, db)| == 1 <==> !SomeEmpty(rtable, db) && Single(rtable, db)
  {
    hide SomeEmpty, Single, ScanRows, Cross;
    var n := |rtable| - 1;
    var table := db(rtable[n].tblInfo).rows;
    ScanRowsAt(rtable[n], table);
    OneMore(rtable, db);
    if n > 0 {
      ProductSize(rtable[..n], db);
      CrossSize(Product(rtable[..n], db), ScanRows(rtable[n], table));
      SizeOne(|Product(rtable[..n], db)|, |table|);
    } else {
      NoTables(rtable[..n], db);
    }
  }

  lemma NoTables(rtable: seq<RangTblEntry>, db: Database)
    ensures rtable == [] ==> !SomeEmpty(rtable, db) && Single(rtable, db)
  {
  }

  lemma SizeOne(a: nat, b: nat)
    ensures a * b == 0 <==> a == 0 || b == 0
    ensures a * b == 1 <==> a == 1 && b == 1
  {
    if a > 1 && b > 0 {
      TimesMonotone(2, a, b);
    }
  }

  /** The join of any tables, each starting over somewhere, yields their cross product if and only if those that do
      start over after more than one outer row start from their first row. */
  lemma {:induction false} YieldIsProduct(rtable: seq<RangTblEntry>, db: Database)
    requires rtable != [] && forall i :: 0 <= i < |rtable| ==> Suffix(db(rtable[i].tblInfo))
    ensures Yield(rtable, db) == Product(rtable, db) <==> Restarts(rtable, db)
    ensures |Yield(rtable, db)| <= |Product(rtable, db)|
    ensures |Yield(rtable, db)| == |Product(rtable, db)| ==> Yield(rtable, db) == Product(rtable, db)
    ensures Yield(rtable, db) == [] <==> Product(rtable, db) == []
  {
    var n := |rtable| - 1;
    if n > 0 {
      YieldIsProduct(rtable[..n], db);
      LastTable(rtable, db);
    }
  }

  lemma LastTable(rtable: seq<RangTblEntry>, db: Database)
    requires |rtable| > 1 && Suffix(db(rtable[|rtable| - 1].tblInfo))
    requires var before := rtable[..|rtable| - 1];
             var xs, ys := Yield(before, db), Product(before, db);
             (xs == ys <==> Restarts(before, db)) && |xs| <= |ys| && (|xs| == |ys| ==> xs == ys) && (xs == [] <==> ys == [])
    ensures var xs, ys := Yield(rtable, db), Product(rtable, db);
            (xs == ys <==> Restarts(rtable, db)) && |xs| <= |ys| && (|xs| == |ys| ==> xs == ys) && (xs == [] <==> ys == [])
  {
    hide Pairs, Cross, CrossFrom, SomeEmpty, Single;
    var n := |rtable| - 1;
    var before, last := rtable[..n], db(rtable[n].tblInfo);
    var first, again := ScanRows(rtable[n], last.rows), ScanRows(rtable[n], last.again);
    ScanRowsAt(rtable[n], last.rows);
    ScanRowsAt(rtable[n], last.again);
    ProductSize(before, db);
    OneMore(rtable, db);
    if SomeEmpty(rtable, db) {
      EmptyJoin(Yield(before, db), first, again);
      EmptyCross(Product(before, db), first);
    } else {
      assert |last.again| == |last.rows| ==> last.again == last.rows;
      CrossFromIs(Yield(before, db), Product(before, db), first, again);
      RestartsLast(rtable, db);
      assert again == first <==> last.again == last.rows;
    }
  }

  lemma EmptyJoin(outer: seq<Row>, first: seq<Row>, again: seq<Row>)
    requires outer == [] || (first == [] && again == [])
    ensures CrossFrom(outer, first, again) == []
  {
    if outer != [] {
      CrossSize(outer[1..], again);
    }
  }

  lemma EmptyCross(outer: seq<Row>, inner: seq<Row>)
    ensures outer == [] || inner == [] ==> Cross(outer, inner) == []
  {
    CrossSize(outer, inner);
  }

  /** Among tables that are not empty, one more has to start from its first row, or behind single rows only. */
  lemma RestartsLast(rtable: seq<RangTblEntry>, db: Database)
    requires rtable != [] && !SomeEmpty(rtable, db)
    ensures var n := |rtable| - 1;
            Restarts(rtable, db) <==>
              Restarts(rtable[..n], db) && (Single(rtable[..n], db) || db(rtable[n].tblInfo).again == db(rtable[n].tblInfo).rows)
  {
    hide SomeEmpty, Single;
    var n := |rtable| - 1;
    OneMore(rtable, db);
    assert forall k :: 0 <= k < n ==> rtable[..n][k] == rtable[k] && rtable[..n][..k] == rtable[..k];
  }
}
