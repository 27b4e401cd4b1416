/** Filtering, projection and draining of a query (src/sqlcore/executor/execSelect.c, src/sqlcore/executor/execProject.c),
    on top of the join, the planner and the expression evaluator. */
module Query {
  import opened Commons
  import opened Rows
  import opened JoinTree
  import opened NestedLoop
  import opened Expression
  import opened Qualifiers

  /** A column of the target list. */
  datatype TargetEntry = TargetEntry(rindex: int, attrIndex: int)

  /** A query: `qual` is the list of qualifiers, if it has one, of which a row has to satisfy one. */
  datatype QueryTbl = QueryTbl(rtable: seq<RangTblEntry>, ops: Operators, qual: Option<seq<MaybeNode>>, targets: seq<TargetEntry>)

  /** The plan node that filters. */
  const SELECT := SelectResult(0)

  function Over(q: QueryTbl, row: Row): Context {
    Context(q.rtable, row, q.ops)
  }

  /** The loop over the qualifiers: what it leaves in the cell, and whether one of them held. */
  function Tested(quals: seq<MaybeNode>, cell: Value, c: Context): (Value, bool) {
    if quals == [] then (cell, false)
    else
      var (cell', result) := Run(quals[0], SELECT, cell, c);
      if GetDataBool(result) then (cell', true) else Tested(quals[1..], cell', c)
  }

  function TestedRow(q: QueryTbl, cell: Value, row: Row): (Value, bool) {
    if q.qual.None? then (cell, true) else Tested(q.qual.value, cell, Over(q, row))
  }

  /** The values of the targets, up to the first that cannot be found. */
  function Fetched(targets: seq<TargetEntry>, rtable: seq<RangTblEntry>, row: Row): seq<Value> {
    if targets == [] then []
    else
      match Lookup(rtable, row, targets[0].rindex, targets[0].attrIndex)
      case None => []
      case Some(v) => [v] + Fetched(targets[1..], rtable, row)
  }

  /** FetchTargetColumns: when a target is missing, the row that was projected before is handed out again. */
  function Projected(q: QueryTbl, previous: seq<Value>, row: Row): seq<Value> {
    var values := Fetched(q.targets, q.rtable, row);
    if |values| == |q.targets| then values else previous
  }

  /** What a query sends for the rows of its join, from what the cell and the projection buffer hold. */
  function Output(q: QueryTbl, rows: seq<Row>, cell: Value, previous: seq<Value>): seq<seq<Value>> {
    if rows == [] then []
    else
      var (cell', holds) := TestedRow(q, cell, rows[0]);
      if holds then
        var values := Projected(q, previous, rows[0]);
        [values] + Output(q, rows[1..], cell', values)
      else
        Output(q, rows[1..], cell', previous)
  }

  /** ExecSelect over the node tree below it. */
  class SelectState {
    const query: QueryTbl
    const subplan: ExecNode
    const evaluator: Evaluator

    constructor (query: QueryTbl, subplan: ExecNode)
      requires subplan.Valid()
      ensures this.query == query && this.subplan == subplan && fresh(evaluator)
      ensures Valid() && evaluator.resultExpreData == ZERO
    {
      this.query, this.subplan := query, subplan;
      evaluator := new Evaluator(query.rtable, query.ops, subplan.row.tableRowData, SELECT);
    }

    ghost predicate Valid()
      reads this, evaluator, subplan, subplan.Repr
    {
      && subplan.Valid() && evaluator !in subplan.Repr
      && evaluator.rtable == query.rtable && evaluator.ops == query.ops
      && evaluator.resultRow == subplan.row.tableRowData && evaluator.Valid() && evaluator.subPlanNode == SELECT
    }

    /** The qualifier loop for the row in the child's buffer. */
    method TestRow(ghost row: Row) returns (holds: bool)
      requires Valid() && subplan.row.Holds(row)
      modifies evaluator
      ensures Valid() && (evaluator.resultExpreData, holds) == TestedRow(query, old(evaluator.resultExpreData), row)
    {
      if query.qual.None? {
        return true;
      }
      var quals := query.qual.value;
      evaluator.tableNum := subplan.row.tableNum;
      for i := 0 to |quals|
        invariant Valid() && evaluator.tableNum == subplan.row.tableNum
        invariant Tested(quals, old(evaluator.resultExpreData), Over(query, row)) == Tested(quals[i..], evaluator.resultExpreData, Over(query, row))
      {
        var result := evaluator.ProcessQualExprNode(quals[i]);
        if GetDataBool(result) {
          return true;
        }
      }
      holds := false;
    }

    /** ExecSelect: rows are fetched until one passes; what is left to send does not change. */
    method ExecSelect(ghost previous: seq<Value>) returns (found: bool, ghost row: Row)
      requires Valid()
      modifies subplan.Repr, evaluator
      ensures Valid()
      ensures if !found then Output(query, old(subplan.pending), old(evaluator.resultExpreData), previous) == [] else
                && subplan.row.Holds(row) && |subplan.pending| < |old(subplan.pending)|
                && Output(query, old(subplan.pending), old(evaluator.resultExpreData), previous)
                   == [Projected(query, previous, row)] + Output(query, subplan.pending, evaluator.resultExpreData, Projected(query, previous, row))
    {
      hide Projected, TestedRow;
      row := [];
      while true
        invariant Valid() && |subplan.pending| <= |old(subplan.pending)|
        invariant Output(query, subplan.pending, evaluator.resultExpreData, previous)
               == Output(query, old(subplan.pending), old(evaluator.resultExpreData), previous)
        decreases |subplan.pending|
      {
        ghost var rows := subplan.pending;
        found := subplan.ExecNodeProc();
        if !found {
          break;
        }
        row := rows[0];
        var holds := TestRow(row);
        if holds {
          break;
        }
      }
    }
  }

  /** FetchTargetColumns, over the row in a buffer. */
  method FetchTargetColumns(query: QueryTbl, row: array<TableRowDataPosition>, tableNum: nat, previous: seq<Value>) returns (rowData: seq<Value>)
    requires tableNum <= row.Length
    ensures rowData == Projected(query, previous, row[..tableNum])
  {
    hide PositionOf, ColumnIn;
    var rawcol: seq<Value> := [];
    ghost var all := Fetched(query.targets, query.rtable, row[..tableNum]);
    for i := 0 to |query.targets|
      invariant |rawcol| == i
      invariant all == rawcol + Fetched(query.targets[i..], query.rtable, row[..tableNum])
    {
      var target := query.targets[i];
      assert query.targets[i..][0] == target && query.targets[i..][1..] == query.targets[i + 1..];
      var rte := GetCellValueByIndex(query.rtable, target.rindex);
      if rte.None? {
        break;
      }
      var position := GetTblRowDataPosition(row, tableNum, rte.value.tblInfo, rte.value.rindex);
      if position.None? {
        break;
      }
      var value := GetColRowDataEx(position.value, target.attrIndex);
      if value.None? {
        break;
      }
      ghost var later := Fetched(query.targets[i + 1..], query.rtable, row[..tableNum]);
      assert rawcol + ([value.value] + later) == (rawcol + [value.value]) + later;
      rawcol := rawcol + [value.value];
    }
    rowData := previous;
    if |rawcol| == |query.targets| {
      rowData := rawcol;
    }
  }

  /** ExecTableProject and ExecTableQuery: the projection's buffer, and what has been sent. */
  class QueryState {
    const query: QueryTbl
    const select: SelectState
    var rowData: seq<Value>
    var sent: seq<seq<Value>>

    constructor (query: QueryTbl, select: SelectState)
      requires select.Valid() && select.query == query
      ensures this.query == query && this.select == select && rowData == [] && sent == []
    {
      this.query, this.select, rowData, sent := query, select, [], [];
    }

    /** The drain loop, where every send succeeds. */
    method ExecTableQuery()
      requires select.Valid() && select.query == query && this !in select.subplan.Repr && select.evaluator !in select.subplan.Repr
      modifies this, select.subplan.Repr, select.evaluator
      ensures sent == old(sent) + Output(query, old(select.subplan.pending), old(select.evaluator.resultExpreData), old(rowData))
    {
      hide Projected, Output, ExecNode.Valid, ExecNode.Position, ExecNode.Children;
      while true
        invariant select.Valid()
        invariant old(sent) + Output(query, old(select.subplan.pending), old(select.evaluator.resultExpreData), old(rowData))
               == sent + Output(query, select.subplan.pending, select.evaluator.resultExpreData, rowData)
        decreases |select.subplan.pending|
      {
        var found, row := select.ExecSelect(rowData);
        if !found {
          break;
        }
        ghost var later := Output(query, select.subplan.pending, select.evaluator.resultExpreData, Projected(query, rowData, row));
        assert sent + ([Projected(query, rowData, row)] + later) == (sent + [Projected(query, rowData, row)]) + later;
        rowData := FetchTargetColumns(query, select.subplan.row.tableRowData, select.subplan.row.tableNum, rowData);
        sent := sent + [rowData];
      }
    }
  }

  /** One of the qualifiers holds of the row; an absent one always does. */
  function AnyHolds(quals: seq<MaybeNode>, c: Context): bool {
    quals != [] && (quals[0].Null? || GetDataBool(Denote(quals[0].node, c)) || AnyHolds(quals[1..], c))
  }

  function Passes(q: QueryTbl, row: Row): bool {
    q.qual.None? || AnyHolds(q.qual.value, Over(q, row))
  }

  /** The answer to a query: its targets, for the rows that pass, in their order. */
  function Answer(q: QueryTbl, rows: seq<Row>): seq<seq<Value>> {
    if rows == [] then []
    else (if Passes(q, rows[0]) then [Fetched(q.targets, q.rtable, rows[0])] else []) + Answer(q, rows[1..])
  }

  ghost predicate Meaningful(quals: seq<MaybeNode>, c: Context) {
    forall i :: 0 <= i < |quals| && quals[i].Ptr? ==> Apart(quals[i].node) && Denote(quals[i].node, c).Some?
  }

  /** Every qualifier of the query has a meaning for the row. */
  ghost predicate Clear(q: QueryTbl, row: Row) {
    q.qual.Some? ==> Meaningful(q.qual.value, Over(q, row))
  }

  lemma {:induction false} TestedMeans(quals: seq<MaybeNode>, cell: Value, c: Context)
    requires Meaningful(quals, c)
    ensures Tested(quals, cell, c).1 == AnyHolds(quals, c)
  {
    if quals != [] {
      if quals[0].Ptr? {
        RunDenotes(quals[0].node, SELECT, cell, c);
      }
      TestedMeans(quals[1..], Run(quals[0], SELECT, cell, c).0, c);
    }
  }

  /** Each row that passes has all its targets, or what can be fetched of them is what was projected before. */
  predicate Kept(q: QueryTbl, rows: seq<Row>, previous: seq<Value>) {
    rows == [] ||
    if Passes(q, rows[0]) then
      Projected(q, previous, rows[0]) == Fetched(q.targets, q.rtable, rows[0]) && Kept(q, rows[1..], Fetched(q.targets, q.rtable, rows[0]))
    else Kept(q, rows[1..], previous)
  }

  /** Over rows for which the qualifiers have a meaning, what is left in the shared cell never shows, and what is left
      in the projection's buffer does not show if and only if no row that passes lacks a target, save where the buffer
      happens to hold what could be fetched. */
  lemma {:induction false} OutputIsAnswer(q: QueryTbl, rows: seq<Row>, cell: Value, previous: seq<Value>)
    requires forall i :: 0 <= i < |rows| ==> Clear(q, rows[i])
    ensures Output(q, rows, cell, previous) == Answer(q, rows) <==> Kept(q, rows, previous)
  {
    hide Projected, Fetched, Meaningful;
    if rows != [] {
      var row := rows[0];
      assert Clear(q, row);
      if q.qual.Some? {
        TestedMeans(q.qual.value, cell, Over(q, row));
      }
      var (cell', holds) := TestedRow(q, cell, row);
      OutputIsAnswer(q, rows[1..], cell', if holds then Projected(q, previous, row) else previous);
      if holds {
        var out := Output(q, rows[1..], cell', Projected(q, previous, row));
        SameLists(Projected(q, previous, row), out, Fetched(q.targets, q.rtable, row), Answer(q, rows[1..]));
      } else {
        assert [] + Answer(q, rows[1..]) == Answer(q, rows[1..]);
      }
    }
  }

  lemma SameLists<T>(x: T, xs: seq<T>, y: T, ys: seq<T>)
    ensures [x] + xs == [y] + ys <==> x == y && xs == ys
  {
    if [x] + xs == [y] + ys {
      assert ([x] + xs)[0] == ([y] + ys)[0] && ([x] + xs)[1..] == ([y] + ys)[1..];
    }
  }

  /** What is fetched is the targets in their order: value k is that of target k. */
  lemma {:induction false} FetchedAt(targets: seq<TargetEntry>, rtable: seq<RangTblEntry>, row: Row, k: nat)
    requires k < |Fetched(targets, rtable, row)|
    ensures |Fetched(targets, rtable, row)| <= |targets|
    ensures Lookup(rtable, row, targets[k].rindex, targets[k].attrIndex) == Some(Fetched(targets, rtable, row)[k])
  {
    if k > 0 {
      FetchedAt(targets[1..], rtable, row, k - 1);
    } else if |Fetched(targets, rtable, row)| > 1 {
      FetchedAt(targets[1..], rtable, row, 0);
    }
  }

  /** Without a qualifier every row is answered. */
  lemma {:induction false} AllRowsAnswered(q: QueryTbl, rows: seq<Row>)
    requires q.qual.None?
    ensures |Answer(q, rows)| == |rows| && forall k :: 0 <= k < |rows| ==> Answer(q, rows)[k] == Fetched(q.targets, q.rtable, rows[k])
  {
    hide Fetched;
    if rows != [] {
      AllRowsAnswered(q, rows[1..]);
    }
  }

  /** A query for one column that the scan does not read, over two rows of the same scanned columns: on one the late
      fetch finds it, on the other it fails, as when the column's page cannot be read. The first value is sent twice. */
  lemma MissingTargetRepeats(rte: RangTblEntry, ops: Operators, attrIndex: int, columns: seq<(int, Value)>, v: Value, cell: Value, previous: seq<Value>)
    requires rte.rindex == 1 && 0 <= attrIndex && ColumnOf(columns, attrIndex).None?
    ensures var q := QueryTbl([rte], ops, None, [TargetEntry(1, attrIndex)]);
            var rows := [ScanRow(rte, TableRow(columns, [(attrIndex, v)])), ScanRow(rte, TableRow(columns, []))];
            Output(q, rows, cell, previous) == [[v], [v]] && Answer(q, rows) == [[v], []]
  {
    var target := TargetEntry(1, attrIndex);
    var q := QueryTbl([rte], ops, None, [target]);
    var has, lacks := ScanRow(rte, TableRow(columns, [(attrIndex, v)])), ScanRow(rte, TableRow(columns, []));
    assert Lookup([rte], has, 1, attrIndex) == Some(v) && Lookup([rte], lacks, 1, attrIndex) == None;
    assert q.targets[1..] == [] && Fetched([], [rte], has) == [];
    assert Fetched(q.targets, [rte], has) == [v] && Fetched(q.targets, [rte], lacks) == [];
    assert [has, lacks][1..] == [lacks] && [lacks][1..] == [];
    assert Output(q, [lacks], cell, [v]) == [[v]] && Answer(q, [lacks]) == [[]];
  }

  // ---------------------------------------------------------------- queries that can be checked beforehand

  /** Values by kinds, and the kind an operator yields for two kinds of operands; none where it may fail. */
  datatype Typing = Typing(kind: Value -> int, result: (int, int, int) -> Option<int>)

  /** The operators do what the typing says, and truth values are of one kind. */
  ghost predicate Respects(ops: Operators, ty: Typing) {
    && ty.kind(Truth(true)) == ty.kind(Truth(false))
    && forall op, x, y :: ty.result(op, ty.kind(x), ty.kind(y)).Some? ==>
         ops(op, x, y).Some? && ty.kind(ops(op, x, y).value) == ty.result(op, ty.kind(x), ty.kind(y)).value
  }

  /** The columns of each table that are scanned or can be fetched, with the kind of their values. */
  type Schema = int -> map<int, int>

  /** Range index and attribute name such a column. */
  predicate Known(rtable: seq<RangTblEntry>, schema: Schema, rindex: int, attrIndex: int) {
    1 <= rindex <= |rtable| && 0 <= attrIndex && attrIndex in schema(rtable[rindex - 1].tblInfo)
  }

  /** The kind of a tree's values; none if a column is not known on its side, or an operator may fail. */
  function KindOf(node: Node, rtable: seq<RangTblEntry>, schema: Schema, ty: Typing): Option<int> {
    match node
    case MergerEntry(_, _, l, r) =>
      if KindOfSide(l, 0, rtable, schema, ty).Some? && KindOfSide(r, 0, rtable, schema, ty).Some? then Some(ty.kind(Truth(true))) else None
    case ExprEntry(_, op, lindex, rindex, l, r) =>
      var x, y := KindOfSide(l, lindex, rtable, schema, ty), KindOfSide(r, rindex, rtable, schema, ty);
      if x.Some? && y.Some? then ty.result(op, x.value, y.value) else None
    case ConstValue(_, v) => Some(ty.kind(v))
    case _ => None
  }

  function KindOfSide(m: MaybeNode, rindex: int, rtable: seq<RangTblEntry>, schema: Schema, ty: Typing): Option<int> {
    match m
    case Null => Some(ty.kind(ZERO))
    case Ptr(n) =>
      if !n.ColumnRef? then KindOf(n, rtable, schema, ty)
      else if Known(rtable, schema, rindex, n.attrIndex) then Some(schema(rtable[rindex - 1].tblInfo)[n.attrIndex])
      else None
  }

  /** Every qualifier has a kind, and every target is known. */
  predicate Checked(q: QueryTbl, schema: Schema, ty: Typing) {
    && (q.qual.Some? ==> forall i :: 0 <= i < |q.qual.value| && q.qual.value[i].Ptr? ==>
                           Apart(q.qual.value[i].node) && KindOf(q.qual.value[i].node, q.rtable, schema, ty).Some?)
    && (forall i :: 0 <= i < |q.targets| ==> Known(q.rtable, schema, q.targets[i].rindex, q.targets[i].attrIndex))
  }

  /** A row with a part for each table, which has the columns of the schema. */
  predicate Supplied(row: Row, rtable: seq<RangTblEntry>, schema: Schema, ty: Typing) {
    |row| == |rtable| && forall i :: 0 <= i < |rtable| ==> SuppliedPart(row[i], rtable[i], schema, ty)
  }

  predicate SuppliedPart(part: TableRowDataPosition, rte: RangTblEntry, schema: Schema, ty: Typing) {
    part.rindex == rte.rindex && part.tblInfo == rte.tblInfo && HasColumns(part.data, schema(rte.tblInfo), ty)
  }

  predicate HasColumns(row: TableRow, columns: map<int, int>, ty: Typing) {
    forall a :: a in columns ==> ColumnIn(row, a).Some? && ty.kind(ColumnIn(row, a).value) == columns[a]
  }

  /** The tables hold what the schema says. */
  predicate Supplies(db: Database, rtable: seq<RangTblEntry>, schema: Schema, ty: Typing) {
    forall i :: 0 <= i < |rtable| ==> TableSupplies(db(rtable[i].tblInfo), schema(rtable[i].tblInfo), ty)
  }

  predicate TableSupplies(t: TableScan, columns: map<int, int>, ty: Typing) {
    && (forall i :: 0 <= i < |t.rows| ==> HasColumns(t.rows[i], columns, ty))
    && (forall i :: 0 <= i < |t.again| ==> HasColumns(t.again[i], columns, ty))
  }

  lemma {:induction false} CrossSupplied(outer: seq<Row>, inner: seq<Row>, rtable: seq<RangTblEntry>, schema: Schema, ty: Typing)
    requires rtable != []
    requires forall i :: 0 <= i < |outer| ==> Supplied(outer[i], rtable[..|rtable| - 1], schema, ty)
    requires forall i :: 0 <= i < |inner| ==> Supplied(inner[i], rtable[|rtable| - 1..], schema, ty)
    ensures forall i :: 0 <= i < |Cross(outer, inner)| ==> Supplied(Cross(outer, inner)[i], rtable, schema, ty)
  {
    if outer != [] {
      PairsSupplied(outer[0], inner, rtable, schema, ty);
      CrossSupplied(outer[1..], inner, rtable, schema, ty);
    }
  }

  lemma PairsSupplied(outer: Row, inner: seq<Row>, rtable: seq<RangTblEntry>, schema: Schema, ty: Typing)
    requires rtable != [] && Supplied(outer, rtable[..|rtable| - 1], schema, ty)
    requires forall i :: 0 <= i < |inner| ==> Supplied(inner[i], rtable[|rtable| - 1..], schema, ty)
    ensures forall i :: 0 <= i < |Pairs(outer, inner)| ==> Supplied(Pairs(outer, inner)[i], rtable, schema, ty)
  {
    hide SuppliedPart;
    PairsAt(outer, inner);
    forall i | 0 <= i < |inner| ensures Supplied(outer + inner[i], rtable, schema, ty) {
      assert Supplied(inner[i], rtable[|rtable| - 1..], schema, ty);
    }
  }

  lemma {:induction false} YieldSupplied(rtable: seq<RangTblEntry>, db: Database, schema: Schema, ty: Typing)
    requires rtable != [] && Supplies(db, rtable, schema, ty)
    ensures forall i :: 0 <= i < |Yield(rtable, db)| ==> Supplied(Yield(rtable, db)[i], rtable, schema, ty)
  {
    hide HasColumns, Cross, Pairs, ScanRows;
    var n := |rtable| - 1;
    var t := db(rtable[n].tblInfo);
    assert TableSupplies(t, schema(rtable[n].tblInfo), ty);
    var first, again := ScanRows(rtable[n], t.rows), ScanRows(rtable[n], t.again);
    ScanRowsAt(rtable[n], t.rows);
    ScanRowsAt(rtable[n], t.again);
    assert rtable[n..] == [rtable[n]];
    if n > 0 {
      YieldSupplied(rtable[..n], db, schema, ty);
      var outer := Yield(rtable[..n], db);
      if outer != [] {
        PairsSupplied(outer[0], first, rtable, schema, ty);
        CrossSupplied(outer[1..], again, rtable, schema, ty);
      }
    } else {
      assert rtable[n..] == rtable;
    }
  }

  lemma {:induction false} PositionAt(row: Row, k: nat, tblInfo: int, rindex: int)
    requires k < |row| && row[k].tblInfo == tblInfo && row[k].rindex == rindex
    requires forall i :: 0 <= i < k ==> row[i].rindex != rindex
    ensures PositionOf(row, tblInfo, rindex) == Some(row[k])
  {
    if k > 0 {
      PositionAt(row[1..], k - 1, tblInfo, rindex);
    }
  }

  /** A known column is found in every row that has been supplied. */
  lemma KnownFound(rtable: seq<RangTblEntry>, row: Row, schema: Schema, ty: Typing, rindex: int, attrIndex: int)
    requires Numbered(rtable) && Supplied(row, rtable, schema, ty) && Known(rtable, schema, rindex, attrIndex)
    ensures var v := Lookup(rtable, row, rindex, attrIndex);
            v.Some? && ty.kind(v.value) == schema(rtable[rindex - 1].tblInfo)[attrIndex]
  {
    var k := rindex - 1;
    assert SuppliedPart(row[k], rtable[k], schema, ty);
    assert forall i :: 0 <= i < k ==> SuppliedPart(row[i], rtable[i], schema, ty);
    PositionAt(row, k, rtable[k].tblInfo, rtable[k].rindex);
  }

  lemma CombineIsTruth(t: BoolType, x: Value, y: Value)
    ensures Combine(t, x, y) == Truth(true) || Combine(t, x, y) == Truth(false)
  {
  }

  /** A tree with a kind has a meaning of that kind, over every row that has been supplied. */
  lemma {:induction false} KindIsMeant(node: Node, c: Context, schema: Schema, ty: Typing)
    requires Numbered(c.rtable) && Supplied(c.row, c.rtable, schema, ty) && Respects(c.ops, ty)
    requires KindOf(node, c.rtable, schema, ty).Some?
    ensures Denote(node, c).Some? && ty.kind(Denote(node, c).value) == KindOf(node, c.rtable, schema, ty).value
  {
    hide Supplied, Lookup, Known;
    match node
    case MergerEntry(_, t, l, r) =>
      SideKindIsMeant(l, 0, c, schema, ty);
      SideKindIsMeant(r, 0, c, schema, ty);
      CombineIsTruth(t, Side(l, 0, c).value, Side(r, 0, c).value);
    case ExprEntry(_, op, lindex, rindex, l, r) =>
      SideKindIsMeant(l, lindex, c, schema, ty);
      SideKindIsMeant(r, rindex, c, schema, ty);
    case _ =>
  }

  lemma {:induction false} SideKindIsMeant(m: MaybeNode, rindex: int, c: Context, schema: Schema, ty: Typing)
    requires Numbered(c.rtable) && Supplied(c.row, c.rtable, schema, ty) && Respects(c.ops, ty)
    requires KindOfSide(m, rindex, c.rtable, schema, ty).Some?
    ensures Side(m, rindex, c).Some? && ty.kind(Side(m, rindex, c).value) == KindOfSide(m, rindex, c.rtable, schema, ty).value
  {
    if m.Ptr? {
      if m.node.ColumnRef? {
        KnownFound(c.rtable, c.row, schema, ty, rindex, m.node.attrIndex);
      } else {
        KindIsMeant(m.node, c, schema, ty);
      }
    }
  }

  lemma {:induction false} TargetsFetched(targets: seq<TargetEntry>, rtable: seq<RangTblEntry>, row: Row, schema: Schema, ty: Typing)
    requires Numbered(rtable) && Supplied(row, rtable, schema, ty)
    requires forall i :: 0 <= i < |targets| ==> Known(rtable, schema, targets[i].rindex, targets[i].attrIndex)
    ensures |Fetched(targets, rtable, row)| == |targets|
  {
    hide Supplied;
    if targets != [] {
      KnownFound(rtable, row, schema, ty, targets[0].rindex, targets[0].attrIndex);
      TargetsFetched(targets[1..], rtable, row, schema, ty);
    }
  }

  lemma {:induction false} AllKept(q: QueryTbl, rows: seq<Row>, previous: seq<Value>)
    requires forall i :: 0 <= i < |rows| ==> |Fetched(q.targets, q.rtable, rows[i])| == |q.targets|
    ensures Kept(q, rows, previous)
  {
    hide Fetched, Passes;
    if rows != [] {
      AllKept(q, rows[1..], if Passes(q, rows[0]) then Fetched(q.targets, q.rtable, rows[0]) else previous);
    }
  }

  /** A query whose columns are known and whose qualifiers have kinds gets its answer, whatever the data. */
  lemma CheckedIsAnswered(q: QueryTbl, db: Database, schema: Schema, ty: Typing, cell: Value, previous: seq<Value>)
    requires q.rtable != [] && Numbered(q.rtable) && Respects(q.ops, ty)
    requires Checked(q, schema, ty) && Supplies(db, q.rtable, schema, ty)
    ensures Output(q, Yield(q.rtable, db), cell, previous) == Answer(q, Yield(q.rtable, db))
  {
    hide Yield, Supplied, KindOf, Fetched, Output, Answer, Kept, Respects;
    var rows := Yield(q.rtable, db);
    YieldSupplied(q.rtable, db, schema, ty);
    forall i | 0 <= i < |rows| ensures Clear(q, rows[i]) && |Fetched(q.targets, q.rtable, rows[i])| == |q.targets| {
      TargetsFetched(q.targets, q.rtable, rows[i], schema, ty);
      if q.qual.Some? {
        forall k | 0 <= k < |q.qual.value| && q.qual.value[k].Ptr? ensures Denote(q.qual.value[k].node, Over(q, rows[i])).Some? {
          KindIsMeant(q.qual.value[k].node, Over(q, rows[i]), schema, ty);
        }
      }
    }
    AllKept(q, rows, previous);
    OutputIsAnswer(q, rows, cell, previous);
  }

  /** A select statement, from its range table to the last row sent. A query that can be checked beforehand gets its
      answer over what its tables yield; if these start over from their first rows, that is their cross product. */
  method ExecutorMain(query: QueryTbl, db: Database, ghost schema: Schema, ghost ty: Typing) returns (sent: seq<seq<Value>>)
    requires Numbered(query.rtable)
    ensures query.rtable == [] ==> sent == []
    ensures query.rtable != [] ==> sent == Output(query, Yield(query.rtable, db), ZERO, [])
    ensures query.rtable != [] && Respects(query.ops, ty) && Checked(query, schema, ty) && Supplies(db, query.rtable, schema, ty) ==>
              sent == Answer(query, Yield(query.rtable, db))
    ensures query.rtable != [] && Respects(query.ops, ty) && Checked(query, schema, ty) && Supplies(db, query.rtable, schema, ty)
            && (forall i :: 0 <= i < |query.rtable| ==> Suffix(db(query.rtable[i].tblInfo))) && Restarts(query.rtable, db) ==>
              sent == Answer(query, Product(query.rtable, db))
  {
    hide Output, Answer, Yield, Product, Checked, Supplies, Restarts, Respects;
    var plan := PlanTables(query.rtable);
    if plan.None? {
      return [];
    }
    var subplan := InitExecNode(plan.value, query.rtable, db);
    var select := new SelectState(query, subplan);
    var state := new QueryState(query, select);
    state.ExecTableQuery();
    sent := state.sent;
    if Respects(query.ops, ty) && Checked(query, schema, ty) && Supplies(db, query.rtable, schema, ty) {
      CheckedIsAnswered(query, db, schema, ty, ZERO, []);
    }
    if forall i :: 0 <= i < |query.rtable| ==> Suffix(db(query.rtable[i].tblInfo)) {
      YieldIsProduct(query.rtable, db);
    }
  }

  // ---------------------------------------------------------------- queries as they are written

  /** The qualifiers of a query, each as built. */
  function BuiltQuals(quals: seq<Qual>): (built: seq<MaybeNode>)
    ensures |built| == |quals| && forall i :: 0 <= i < |quals| ==> built[i] == Ptr(Build(quals[i], 1))
  {
    seq(|quals|, i requires 0 <= i < |quals| => Ptr(Build(quals[i], 1)))
  }

  /** The kind of a written qualifier's values. */
  function WrittenKind(qual: Qual, rtable: seq<RangTblEntry>, schema: Schema, ty: Typing): Option<int> {
    match qual
    case Both(_, l, r) =>
      if WrittenKind(l, rtable, schema, ty).Some? && WrittenKind(r, rtable, schema, ty).Some? then Some(ty.kind(Truth(true))) else None
    case Compare(op, l, r) =>
      var x, y := WrittenKind(l, rtable, schema, ty), WrittenKind(r, rtable, schema, ty);
      if x.Some? && y.Some? then ty.result(op, x.value, y.value) else None
    case Column(rindex, attrIndex) => if Known(rtable, schema, rindex, attrIndex) then Some(schema(rtable[rindex - 1].tblInfo)[attrIndex]) else None
    case Const(v) => Some(ty.kind(v))
  }

  lemma {:induction false} WrittenKindIsMeant(qual: Qual, c: Context, schema: Schema, ty: Typing)
    requires Numbered(c.rtable) && Supplied(c.row, c.rtable, schema, ty) && Respects(c.ops, ty)
    requires WrittenKind(qual, c.rtable, schema, ty).Some?
    ensures Resolved(qual) && Meaning(qual, c).Some? && ty.kind(Meaning(qual, c).value) == WrittenKind(qual, c.rtable, schema, ty).value
  {
    hide Supplied, Lookup;
    match qual
    case Both(t, l, r) =>
      WrittenKindIsMeant(l, c, schema, ty);
      WrittenKindIsMeant(r, c, schema, ty);
      CombineIsTruth(t, Meaning(l, c).value, Meaning(r, c).value);
    case Compare(_, l, r) =>
      WrittenKindIsMeant(l, c, schema, ty);
      WrittenKindIsMeant(r, c, schema, ty);
    case Column(rindex, attrIndex) => KnownFound(c.rtable, c.row, schema, ty, rindex, attrIndex);
    case Const(_) =>
  }

  /** One of the qualifiers, as written, holds of the row. */
  predicate AnyWritten(quals: seq<Qual>, c: Context) {
    exists i :: 0 <= i < |quals| && GetDataBool(Meaning(quals[i], c))
  }

  function WrittenAnswer(q: QueryTbl, quals: seq<Qual>, rows: seq<Row>): seq<seq<Value>> {
    if rows == [] then []
    else (if AnyWritten(quals, Over(q, rows[0])) then [Fetched(q.targets, q.rtable, rows[0])] else []) + WrittenAnswer(q, quals, rows[1..])
  }

  lemma {:induction false} AnyHoldsAsWritten(quals: seq<Qual>, nodes: seq<MaybeNode>, c: Context)
    requires |nodes| == |quals|
    requires forall i :: 0 <= i < |quals| ==> nodes[i].Ptr? && Denote(nodes[i].node, c) == Meaning(quals[i], c)
    ensures AnyHolds(nodes, c) <==> AnyWritten(quals, c)
  {
    if quals != [] {
      AnyHoldsAsWritten(quals[1..], nodes[1..], c);
      if AnyWritten(quals[1..], c) {
        var i :| 0 <= i < |quals| - 1 && GetDataBool(Meaning(quals[1..][i], c));
        assert GetDataBool(Meaning(quals[i + 1], c));
      }
      if AnyWritten(quals, c) {
        var i :| 0 <= i < |quals| && GetDataBool(Meaning(quals[i], c));
        assert i > 0 ==> GetDataBool(Meaning(quals[1..][i - 1], c));
      }
    }
  }

  lemma {:induction false} AnswerAsWritten(q: QueryTbl, quals: seq<Qual>, rows: seq<Row>)
    requires q.qual.Some?
    requires forall i :: 0 <= i < |rows| ==> (AnyHolds(q.qual.value, Over(q, rows[i])) <==> AnyWritten(quals, Over(q, rows[i])))
    ensures Answer(q, rows) == WrittenAnswer(q, quals, rows)
  {
    hide AnyHolds, AnyWritten;
    if rows != [] {
      AnswerAsWritten(q, quals, rows[1..]);
    }
  }

  /** From the qualifiers as they are written to what is sent: if none compares two columns of one table, or anything
      but a column with a column, then a row is sent exactly when one of them holds of it as it stands. */
  lemma WrittenIsAnswered(q: QueryTbl, quals: seq<Qual>, db: Database, schema: Schema, ty: Typing, cell: Value, previous: seq<Value>)
    requires q.rtable != [] && Numbered(q.rtable) && Respects(q.ops, ty) && Supplies(db, q.rtable, schema, ty) && q.qual == Some(BuiltQuals(quals))
    requires forall i :: 0 <= i < |quals| ==> WrittenKind(quals[i], q.rtable, schema, ty).Some? && Straight(quals[i]) && !quals[i].Column?
    requires forall i :: 0 <= i < |q.targets| ==> Known(q.rtable, schema, q.targets[i].rindex, q.targets[i].attrIndex)
    ensures Output(q, Yield(q.rtable, db), cell, previous) == WrittenAnswer(q, quals, Yield(q.rtable, db))
  {
    hide Yield, Supplied, Fetched, Output, Answer, WrittenAnswer, Kept, AnyHolds, AnyWritten, Straight, WrittenKind, Meaning, Denote, Build, Apart, Resolved, Respects;
    var rows := Yield(q.rtable, db);
    YieldSupplied(q.rtable, db, schema, ty);
    forall i | 0 <= i < |rows|
      ensures Clear(q, rows[i]) && |Fetched(q.targets, q.rtable, rows[i])| == |q.targets|
      ensures AnyHolds(q.qual.value, Over(q, rows[i])) <==> AnyWritten(quals, Over(q, rows[i]))
    {
      var c := Over(q, rows[i]);
      TargetsFetched(q.targets, q.rtable, rows[i], schema, ty);
      forall k | 0 <= k < |quals|
        ensures Apart(Build(quals[k], 1)) && Meaning(quals[k], c).Some? && Denote(Build(quals[k], 1), c) == Meaning(quals[k], c)
      {
        WrittenKindIsMeant(quals[k], c, schema, ty);
        BuiltApart(quals[k], 1);
        BuiltMeans(quals[k], 1, SELECT, cell, c);
      }
      AnyHoldsAsWritten(quals, q.qual.value, c);
    }
    AllKept(q, rows, previous);
    OutputIsAnswer(q, rows, cell, previous);
    AnswerAsWritten(q, quals, rows);
  }

  /** The rows answered, by position: in ascending order, exactly those of which a qualifier holds. */
  lemma {:induction false} AnswerAt(q: QueryTbl, quals: seq<Qual>, rows: seq<Row>, n: nat) returns (at: seq<nat>)
    requires n <= |rows|
    ensures |at| == |WrittenAnswer(q, quals, rows[n..])|
    ensures forall k :: 0 <= k < |at| ==> n <= at[k] < |rows|
    ensures forall k, l :: 0 <= k < l < |at| ==> at[k] < at[l]
    ensures forall k :: 0 <= k < |at| ==> WrittenAnswer(q, quals, rows[n..])[k] == Fetched(q.targets, q.rtable, rows[at[k]])
    ensures forall i :: n <= i < |rows| ==> (i in at <==> AnyWritten(quals, Over(q, rows[i])))
    decreases |rows| - n
  {
    hide Fetched, AnyWritten;
    at := [];
    if n < |rows| {
      assert rows[n..][0] == rows[n] && rows[n..][1..] == rows[n + 1..];
      at := AnswerAt(q, quals, rows, n + 1);
      if AnyWritten(quals, Over(q, rows[n])) {
        var rest := at;
        at := [n] + rest;
        assert at[0] == n && forall i :: i in at <==> i == n || i in rest;
      } else {
        assert [] + WrittenAnswer(q, quals, rows[n + 1..]) == WrittenAnswer(q, quals, rows[n + 1..]);
      }
    }
  }

  /** The positions of the rows that a query with these qualifiers answers. */
  function Answered(q: QueryTbl, quals: seq<Qual>, rows: seq<Row>): set<nat> {
    set i: nat | i < |rows| && AnyWritten(quals, Over(q, rows[i]))
  }

  lemma AnyOfOne(qual: Qual, c: Context)
    ensures AnyWritten([qual], c) <==> GetDataBool(Meaning(qual, c))
  {
    assert GetDataBool(Meaning(qual, c)) ==> GetDataBool(Meaning([qual][0], c));
  }

  /** With AND the rows are those of both qualifiers, with OR those of either, with NOT the others; and so it is with the
      list of qualifiers, of which one is enough. */
  lemma ConnectivesAnswer(q: QueryTbl, l: Qual, r: Qual, rows: seq<Row>)
    requires forall i :: 0 <= i < |rows| ==> Meaning(l, Over(q, rows[i])).Some? && Meaning(r, Over(q, rows[i])).Some?
    ensures Answered(q, [Both(AND_EXPR, l, r)], rows) == Answered(q, [l], rows) * Answered(q, [r], rows)
    ensures Answered(q, [Both(OR_EXPR, l, r)], rows) == Answered(q, [l], rows) + Answered(q, [r], rows) == Answered(q, [l, r], rows)
    ensures forall i: nat :: i < |rows| ==> (i in Answered(q, [Both(NOT_EXPR, l, r)], rows) <==> i !in Answered(q, [l], rows))
  {
    forall i: nat | i < |rows|
      ensures i in Answered(q, [Both(AND_EXPR, l, r)], rows) <==> i in Answered(q, [l], rows) && i in Answered(q, [r], rows)
      ensures i in Answered(q, [Both(OR_EXPR, l, r)], rows) <==> i in Answered(q, [l], rows) || i in Answered(q, [r], rows)
      ensures i in Answered(q, [l, r], rows) <==> i in Answered(q, [l], rows) || i in Answered(q, [r], rows)
      ensures i in Answered(q, [Both(NOT_EXPR, l, r)], rows) <==> i !in Answered(q, [l], rows)
    {
      OneRowAnswered(l, r, Over(q, rows[i]));
    }
  }

  lemma OneRowAnswered(l: Qual, r: Qual, c: Context)
    requires Meaning(l, c).Some? && Meaning(r, c).Some?
    ensures AnyWritten([Both(AND_EXPR, l, r)], c) <==> AnyWritten([l], c) && AnyWritten([r], c)
    ensures AnyWritten([Both(OR_EXPR, l, r)], c) <==> AnyWritten([l], c) || AnyWritten([r], c)
    ensures AnyWritten([l, r], c) <==> AnyWritten([l], c) || AnyWritten([r], c)
    ensures AnyWritten([Both(NOT_EXPR, l, r)], c) <==> !AnyWritten([l], c)
  {
    AnyOfOne(l, c);
    AnyOfOne(r, c);
    AnyOfOne(Both(AND_EXPR, l, r), c);
    AnyOfOne(Both(OR_EXPR, l, r), c);
    AnyOfOne(Both(NOT_EXPR, l, r), c);
    assert [l, r][0] == l && [l, r][1] == r;
  }

  /** The typing of an operator that compares integers: it yields one, and is not applied to anything else. */
  const INTS := Typing((v: Value) => if v.IntValue? then 1 else 0, (op: int, x: int, y: int) => if x == 1 && y == 1 then Some(1) else None)

  /** So a query `where a < k` or `where a < b`, with a and b integer columns of different tables, is answered as it is
      written, over any tables whose rows have these columns. */
  lemma LessIsAnswered(rtable: seq<RangTblEntry>, op: int, rindex: int, attrIndex: int, operand: Qual, targets: seq<TargetEntry>, db: Database, schema: Schema)
    requires rtable != [] && Numbered(rtable) && Supplies(db, rtable, schema, INTS)
    requires Known(rtable, schema, rindex, attrIndex) && schema(rtable[rindex - 1].tblInfo)[attrIndex] == 1
    requires operand.Const? || (operand.Column? && operand.rindex != rindex)
    requires WrittenKind(operand, rtable, schema, INTS) == Some(1)
    requires forall i :: 0 <= i < |targets| ==> Known(rtable, schema, targets[i].rindex, targets[i].attrIndex)
    ensures var qual := Compare(op, Column(rindex, attrIndex), operand);
            var q := QueryTbl(rtable, LESS, Some(BuiltQuals([qual])), targets);
            Output(q, Yield(rtable, db), ZERO, []) == WrittenAnswer(q, [qual], Yield(rtable, db))
  {
    hide Output, Yield, Supplies, WrittenAnswer, Known, Respects;
    var qual := Compare(op, Column(rindex, attrIndex), operand);
    var q := QueryTbl(rtable, LESS, Some(BuiltQuals([qual])), targets);
    LessRespects();
    LessKind(rtable, op, Column(rindex, attrIndex), operand, schema);
    WrittenIsAnswered(q, [qual], db, schema, INTS, ZERO, []);
  }

  lemma LessRespects()
    ensures Respects(LESS, INTS)
  {
  }

  lemma LessKind(rtable: seq<RangTblEntry>, op: int, l: Qual, r: Qual, schema: Schema)
    requires WrittenKind(l, rtable, schema, INTS) == Some(1) && WrittenKind(r, rtable, schema, INTS) == Some(1)
    requires l.Column? && (r.Const? || (r.Column? && r.rindex != l.rindex))
    ensures WrittenKind(Compare(op, l, r), rtable, schema, INTS) == Some(1) && Straight(Compare(op, l, r))
  {
  }

  /** And the rows sent are exactly those whose integer is below the other, in their order. */
  lemma LessThanIsSent(rtable: seq<RangTblEntry>, op: int, rindex: int, attrIndex: int, operand: Qual, targets: seq<TargetEntry>, db: Database, schema: Schema) returns (at: seq<nat>)
    requires rtable != [] && Numbered(rtable) && Supplies(db, rtable, schema, INTS)
    requires Known(rtable, schema, rindex, attrIndex) && schema(rtable[rindex - 1].tblInfo)[attrIndex] == 1
    requires operand.Const? || (operand.Column? && operand.rindex != rindex)
    requires WrittenKind(operand, rtable, schema, INTS) == Some(1)
    requires forall i :: 0 <= i < |targets| ==> Known(rtable, schema, targets[i].rindex, targets[i].attrIndex)
    ensures var rows := Yield(rtable, db);
            var q := QueryTbl(rtable, LESS, Some(BuiltQuals([Compare(op, Column(rindex, attrIndex), operand)])), targets);
            var sent := Output(q, rows, ZERO, []);
            && |sent| == |at| && (forall k :: 0 <= k < |at| ==> 0 <= at[k] < |rows| && sent[k] == Fetched(targets, rtable, rows[at[k]]))
            && (forall k, l :: 0 <= k < l < |at| ==> at[k] < at[l])
            && forall i :: 0 <= i < |rows| ==> (i in at <==> Below(rtable, rows[i], rindex, attrIndex, operand))
  {
    hide Output, Yield, Supplies, WrittenAnswer, Known, Supplied, Fetched, BuiltQuals;
    var qual := Compare(op, Column(rindex, attrIndex), operand);
    var q := QueryTbl(rtable, LESS, Some(BuiltQuals([qual])), targets);
    var rows := Yield(rtable, db);
    LessIsAnswered(rtable, op, rindex, attrIndex, operand, targets, db, schema);
    assert rows[0..] == rows;
    at := AnswerAt(q, [qual], rows, 0);
    YieldSupplied(rtable, db, schema, INTS);
    forall i | 0 <= i < |rows| ensures AnyWritten([qual], Over(q, rows[i])) <==> Below(rtable, rows[i], rindex, attrIndex, operand) {
      BelowMeans(op, rindex, attrIndex, operand, Over(q, rows[i]), schema);
    }
  }

  /** The column and the operand are integers, the first below the second. */
  predicate Below(rtable: seq<RangTblEntry>, row: Row, rindex: int, attrIndex: int, operand: Qual) {
    var x := Lookup(rtable, row, rindex, attrIndex);
    var y := if operand.Const? then Some(operand.val) else if operand.Column? then Lookup(rtable, row, operand.rindex, operand.attrIndex) else None;
    x.Some? && y.Some? && x.value.IntValue? && y.value.IntValue? && x.value.i < y.value.i
  }

  lemma LessMeans(op: int, l: Qual, r: Qual, c: Context, x: int, y: int)
    requires c.ops == LESS && Meaning(l, c) == Some(IntValue(x)) && Meaning(r, c) == Some(IntValue(y))
    ensures AnyWritten([Compare(op, l, r)], c) <==> x < y
  {
    hide Lookup;
    AnyOfOne(Compare(op, l, r), c);
    assert Meaning(Compare(op, l, r), c) == Some(Truth(x < y));
  }

  lemma IntsAreInts(v: Value)
    requires INTS.kind(v) == 1
    ensures v.IntValue?
  {
  }

  lemma BelowMeans(op: int, rindex: int, attrIndex: int, operand: Qual, c: Context, schema: Schema)
    requires Numbered(c.rtable) && Supplied(c.row, c.rtable, schema, INTS) && c.ops == LESS
    requires Known(c.rtable, schema, rindex, attrIndex) && schema(c.rtable[rindex - 1].tblInfo)[attrIndex] == 1
    requires (operand.Const? || operand.Column?) && WrittenKind(operand, c.rtable, schema, INTS) == Some(1)
    ensures AnyWritten([Compare(op, Column(rindex, attrIndex), operand)], c) <==> Below(c.rtable, c.row, rindex, attrIndex, operand)
  {
    LessRespects();
    hide Supplied, Respects, Lookup, AnyWritten, INTS, LESS, Known;
    WrittenKindIsMeant(operand, c, schema, INTS);
    KnownFound(c.rtable, c.row, schema, INTS, rindex, attrIndex);
    hide WrittenKind;
    var x, y := Lookup(c.rtable, c.row, rindex, attrIndex).value, Meaning(operand, c).value;
    IntsAreInts(x);
    IntsAreInts(y);
    LessMeans(op, Column(rindex, attrIndex), operand, c, x.i, y.i);
  }
}
