/** Where the layers meet: the records on a table's pages are the heads of version chains, so that a scan yields the
    rows as of the reader's snapshot; and what a scan and its rescans yield is what a join takes from its tables
    (src/sqlcore/executor/scan/seqscan.c, src/sqlcore/storage/buffer/undopage.c). */
module TableReads {
  import opened Commons
  import opened Snapshots
  import opened Versions
  import opened Mvcc
  import PaxTable
  import PaxScan
  import Rows
  import JoinTree
  import NestedLoop
  import Query

  type Cell = PaxTable.Cell

  /** The head and its data, as the bytes of a record hold them. */
  type Decoding = Cell -> Version

  /** What a scan does with a record: the version of its chain that the snapshot sees, if there is one. */
  function ReadRecord(undo: seq<Version>, snap: Snapshot, me: int, v: Version): Option<Cell>
    requires WellLinked(undo) && snap.Valid() && 0 <= me < Transactions.XTID_RANGE
  {
    if v.undo.Some? && v.undo.value >= |undo| then None
    else
      match FirstVisible([v] + Older(undo, v.undo), Some(snap), me)
      case Some(seen) => Some(seen.value)
      case None => None
  }

  function Reader(undo: seq<Version>, snap: Snapshot, me: int, decode: Decoding): Cell -> Option<Cell>
    requires WellLinked(undo) && snap.Valid() && 0 <= me < Transactions.XTID_RANGE
  {
    cell => ReadRecord(undo, snap, me, decode(cell))
  }

  /** Every record of the table is the head of the cell named at its place, and no cell has two places. */
  ghost predicate Heads(st: Store, rows: seq<seq<PaxTable.Row>>, names: seq<seq<seq<CellId>>>, decode: Decoding) {
    && |rows| == |names|
    && (forall g :: 0 <= g < |rows| ==> |rows[g]| == |names[g]|)
    && (forall g, k :: 0 <= g < |rows| && 0 <= k < |rows[g]| ==> |rows[g][k]| == |names[g][k]|)
    && (forall g, k, i :: 0 <= g < |rows| && 0 <= k < |rows[g]| && 0 <= i < |rows[g][k]| ==>
          names[g][k][i] in st.heads && st.heads[names[g][k][i]] == decode(rows[g][k][i]))
  }

  ghost predicate Distinct(names: seq<seq<seq<CellId>>>) {
    forall g, k, i, h, l, j ::
      (0 <= g < |names| && 0 <= k < |names[g]| && 0 <= i < |names[g][k]| && 0 <= h < |names| && 0 <= l < |names[h]| && 0 <= j < |names[h][l]|
       && names[g][k][i] == names[h][l][j]) ==> g == h && k == l && i == j
  }

  /** The value of a cell for worker w: as of its snapshot, overlaid with its own writes. */
  ghost function Told(s: System, w: nat): CellId -> Option<Cell>
    requires Inv(s) && Ready(s, w)
  {
    c => ViewOf(s, w, c)
  }

  lemma RecordIsAsOf(s: System, w: nat, c: CellId)
    requires Inv(s) && Ready(s, w) && c in s.store.heads
    ensures ReadRecord(s.store.undo, s.snaps[w], s.tx.slots[w].xid, s.store.heads[c]) == Told(s, w)(c)
  {
    hide ReadersInv, CellsInv, ViewsInv;
    ReadIsView(s, w, c);
  }

  lemma {:induction false} SeenAlike<T, U>(row: seq<T>, names: seq<U>, cols: seq<int>, f: T -> Option<Cell>, g: U -> Option<Cell>)
    requires |row| == |names| && forall i :: 0 <= i < |row| ==> f(row[i]) == g(names[i])
    ensures PaxScan.Seen(row, cols, f) == PaxScan.Seen(names, cols, g)
  {
    if cols != [] {
      SeenAlike(row, names, cols[..|cols| - 1], f, g);
    }
  }

  lemma {:induction false} VisibleAlike<T, U>(rows: seq<seq<T>>, names: seq<seq<U>>, cols: seq<int>, f: T -> Option<Cell>, g: U -> Option<Cell>)
    requires |rows| == |names| && forall k :: 0 <= k < |rows| ==> |rows[k]| == |names[k]|
    requires forall k, i :: 0 <= k < |rows| && 0 <= i < |rows[k]| ==> f(rows[k][i]) == g(names[k][i])
    ensures PaxScan.Visible(rows, cols, f) == PaxScan.Visible(names, cols, g)
  {
    if rows != [] {
      SeenAlike(rows[0], names[0], cols, f, g);
      VisibleAlike(rows[1..], names[1..], cols, f, g);
    }
  }

  lemma {:induction false} AllVisibleAlike<T, U>(rows: seq<seq<seq<T>>>, names: seq<seq<seq<U>>>, cols: seq<int>, f: T -> Option<Cell>, g: U -> Option<Cell>)
    requires |rows| == |names| && forall h :: 0 <= h < |rows| ==> |rows[h]| == |names[h]|
    requires forall h, k :: 0 <= h < |rows| && 0 <= k < |rows[h]| ==> |rows[h][k]| == |names[h][k]|
    requires forall h, k, i :: 0 <= h < |rows| && 0 <= k < |rows[h]| && 0 <= i < |rows[h][k]| ==> f(rows[h][k][i]) == g(names[h][k][i])
    ensures PaxScan.AllVisible(rows, cols, f) == PaxScan.AllVisible(names, cols, g)
  {
    if rows != [] {
      VisibleAlike(rows[0], names[0], cols, f, g);
      AllVisibleAlike(rows[1..], names[1..], cols, f, g);
    }
  }

  /** A scan of a table whose records are the heads of their cells yields, in every state of the engine, the rows whose
      scanned cells all have a value as of the reader's snapshot, with exactly these values. */
  lemma ScanIsAsOf(s: System, w: nat, rows: seq<seq<PaxTable.Row>>, names: seq<seq<seq<CellId>>>, cols: seq<int>, decode: Decoding)
    requires Inv(s) && Ready(s, w) && Heads(s.store, rows, names, decode)
    ensures PaxScan.AllVisible(rows, cols, Reader(s.store.undo, s.snaps[w], s.tx.slots[w].xid, decode)) == PaxScan.AllVisible(names, cols, Told(s, w))
  {
    hide ReadersInv, CellsInv, ViewsInv;
    var read, told := Reader(s.store.undo, s.snaps[w], s.tx.slots[w].xid, decode), Told(s, w);
    forall g, k, i | 0 <= g < |rows| && 0 <= k < |rows[g]| && 0 <= i < |rows[g][k]| ensures read(rows[g][k][i]) == told(names[g][k][i]) {
      RecordIsAsOf(s, w, names[g][k][i]);
    }
    AllVisibleAlike(rows, names, cols, read, told);
  }

  /** The scan itself, over the pages of a table. */
  method SnapshotScan(table: PaxTable.PaxFile, dir: PaxScan.Directory, cols: seq<int>, decode: Decoding, undo: seq<Version>, snap: Snapshot, me: Transactions.XTID,
                      ghost s: System, ghost w: nat, ghost names: seq<seq<seq<CellId>>>)
    returns (sent: seq<seq<Cell>>)
    requires table.Valid() && PaxScan.Flat(dir) == table.groups && cols != []
    requires Inv(s) && Ready(s, w) && Heads(s.store, table.rows, names, decode)
    requires undo == s.store.undo && snap == s.snaps[w] && me == s.tx.slots[w].xid
    ensures sent == if PaxScan.Ascending(cols, table.colNum) then PaxScan.AllVisible(names, cols, Told(s, w)) else []
  {
    hide ReadersInv, CellsInv, ViewsInv;
    sent := PaxScan.ScanTable(table, dir, cols, Reader(undo, snap, me, decode));
    ScanIsAsOf(s, w, table.rows, names, cols, decode);
  }

  // ---------------------------------------------------------------- records and heads over a run

  /** The versions the engine keeps, and the rows of one table with the cells they are. */
  datatype TableState = TableState(st: Store, rows: seq<seq<PaxTable.Row>>, names: seq<seq<seq<CellId>>>)

  /** What happens to the table, on its pages and in its cells at once; `Elsewhere` is whatever happens to others. */
  datatype TableStep =
    | AddGroup
    | AddRow(g: nat, row: PaxTable.Row, cells: seq<CellId>, values: seq<Value>, me: Transactions.XTID)
    | Update(g: nat, k: nat, i: nat, copy: Version, value: Value, me: Transactions.XTID, cell: Cell)
    | Delete(g: nat, k: nat, i: nat, copy: Version, me: Transactions.XTID, cell: Cell)
    | Elsewhere(st: Store)

  function InsertAll(st: Store, cells: seq<CellId>, values: seq<Value>, me: Transactions.XTID): Store
    requires |cells| == |values|
  {
    if cells == [] then st
    else
      var n := |cells| - 1;
      InsertAll(st, cells[..n], values[..n], me).Insert(cells[n], values[n], me)
  }

  predicate Placed(t: TableState, g: nat, k: nat, i: nat) {
    g < |t.rows| && k < |t.rows[g]| && i < |t.rows[g][k]| && g < |t.names| && k < |t.names[g]| && i < |t.names[g][k]|
  }

  /** The record written holds the head the cell gets, new cells are new, and nothing else touches the table's cells. */
  ghost predicate Matching(t: TableState, step: TableStep, decode: Decoding) {
    match step
    case AddGroup => true
    case AddRow(g, row, cells, values, me) =>
      && g < |t.rows| && g < |t.names| && |row| == |cells| == |values|
      && (forall i :: 0 <= i < |cells| ==> cells[i] !in t.st.heads && decode(row[i]) == Version(me, Transactions.INVALID_XTID, None, values[i]))
      && (forall i, j :: 0 <= i < j < |cells| ==> cells[i] != cells[j])
    case Update(g, k, i, copy, value, me, cell) =>
      Placed(t, g, k, i) && decode(cell) == Version(me, Transactions.INVALID_XTID, Some(|t.st.undo|), value)
    case Delete(g, k, i, copy, me, cell) =>
      Placed(t, g, k, i) && decode(cell) == copy.(tmax := me)
    case Elsewhere(st) =>
      forall g, k, i :: 0 <= g < |t.names| && 0 <= k < |t.names[g]| && 0 <= i < |t.names[g][k]| && t.names[g][k][i] in t.st.heads ==>
        t.names[g][k][i] in st.heads && st.heads[t.names[g][k][i]] == t.st.heads[t.names[g][k][i]]
  }

  ghost function TableDo(t: TableState, step: TableStep, decode: Decoding): TableState
    requires Matching(t, step, decode)
  {
    match step
    case AddGroup => t.(rows := t.rows + [[]], names := t.names + [[]])
    case AddRow(g, row, cells, values, me) =>
      TableState(InsertAll(t.st, cells, values, me), t.rows[g := t.rows[g] + [row]], t.names[g := t.names[g] + [cells]])
    case Update(g, k, i, copy, value, me, cell) =>
      t.(st := t.st.Update(t.names[g][k][i], copy, value, me), rows := t.rows[g := t.rows[g][k := t.rows[g][k][i := cell]]])
    case Delete(g, k, i, copy, me, cell) =>
      t.(st := t.st.Delete(t.names[g][k][i], copy, me), rows := t.rows[g := t.rows[g][k := t.rows[g][k][i := cell]]])
    case Elsewhere(st) => t.(st := st)
  }

  ghost predicate Together(t: TableState, decode: Decoding) {
    Heads(t.st, t.rows, t.names, decode) && Distinct(t.names)
  }

  lemma {:induction false} InsertAllHeads(st: Store, cells: seq<CellId>, values: seq<Value>, me: Transactions.XTID)
    requires |cells| == |values| && forall i, j :: 0 <= i < j < |cells| ==> cells[i] != cells[j]
    ensures var t := InsertAll(st, cells, values, me);
            && (forall i :: 0 <= i < |cells| ==> cells[i] in t.heads && t.heads[cells[i]] == Version(me, Transactions.INVALID_XTID, None, values[i]))
            && (forall c :: c in st.heads && c !in cells ==> c in t.heads && t.heads[c] == st.heads[c])
  {
    if cells != [] {
      var n := |cells| - 1;
      InsertAllHeads(st, cells[..n], values[..n], me);
      assert forall i :: 0 <= i < n ==> cells[..n][i] == cells[i] && values[..n][i] == values[i];
    }
  }

  lemma RowDistinct(names: seq<seq<seq<CellId>>>, g: nat, cells: seq<CellId>)
    requires Distinct(names) && g < |names| && forall i, j :: 0 <= i < j < |cells| ==> cells[i] != cells[j]
    requires forall h, k, i :: 0 <= h < |names| && 0 <= k < |names[h]| && 0 <= i < |names[h][k]| ==> names[h][k][i] !in cells
    ensures Distinct(names[g := names[g] + [cells]])
  {
  }

  lemma RowHeads(t: TableState, step: TableStep, decode: Decoding)
    requires Heads(t.st, t.rows, t.names, decode) && step.AddRow? && Matching(t, step, decode)
    ensures var u := TableDo(t, step, decode); Heads(u.st, u.rows, u.names, decode)
  {
    InsertAllHeads(t.st, step.cells, step.values, step.me);
  }

  lemma RowAdded(t: TableState, step: TableStep, decode: Decoding)
    requires Together(t, decode) && step.AddRow? && Matching(t, step, decode)
    ensures Together(TableDo(t, step, decode), decode)
  {
    RowHeads(t, step, decode);
    assert forall h, k, i :: 0 <= h < |t.names| && 0 <= k < |t.names[h]| && 0 <= i < |t.names[h][k]| ==> t.names[h][k][i] in t.st.heads;
    hide Heads, Distinct;
    RowDistinct(t.names, step.g, step.cells);
  }

  lemma CellWritten(t: TableState, step: TableStep, decode: Decoding)
    requires Together(t, decode) && (step.Update? || step.Delete?) && Matching(t, step, decode)
    ensures Together(TableDo(t, step, decode), decode)
  {
  }

  /** Inserting a row, updating or deleting a cell, or anything done to other tables keeps every record the head of its
      cell. */
  lemma StepTogether(t: TableState, step: TableStep, decode: Decoding)
    requires Together(t, decode) && Matching(t, step, decode)
    ensures Together(TableDo(t, step, decode), decode)
  {
    match step
    case AddRow(_, _, _, _, _) => RowAdded(t, step, decode);
    case Update(_, _, _, _, _, _, _) => CellWritten(t, step, decode);
    case Delete(_, _, _, _, _, _) => CellWritten(t, step, decode);
    case _ =>
  }

  ghost predicate AllMatching(t: TableState, steps: seq<TableStep>, decode: Decoding)
    decreases |steps|
  {
    steps != [] ==> Matching(t, steps[0], decode) && AllMatching(TableDo(t, steps[0], decode), steps[1..], decode)
  }

  ghost function TableRun(t: TableState, steps: seq<TableStep>, decode: Decoding): TableState
    requires AllMatching(t, steps, decode)
    decreases |steps|
  {
    if steps == [] then t else TableRun(TableDo(t, steps[0], decode), steps[1..], decode)
  }

  /** Over any run, from an empty table or any other that has them together, records and heads stay together. */
  lemma {:induction false} RunTogether(t: TableState, steps: seq<TableStep>, decode: Decoding)
    requires Together(t, decode) && AllMatching(t, steps, decode)
    ensures Together(TableRun(t, steps, decode), decode)
    decreases |steps|
  {
    if steps != [] {
      StepTogether(t, steps[0], decode);
      RunTogether(TableDo(t, steps[0], decode), steps[1..], decode);
    }
  }

  // ---------------------------------------------------------------- what a join takes from a table

  /** What a late fetch finds for the row at a position of the scan. */
  type LateFetch = nat -> seq<(int, Rows.Value)>

  /** How the bytes of a column are read as typed data. */
  type Translation = (int, Cell) -> Rows.Value

  /** The rows of a scan from a position on: the scanned columns, each under its attribute index, and the others. */
  function TableRows(cols: seq<int>, rows: seq<seq<Cell>>, typed: Translation, late: LateFetch, from: nat): (r: seq<Rows.TableRow>)
    ensures |r| == |rows|
    ensures forall k :: 0 <= k < |rows| ==> r[k] == Rows.TableRow(RowColumns(cols, rows[k], typed), late(from + k))
  {
    seq(|rows|, k requires 0 <= k < |rows| => Rows.TableRow(RowColumns(cols, rows[k], typed), late(from + k)))
  }

  function RowColumns(cols: seq<int>, row: seq<Cell>, typed: Translation): seq<(int, Rows.Value)> {
    if cols == [] || row == [] then [] else [(cols[0], typed(cols[0], row[0]))] + RowColumns(cols[1..], row[1..], typed)
  }

  lemma {:induction false} ColumnFound(cols: seq<int>, row: seq<Cell>, typed: Translation, j: nat)
    requires |row| == |cols| && j < |cols| && forall i :: 0 <= i < j ==> cols[i] != cols[j]
    ensures Rows.ColumnOf(RowColumns(cols, row, typed), cols[j]) == Some(typed(cols[j], row[j]))
  {
    assert RowColumns(cols, row, typed)[1..] == RowColumns(cols[1..], row[1..], typed);
    if j > 0 {
      ColumnFound(cols[1..], row[1..], typed, j - 1);
    }
  }

  lemma {:induction false} ColumnMissing(cols: seq<int>, row: seq<Cell>, typed: Translation, a: int)
    requires |row| == |cols| && a !in cols
    ensures Rows.ColumnOf(RowColumns(cols, row, typed), a) == None
  {
    if cols != [] {
      assert RowColumns(cols, row, typed)[1..] == RowColumns(cols[1..], row[1..], typed);
      ColumnMissing(cols[1..], row[1..], typed, a);
    }
  }

  lemma ColumnSomewhere(cols: seq<int>, row: seq<Cell>, typed: Translation, a: int)
    requires |row| == |cols| && a in cols
    ensures exists cell :: Rows.ColumnOf(RowColumns(cols, row, typed), a) == Some(typed(a, cell))
  {
    var j := FirstAt(cols, a);
    ColumnFound(cols, row, typed, j);
  }

  lemma {:induction false} FirstAt(cols: seq<int>, a: int) returns (j: nat)
    requires a in cols
    ensures j < |cols| && cols[j] == a && forall i :: 0 <= i < j ==> cols[i] != a
  {
    if cols[0] == a {
      j := 0;
    } else {
      j := FirstAt(cols[1..], a);
      j := j + 1;
    }
  }

  /** Each scanned column of a row is its own cell, whatever late fetches find. */
  ghost predicate Cells(rows: seq<Rows.TableRow>, cols: seq<int>, cells: seq<seq<Cell>>, typed: Translation) {
    && |rows| == |cells|
    && forall k, j :: 0 <= k < |cells| && 0 <= j < |cols| ==> |cells[k]| == |cols| && Rows.ColumnIn(rows[k], cols[j]) == Some(typed(cols[j], cells[k][j]))
  }

  lemma CellsFound(cols: seq<int>, cells: seq<seq<Cell>>, typed: Translation, late: LateFetch, from: nat, colNum: nat)
    requires PaxScan.Ascending(cols, colNum) && forall k :: 0 <= k < |cells| ==> |cells[k]| == |cols|
    ensures Cells(TableRows(cols, cells, typed, late, from), cols, cells, typed)
  {
    forall k, j | 0 <= k < |cells| && 0 <= j < |cols|
      ensures Rows.ColumnIn(TableRows(cols, cells, typed, late, from)[k], cols[j]) == Some(typed(cols[j], cells[k][j]))
    {
      ColumnFound(cols, cells[k], typed, j);
    }
  }

  lemma {:induction false} SeenWidth<T>(row: seq<T>, cols: seq<int>, read: T -> Option<Cell>)
    ensures PaxScan.Seen(row, cols, read).Some? ==> |PaxScan.Seen(row, cols, read).value| == |cols|
  {
    if cols != [] {
      SeenWidth(row, cols[..|cols| - 1], read);
    }
  }

  lemma {:induction false} VisibleWidth<T>(rows: seq<seq<T>>, cols: seq<int>, read: T -> Option<Cell>)
    ensures forall k :: 0 <= k < |PaxScan.Visible(rows, cols, read)| ==> |PaxScan.Visible(rows, cols, read)[k]| == |cols|
  {
    if rows != [] {
      SeenWidth(rows[0], cols, read);
      VisibleWidth(rows[1..], cols, read);
    }
  }

  lemma {:induction false} AllVisibleWidth<T>(groups: seq<seq<seq<T>>>, cols: seq<int>, read: T -> Option<Cell>)
    ensures forall k :: 0 <= k < |PaxScan.AllVisible(groups, cols, read)| ==> |PaxScan.AllVisible(groups, cols, read)[k]| == |cols|
  {
    if groups != [] {
      VisibleWidth(groups[0], cols, read);
      AllVisibleWidth(groups[1..], cols, read);
    }
  }

  /** These columns are scanned, or always fetched, and translate to values of their kind. */
  ghost predicate Typed(columns: map<int, int>, cols: seq<int>, typed: Translation, late: LateFetch, ty: Query.Typing) {
    forall a :: a in columns ==>
      && 0 <= a
      && if a in cols then forall cell :: ty.kind(typed(a, cell)) == columns[a]
         else forall k :: Rows.ColumnOf(late(k), a).Some? && ty.kind(Rows.ColumnOf(late(k), a).value) == columns[a]
  }

  lemma RowsTyped(columns: map<int, int>, cols: seq<int>, rows: seq<seq<Cell>>, typed: Translation, late: LateFetch, from: nat, ty: Query.Typing)
    requires Typed(columns, cols, typed, late, ty) && forall k :: 0 <= k < |rows| ==> |rows[k]| == |cols|
    ensures forall k :: 0 <= k < |rows| ==> Query.HasColumns(TableRows(cols, rows, typed, late, from)[k], columns, ty)
  {
    forall k, a | 0 <= k < |rows| && a in columns
      ensures var v := Rows.ColumnIn(TableRows(cols, rows, typed, late, from)[k], a); v.Some? && ty.kind(v.value) == columns[a]
    {
      if a in cols {
        ColumnSomewhere(cols, rows[k], typed, a);
      } else {
        ColumnMissing(cols, rows[k], typed, a);
      }
    }
  }

  /** A table as a join sees it: a rescan goes on from some row to the end, and with at most one page in the group
      directory it starts from the first row. */
  method TableForJoin(table: PaxTable.PaxFile, dir: PaxScan.Directory, cols: seq<int>, read: Cell -> Option<Cell>, typed: Translation, late: LateFetch)
    returns (t: NestedLoop.TableScan)
    requires table.Valid() && PaxScan.Flat(dir) == table.groups && cols != [] && PaxScan.Ascending(cols, table.colNum)
    ensures t.rows == TableRows(cols, PaxScan.AllVisible(table.rows, cols, read), typed, late, 0)
    ensures |table.rows| == |PaxScan.Flat(dir)|
    ensures var first, again := PaxScan.AllVisible(table.rows, cols, read), PaxScan.AllVisible(PaxScan.LastGroups(dir, table.rows), cols, read);
            |again| <= |first| && t.again == TableRows(cols, again, typed, late, |first| - |again|)
    ensures Cells(t.rows, cols, PaxScan.AllVisible(table.rows, cols, read), typed)
    ensures Cells(t.again, cols, PaxScan.AllVisible(PaxScan.LastGroups(dir, table.rows), cols, read), typed)
    ensures NestedLoop.Suffix(t) && (|dir| <= 1 ==> t.again == t.rows)
    ensures forall columns, ty :: Typed(columns, cols, typed, late, ty) ==> Query.TableSupplies(t, columns, ty)
  {
    hide PaxScan.AllVisible, PaxScan.Flat, PaxScan.Before, Query.HasColumns, Typed;
    var first, again := PaxScan.ScanAgain(table, dir, cols, read);
    t := NestedLoop.TableScan(TableRows(cols, first, typed, late, 0), TableRows(cols, again, typed, late, |first| - |again|));
    AllVisibleWidth(table.rows, cols, read);
    AllVisibleWidth(PaxScan.LastGroups(dir, table.rows), cols, read);
    CellsFound(cols, first, typed, late, 0, table.colNum);
    CellsFound(cols, again, typed, late, |first| - |again|, table.colNum);
    hide Cells;
    forall columns, ty | Typed(columns, cols, typed, late, ty) ensures Query.TableSupplies(t, columns, ty) {
      RowsTyped(columns, cols, first, typed, late, 0, ty);
      RowsTyped(columns, cols, again, typed, late, |first| - |again|, ty);
    }
    if |dir| <= 1 {
      PaxScan.BeforeNext(dir, 0);
      assert PaxScan.LastGroups(dir, table.rows) == table.rows;
    }
  }

  // ---------------------------------------------------------------- from pages to rows sent

  /** A table with its group directory, the columns its scan reads, and what late fetches find. */
  datatype Source = Source(table: PaxTable.PaxFile, dir: PaxScan.Directory, cols: seq<int>, late: LateFetch)

  ghost predicate Scannable(src: Source)
    reads src.table
  {
    src.table.Valid() && PaxScan.Flat(src.dir) == src.table.groups && src.cols != [] && PaxScan.Ascending(src.cols, src.table.colNum)
  }

  /** What a scan of these rows makes of them, and what a rescan yields after its end. */
  function ScanOf<T>(src: Source, groups: seq<seq<seq<T>>>, read: T -> Option<Cell>, typed: Translation): NestedLoop.TableScan
    requires |groups| == |PaxScan.Flat(src.dir)|
  {
    var first, again := PaxScan.AllVisible(groups, src.cols, read), PaxScan.AllVisible(PaxScan.LastGroups(src.dir, groups), src.cols, read);
    NestedLoop.TableScan(TableRows(src.cols, first, typed, src.late, 0),
                         TableRows(src.cols, again, typed, src.late, if |again| <= |first| then |first| - |again| else 0))
  }

  /** The tables on their pages, as scans find them. */
  ghost function Stored(sources: seq<Source>, read: Cell -> Option<Cell>, typed: Translation): (scans: seq<NestedLoop.TableScan>)
    requires forall i :: 0 <= i < |sources| ==> Scannable(sources[i])
    reads set i | 0 <= i < |sources| :: sources[i].table
    ensures |scans| == |sources|
    ensures forall i :: 0 <= i < |sources| ==>
              |sources[i].table.rows| == |PaxScan.Flat(sources[i].dir)| && scans[i] == ScanOf(sources[i], sources[i].table.rows, read, typed)
  {
    if sources == [] then []
    else
      var n := |sources| - 1;
      assert Scannable(sources[n]);
      Stored(sources[..n], read, typed) + [ScanOf(sources[n], sources[n].table.rows, read, typed)]
  }

  method ScanSource(src: Source, read: Cell -> Option<Cell>, typed: Translation, ghost columns: map<int, int>, ghost ty: Query.Typing) returns (t: NestedLoop.TableScan)
    requires Scannable(src) && Typed(columns, src.cols, typed, src.late, ty)
    ensures |src.table.rows| == |PaxScan.Flat(src.dir)| && t == ScanOf(src, src.table.rows, read, typed)
    ensures Query.TableSupplies(t, columns, ty) && NestedLoop.Suffix(t) && (|src.dir| <= 1 ==> t.again == t.rows)
  {
    hide Typed, TableRows, PaxScan.AllVisible, PaxScan.Ascending, PaxScan.Flat, Query.TableSupplies;
    t := TableForJoin(src.table, src.dir, src.cols, read, typed, src.late);
  }

  ghost predicate Joinable(t: NestedLoop.TableScan, src: Source, columns: map<int, int>, ty: Query.Typing) {
    Query.TableSupplies(t, columns, ty) && NestedLoop.Suffix(t) && (|src.dir| <= 1 ==> t.again == t.rows)
  }

  method ScanSources(sources: seq<Source>, read: Cell -> Option<Cell>, typed: Translation, ghost schema: Query.Schema, ghost ty: Query.Typing)
    returns (scans: seq<NestedLoop.TableScan>)
    requires forall i :: 0 <= i < |sources| ==> Scannable(sources[i]) && Typed(schema(i), sources[i].cols, typed, sources[i].late, ty)
    ensures scans == Stored(sources, read, typed)
    ensures forall t :: 0 <= t < |sources| ==> Joinable(scans[t], sources[t], schema(t), ty)
  {
    hide Scannable, Typed, ScanOf, Query.TableSupplies, NestedLoop.Suffix;
    scans := [];
    for t := 0 to |sources|
      invariant |scans| == t
      invariant forall u :: 0 <= u < t ==> scans[u] == Stored(sources, read, typed)[u] && Joinable(scans[u], sources[u], schema(u), ty)
    {
      var scan := ScanSource(sources[t], read, typed, schema(t), ty);
      scans := scans + [scan];
    }
  }

  function Tables(scans: seq<NestedLoop.TableScan>): NestedLoop.Database {
    t => if 0 <= t < |scans| then scans[t] else NestedLoop.TableScan([], [])
  }

  lemma ScansSupply(scans: seq<NestedLoop.TableScan>, rtable: seq<Rows.RangTblEntry>, schema: Query.Schema, ty: Query.Typing)
    requires forall i :: 0 <= i < |rtable| ==> 0 <= rtable[i].tblInfo < |scans|
    requires forall t :: 0 <= t < |scans| ==> Query.TableSupplies(scans[t], schema(t), ty)
    ensures Query.Supplies(Tables(scans), rtable, schema, ty)
  {
    hide Query.TableSupplies;
  }

  lemma ScansRestart(scans: seq<NestedLoop.TableScan>, rtable: seq<Rows.RangTblEntry>)
    requires forall i :: 0 <= i < |rtable| ==> 0 <= rtable[i].tblInfo < |scans|
    requires forall t :: 0 <= t < |scans| ==> NestedLoop.Suffix(scans[t])
    ensures forall i :: 0 <= i < |rtable| ==> NestedLoop.Suffix(Tables(scans)(rtable[i].tblInfo))
    ensures (forall t :: 0 <= t < |scans| ==> scans[t].again == scans[t].rows) ==> NestedLoop.Restarts(rtable, Tables(scans))
  {
    hide NestedLoop.Suffix, NestedLoop.Single, NestedLoop.SomeEmpty;
  }

  /** A query that can be checked beforehand, over tables that each have one column list. */
  ghost predicate Posed(query: Query.QueryTbl, sources: seq<Source>, typed: Translation, schema: Query.Schema, ty: Query.Typing) {
    && query.rtable != [] && JoinTree.Numbered(query.rtable) && Query.Respects(query.ops, ty) && Query.Checked(query, schema, ty)
    && (forall i :: 0 <= i < |sources| ==> Typed(schema(i), sources[i].cols, typed, sources[i].late, ty))
    && (forall i :: 0 <= i < |query.rtable| ==> 0 <= query.rtable[i].tblInfo < |sources|)
  }

  /** A select statement over tables on their pages: every scan is made, and the query that has been checked beforehand
      gets its answer over the join of the rows that the scans yield; over their cross product, if no group directory
      has more than one page. */
  method SelectFromFiles(query: Query.QueryTbl, sources: seq<Source>, read: Cell -> Option<Cell>, typed: Translation, ghost schema: Query.Schema, ghost ty: Query.Typing)
    returns (sent: seq<seq<Rows.Value>>)
    requires Posed(query, sources, typed, schema, ty) && forall i :: 0 <= i < |sources| ==> Scannable(sources[i])
    ensures var db := Tables(Stored(sources, read, typed));
            && sent == Query.Answer(query, NestedLoop.Yield(query.rtable, db))
            && ((forall t :: 0 <= t < |sources| ==> |sources[t].dir| <= 1) ==> sent == Query.Answer(query, NestedLoop.Product(query.rtable, db)))
  {
    hide Scannable, Typed, ScanOf, Query.Answer, Query.TableSupplies, Query.Checked, Query.Respects, Query.Supplies, NestedLoop.Suffix, NestedLoop.Restarts;
    var scans := ScanSources(sources, read, typed, schema, ty);
    ScansSupply(scans, query.rtable, schema, ty);
    ScansRestart(scans, query.rtable);
    sent := Query.ExecutorMain(query, Tables(scans), schema, ty);
  }

  /** The tables as a worker sees them: the cells named at each place, with their values as of its snapshot and own
      writes. */
  ghost function AsOfTables(sources: seq<Source>, names: seq<seq<seq<seq<CellId>>>>, s: System, w: nat, typed: Translation): seq<NestedLoop.TableScan>
    requires Inv(s) && Ready(s, w) && |names| == |sources| && forall t :: 0 <= t < |sources| ==> |names[t]| == |PaxScan.Flat(sources[t].dir)|
  {
    seq(|sources|, t requires 0 <= t < |sources| => ScanOf(sources[t], names[t], Told(s, w), typed))
  }

  /** A row of a scan, back at its place: column by column the value that is read there. */
  ghost predicate RowFrom<T>(row: Rows.TableRow, cols: seq<int>, source: seq<T>, read: T -> Option<Cell>, typed: Translation) {
    forall j :: 0 <= j < |cols| ==>
      0 <= cols[j] < |source| && read(source[cols[j]]).Some? && Rows.ColumnIn(row, cols[j]) == Some(typed(cols[j], read(source[cols[j]]).value))
  }

  /** Every row that a scan hands to the join comes from one place of the table, in the order of places; its columns are
      the values read at that place, and no other place has all its scanned columns readable. With `Told` for the
      reader, these are the values as of the worker's snapshot and own writes. */
  lemma RowsComeFrom<T>(src: Source, groups: seq<seq<seq<T>>>, read: T -> Option<Cell>, typed: Translation, colNum: nat) returns (at: seq<PaxScan.Place>)
    requires |groups| == |PaxScan.Flat(src.dir)| && PaxScan.Ascending(src.cols, colNum)
    ensures |at| == |ScanOf(src, groups, read, typed).rows|
    ensures forall k, l :: 0 <= k < l < |at| ==> PaxScan.Earlier(at[k], at[l])
    ensures forall k :: 0 <= k < |at| ==> at[k].group < |groups| && at[k].row < |groups[at[k].group]|
                                          && RowFrom(ScanOf(src, groups, read, typed).rows[k], src.cols, groups[at[k].group][at[k].row], read, typed)
    ensures forall g: nat, r: nat :: g < |groups| && r < |groups[g]| ==> PaxScan.Place(g, r) in at || PaxScan.Unseen(groups[g][r], src.cols, read)
  {
    hide PaxScan.AllVisible, PaxScan.Flat, PaxScan.Unseen, TableRows;
    at := PaxScan.AllVisibleAt(groups, 0, src.cols, read);
    assert groups[0..] == groups;
    AllVisibleWidth(groups, src.cols, read);
    CellsFound(src.cols, PaxScan.AllVisible(groups, src.cols, read), typed, src.late, 0, colNum);
  }

  lemma HeadsSuffix(st: Store, rows: seq<seq<PaxTable.Row>>, names: seq<seq<seq<CellId>>>, decode: Decoding, n: nat)
    requires Heads(st, rows, names, decode)
    ensures n <= |rows| ==> Heads(st, rows[n..], names[n..], decode)
  {
    if n <= |rows| {
      assert forall g :: 0 <= g < |rows| - n ==> rows[n..][g] == rows[n + g] && names[n..][g] == names[n + g];
    }
  }

  lemma ScanOfAsOf(src: Source, rows: seq<seq<PaxTable.Row>>, names: seq<seq<seq<CellId>>>, s: System, w: nat, decode: Decoding, typed: Translation)
    requires Inv(s) && Ready(s, w) && Heads(s.store, rows, names, decode) && |rows| == |PaxScan.Flat(src.dir)|
    ensures ScanOf(src, rows, Reader(s.store.undo, s.snaps[w], s.tx.slots[w].xid, decode), typed) == ScanOf(src, names, Told(s, w), typed)
  {
    hide ReadersInv, CellsInv, ViewsInv, PaxScan.AllVisible, PaxScan.Flat, TableRows;
    var rows', names' := PaxScan.LastGroups(src.dir, rows), PaxScan.LastGroups(src.dir, names);
    PaxScan.BeforeBound(src.dir, PaxScan.LastPage(src.dir));
    HeadsSuffix(s.store, rows, names, decode, PaxScan.Before(src.dir, PaxScan.LastPage(src.dir)));
    ScanIsAsOf(s, w, rows, names, src.cols, decode);
    ScanIsAsOf(s, w, rows', names', src.cols, decode);
  }

  /** The same for a worker of the engine, over tables whose records are the heads of their cells: the rows joined are
      those whose scanned cells have a value as of its snapshot and own writes, with these values. */
  method SelectAsOf(query: Query.QueryTbl, sources: seq<Source>, decode: Decoding, undo: seq<Version>, snap: Snapshot, me: Transactions.XTID, typed: Translation,
                    ghost schema: Query.Schema, ghost ty: Query.Typing, ghost s: System, ghost w: nat, ghost names: seq<seq<seq<seq<CellId>>>>)
    returns (sent: seq<seq<Rows.Value>>)
    requires Posed(query, sources, typed, schema, ty) && forall i :: 0 <= i < |sources| ==> Scannable(sources[i])
    requires Inv(s) && Ready(s, w) && undo == s.store.undo && snap == s.snaps[w] && me == s.tx.slots[w].xid
    requires |names| == |sources| && forall t :: 0 <= t < |sources| ==> Heads(s.store, sources[t].table.rows, names[t], decode)
    ensures forall t :: 0 <= t < |sources| ==> |names[t]| == |PaxScan.Flat(sources[t].dir)|
    ensures var db := Tables(AsOfTables(sources, names, s, w, typed));
            && sent == Query.Answer(query, NestedLoop.Yield(query.rtable, db))
            && ((forall t :: 0 <= t < |sources| ==> |sources[t].dir| <= 1) ==> sent == Query.Answer(query, NestedLoop.Product(query.rtable, db)))
  {
    hide ReadersInv, CellsInv, ViewsInv, Scannable, Posed, ScanOf, Query.Answer;
    var read := Reader(undo, snap, me, decode);
    sent := SelectFromFiles(query, sources, read, typed, schema, ty);
    forall t | 0 <= t < |sources|
      ensures |names[t]| == |PaxScan.Flat(sources[t].dir)| && Stored(sources, read, typed)[t] == ScanOf(sources[t], names[t], Told(s, w), typed)
    {
      ScanOfAsOf(sources[t], sources[t].table.rows, names[t], s, w, decode, typed);
    }
    assert Stored(sources, read, typed) == AsOfTables(sources, names, s, w, typed);
  }
}
