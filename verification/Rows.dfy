/** Range tables, the rows that scans and joins pass on, and how a column is looked up in them
    (src/sqlcore/executor/scan/scan.c, src/sqlcore/node/node.c). */
module Rows {
  import opened Commons

  /** A typed datum, as the expression cell holds it; null data have size 0. */
  datatype Value =
    | PointerValue(isNull: bool)
    | IntValue(i: int)
    | StringValue(isNull: bool, size: int, chars: string)
    | CharValue(c: char)
    | DoubleValue(d: real)
    | FloatValue(f: real)
    | BoolValue(b: int)

  const FLOAT_EPSILON := 0.000001

  function Abs(x: real): real {
    if x < 0.0 then -x else x
  }

  /** getDataBool: a missing result counts as true. */
  function GetDataBool(v: Option<Value>): bool {
    match v
    case None => true
    case Some(PointerValue(isNull)) => !isNull
    case Some(IntValue(i)) => i != 0
    case Some(StringValue(isNull, size, _)) => !isNull && size > 0
    case Some(CharValue(c)) => c != '\0'
    case Some(DoubleValue(d)) => Abs(d) > FLOAT_EPSILON
    case Some(FloatValue(f)) => Abs(f) > FLOAT_EPSILON
    case Some(BoolValue(b)) => b != 0
  }

  /** An entry of the range table: its own index, and the table it names. */
  datatype RangTblEntry = RangTblEntry(rindex: int, tblInfo: int)

  /** A row of a table as a scan stands on it: the scanned columns, each under its attribute index, and what is found of
      the others when they are fetched late, from the page of their column at the row's own position. */
  datatype TableRow = TableRow(columns: seq<(int, Value)>, late: seq<(int, Value)>)

  /** One table's part of a row. */
  datatype TableRowDataPosition = TableRowDataPosition(rindex: int, tblInfo: int, data: TableRow)

  /** A row of one or more tables, left to right. */
  type Row = seq<TableRowDataPosition>

  /** GetCellValueByIndex: lists are counted from 1. */
  function GetCellValueByIndex<T>(list: seq<T>, index: int): Option<T> {
    if 1 <= index <= |list| then Some(list[index - 1]) else None
  }

  /** The first part of the row that belongs to this entry of the range table. */
  function PositionOf(row: Row, tblInfo: int, rindex: int): Option<TableRowDataPosition> {
    if row == [] then None
    else if row[0].tblInfo == tblInfo && row[0].rindex == rindex then Some(row[0])
    else PositionOf(row[1..], tblInfo, rindex)
  }

  method GetTblRowDataPosition(row: array<TableRowDataPosition>, tableNum: nat, tblInfo: int, rindex: int) returns (result: Option<TableRowDataPosition>)
    requires tableNum <= row.Length
    ensures result == PositionOf(row[..tableNum], tblInfo, rindex)
  {
    var tblIndex := 0;
    while tblIndex < tableNum
      invariant tblIndex <= tableNum
      invariant PositionOf(row[..tableNum], tblInfo, rindex) == PositionOf(row[tblIndex..tableNum], tblInfo, rindex)
    {
      if row[tblIndex].tblInfo == tblInfo && row[tblIndex].rindex == rindex {
        return Some(row[tblIndex]);
      }
      assert row[tblIndex..tableNum][1..] == row[tblIndex + 1..tableNum];
      tblIndex := tblIndex + 1;
    }
    result := None;
  }

  /** The value listed for a column. */
  function ColumnOf(columns: seq<(int, Value)>, attrIndex: int): Option<Value> {
    if columns == [] then None
    else if columns[0].0 == attrIndex then Some(columns[0].1)
    else ColumnOf(columns[1..], attrIndex)
  }

  /** A column of the row: scanned, or fetched late if that succeeds. */
  function ColumnIn(row: TableRow, attrIndex: int): Option<Value> {
    if attrIndex < 0 then None
    else
      var scanned := ColumnOf(row.columns, attrIndex);
      if scanned.Some? then scanned else ColumnOf(row.late, attrIndex)
  }

  /** GetColRowDataEx; reading a column's page at the row's position is the look into `late`. */
  method GetColRowDataEx(position: TableRowDataPosition, attrIndex: int) returns (result: Option<Value>)
    ensures result == ColumnIn(position.data, attrIndex)
  {
    if attrIndex < 0 {
      return None;
    }
    var i := 0;
    while i < |position.data.columns|
      invariant i <= |position.data.columns|
      invariant ColumnOf(position.data.columns, attrIndex) == ColumnOf(position.data.columns[i..], attrIndex)
    {
      if position.data.columns[i].0 == attrIndex {
        return Some(position.data.columns[i].1);
      }
      i := i + 1;
    }
    result := ColumnOf(position.data.late, attrIndex);
  }

  /** The value of a column of the table under this index in the range table. */
  function Lookup(rtable: seq<RangTblEntry>, row: Row, rindex: int, attrIndex: int): Option<Value> {
    match GetCellValueByIndex(rtable, rindex)
    case None => None
    case Some(rte) =>
      match PositionOf(row, rte.tblInfo, rte.rindex)
      case None => None
      case Some(position) => ColumnIn(position.data, attrIndex)
  }
}
