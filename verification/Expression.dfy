/** Evaluation of qualifiers through one shared result cell and one current-node pointer
    (src/sqlcore/executor/execExpre.c). */
module Expression {
  import opened Commons
  import opened Rows

  datatype BoolType = AND_EXPR | OR_EXPR | NOT_EXPR

  /** Nodes have identities, which stand for their addresses; `MaybeNode` is a pointer that may be null. */
  datatype Node =
    | MergerEntry(id: nat, mergeType: BoolType, mleft: MaybeNode, mright: MaybeNode)
    | ExprEntry(id: nat, op: int, rindex: int, rrindex: int, left: MaybeNode, right: MaybeNode)
    | ColumnRef(id: nat, attrIndex: int)
    | ConstValue(id: nat, val: Value)
    | SelectResult(id: nat)

  datatype MaybeNode = Null | Ptr(node: Node)

  /** The type procedures' operator tables: an operator may be missing or fail for its operands. */
  type Operators = (int, Value, Value) -> Option<Value>

  /** What a local copy holds before anything is copied into it. */
  const ZERO := PointerValue(true)

  function Truth(b: bool): Value {
    IntValue(if b then 1 else 0)
  }

  function Combine(t: BoolType, l: Value, r: Value): Value {
    match t
    case AND_EXPR => Truth(GetDataBool(Some(l)) && GetDataBool(Some(r)))
    case OR_EXPR => Truth(GetDataBool(Some(l)) || GetDataBool(Some(r)))
    case NOT_EXPR => Truth(!GetDataBool(Some(l)))
  }

  /** What a qualifier is evaluated over. */
  datatype Context = Context(rtable: seq<RangTblEntry>, row: Row, ops: Operators)

  /** The meaning of a tree; `None` if a column cannot be found or an operator fails.
      A column of a comparison belongs to the comparison's left or right table, by the side it is on. */
  function Denote(node: Node, c: Context): Option<Value> {
    match node
    case MergerEntry(_, t, l, r) =>
      var x, y := Side(l, 0, c), Side(r, 0, c);
      if x.Some? && y.Some? then Some(Combine(t, x.value, y.value)) else None
    case ExprEntry(_, op, lindex, rindex, l, r) =>
      var x, y := Side(l, lindex, c), Side(r, rindex, c);
      if x.Some? && y.Some? then c.ops(op, x.value, y.value) else None
    case ConstValue(_, v) => Some(v)
    case ColumnRef(_, _) => None
    case SelectResult(_) => None
  }

  function Side(m: MaybeNode, rindex: int, c: Context): Option<Value> {
    match m
    case Null => Some(ZERO)
    case Ptr(n) => if n.ColumnRef? then Lookup(c.rtable, c.row, rindex, n.attrIndex) else Denote(n, c)
  }

  /** The two sides of every comparison are different nodes. */
  predicate Apart(node: Node) {
    match node
    case MergerEntry(_, _, l, r) => ApartSide(l) && ApartSide(r)
    case ExprEntry(_, _, _, _, l, r) => l != r && ApartSide(l) && ApartSide(r)
    case _ => true
  }

  predicate ApartSide(m: MaybeNode) {
    m.Ptr? ==> Apart(m.node)
  }

  /** The table index that a column reads from the current node: by which of its subtrees the column is. */
  function IndexAt(current: Node, m: MaybeNode): int {
    if !current.ExprEntry? then 0
    else if m == current.left then current.rindex
    else current.rrindex
  }

  /** What evaluation does to the shared cell, and what it returns: nothing, or the cell. A step that fails
      leaves the cell as it was, and its caller reads it nevertheless. */
  function Run(m: MaybeNode, current: Node, cell: Value, c: Context): (Value, Option<Value>)
    decreases m
  {
    match m
    case Null => (cell, None)
    case Ptr(MergerEntry(id, t, l, r)) =>
      var n := MergerEntry(id, t, l, r);
      var cell1 := if l.Null? then cell else Run(l, n, cell, c).0;
      var cell2 := if r.Null? then cell1 else Run(r, n, cell1, c).0;
      var v := Combine(t, if l.Null? then ZERO else cell1, if r.Null? then ZERO else cell2);
      (v, Some(v))
    case Ptr(ExprEntry(id, op, lindex, rindex, l, r)) =>
      var n := ExprEntry(id, op, lindex, rindex, l, r);
      var cell1 := if l.Null? then cell else Run(l, n, cell, c).0;
      var cell2 := if r.Null? then cell1 else Run(r, n, cell1, c).0;
      var v := c.ops(op, if l.Null? then ZERO else cell1, if r.Null? then ZERO else cell2);
      (if v.Some? then v.value else cell2, v)
    case Ptr(ColumnRef(_, attr)) =>
      var v := Lookup(c.rtable, c.row, IndexAt(current, m), attr);
      (if v.Some? then v.value else cell, v)
    case Ptr(ConstValue(_, v)) => (v, Some(v))
    case Ptr(SelectResult(_)) => (cell, None)
  }

  lemma {:induction false} SideRuns(m: MaybeNode, current: Node, rindex: int, cell: Value, c: Context)
    requires m.Ptr? && Apart(m.node) && Side(m, rindex, c).Some?
    requires m.node.ColumnRef? ==> IndexAt(current, m) == rindex
    ensures Run(m, current, cell, c) == (Side(m, rindex, c).value, Side(m, rindex, c))
    decreases m
  {
    match m.node
    case MergerEntry(_, t, l, r) =>
      var x, y := Side(l, 0, c), Side(r, 0, c);
      assert Side(m, rindex, c) == Some(Combine(t, x.value, y.value));
      SidesRun(l, r, m.node, 0, 0, cell, c);
    case ExprEntry(_, op, lindex, rindex', l, r) =>
      var x, y := Side(l, lindex, c), Side(r, rindex', c);
      assert Side(m, rindex, c) == c.ops(op, x.value, y.value);
      SidesRun(l, r, m.node, lindex, rindex', cell, c);
    case _ =>
  }

  /** Both sides of a node, the right one after the left has used the cell. */
  lemma {:induction false} SidesRun(l: MaybeNode, r: MaybeNode, n: Node, lindex: int, rindex: int, cell: Value, c: Context)
    requires (n.MergerEntry? && l == n.mleft && r == n.mright) || (n.ExprEntry? && l == n.left && r == n.right)
    requires ApartSide(l) && ApartSide(r) && Side(l, lindex, c).Some? && Side(r, rindex, c).Some?
    requires l.Ptr? && l.node.ColumnRef? ==> IndexAt(n, l) == lindex
    requires r.Ptr? && r.node.ColumnRef? ==> IndexAt(n, r) == rindex
    ensures var cell1 := if l.Null? then cell else Run(l, n, cell, c).0;
            && (if l.Null? then ZERO else cell1) == Side(l, lindex, c).value
            && (if r.Null? then ZERO else Run(r, n, cell1, c).0) == Side(r, rindex, c).value
    decreases n
  {
    if l.Ptr? {
      SideRuns(l, n, lindex, cell, c);
    }
    var cell1 := if l.Null? then cell else Run(l, n, cell, c).0;
    if r.Ptr? {
      SideRuns(r, n, rindex, cell1, c);
    }
  }

  /** Whatever the cell and the current node held before, a tree with a meaning evaluates to it. */
  lemma {:induction false} RunDenotes(node: Node, current: Node, cell: Value, c: Context)
    requires Apart(node) && Denote(node, c).Some?
    ensures Run(Ptr(node), current, cell, c) == (Denote(node, c).value, Denote(node, c))
  {
    SideRuns(Ptr(node), current, 0, cell, c);
  }

  class Evaluator {
    const rtable: seq<RangTblEntry>
    const ops: Operators
    const resultRow: array<TableRowDataPosition>
    var tableNum: nat
    var subPlanNode: Node
    var resultExpreData: Value

    constructor (rtable: seq<RangTblEntry>, ops: Operators, resultRow: array<TableRowDataPosition>, node: Node)
      ensures this.rtable == rtable && this.ops == ops && this.resultRow == resultRow && tableNum == 0 && subPlanNode == node
      ensures resultExpreData == ZERO
    {
      this.rtable, this.ops, this.resultRow := rtable, ops, resultRow;
      tableNum, subPlanNode, resultExpreData := 0, node, ZERO;
    }

    predicate Valid()
      reads this
    {
      tableNum <= resultRow.Length
    }

    ghost function Over(): Context
      requires Valid()
      reads this, resultRow
    {
      Context(rtable, resultRow[..tableNum], ops)
    }

    /** ProcessQualExprNode: the current node is as before when it returns. */
    method ProcessQualExprNode(m: MaybeNode) returns (result: Option<Value>)
      requires Valid()
      modifies this`subPlanNode, this`resultExpreData
      ensures subPlanNode == old(subPlanNode)
      ensures (resultExpreData, result) == Run(m, subPlanNode, old(resultExpreData), Over())
      decreases m, 1
    {
      var pnode := subPlanNode;
      result := None;
      if m.Null? {
        return;
      }
      match m.node {
        case MergerEntry(_, _, _, _) =>
          subPlanNode := m.node;
          result := ComputeBoolExprNode(m.node);
        case ExprEntry(_, _, _, _, _, _) =>
          subPlanNode := m.node;
          result := ComputeExpreNode(m.node);
        case ColumnRef(_, _) =>
          result := GetExprDataColumnValue(m);
        case ConstValue(_, v) =>
          resultExpreData := v;
          result := Some(v);
        case SelectResult(_) =>
          result := None;
      }
      subPlanNode := pnode;
    }

    method ComputeBoolExprNode(node: Node) returns (result: Option<Value>)
      requires Valid() && node.MergerEntry? && subPlanNode == node
      modifies this`subPlanNode, this`resultExpreData
      ensures subPlanNode == old(subPlanNode)
      ensures (resultExpreData, result) == Run(Ptr(node), node, old(resultExpreData), Over())
      decreases node, 0
    {
      var leftResult, rightResult := ZERO, ZERO;
      if !node.mleft.Null? {
        var _ := ProcessQualExprNode(node.mleft);
        leftResult := resultExpreData;
      }
      if !node.mright.Null? {
        var _ := ProcessQualExprNode(node.mright);
        rightResult := resultExpreData;
      }
      var r := 0;
      match node.mergeType {
        case AND_EXPR =>
          if GetDataBool(Some(leftResult)) && GetDataBool(Some(rightResult)) {
            r := 1;
          }
        case OR_EXPR =>
          if GetDataBool(Some(leftResult)) || GetDataBool(Some(rightResult)) {
            r := 1;
          }
        case NOT_EXPR =>
          r := if GetDataBool(Some(leftResult)) then 0 else 1;
      }
      resultExpreData := IntValue(r);
      result := Some(resultExpreData);
    }

    method ComputeExpreNode(node: Node) returns (result: Option<Value>)
      requires Valid() && node.ExprEntry? && subPlanNode == node
      modifies this`subPlanNode, this`resultExpreData
      ensures subPlanNode == old(subPlanNode)
      ensures (resultExpreData, result) == Run(Ptr(node), node, old(resultExpreData), Over())
      decreases node, 0
    {
      var leftvalue, rightvalue := ZERO, ZERO;
      if !node.left.Null? {
        var _ := ProcessQualExprNode(node.left);
        leftvalue := resultExpreData;
      }
      if !node.right.Null? {
        var _ := ProcessQualExprNode(node.right);
        rightvalue := resultExpreData;
      }
      result := ops(node.op, leftvalue, rightvalue);
      if result.Some? {
        resultExpreData := result.value;
      }
    }

    /** GetExprDataColumnValue, for a column of the scans' lists. */
    method GetExprDataColumnValue(m: MaybeNode) returns (result: Option<Value>)
      requires Valid() && m.Ptr? && m.node.ColumnRef?
      modifies this`resultExpreData
      ensures (resultExpreData, result) == Run(m, subPlanNode, old(resultExpreData), Over())
    {
      var rindex := 0;
      if subPlanNode.ExprEntry? {
        if m == subPlanNode.left {
          rindex := subPlanNode.rindex;
        } else {
          rindex := subPlanNode.rrindex;
        }
      }
      var rte := GetCellValueByIndex(rtable, rindex);
      if rte.None? {
        return None;
      }
      var position := GetTblRowDataPosition(resultRow, tableNum, rte.value.tblInfo, rte.value.rindex);
      if position.None? {
        return None;
      }
      result := GetColRowDataEx(position.value, m.node.attrIndex);
      if result.Some? {
        resultExpreData := result.value;
      }
    }
  }
}
