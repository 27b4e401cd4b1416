/** From a qualifier as it is written to the tree that is evaluated (src/sqlcore/plan/query.c), with the columns
    resolved to their tables. The builder swaps operands and leaves table indexes unset; what is evaluated then is
    compared here with what was written. */
module Qualifiers {
  import opened Commons
  import opened Rows
  import opened Expression

  datatype Qual =
    | Both(t: BoolType, left: Qual, right: Qual)
    | Compare(op: int, left: Qual, right: Qual)
    | Column(rindex: int, attrIndex: int)
    | Const(val: Value)

  /** What a qualifier says; `None` if a column cannot be found or an operator fails. */
  function Meaning(q: Qual, c: Context): Option<Value> {
    match q
    case Both(t, l, r) =>
      var x, y := Meaning(l, c), Meaning(r, c);
      if x.Some? && y.Some? then Some(Combine(t, x.value, y.value)) else None
    case Compare(op, l, r) =>
      var x, y := Meaning(l, c), Meaning(r, c);
      if x.Some? && y.Some? then c.ops(op, x.value, y.value) else None
    case Column(rindex, attrIndex) => Lookup(c.rtable, c.row, rindex, attrIndex)
    case Const(v) => Some(v)
  }

  /** Range table indexes start at 1. */
  predicate Resolved(q: Qual) {
    match q
    case Both(_, l, r) => Resolved(l) && Resolved(r)
    case Compare(_, l, r) => Resolved(l) && Resolved(r)
    case Column(rindex, _) => 1 <= rindex
    case Const(_) => true
  }

  /** The table index a side of a comparison gives away: only a column has one. */
  function IndexOf(q: Qual): int {
    if q.Column? then q.rindex else -1
  }

  /** SimpleExprNodeProcess: where the sides go, and which table indexes are set; a new node's are zero. */
  function SimpleExprNodeProcess(id: nat, op: int, lrindex: int, rrindex: int, l: Node, r: Node): Node {
    if lrindex < 0 && rrindex < 0 then ExprEntry(id, op, 0, 0, Ptr(l), Ptr(r))
    else if lrindex < 0 then ExprEntry(id, op, rrindex, 0, Ptr(r), Ptr(l))
    else if rrindex < 0 || lrindex == rrindex then ExprEntry(id, op, lrindex, 0, Ptr(l), Ptr(r))
    else ExprEntry(id, op, lrindex, rrindex, Ptr(l), Ptr(r))
  }

  function Size(q: Qual): nat {
    match q
    case Both(_, l, r) => 1 + Size(l) + Size(r)
    case Compare(_, l, r) => 1 + Size(l) + Size(r)
    case _ => 1
  }

  /** QualNodeProcess: every node of the tree is a new one; they are numbered from n on. */
  function Build(q: Qual, n: nat): Node {
    match q
    case Both(t, l, r) => MergerEntry(n, t, Ptr(Build(l, n + 1)), Ptr(Build(r, n + 1 + Size(l))))
    case Compare(op, l, r) => SimpleExprNodeProcess(n, op, IndexOf(l), IndexOf(r), Build(l, n + 1), Build(r, n + 1 + Size(l)))
    case Column(_, attrIndex) => ColumnRef(n, attrIndex)
    case Const(v) => ConstValue(n, v)
  }

  /** No built tree shares a node between the sides of a comparison. */
  lemma {:induction false} BuiltApart(q: Qual, n: nat)
    ensures Apart(Build(q, n)) && Build(q, n).id == n
  {
    match q
    case Both(_, l, r) =>
      BuiltApart(l, n + 1);
      BuiltApart(r, n + 1 + Size(l));
    case Compare(_, l, r) =>
      BuiltApart(l, n + 1);
      BuiltApart(r, n + 1 + Size(l));
    case _ =>
  }

  /** A column on the right of something that is not one: the sides are swapped, the operator is not mirrored. */
  predicate Swapped(l: Qual, r: Qual) {
    !l.Column? && r.Column?
  }

  /** Two columns of one table: the right one's index stays unset. */
  predicate OneTable(l: Qual, r: Qual) {
    l.Column? && r.Column? && l.rindex == r.rindex
  }

  /** No comparison is swapped or between columns of one table, and no column stands directly under AND, OR or NOT. */
  predicate Straight(q: Qual) {
    match q
    case Both(_, l, r) => Straight(l) && Straight(r) && !l.Column? && !r.Column?
    case Compare(_, l, r) => Straight(l) && Straight(r) && !Swapped(l, r) && !OneTable(l, r)
    case _ => true
  }

  lemma {:induction false} SideMeans(q: Qual, n: nat, rindex: int, c: Context)
    requires Resolved(q) && Straight(q) && (q.Column? ==> rindex == q.rindex)
    ensures Side(Ptr(Build(q, n)), rindex, c) == Meaning(q, c)
  {
    match q
    case Both(_, l, r) =>
      SideMeans(l, n + 1, 0, c);
      SideMeans(r, n + 1 + Size(l), 0, c);
    case Compare(_, l, r) =>
      SideMeans(l, n + 1, IndexOf(l), c);
      SideMeans(r, n + 1 + Size(l), IndexOf(r), c);
      BuiltLeaf(l, n + 1, c);
      BuiltLeaf(r, n + 1 + Size(l), c);
      var a, b := Build(l, n + 1), Build(r, n + 1 + Size(l));
      var i, j := if l.Column? then l.rindex else 0, if r.Column? then r.rindex else 0;
      assert Build(q, n) == ExprEntry(n, q.op, i, j, Ptr(a), Ptr(b));
      assert Side(Ptr(a), i, c) == Meaning(l, c) && Side(Ptr(b), j, c) == Meaning(r, c);
    case _ =>
  }

  /** Only columns depend on a table index. */
  lemma BuiltLeaf(q: Qual, n: nat, c: Context)
    ensures Build(q, n).ColumnRef? <==> q.Column?
    ensures !q.Column? ==> forall i, j :: Side(Ptr(Build(q, n)), i, c) == Side(Ptr(Build(q, n)), j, c)
  {
  }

  /** A straight qualifier evaluates to what was written, whatever the shared cell held before. */
  lemma BuiltMeans(q: Qual, n: nat, current: Node, cell: Value, c: Context)
    requires Resolved(q) && Straight(q) && !q.Column? && Meaning(q, c).Some?
    ensures Denote(Build(q, n), c) == Meaning(q, c)
    ensures Run(Ptr(Build(q, n)), current, cell, c) == (Meaning(q, c).value, Meaning(q, c))
  {
    SideMeans(q, n, 0, c);
    BuiltLeaf(q, n, c);
    BuiltApart(q, n);
    RunDenotes(Build(q, n), current, cell, c);
  }

  /** AND holds exactly when both sides do, OR when one does, NOT when the left one does not. */
  lemma ConnectivesHold(l: Qual, r: Qual, n: nat, current: Node, cell: Value, c: Context)
    requires Resolved(l) && Straight(l) && !l.Column? && Resolved(r) && Straight(r) && !r.Column?
    requires Meaning(l, c).Some? && Meaning(r, c).Some?
    ensures GetDataBool(Run(Ptr(Build(Both(AND_EXPR, l, r), n)), current, cell, c).1) <==> GetDataBool(Meaning(l, c)) && GetDataBool(Meaning(r, c))
    ensures GetDataBool(Run(Ptr(Build(Both(OR_EXPR, l, r), n)), current, cell, c).1) <==> GetDataBool(Meaning(l, c)) || GetDataBool(Meaning(r, c))
    ensures GetDataBool(Run(Ptr(Build(Both(NOT_EXPR, l, r), n)), current, cell, c).1) <==> !GetDataBool(Meaning(l, c))
  {
    BuiltMeans(Both(AND_EXPR, l, r), n, current, cell, c);
    BuiltMeans(Both(OR_EXPR, l, r), n, current, cell, c);
    BuiltMeans(Both(NOT_EXPR, l, r), n, current, cell, c);
  }

  /** What a comparison of two operands with values x and y is evaluated to. */
  function Evaluated(op: int, l: Qual, r: Qual, x: Value, y: Value, ops: Operators): Option<Value> {
    if Swapped(l, r) then ops(op, y, x)
    else if OneTable(l, r) then ops(op, x, x)
    else ops(op, x, y)
  }

  /** What every comparison of straight operands evaluates to: with the sides swapped, or, for two columns of one
      table, with the left one's value on both sides, since the right one is not found and leaves the cell as it is. */
  lemma ComparisonRuns(op: int, l: Qual, r: Qual, n: nat, current: Node, cell: Value, c: Context)
    requires Resolved(l) && Straight(l) && Resolved(r) && Straight(r)
    requires Meaning(l, c).Some? && Meaning(r, c).Some?
    ensures Run(Ptr(Build(Compare(op, l, r), n)), current, cell, c).1
         == Evaluated(op, l, r, Meaning(l, c).value, Meaning(r, c).value, c.ops)
  {
    var e := Build(Compare(op, l, r), n);
    var a, b := Build(l, n + 1), Build(r, n + 1 + Size(l));
    BuiltLeaf(l, n + 1, c);
    BuiltLeaf(r, n + 1 + Size(l), c);
    BuiltApart(l, n + 1);
    BuiltApart(r, n + 1 + Size(l));
    SideMeans(l, n + 1, IndexOf(l), c);
    SideMeans(r, n + 1 + Size(l), IndexOf(r), c);
    var first, second := if Swapped(l, r) then b else a, if Swapped(l, r) then a else b;
    SideRuns(e.left, e, if Swapped(l, r) then IndexOf(r) else IndexOf(l), cell, c);
    var cell1 := Run(e.left, e, cell, c).0;
    if OneTable(l, r) {
      assert Run(e.right, e, cell1, c) == (cell1, None);
    } else {
      SideRuns(e.right, e, if Swapped(l, r) then IndexOf(l) else IndexOf(r), cell1, c);
    }
  }

  /** So the verdict is the one written if and only if the operator takes the operands swapped, or, for two columns of
      one table, gives the left one compared with itself what it gives both. */
  lemma ComparisonAsWritten(op: int, l: Qual, r: Qual, n: nat, current: Node, cell: Value, c: Context)
    requires Resolved(l) && Straight(l) && Resolved(r) && Straight(r)
    requires Meaning(l, c).Some? && Meaning(r, c).Some?
    ensures var x, y := Meaning(l, c).value, Meaning(r, c).value;
            Run(Ptr(Build(Compare(op, l, r), n)), current, cell, c).1 == Meaning(Compare(op, l, r), c) <==>
              && (Swapped(l, r) ==> c.ops(op, y, x) == c.ops(op, x, y))
              && (OneTable(l, r) ==> c.ops(op, x, x) == c.ops(op, x, y))
  {
    ComparisonRuns(op, l, r, n, current, cell, c);
  }

  predicate AsWritten(op: int, l: Qual, r: Qual, n: nat, current: Node, cell: Value, c: Context) {
    Meaning(l, c).Some? && Meaning(r, c).Some? ==> Run(Ptr(Build(Compare(op, l, r), n)), current, cell, c).1 == Meaning(Compare(op, l, r), c)
  }

  /** Over all tables and rows in which both operands have a value. */
  ghost predicate AlwaysAsWritten(op: int, l: Qual, r: Qual, n: nat, current: Node, cell: Value, ops: Operators) {
    forall rtable, row :: AsWritten(op, l, r, n, current, cell, Context(rtable, row, ops))
  }

  ghost predicate Commutes(op: int, ops: Operators) {
    forall x, y :: ops(op, y, x) == ops(op, x, y)
  }

  ghost predicate IgnoresRight(op: int, ops: Operators) {
    forall x, y :: ops(op, x, x) == ops(op, x, y)
  }

  /** So a comparison can be told to be safe from its shape and operator alone. */
  lemma SafeComparison(op: int, l: Qual, r: Qual, n: nat, current: Node, cell: Value, ops: Operators)
    requires Resolved(l) && Straight(l) && Resolved(r) && Straight(r)
    requires (Swapped(l, r) ==> Commutes(op, ops)) && (OneTable(l, r) ==> IgnoresRight(op, ops))
    ensures AlwaysAsWritten(op, l, r, n, current, cell, ops)
  {
    forall rtable, row ensures AsWritten(op, l, r, n, current, cell, Context(rtable, row, ops)) {
      if Meaning(l, Context(rtable, row, ops)).Some? && Meaning(r, Context(rtable, row, ops)).Some? {
        ComparisonAsWritten(op, l, r, n, current, cell, Context(rtable, row, ops));
      }
    }
  }

  /** A row of the table at a position of the range table, with two columns. */
  function Sample(rindex: nat, a: int, x: Value, b: int, y: Value, ops: Operators): Context
    requires 1 <= rindex
  {
    Context(seq(rindex, k => RangTblEntry(k + 1, 0)), [TableRowDataPosition(rindex, 0, TableRow([(a, x), (b, y)], []))], ops)
  }

  lemma SampleHas(rindex: nat, a: int, x: Value, b: int, y: Value, ops: Operators)
    requires 1 <= rindex && 0 <= a && 0 <= b
    ensures var c := Sample(rindex, a, x, b, y, ops);
            && Lookup(c.rtable, c.row, rindex, a) == Some(x)
            && (a != b ==> Lookup(c.rtable, c.row, rindex, b) == Some(y))
  {
    var c := Sample(rindex, a, x, b, y, ops);
    var columns := [(a, x), (b, y)];
    assert columns[1..] == [(b, y)];
    assert ColumnOf(columns, a) == Some(x) && (a != b ==> ColumnOf(columns, b) == ColumnOf([(b, y)], b) == Some(y));
  }

  /** Two columns of one table: the comparison is as written over all rows if and only if the operator's result does not
      depend on its right operand. */
  lemma OneTableAlways(op: int, rindex: nat, a: int, b: int, n: nat, current: Node, cell: Value, ops: Operators)
    requires 1 <= rindex && 0 <= a && 0 <= b && a != b
    ensures AlwaysAsWritten(op, Column(rindex, a), Column(rindex, b), n, current, cell, ops) <==> IgnoresRight(op, ops)
  {
    hide Lookup, Build, Run, Sample;
    var l, r := Column(rindex, a), Column(rindex, b);
    if IgnoresRight(op, ops) {
      SafeComparison(op, l, r, n, current, cell, ops);
    }
    if AlwaysAsWritten(op, l, r, n, current, cell, ops) {
      forall x, y ensures ops(op, x, x) == ops(op, x, y) {
        var c := Sample(rindex, a, x, b, y, ops);
        SampleHas(rindex, a, x, b, y, ops);
        SampleOps(rindex, a, x, b, y, ops);
        assert AsWritten(op, l, r, n, current, cell, Context(c.rtable, c.row, ops));
        ComparisonAsWritten(op, l, r, n, current, cell, c);
      }
    }
  }

  lemma SampleOps(rindex: nat, a: int, x: Value, b: int, y: Value, ops: Operators)
    requires 1 <= rindex
    ensures var c := Sample(rindex, a, x, b, y, ops); c == Context(c.rtable, c.row, ops) && c.ops == ops
  {
  }

  /** A constant and a column: the comparison is as written over all rows if and only if the operator takes the constant
      on either side alike. */
  lemma SwappedAlways(op: int, v: Value, rindex: nat, a: int, n: nat, current: Node, cell: Value, ops: Operators)
    requires 1 <= rindex && 0 <= a
    ensures AlwaysAsWritten(op, Const(v), Column(rindex, a), n, current, cell, ops) <==> forall y :: ops(op, y, v) == ops(op, v, y)
  {
    hide Lookup, Build, Run, Sample;
    var l, r := Const(v), Column(rindex, a);
    if forall y :: ops(op, y, v) == ops(op, v, y) {
      forall rtable, row ensures AsWritten(op, l, r, n, current, cell, Context(rtable, row, ops)) {
        if Meaning(r, Context(rtable, row, ops)).Some? {
          ComparisonAsWritten(op, l, r, n, current, cell, Context(rtable, row, ops));
        }
      }
    }
    if AlwaysAsWritten(op, l, r, n, current, cell, ops) {
      forall y ensures ops(op, y, v) == ops(op, v, y) {
        var c := Sample(rindex, a, y, a, y, ops);
        SampleHas(rindex, a, y, a, y, ops);
        SampleOps(rindex, a, y, a, y, ops);
        assert AsWritten(op, l, r, n, current, cell, Context(c.rtable, c.row, ops));
        ComparisonAsWritten(op, l, r, n, current, cell, c);
      }
    }
  }

  const LESS: Operators := (op: int, x: Value, y: Value) => if x.IntValue? && y.IntValue? then Some(Truth(x.i < y.i)) else None

  /** One row of one table, with 1 in its first column and 2 in its second. */
  const ONE_ROW := Context([RangTblEntry(1, 0)], [TableRowDataPosition(1, 0, TableRow([(0, IntValue(1)), (1, IntValue(2))], []))], LESS)

  /** So the row is refused by `a < b`, with both columns of its table, and by `1 < b`: the first compares a with
      itself, the second asks for b < 1. */
  lemma ComparisonsMisread(op: int, current: Node, cell: Value)
    ensures var q := Compare(op, Column(1, 0), Column(1, 1));
            Meaning(q, ONE_ROW) == Some(Truth(true)) && Run(Ptr(Build(q, 1)), current, cell, ONE_ROW).1 == Some(Truth(false))
    ensures var q := Compare(op, Const(IntValue(1)), Column(1, 1));
            Meaning(q, ONE_ROW) == Some(Truth(true)) && Run(Ptr(Build(q, 1)), current, cell, ONE_ROW).1 == Some(Truth(false))
  {
    var row := ONE_ROW.row[0].data.columns;
    assert row[1..][0] == (1, IntValue(2));
    assert Lookup(ONE_ROW.rtable, ONE_ROW.row, 1, 0) == Some(IntValue(1));
    assert Lookup(ONE_ROW.rtable, ONE_ROW.row, 1, 1) == Some(IntValue(2));
    ComparisonRuns(op, Column(1, 0), Column(1, 1), 1, current, cell, ONE_ROW);
    ComparisonRuns(op, Const(IntValue(1)), Column(1, 1), 1, current, cell, ONE_ROW);
  }
}
