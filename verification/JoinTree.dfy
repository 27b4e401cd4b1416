/** From the range table to the join tree and on to the scan plan
    (src/sqlcore/plan/query.c, src/sqlcore/plan/plan.c). */
module JoinTree {
  import opened Commons
  import opened Rows

  datatype Entry =
    | ExprEntry(rindex: int, rtNum: nat)
    | JoinEntry(lefttree: Entry, righttree: Option<Entry>, rtNum: nat)

  /** A list of nodes, as the builder passes its tree around. */
  type Entries = seq<Entry>

  function AddNormalTblNode(rte: RangTblEntry): Entry {
    ExprEntry(rte.rindex, 1)
  }

  /** AddJoinTblNode: the table becomes the right child of a new root, or fills a join that still lacks one. */
  function AddJoinTblNode(left: Entries, rte: RangTblEntry): Entries {
    if left == [] then [AddNormalTblNode(rte)]
    else if !(left[0].JoinEntry? && left[0].righttree.None?) then
      [JoinEntry(left[0], Some(AddNormalTblNode(rte)), left[0].rtNum + AddNormalTblNode(rte).rtNum)]
    else
      left[0 := left[0].(righttree := Some(AddNormalTblNode(rte)))]
  }

  function Built(rtable: seq<RangTblEntry>): Entries {
    if rtable == [] then [] else AddJoinTblNode(Built(rtable[..|rtable| - 1]), rtable[|rtable| - 1])
  }

  /** CommonQueryTransform, for the tree it builds. */
  method CommonQueryTransform(rtable: seq<RangTblEntry>) returns (joinTree: Entries)
    ensures joinTree == Built(rtable)
  {
    joinTree := [];
    for i := 0 to |rtable|
      invariant joinTree == Built(rtable[..i])
    {
      assert rtable[..i + 1][..i] == rtable[..i];
      joinTree := AddJoinTblNode(joinTree, rtable[i]);
    }
    assert rtable[..|rtable|] == rtable;
  }

  /** The tables of a tree, left to right. */
  function Leaves(e: Entry): seq<int> {
    match e
    case ExprEntry(rindex, _) => [rindex]
    case JoinEntry(l, r, _) => Leaves(l) + match r { case None => [] case Some(x) => Leaves(x) }
  }

  /** Every join has a single table on its right. */
  predicate LeftDeep(e: Entry) {
    e.JoinEntry? ==> LeftDeep(e.lefttree) && e.righttree.Some? && e.righttree.value.ExprEntry?
  }

  /** Every node counts the tables below it. */
  predicate Counted(e: Entry) {
    && e.rtNum == |Leaves(e)|
    && (e.JoinEntry? ==> Counted(e.lefttree) && (e.righttree.Some? ==> Counted(e.righttree.value)))
  }

  function Indexes(rtable: seq<RangTblEntry>): seq<int> {
    seq(|rtable|, i requires 0 <= i < |rtable| => rtable[i].rindex)
  }

  /** Whatever the range table, the tree is one left-deep node over its tables in order, and every node's rtNum is
      the number of its leaves; no join ever waits for its right child. */
  lemma {:induction false} BuiltLeftDeep(rtable: seq<RangTblEntry>)
    requires rtable != []
    ensures var t := Built(rtable);
            |t| == 1 && LeftDeep(t[0]) && Counted(t[0]) && Leaves(t[0]) == Indexes(rtable)
  {
    var n := |rtable| - 1;
    assert Indexes(rtable) == Indexes(rtable[..n]) + [rtable[n].rindex];
    if n > 0 {
      BuiltLeftDeep(rtable[..n]);
    }
  }

  datatype Plan =
    | SeqScan(rte: Option<RangTblEntry>)
    | NestLoop(leftplan: Option<Plan>, rightplan: Option<Plan>, rtNum: nat)

  function PlanOf(e: Option<Entry>, rtable: seq<RangTblEntry>): Option<Plan>
    decreases Size(e)
  {
    match e
    case None => None
    case Some(ExprEntry(rindex, _)) => Some(SeqScan(GetCellValueByIndex(rtable, rindex)))
    case Some(JoinEntry(l, r, n)) => Some(NestLoop(PlanOf(Some(l), rtable), PlanOf(r, rtable), n))
  }

  function EntrySize(e: Entry): nat {
    match e
    case ExprEntry(_, _) => 1
    case JoinEntry(l, r, _) => 1 + EntrySize(l) + match r { case None => 0 case Some(x) => EntrySize(x) }
  }

  function Size(e: Option<Entry>): nat {
    if e.None? then 0 else EntrySize(e.value)
  }

  /** The planner passes its argument in a field. */
  class PlanProcessor {
    const rtable: seq<RangTblEntry>
    var currentNode: Option<Entry>

    constructor (rtable: seq<RangTblEntry>)
      ensures this.rtable == rtable
    {
      this.rtable := rtable;
      currentNode := None;
    }

    method ProcessJoinTree() returns (valueNode: Option<Plan>)
      modifies this
      ensures valueNode == PlanOf(old(currentNode), rtable)
      decreases Size(currentNode), 1
    {
      if currentNode.None? {
        return None;
      }
      if currentNode.value.JoinEntry? {
        valueNode := ProcessJoinNode();
      } else {
        valueNode := ProcessScanNode();
      }
    }

    method ProcessJoinNode() returns (node: Option<Plan>)
      requires currentNode.Some? && currentNode.value.JoinEntry?
      modifies this
      ensures node == PlanOf(old(currentNode), rtable)
      decreases Size(currentNode), 0
    {
      var joinNode := currentNode.value;
      currentNode := Some(joinNode.lefttree);
      var leftplan := ProcessJoinTree();
      currentNode := joinNode.righttree;
      var rightplan := ProcessJoinTree();
      node := Some(NestLoop(leftplan, rightplan, joinNode.rtNum));
    }

    method ProcessScanNode() returns (node: Option<Plan>)
      requires currentNode.Some? && currentNode.value.ExprEntry?
      ensures node == PlanOf(currentNode, rtable)
    {
      node := Some(SeqScan(GetCellValueByIndex(rtable, currentNode.value.rindex)));
    }

    /** ProcessQual: the plan of the only node of the list; longer lists are refused. */
    method ProcessQual(joinTreeList: Entries) returns (exprNode: Option<Plan>)
      modifies this
      ensures exprNode == if |joinTreeList| == 1 then PlanOf(Some(joinTreeList[0]), rtable) else None
    {
      exprNode := None;
      var subPlanNum := 0;
      for i := 0 to |joinTreeList|
        invariant subPlanNum == i
        invariant if i == 0 then exprNode == None else exprNode == PlanOf(Some(joinTreeList[i - 1]), rtable)
      {
        currentNode := Some(joinTreeList[i]);
        exprNode := ProcessJoinTree();
        if exprNode.Some? {
          subPlanNum := subPlanNum + 1;
        }
      }
      if subPlanNum > 1 {
        exprNode := None;
      }
    }
  }

  /** The plan of tables in a row: scans joined left to right, each join as wide as its scans. */
  function ScanPlan(rtable: seq<RangTblEntry>): Plan
    requires rtable != []
  {
    var n := |rtable| - 1;
    if n == 0 then SeqScan(Some(rtable[0]))
    else NestLoop(Some(ScanPlan(rtable[..n])), Some(SeqScan(Some(rtable[n]))), n + 1)
  }

  /** Every entry of a range table carries its own position in it. */
  predicate Numbered(rtable: seq<RangTblEntry>) {
    forall i :: 0 <= i < |rtable| ==> rtable[i].rindex == i + 1
  }

  lemma {:induction false} PlanOfBuilt(rtable: seq<RangTblEntry>, k: nat)
    requires Numbered(rtable) && 0 < k <= |rtable|
    ensures |Built(rtable[..k])| == 1
    ensures PlanOf(Some(Built(rtable[..k])[0]), rtable) == Some(ScanPlan(rtable[..k]))
  {
    BuiltLeftDeep(rtable[..k]);
    assert rtable[..k][..k - 1] == rtable[..k - 1];
    if k > 1 {
      PlanOfBuilt(rtable, k - 1);
      BuiltLeftDeep(rtable[..k - 1]);
      assert Built(rtable[..k])[0].rtNum == k;
    }
  }

  /** From the range table to the plan: the scans of all tables in order, joined left-deep. */
  method PlanTables(rtable: seq<RangTblEntry>) returns (plan: Option<Plan>)
    requires Numbered(rtable)
    ensures plan == if rtable == [] then None else Some(ScanPlan(rtable))
  {
    var joinTree := CommonQueryTransform(rtable);
    var processor := new PlanProcessor(rtable);
    plan := processor.ProcessQual(joinTree);
    if rtable != [] {
      PlanOfBuilt(rtable, |rtable|);
      assert rtable[..|rtable|] == rtable;
    }
  }
}
