/** Tuple versions, their visibility, and the newest-to-oldest version chain of a column cell
    (src/sqlcore/transaction/snapshot.c, src/sqlcore/storage/buffer/undopage.c,
    src/sqlcore/executor/execModifyTable.c). */
module Versions {
  import opened Commons
  import opened Transactions
  import opened Snapshots

  /** The bytes a column holds. */
  type Value = seq<byte>

  /** A tuple header with its column data. `undo` is the position of the next older version in
      the undo area; page number 0, the invalid position, is None. */
  datatype Version = Version(tmin: XTID, tmax: XTID, undo: Option<nat>, value: Value)

  datatype TupleVisibility = TUPLE_VISIBLE | TUPLE_INVISIBLE

  datatype TransactionState = TRANS_RUNNING | TRANS_COMMITED | TRANS_ABORT

  datatype TupleUpdateResult = TU_OK | TU_Invsible

  function GetTransactionState(xtid: XTID): TransactionState {
    TRANS_COMMITED
  }

  /** Is this version the one the snapshot's owner sees? No snapshot sees everything. */
  function TupleVisibilitySatisfy(v: Version, snapshot: Option<Snapshot>, curr: XTID): TupleVisibility
    requires snapshot.Some? ==> snapshot.value.Valid()
  {
    if snapshot.None? then TUPLE_VISIBLE
    else if v.tmin == INVALID_XTID then TUPLE_INVISIBLE
    else if v.tmin != curr && (Classify(v.tmin, snapshot.value) == IN_SNAPSHOT || GetTransactionState(v.tmin) != TRANS_COMMITED) then
      TUPLE_INVISIBLE
    else if v.tmax == INVALID_XTID then TUPLE_VISIBLE
    else if v.tmax != curr && (Classify(v.tmax, snapshot.value) == IN_SNAPSHOT || GetTransactionState(v.tmin) != TRANS_COMMITED) then
      TUPLE_VISIBLE
    else TUPLE_INVISIBLE
  }

  /** May the version the scan returned be replaced or deleted? */
  function TupleUpdateSatisfy(v: Version, curr: XTID): TupleUpdateResult {
    if v.tmin == INVALID_XTID then TU_Invsible
    else if GetTransactionState(v.tmin) != TRANS_COMMITED then
      (if curr == v.tmin && (v.tmax == INVALID_XTID || curr != v.tmax) then TU_OK else TU_Invsible)
    else if v.tmax == INVALID_XTID then TU_OK
    else TU_Invsible
  }

  type CellId = nat

  /** Undo positions always lead to earlier entries of the undo area. */
  ghost predicate WellLinked(undo: seq<Version>) {
    forall i :: 0 <= i < |undo| && undo[i].undo.Some? ==> undo[i].undo.value < i
  }

  ghost predicate LinkedInto(link: Option<nat>, undo: seq<Version>) {
    link.Some? ==> link.value < |undo|
  }

  /** The versions reached by following undo positions. */
  function Older(undo: seq<Version>, link: Option<nat>): seq<Version>
    requires WellLinked(undo) && LinkedInto(link, undo)
    decreases if link.Some? then link.value + 1 else 0
  {
    if link.None? then [] else [undo[link.value]] + Older(undo, undo[link.value].undo)
  }

  /** The first version of a chain that is visible. */
  function FirstVisible(chain: seq<Version>, snapshot: Option<Snapshot>, curr: XTID): Option<Version>
    requires snapshot.Some? ==> snapshot.value.Valid()
  {
    if chain == [] then None
    else if TupleVisibilitySatisfy(chain[0], snapshot, curr) == TUPLE_VISIBLE then Some(chain[0])
    else FirstVisible(chain[1..], snapshot, curr)
  }

  /** Newest version of each cell in the data pages, older ones in the undo pages. */
  datatype Store = Store(heads: map<CellId, Version>, undo: seq<Version>) {
    ghost predicate Valid() {
      WellLinked(undo) && forall c :: c in heads ==> LinkedInto(heads[c].undo, undo)
    }

    function Chain(c: CellId): seq<Version>
      requires Valid() && c in heads
    {
      [heads[c]] + Older(undo, heads[c].undo)
    }

    function Read(c: CellId, snapshot: Option<Snapshot>, curr: XTID): Option<Version>
      requires Valid()
      requires snapshot.Some? ==> snapshot.value.Valid()
    {
      if c in heads then FirstVisible(Chain(c), snapshot, curr) else None
    }

    /** pax_ExecInsert of one column: a header without older versions. */
    function Insert(c: CellId, value: Value, curr: XTID): Store {
      Store(heads[c := Version(curr, INVALID_XTID, None, value)], undo)
    }

    /** pax_ExecUpdate of one column: the scanned copy goes to the undo area, stamped; the new version replaces the head. */
    function Update(c: CellId, copy: Version, value: Value, curr: XTID): Store {
      Store(heads[c := Version(curr, INVALID_XTID, Some(|undo|), value)], undo + [copy.(tmax := curr)])
    }

    /** pax_ExecDelete of one column: the scanned copy, stamped, replaces the head. */
    function Delete(c: CellId, copy: Version, curr: XTID): Store {
      Store(heads[c := copy.(tmax := curr)], undo)
    }
  }

  /** Adding to the undo area leaves every existing chain as it was. */
  lemma {:induction false} OlderGrows(undo: seq<Version>, more: seq<Version>, link: Option<nat>)
    requires WellLinked(undo) && WellLinked(undo + more) && LinkedInto(link, undo)
    ensures Older(undo + more, link) == Older(undo, link)
    decreases if link.Some? then link.value + 1 else 0
  {
    if link.Some? {
      assert (undo + more)[link.value] == undo[link.value];
      OlderGrows(undo, more, undo[link.value].undo);
    }
  }

  /** The versions on disk. The methods write through in place what the executor computes. */
  class VersionStore {
    var heads: map<CellId, Version>
    var undo: seq<Version>

    ghost function State(): Store
      reads this
    {
      Store(heads, undo)
    }

    ghost predicate Valid()
      reads this
    {
      State().Valid()
    }

    constructor ()
      ensures Valid() && State() == Store(map[], [])
    {
      heads := map[];
      undo := [];
    }

    /** CurrentReadVersion: follows the chain from the head's undo position. */
    method CurrentReadVersion(head: Version, snapshot: Option<Snapshot>, curr: XTID) returns (row: Option<Version>)
      requires Valid() && LinkedInto(head.undo, undo)
      requires snapshot.Some? ==> snapshot.value.Valid()
      ensures row == FirstVisible(Older(undo, head.undo), snapshot, curr)
    {
      var olderRowPos := head.undo;
      while olderRowPos.Some?
        invariant LinkedInto(olderRowPos, undo)
        invariant FirstVisible(Older(undo, olderRowPos), snapshot, curr) == FirstVisible(Older(undo, head.undo), snapshot, curr)
        decreases if olderRowPos.Some? then olderRowPos.value + 1 else 0
      {
        var rowData := undo[olderRowPos.value];
        if TupleVisibilitySatisfy(rowData, snapshot, curr) == TUPLE_VISIBLE {
          return Some(rowData);
        }
        olderRowPos := rowData.undo;
      }
      return None;
    }

    /** What a scan returns for one column cell. */
    method ReadCell(c: CellId, snapshot: Option<Snapshot>, curr: XTID) returns (row: Option<Version>)
      requires Valid() && c in heads
      requires snapshot.Some? ==> snapshot.value.Valid()
      ensures row == State().Read(c, snapshot, curr)
    {
      var head := heads[c];
      if TupleVisibilitySatisfy(head, snapshot, curr) == TUPLE_VISIBLE {
        return Some(head);
      }
      row := CurrentReadVersion(head, snapshot, curr);
    }

    method InsertCell(c: CellId, value: Value, curr: XTID)
      requires Valid() && c !in heads
      modifies this
      ensures Valid() && State() == old(State()).Insert(c, value, curr)
    {
      heads := heads[c := Version(curr, INVALID_XTID, None, value)];
    }

    /** Replaces the head by a new version, if the copy the scan returned may be updated. */
    method UpdateCell(c: CellId, copy: Version, value: Value, curr: XTID) returns (ok: bool)
      requires Valid() && c in heads && LinkedInto(copy.undo, undo)
      modifies this
      ensures ok <==> TupleUpdateSatisfy(copy, curr) == TU_OK
      ensures Valid() && State() == if ok then old(State()).Update(c, copy, value, curr) else old(State())
    {
      if TupleUpdateSatisfy(copy, curr) != TU_OK {
        return false;
      }
      var rowPos := |undo|;
      undo := undo + [copy.(tmax := curr)];
      heads := heads[c := Version(curr, INVALID_XTID, Some(rowPos), value)];
      return true;
    }

    method DeleteCell(c: CellId, copy: Version, curr: XTID) returns (ok: bool)
      requires Valid() && c in heads && LinkedInto(copy.undo, undo)
      modifies this
      ensures ok <==> TupleUpdateSatisfy(copy, curr) == TU_OK
      ensures Valid() && State() == if ok then old(State()).Delete(c, copy, curr) else old(State())
    {
      if TupleUpdateSatisfy(copy, curr) != TU_OK {
        return false;
      }
      heads := heads[c := copy.(tmax := curr)];
      return true;
    }
  }
}
