/** Runs of the engine, from its initial state and by allowed steps only, that lead to the
    places where its guarantees end: a second worker about to overwrite an update it never saw,
    a reader of what was aborted, and a session about to reuse a snapshot array that its last
    snapshot filled. */
module Anomalies {
  import opened Commons
  import opened Transactions
  import opened Snapshots
  import opened Versions
  import opened Mvcc

  lemma InitReached(workers: nat, repeatable: bool)
    ensures Inv(Init(workers, repeatable)) && Reachable(Init(workers, repeatable))
  {
    Mvcc.InitInv(workers, repeatable);
    assert ReachedBy(Init(workers, repeatable), workers, repeatable, []);
  }

  /** An allowed step leads from a reachable state to a reachable one. */
  lemma StepReached(s: System, step: Step) returns (t: System)
    requires Inv(s) && Reachable(s) && Allowed(s, step)
    ensures t == Apply(s, step) && Inv(t) && Reachable(t)
  {
    hide Apply, Allowed, Inv;
    StepInv(s, step);
    t := Apply(s, step);
    var workers, repeatable, steps :| ReachedBy(s, workers, repeatable, steps);
    var more := steps + [step];
    assert more[..|more| - 1] == steps;
    assert ReachedBy(t, workers, repeatable, more);
  }

  /** An idle worker starts a transaction. */
  lemma StartReached(s: System, w: nat) returns (t: System)
    requires Inv(s) && Reachable(s) && w < |s.tx.slots| && !s.tx.attached[w] && s.tx.next < INVALID_XTID
    ensures Inv(t) && Reachable(t)
    ensures t == s.(tx := s.tx.(next := s.tx.next + 1, slots := s.tx.slots[w := Slot(TS_START, s.tx.next, false)],
                                attached := s.tx.attached[w := true]))
    ensures forall x: XTID :: t.tx.Finished(x) <==> s.tx.Finished(x)
  {
    hide ReadersInv, CellsInv, ViewsInv;
    t := StepReached(s, StartT(w));
    StartInv(s.tx, w);
  }

  /** A transaction finishes, outside of a block or after it was aborted. */
  lemma FinishReached(s: System, w: nat) returns (t: System)
    requires Inv(s) && Reachable(s) && w < |s.tx.slots| && s.tx.attached[w] && s.tx.slots[w].ts in {TS_START, TS_ABORT}
    ensures Inv(t) && Reachable(t)
    ensures t == s.(tx := s.tx.(slots := s.tx.slots[w := s.tx.slots[w].(ts := TS_IDLE)], attached := s.tx.attached[w := false],
                                high := Raise(s.tx.high, s.tx.slots[w].xid)))
    ensures t.tx.Finished(s.tx.slots[w].xid)
  {
    hide ReadersInv, CellsInv, ViewsInv;
    t := StepReached(s, FinishT(w));
    FinishInv(s.tx, w);
  }

  /** A snapshot into a session's untouched array is always allowed. */
  lemma SnapReached(s: System, w: nat) returns (t: System)
    requires Inv(s) && Reachable(s) && w < |s.snaps| && s.snaps[w] == EmptySnapshot(|s.snaps|)
    requires w < |s.tx.attached| == |s.tx.slots| && s.tx.attached[w] && !s.tx.slots[w].snapshot
    ensures Inv(t) && Reachable(t)
    ensures t == s.(snaps := s.snaps[w := Take(s.tx, w, s.snaps[w].cells)], tx := MarkSnapshot(s.tx, w),
                    seen := s.seen[w := FinishedSet(s.tx)])
    ensures forall x: XTID :: t.tx.Finished(x) <==> s.tx.Finished(x)
  {
    hide ReadersInv, CellsInv, ViewsInv;
    FreshCellsComplete(s.tx, w, s.snaps[w].cells);
    t := StepReached(s, Snap(w));
    MarkSnapshotInv(s.tx, w);
  }

  /** Worker 2 inserts cell 0 and finishes, if need be after an abort; the others have not begun. */
  lemma InsertReached(value: Value, repeatable: bool, abort: bool) returns (s: System)
    ensures Reachable(s) && Inv(s)
    ensures |s.tx.slots| == |s.tx.attached| == |s.snaps| == |s.seen| == 3 && s.tx.next == 2
    ensures s.snaps[0] == s.snaps[1] == EmptySnapshot(3)
    ensures !s.tx.attached[0] && !s.tx.attached[1] && s.tx.Finished(1)
    ensures 0 in s.hist && |s.hist[0]| == 1 && s.hist[0][0].xid == 1 && s.hist[0][0].op == Put(value)
  {
    hide Inv, Reachable, Take;
    InitReached(3, repeatable);
    s := Init(3, repeatable);
    s := StartReached(s, 2);
    s := SnapReached(s, 2);
    s := StepReached(s, InsertCell(2, 0, value));
    if abort {
      s := StepReached(s, AbortT(2));
    }
    s := FinishReached(s, 2);
  }

  /** Two workers, both after a finished insert, may both write its cell: the situation of `LostUpdate` is reached. */
  lemma OverlappingWriters(value: Value, repeatable: bool) returns (s: System)
    ensures Reachable(s) && Inv(s)
    ensures Ready(s, 0) && Writable(s, 0, 0)
    ensures Ready(s, 1) && Writable(s, 1, 0)
  {
    hide Inv, Reachable, Writable, Take, EmptySnapshot;
    s := InsertReached(value, repeatable, false);
    s := StartReached(s, 0);
    s := StartReached(s, 1);
    s := SnapReached(s, 0);
    s := SnapReached(s, 1);
    MayWrite(s, 0, 0);
    MayWrite(s, 1, 0);
  }

  /** A worker inserts a value, aborts and finishes; another one starts, and reads it. */
  lemma AbortedIsRead(value: Value, repeatable: bool) returns (s: System)
    ensures Reachable(s) && Inv(s) && Ready(s, 0)
    ensures ReadValue(s, 0, 0) == Some(value)
  {
    hide Inv, Reachable, Take, EmptySnapshot;
    s := InsertReached(value, repeatable, true);
    s := StartReached(s, 0);
    s := SnapReached(s, 0);
    ReadIsView(s, 0, 0);
  }

  /** A cell whose only write the reader saw is there to be written. */
  lemma MayWrite(s: System, w: nat, c: CellId)
    requires Inv(s) && Ready(s, w) && c in s.hist && |s.hist[c]| == 1 && s.hist[c][0].xid in s.seen[w]
    ensures Writable(s, w, c)
  {
  }

  /** The first cell of a snapshot over a zeroed array is the id in the second slot, if the first slot is the taker's. */
  lemma FirstCell(s: TxState, cells: seq<XTID>)
    requires |s.slots| == |s.attached| == |cells| == 4 && s.attached[0] && cells[0] == 0
    requires s.slots[1].ts != TS_IDLE && s.slots[1].xid != s.slots[0].xid
    ensures |Take(s, 0, cells).cells| == 4 && Take(s, 0, cells).cells[0] == s.slots[1].xid
  {
    var me := OwnId(s, 0);
    assert s.slots[..0] == [];
    OthersStep(s.slots, me, 0);
    OthersStep(s.slots, me, 1);
    OthersPrefix(s.slots, me, 2);
    assert Others(s.slots[..2], me)[0] == s.slots[1].xid;
    ObstacleIs(cells, Successor(s.high), 1);
  }

  /** Ids 1 and 3 come and go at worker 0, which takes a snapshot under id 3 and starts anew with id 6;
      ids 2, 4 and 5 run on. */
  lemma ReuseReached(repeatable: bool) returns (s: System)
    ensures Reachable(s) && Inv(s)
    ensures s.tx.next == 7 && s.tx.high == 3 && |s.tx.slots| == 4 && s.tx.attached == [true, true, true, true]
    ensures forall i :: 0 <= i < 4 ==> s.tx.slots[i].ts == TS_START
    ensures s.tx.slots[0].xid == 6 && s.tx.slots[1].xid == 5 && s.tx.slots[2].xid == 2 && s.tx.slots[3].xid == 4
    ensures |s.snaps| == 4 && |s.snaps[0].cells| == 4 && s.snaps[0].cells[0] == 5
  {
    hide Inv, Reachable, Take;
    InitReached(4, repeatable);
    s := Init(4, repeatable);
    s := StartReached(s, 0);
    s := FinishReached(s, 0);
    s := StartReached(s, 2);
    s := StartReached(s, 0);
    s := StartReached(s, 3);
    s := StartReached(s, 1);
    FirstCell(s.tx, s.snaps[0].cells);
    s := SnapReached(s, 0);
    s := FinishReached(s, 0);
    s := StartReached(s, 0);
  }

  /** A run of allowed steps, every snapshot in it exact, after which worker 0's next snapshot takes the running id 2
      for finished: the array it reuses still holds an id above the new upper limit. */
  lemma ReuseMisclassifies(repeatable: bool) returns (s: System)
    ensures Reachable(s) && Inv(s) && |s.tx.attached| == |s.snaps| == 4 && s.tx.attached[0] && s.tx.Running(2)
    ensures Classify(2, Take(s.tx, 0, s.snaps[0].cells)) == OUT_SNAPSHOT
    ensures !Allowed(s, Snap(0))
  {
    hide Reachable, Take, ReadersInv, CellsInv, ViewsInv;
    s := ReuseReached(repeatable);
    StaleState(s.tx, s.snaps[0].cells, [0, 0, 0, 0]);
    SnapshotExactness(s.tx, 0, s.snaps[0].cells);
    assert 2 !in FinishedSet(s.tx);
  }
}
