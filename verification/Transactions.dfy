/** Transaction ids, the per-worker transaction slots and their state machine
    (src/sqlcore/transaction/transactionControl.c, src/sqlcore/transaction/xtid.c).

    `TxState` is the value of the shared slot array and counters; the class
    `TransactionControl` updates them in place and is proved against it. */
module Transactions {

  const XTID_RANGE := 0x1_0000_0000_0000_0000

  /** An unsigned 64-bit transaction id. */
  type XTID = x: int | 0 <= x < XTID_RANGE

  const INVALID_XTID: XTID := XTID_RANGE - 1

  datatype TransactionFSMState = TS_IDLE | TS_START | TS_BEGIN | TS_INPROCESS | TS_COMMIT | TS_ABORT

  /** One entry of the shared transaction array. */
  datatype Slot = Slot(ts: TransactionFSMState, xid: XTID, snapshot: bool)

  /** `attached[w]` says that worker w's thread-local transaction pointer is not null. */
  datatype TxState = TxState(next: XTID, high: XTID, slots: seq<Slot>, attached: seq<bool>) {

    ghost predicate Running(x: XTID) {
      exists i :: 0 <= i < |slots| && slots[i].ts != TS_IDLE && slots[i].xid == x
    }

    /** Handed out and no longer held by any worker: committed and aborted alike. */
    ghost predicate Finished(x: XTID) {
      1 <= x < next && !Running(x)
    }

    ghost predicate Inv() {
      && |attached| == |slots|
      && 1 <= next
      && high < next
      && (forall i :: 0 <= i < |slots| ==> (attached[i] <==> slots[i].ts != TS_IDLE))
      && (forall i :: 0 <= i < |slots| && slots[i].ts != TS_IDLE ==> 1 <= slots[i].xid < next)
      && (forall i, j :: 0 <= i < j < |slots| && slots[i].ts != TS_IDLE && slots[j].ts != TS_IDLE ==>
            slots[i].xid != slots[j].xid)
      && (forall x: XTID :: Finished(x) ==> x <= high)
    }
  }

  function InitTx(workers: nat): TxState {
    TxState(1, 0, seq(workers, i => Slot(TS_IDLE, 0, false)), seq(workers, i => false))
  }

  /** Transaction ids come from a fetch-and-add on a 64-bit counter. */
  function Successor(x: XTID): XTID {
    if x == XTID_RANGE - 1 then 0 else x + 1
  }

  /** StartTransaction: takes an id unless the worker already has a transaction. */
  function Start(s: TxState, w: nat): TxState
    requires |s.attached| == |s.slots|
  {
    if w >= |s.slots| || s.attached[w] then s
    else if s.slots[w].ts == TS_IDLE then
      s.(next := Successor(s.next), slots := s.slots[w := Slot(TS_START, s.next, false)], attached := s.attached[w := true])
    else
      s.(slots := s.slots[w := s.slots[w].(snapshot := false)], attached := s.attached[w := true])
  }

  /** BeginTransaction: an explicit transaction block. */
  function Begin(s: TxState, w: nat): TxState
    requires |s.attached| == |s.slots|
  {
    if w >= |s.slots| then s
    else
      var slot := if s.attached[w] then s.slots[w] else s.slots[w].(snapshot := false);
      match slot.ts
      case TS_IDLE =>
        s.(next := Successor(s.next), slots := s.slots[w := slot.(ts := TS_BEGIN, xid := s.next)], attached := s.attached[w := true])
      case TS_START =>
        s.(slots := s.slots[w := slot.(ts := TS_BEGIN)], attached := s.attached[w := true])
      case _ =>
        s.(slots := s.slots[w := slot], attached := s.attached[w := true])
  }

  /** EndTransaction and AbortTransaction: the outcome is only recorded in the slot. */
  function Resolve(s: TxState, w: nat, outcome: TransactionFSMState): TxState
    requires |s.attached| == |s.slots|
  {
    if w >= |s.slots| || !s.attached[w] || s.slots[w].ts == TS_IDLE then s
    else s.(slots := s.slots[w := s.slots[w].(ts := outcome)])
  }

  function Max(a: XTID, b: XTID): XTID {
    if a >= b then a else b
  }

  /** SetHighLevelTransaction, run without interference. */
  function Raise(high: XTID, xid: XTID): XTID {
    if xid == INVALID_XTID then high else Max(high, xid)
  }

  /** FinishTransaction: gives the id up, unless a transaction block is still open. */
  function Finish(s: TxState, w: nat): TxState
    requires |s.attached| == |s.slots|
  {
    if w >= |s.slots| || !s.attached[w] then s
    else match s.slots[w].ts
      case TS_START | TS_COMMIT | TS_ABORT =>
        s.(slots := s.slots[w := s.slots[w].(ts := TS_IDLE)], attached := s.attached[w := false],
           high := Raise(s.high, s.slots[w].xid))
      case _ => s
  }

  /** The slot remembers that its transaction has taken a snapshot. */
  function MarkSnapshot(s: TxState, w: nat): TxState {
    if w >= |s.slots| then s
    else s.(slots := s.slots[w := s.slots[w].(snapshot := true)])
  }

  lemma InitInv(workers: nat)
    ensures InitTx(workers).Inv()
  {
  }

  /** A fresh id was never handed out before, and nobody else holds it. */
  lemma StartInv(s: TxState, w: nat)
    requires s.Inv() && s.next < INVALID_XTID
    ensures Start(s, w).Inv()
    ensures forall x: XTID :: Start(s, w).Finished(x) <==> s.Finished(x)
  {
    AllocateInv(s, Start(s, w), w);
  }

  lemma BeginInv(s: TxState, w: nat)
    requires s.Inv() && s.next < INVALID_XTID
    ensures Begin(s, w).Inv()
    ensures forall x: XTID :: Begin(s, w).Finished(x) <==> s.Finished(x)
  {
    if w < |s.slots| {
      AllocateInv(s, Begin(s, w), w);
    }
  }

  /** What Start and Begin have in common: worker w either keeps its id or is idle and gets the next one. */
  lemma AllocateInv(s: TxState, t: TxState, w: nat)
    requires s.Inv() && s.next < INVALID_XTID
    requires t == s ||
             (w < |s.slots| && t.high == s.high && |t.slots| == |s.slots|
             && t.slots == s.slots[w := t.slots[w]] && t.attached == s.attached[w := true]
             && t.slots[w].ts != TS_IDLE
             && (if s.slots[w].ts == TS_IDLE then t.next == s.next + 1 && t.slots[w].xid == s.next
                 else t.next == s.next && t.slots[w].xid == s.slots[w].xid))
    ensures t.Inv()
    ensures forall x: XTID :: t.Finished(x) <==> s.Finished(x)
  {
    if t != s {
      forall x: XTID
        ensures t.Finished(x) <==> s.Finished(x)
      {
        if s.Running(x) {
          var i :| 0 <= i < |s.slots| && s.slots[i].ts != TS_IDLE && s.slots[i].xid == x;
          assert t.slots[i].ts != TS_IDLE && t.slots[i].xid == x;
        }
        if t.Running(x) {
          var i :| 0 <= i < |t.slots| && t.slots[i].ts != TS_IDLE && t.slots[i].xid == x;
          assert i != w ==> s.slots[i] == t.slots[i];
        }
      }
    }
  }

  lemma ResolveInv(s: TxState, w: nat, outcome: TransactionFSMState)
    requires s.Inv() && outcome != TS_IDLE
    ensures Resolve(s, w, outcome).Inv()
    ensures forall x: XTID :: Resolve(s, w, outcome).Finished(x) <==> s.Finished(x)
  {
    SameIds(s, Resolve(s, w, outcome));
  }

  lemma MarkSnapshotInv(s: TxState, w: nat)
    requires s.Inv()
    ensures MarkSnapshot(s, w).Inv()
    ensures forall x: XTID :: MarkSnapshot(s, w).Finished(x) <==> s.Finished(x)
  {
    SameIds(s, MarkSnapshot(s, w));
  }

  lemma SameIds(s: TxState, t: TxState)
    requires s.Inv()
    requires t.next == s.next && t.high == s.high && t.attached == s.attached && |t.slots| == |s.slots|
    requires forall i :: 0 <= i < |s.slots| ==> t.slots[i].xid == s.slots[i].xid && (t.slots[i].ts == TS_IDLE <==> s.slots[i].ts == TS_IDLE)
    ensures t.Inv()
    ensures forall x: XTID :: t.Finished(x) <==> s.Finished(x)
  {
    forall x: XTID
      ensures t.Finished(x) <==> s.Finished(x)
    {
      assert t.Running(x) <==> s.Running(x);
    }
    assert forall x: XTID :: t.Finished(x) ==> s.Finished(x) && x <= s.high;
  }

  /** Finishing makes exactly the worker's own id finished, and only when its block is closed. */
  lemma FinishInv(s: TxState, w: nat)
    requires s.Inv()
    ensures Finish(s, w).Inv()
    ensures forall x: XTID :: s.Finished(x) ==> Finish(s, w).Finished(x)
    ensures forall x: XTID :: Finish(s, w).Finished(x) && !s.Finished(x) ==>
              w < |s.slots| && s.slots[w].ts in {TS_START, TS_COMMIT, TS_ABORT} && x == s.slots[w].xid
    ensures w < |s.slots| && s.slots[w].ts in {TS_START, TS_COMMIT, TS_ABORT} ==> Finish(s, w).Finished(s.slots[w].xid)
  {
    var t := Finish(s, w);
    if t != s {
      forall x: XTID
        ensures t.Running(x) <==> s.Running(x) && x != s.slots[w].xid
      {
        if s.Running(x) && x != s.slots[w].xid {
          var i :| 0 <= i < |s.slots| && s.slots[i].ts != TS_IDLE && s.slots[i].xid == x;
          assert t.slots[i] == s.slots[i];
        }
        if t.Running(x) {
          var i :| 0 <= i < |t.slots| && t.slots[i].ts != TS_IDLE && t.slots[i].xid == x;
          assert i != w && s.slots[i] == t.slots[i];
        }
      }
      forall x: XTID | t.Finished(x)
        ensures x <= t.high
      {
        assert s.Finished(x) || x == s.slots[w].xid;
      }
    }
  }

  /** A statement outside of a block is a transaction of its own: what it starts, its finish ends. */
  lemma StatementFinishes(s: TxState, w: nat)
    requires s.Inv() && s.next < INVALID_XTID && w < |s.slots| && s.slots[w].ts == TS_IDLE
    ensures Start(s, w).Running(s.next) && Finish(Start(s, w), w).Finished(s.next)
  {
    StartInv(s, w);
    FinishInv(Start(s, w), w);
    assert Start(s, w).slots[w].xid == s.next;
  }

  function FinishAgain(s: TxState, w: nat, times: nat): TxState
    requires |s.attached| == |s.slots|
    ensures |FinishAgain(s, w, times).attached| == |FinishAgain(s, w, times).slots|
    decreases times
  {
    if times == 0 then s else Finish(FinishAgain(s, w, times - 1), w)
  }

  /** A begun block is open: any number of statements may finish, and its id runs on. */
  lemma {:induction false} BlockStaysOpen(s: TxState, w: nat, times: nat)
    requires s.Inv() && s.next < INVALID_XTID && w < |s.slots| && s.slots[w].ts in {TS_IDLE, TS_START}
    ensures var t := Begin(s, w);
            && t.slots[w].xid == (if s.slots[w].ts == TS_IDLE then s.next else s.slots[w].xid)
            && FinishAgain(t, w, times) == t && t.Running(t.slots[w].xid)
    decreases times
  {
    BeginInv(s, w);
    assert Begin(s, w).slots[w].ts != TS_IDLE;
    if times > 0 {
      BlockStaysOpen(s, w, times - 1);
    }
  }

  /** Ending or aborting the block finishes nothing yet; the next finish does. */
  lemma BlockEnds(s: TxState, w: nat, outcome: TransactionFSMState)
    requires s.Inv() && s.next < INVALID_XTID && w < |s.slots| && s.slots[w].ts in {TS_IDLE, TS_START}
    requires outcome in {TS_COMMIT, TS_ABORT}
    ensures var t := Begin(s, w);
            var u := Resolve(t, w, outcome);
            u.Running(t.slots[w].xid) && Finish(u, w).Finished(t.slots[w].xid)
  {
    var t := Begin(s, w);
    BeginInv(s, w);
    ResolveInv(t, w, outcome);
    var u := Resolve(t, w, outcome);
    assert u.slots[w].xid == t.slots[w].xid && u.slots[w].ts != TS_IDLE;
    FinishInv(u, w);
  }

  /** Nothing tells an aborted transaction from a committed one once it has finished: the outcome goes with the slot,
      and GetTransactionState answers committed for every id. */
  lemma AbortIsCommit(s: TxState, w: nat)
    requires |s.attached| == |s.slots|
    ensures Finish(Resolve(s, w, TS_ABORT), w) == Finish(Resolve(s, w, TS_COMMIT), w)
  {
    if w < |s.slots| {
      assert s.slots[w := s.slots[w].(ts := TS_ABORT)][w := s.slots[w].(ts := TS_IDLE)] == s.slots[w := s.slots[w].(ts := TS_IDLE)];
    }
  }

  /** The shared transaction array and counters, updated in place by the workers.
      Worker indexes start at 1, as the worker threads number themselves. */
  class TransactionControl {
    var nextTransactionId: XTID
    var highLevelXtid: XTID
    const slots: array<Slot>
    const attached: array<bool>   // one thread-local pointer per worker

    ghost predicate Valid()
      reads this, slots, attached
    {
      slots.Length == attached.Length
    }

    ghost function State(): TxState
      reads this, slots, attached
    {
      TxState(nextTransactionId, highLevelXtid, slots[..], attached[..])
    }

    constructor InitTransactContext(maxNum: nat)
      requires maxNum > 0
      ensures Valid() && fresh(slots) && fresh(attached)
      ensures State() == InitTx(maxNum)
    {
      nextTransactionId := 1;
      highLevelXtid := 0;
      slots := new Slot[maxNum](i => Slot(TS_IDLE, 0, false));
      attached := new bool[maxNum](i => false);
      new;
      assert slots[..] == seq(maxNum, i => Slot(TS_IDLE, 0, false));
      assert attached[..] == seq(maxNum, i => false);
    }

    method GetNewTransactionID() returns (xid: XTID)
      requires Valid()
      modifies this
      ensures State() == old(State()).(next := Successor(old(nextTransactionId)))
      ensures xid == old(nextTransactionId)
    {
      xid := nextTransactionId;
      nextTransactionId := if nextTransactionId == INVALID_XTID then 0 else nextTransactionId + 1;
    }

    method SetHighLevelTransaction(xid: XTID) returns (level: XTID)
      requires Valid()
      modifies this
      ensures State() == old(State()).(high := Raise(old(highLevelXtid), xid))
    {
      level := highLevelXtid;
      if xid != INVALID_XTID && level < xid {
        highLevelXtid := xid;
      }
    }

    method StartTransaction(myIndex: nat)
      requires Valid() && 1 <= myIndex
      modifies this, slots, attached
      ensures Valid() && State() == Start(old(State()), myIndex - 1)
    {
      if myIndex > slots.Length {
        return;
      }
      var w := myIndex - 1;
      if attached[w] {
        return;
      }
      attached[w] := true;
      slots[w] := slots[w].(snapshot := false);
      if slots[w].ts == TS_IDLE {
        slots[w] := slots[w].(ts := TS_START);
        var xid := GetNewTransactionID();
        slots[w] := slots[w].(xid := xid);
      }
    }

    method BeginTransaction(myIndex: nat)
      requires Valid() && 1 <= myIndex
      modifies this, slots, attached
      ensures Valid() && State() == Begin(old(State()), myIndex - 1)
    {
      if myIndex > slots.Length {
        return;
      }
      var w := myIndex - 1;
      if !attached[w] {
        attached[w] := true;
        slots[w] := slots[w].(snapshot := false);
      }
      match slots[w].ts {
        case TS_IDLE =>
          var xid := GetNewTransactionID();
          slots[w] := slots[w].(xid := xid);
          slots[w] := slots[w].(ts := TS_BEGIN);
        case TS_START =>
          slots[w] := slots[w].(ts := TS_BEGIN);
        case _ =>
      }
      assert attached[..] == old(attached[..])[w := true];
    }

    method EndTransaction(myIndex: nat)
      requires Valid() && 1 <= myIndex <= slots.Length
      modifies slots
      ensures Valid() && State() == Resolve(old(State()), myIndex - 1, TS_COMMIT)
    {
      var w := myIndex - 1;
      if !attached[w] || slots[w].ts == TS_IDLE {
        return;
      }
      slots[w] := slots[w].(ts := TS_COMMIT);
    }

    method AbortTransaction(myIndex: nat)
      requires Valid() && 1 <= myIndex <= slots.Length
      modifies slots
      ensures Valid() && State() == Resolve(old(State()), myIndex - 1, TS_ABORT)
    {
      var w := myIndex - 1;
      if !attached[w] || slots[w].ts == TS_IDLE {
        return;
      }
      slots[w] := slots[w].(ts := TS_ABORT);
    }

    method FinishTransaction(myIndex: nat)
      requires Valid() && 1 <= myIndex <= slots.Length
      modifies this, slots, attached
      ensures Valid() && State() == Finish(old(State()), myIndex - 1)
    {
      var w := myIndex - 1;
      if !attached[w] {
        return;
      }
      match slots[w].ts {
        case TS_START | TS_COMMIT | TS_ABORT =>
          slots[w] := slots[w].(ts := TS_IDLE);
          var _ := SetHighLevelTransaction(slots[w].xid);
          attached[w] := false;
        case _ =>
      }
    }
  }
}
