/** Snapshots: collecting the running transactions and classifying an id against them
    (src/sqlcore/transaction/snapshot.c, src/sqlcore/transaction/transactionControl.c). */
module Snapshots {
  import opened Commons
  import opened Transactions

  datatype Position = IN_SNAPSHOT | OUT_SNAPSHOT

  /** A snapshot record; `cells` is the whole array, of which the first `num` entries are in use. */
  datatype Snapshot = Snapshot(high: XTID, low: XTID, num: nat, cells: seq<XTID>) {
    predicate Valid() {
      num <= |cells|
    }
  }

  /** The slots a snapshot taken by `me` has to record, in slot order. */
  function Others(slots: seq<Slot>, me: Option<XTID>): seq<XTID> {
    if slots == [] then []
    else
      var last := slots[|slots| - 1];
      var ids := Others(slots[..|slots| - 1], me);
      if last.ts == TS_IDLE || me == Some(last.xid) then ids else ids + [last.xid]
  }

  ghost predicate Holds(slots: seq<Slot>, x: XTID) {
    exists i :: 0 <= i < |slots| && slots[i].ts != TS_IDLE && slots[i].xid == x
  }

  lemma {:induction false} OthersMember(slots: seq<Slot>, me: Option<XTID>, x: XTID)
    ensures x in Others(slots, me) <==> Holds(slots, x) && me != Some(x)
  {
    if slots != [] {
      var n := |slots| - 1;
      OthersMember(slots[..n], me, x);
      assert Holds(slots, x) <==> Holds(slots[..n], x) || (slots[n].ts != TS_IDLE && slots[n].xid == x) by {
        if Holds(slots, x) {
          var i :| 0 <= i < |slots| && slots[i].ts != TS_IDLE && slots[i].xid == x;
          assert i < n ==> slots[..n][i] == slots[i];
        }
        if Holds(slots[..n], x) {
          var i :| 0 <= i < n && slots[..n][i].ts != TS_IDLE && slots[..n][i].xid == x;
          assert slots[i] == slots[..n][i];
        }
      }
    }
  }

  /** The first cell the fill cannot get past: its old content exceeds the upper limit. */
  function Obstacle(cells: seq<XTID>, max: XTID): (k: nat)
    ensures k <= |cells|
  {
    if cells == [] || cells[0] > max then 0 else 1 + Obstacle(cells[1..], max)
  }

  lemma {:induction false} ObstacleIs(cells: seq<XTID>, max: XTID, k: nat)
    requires k <= |cells|
    ensures k <= Obstacle(cells, max) <==> forall i :: 0 <= i < k ==> cells[i] <= max
  {
    if k > 0 && cells[0] <= max {
      ObstacleIs(cells[1..], max, k - 1);
      assert forall i :: 1 <= i < k ==> cells[i] == cells[1..][i - 1];
      assert forall i :: 0 <= i < k - 1 ==> cells[1..][i] == cells[i + 1];
    }
  }

  function Min(a: XTID, b: XTID): XTID {
    if a < b then a else b
  }

  function Least(ids: seq<XTID>, bound: XTID): XTID {
    if ids == [] then bound else Min(Least(ids[..|ids| - 1], bound), ids[|ids| - 1])
  }

  lemma {:induction false} LeastBound(ids: seq<XTID>, bound: XTID)
    ensures Least(ids, bound) <= bound && forall x :: x in ids ==> Least(ids, bound) <= x
    ensures Least(ids, bound) == bound || Least(ids, bound) in ids
  {
    if ids != [] {
      LeastBound(ids[..|ids| - 1], bound);
      assert forall x :: x in ids ==> x in ids[..|ids| - 1] || x == ids[|ids| - 1];
    }
  }

  /** How many of the ids that should be recorded really are. */
  function Recorded(slots: seq<Slot>, me: Option<XTID>, cells: seq<XTID>, max: XTID): (n: nat)
    ensures n <= |Others(slots, me)| && n <= |cells|
  {
    var k := Obstacle(cells, max);
    if k < |Others(slots, me)| then k else |Others(slots, me)|
  }

  function OwnId(s: TxState, w: nat): Option<XTID> {
    if w < |s.slots| && w < |s.attached| && s.attached[w] then Some(s.slots[w].xid) else None
  }

  function Collected(slots: seq<Slot>, me: Option<XTID>, cells: seq<XTID>, max: XTID, bound: XTID): Snapshot {
    var ids := Others(slots, me)[..Recorded(slots, me, cells, max)];
    Snapshot(max, Least(ids, bound), |ids|, ids + cells[|ids|..])
  }

  /** The record GetActiveXtids produces from the slots and the old array content. */
  function Active(slots: seq<Slot>, me: Option<XTID>, high: XTID, cells: seq<XTID>): Snapshot {
    var max := Successor(high);
    Collected(slots, me, cells, max, if me.Some? then Min(me.value, max) else max)
  }

  function Take(s: TxState, w: nat, cells: seq<XTID>): Snapshot {
    Active(s.slots, OwnId(s, w), s.high, cells)
  }

  predicate XtidIsIn(x: XTID, snap: Snapshot)
    requires snap.Valid()
  {
    x in snap.cells[..snap.num]
  }

  /** TupleVisibililtySnapshot. */
  function Classify(x: XTID, snap: Snapshot): Position
    requires snap.Valid()
  {
    if x < snap.low then OUT_SNAPSHOT
    else if x < snap.high then (if XtidIsIn(x, snap) then IN_SNAPSHOT else OUT_SNAPSHOT)
    else IN_SNAPSHOT
  }

  /** The snapshot tells every other id, past or future, apart by whether it is in `done`. */
  ghost predicate Exact(snap: Snapshot, me: XTID, done: iset<XTID>) {
    snap.Valid() && forall x: XTID :: x != me && x != 0 ==> (Classify(x, snap) == OUT_SNAPSHOT <==> x in done)
  }

  ghost function FinishedSet(s: TxState): iset<XTID> {
    iset x: XTID | s.Finished(x)
  }

  /** No running transaction that the fill skipped lies below the snapshot's upper limit. */
  ghost predicate Complete(s: TxState, w: nat, cells: seq<XTID>) {
    var me := OwnId(s, w);
    var n := Recorded(s.slots, me, cells, Successor(s.high));
    forall i :: n <= i < |Others(s.slots, me)| ==> Others(s.slots, me)[i] > s.high
  }

  lemma {:induction false} OthersDistinct(s: TxState, n: nat, me: Option<XTID>)
    requires s.Inv() && n <= |s.slots|
    ensures forall i, j :: 0 <= i < j < |Others(s.slots[..n], me)| ==> Others(s.slots[..n], me)[i] != Others(s.slots[..n], me)[j]
  {
    if n > 0 {
      OthersDistinct(s, n - 1, me);
      assert s.slots[..n][..n - 1] == s.slots[..n - 1];
      if s.slots[n - 1].ts != TS_IDLE {
        OthersMember(s.slots[..n - 1], me, s.slots[n - 1].xid);
      }
    }
  }

  /** A snapshot is exact if and only if the fill skipped nothing below its upper limit. */
  lemma SnapshotExactness(s: TxState, w: nat, cells: seq<XTID>)
    requires s.Inv() && w < |s.slots| && s.attached[w]
    ensures Exact(Take(s, w, cells), s.slots[w].xid, FinishedSet(s)) <==> Complete(s, w, cells)
  {
    var snap := Take(s, w, cells);
    var me := s.slots[w].xid;
    var others := Others(s.slots, Some(me));
    var n := Recorded(s.slots, Some(me), cells, snap.high);
    assert snap.cells[..snap.num] == others[..n];
    forall x: XTID | x != me && x != 0 && x !in others[n..]
      ensures Classify(x, snap) == OUT_SNAPSHOT <==> s.Finished(x)
    {
      RecordedId(s, w, cells, x);
    }
    forall i | n <= i < |others|
      ensures (Classify(others[i], snap) == OUT_SNAPSHOT <==> s.Finished(others[i])) <==> others[i] > s.high
    {
      SkippedId(s, w, cells, i);
    }
    forall i | n <= i < |others|
      ensures others[i] != me && others[i] != 0 && others[i] in others[n..]
    {
      OthersMember(s.slots, Some(me), others[i]);
      assert others[i] in others && others[n..][i - n] == others[i];
    }
    assert forall x: XTID :: x in FinishedSet(s) <==> s.Finished(x);
  }

  lemma TakeLow(s: TxState, w: nat, cells: seq<XTID>)
    ensures var snap := Take(s, w, cells);
            && snap.low <= snap.high
            && (forall x :: x in snap.cells[..snap.num] ==> snap.low <= x)
            && (snap.low == snap.high || OwnId(s, w) == Some(snap.low) || snap.low in Others(s.slots, OwnId(s, w)))
  {
    var snap := Take(s, w, cells);
    var max := Successor(s.high);
    var me := OwnId(s, w);
    var others := Others(s.slots, me);
    assert snap.cells[..snap.num] == others[..snap.num];
    LeastBound(others[..snap.num], if me.Some? then Min(me.value, max) else max);
    assert forall x :: x in others[..snap.num] ==> x in others;
  }

  /** An id that was not skipped is classified correctly. */
  lemma RecordedId(s: TxState, w: nat, cells: seq<XTID>, x: XTID)
    requires s.Inv() && w < |s.slots| && s.attached[w] && x != s.slots[w].xid && x != 0
    requires x !in Others(s.slots, OwnId(s, w))[Recorded(s.slots, OwnId(s, w), cells, Successor(s.high))..]
    ensures Classify(x, Take(s, w, cells)) == OUT_SNAPSHOT <==> s.Finished(x)
  {
    var snap := Take(s, w, cells);
    var others := Others(s.slots, OwnId(s, w));
    assert snap.cells[..snap.num] == others[..snap.num];
    TakeLow(s, w, cells);
    OthersMember(s.slots, OwnId(s, w), x);
    assert others == others[..snap.num] + others[snap.num..];
    assert x in others <==> x in others[..snap.num];
    assert s.Running(x) <==> x in others;
  }

  lemma SkippedId(s: TxState, w: nat, cells: seq<XTID>, i: nat)
    requires s.Inv() && w < |s.slots| && s.attached[w]
    requires Recorded(s.slots, OwnId(s, w), cells, Successor(s.high)) <= i < |Others(s.slots, OwnId(s, w))|
    ensures var x := Others(s.slots, OwnId(s, w))[i];
            !s.Finished(x) && (Classify(x, Take(s, w, cells)) == IN_SNAPSHOT <==> x > s.high)
  {
    var snap := Take(s, w, cells);
    var others := Others(s.slots, OwnId(s, w));
    var x := others[i];
    assert x in others;
    OthersMember(s.slots, OwnId(s, w), x);
    TakeLow(s, w, cells);
    OthersDistinct(s, |s.slots|, OwnId(s, w));
    assert s.slots[..|s.slots|] == s.slots;
    assert snap.cells[..snap.num] == others[..snap.num];
    assert x !in others[..snap.num];
  }

  /** A record whose cells do not exceed the upper limit, such as a new session's zeroed one, skips nothing. */
  lemma FreshCellsComplete(s: TxState, w: nat, cells: seq<XTID>)
    requires s.Inv() && |s.slots| <= |cells|
    requires forall i :: 0 <= i < |cells| ==> cells[i] <= s.high + 1
    ensures Complete(s, w, cells)
  {
    OthersBounded(s.slots, OwnId(s, w));
    ObstacleIs(cells, Successor(s.high), |cells|);
  }

  lemma {:induction false} OthersBounded(slots: seq<Slot>, me: Option<XTID>)
    ensures |Others(slots, me)| <= |slots|
  {
    if slots != [] {
      OthersBounded(slots[..|slots| - 1], me);
    }
  }

  /** Reusing an array breaks the snapshot: the leftover 5 in cell 0 exceeds the upper limit 4, the fill gets stuck
      there, and the running id 2 is taken for finished. A zeroed array classifies it correctly. */
  lemma StaleState(s: TxState, cells: seq<XTID>, zeros: seq<XTID>)
    requires s.next == 7 && s.high == 3 && |s.slots| == 4 && s.attached == [true, true, true, true]
    requires forall i :: 0 <= i < 4 ==> s.slots[i].ts == TS_START
    requires s.slots[0].xid == 6 && s.slots[1].xid == 5 && s.slots[2].xid == 2 && s.slots[3].xid == 4
    requires |cells| == |zeros| == 4 && cells[0] == 5 && forall i :: 0 <= i < 4 ==> zeros[i] == 0
    ensures s.Inv() && s.Running(2)
    ensures Classify(2, Take(s, 0, cells)) == OUT_SNAPSHOT
    ensures Classify(2, Take(s, 0, zeros)) == IN_SNAPSHOT
  {
    assert s.Running(2) && s.Running(6) && s.Running(5) && s.Running(4);
    assert s.Inv();
    assert Obstacle(cells, 4) == 0;
    OthersMember(s.slots, Some(6), 2);
    var i :| 0 <= i < |Others(s.slots, Some(6))| && Others(s.slots, Some(6))[i] == 2;
    SkippedId(s, 0, cells, i);
    FreshCellsComplete(s, 0, zeros);
    SnapshotExactness(s, 0, zeros);
    assert !s.Finished(2);
  }

  lemma {:induction false} OthersPrefix(slots: seq<Slot>, me: Option<XTID>, i: nat)
    requires i <= |slots|
    ensures Others(slots[..i], me) <= Others(slots, me)
    decreases |slots|
  {
    if i == |slots| {
      assert slots[..i] == slots;
    } else {
      OthersPrefix(slots[..|slots| - 1], me, i);
      assert slots[..|slots| - 1][..i] == slots[..i];
    }
  }

  lemma OthersStep(slots: seq<Slot>, me: Option<XTID>, i: nat)
    requires i < |slots|
    ensures Others(slots[..i + 1], me) ==
            if slots[i].ts == TS_IDLE || me == Some(slots[i].xid) then Others(slots[..i], me) else Others(slots[..i], me) + [slots[i].xid]
  {
    assert slots[..i + 1][..i] == slots[..i];
  }

  /** The state of the fill: cells used, the array, and the least id so far. */
  datatype Progress = Progress(count: nat, now: seq<XTID>, min: XTID)

  function FillSlot(p: Progress, slot: Slot, me: Option<XTID>, max: XTID): Progress {
    if p.count >= |p.now| || slot.ts == TS_IDLE || me == Some(slot.xid) || p.now[p.count] > max then p
    else Progress(p.count + 1, p.now[p.count := slot.xid], Min(p.min, slot.xid))
  }

  function Fill(slots: seq<Slot>, me: Option<XTID>, max: XTID, p: Progress): Progress {
    if slots == [] then p
    else FillSlot(Fill(slots[..|slots| - 1], me, max, p), slots[|slots| - 1], me, max)
  }

  /** The fill records the others in slot order, up to the first obstacle. */
  lemma {:induction false} FillCollects(slots: seq<Slot>, me: Option<XTID>, max: XTID, cells: seq<XTID>, bound: XTID)
    ensures var p := Fill(slots, me, max, Progress(0, cells, bound));
            Snapshot(max, p.min, p.count, p.now) == Collected(slots, me, cells, max, bound)
  {
    hide Obstacle;
    if slots != [] {
      var n := |slots| - 1;
      FillCollects(slots[..n], me, max, cells, bound);
      var ids := Others(slots[..n], me);
      var x := slots[n].xid;
      var k := Recorded(slots[..n], me, cells, max);
      if slots[n].ts != TS_IDLE && me != Some(x) {
        ObstacleIs(cells, max, k);
        if k < |cells| {
          ObstacleIs(cells, max, k + 1);
        }
        if k < |ids| {
          assert (ids + [x])[..k] == ids[..k];
        } else if k < |cells| && cells[k] <= max {
          FillAppends(ids, x, cells, bound);
        } else {
          assert (ids + [x])[..k] == ids[..k];
        }
      }
    }
  }

  lemma FillAppends(ids: seq<XTID>, x: XTID, cells: seq<XTID>, bound: XTID)
    requires |ids| < |cells|
    ensures var k := |ids|; ids[..k] == ids && (ids + [x])[..k + 1] == ids + [x] && (ids + [x])[..k] == ids
    ensures (ids + cells[|ids|..])[|ids| := x] == ids + [x] + cells[|ids| + 1..]
    ensures Least(ids + [x], bound) == Min(Least(ids, bound), x)
  {
  }

  lemma {:induction false} FillStopped(slots: seq<Slot>, me: Option<XTID>, max: XTID, p: Progress, i: nat)
    requires i <= |slots|
    requires var q := Fill(slots[..i], me, max, p); q.count >= |q.now|
    ensures Fill(slots, me, max, p) == Fill(slots[..i], me, max, p)
    decreases |slots|
  {
    if i < |slots| {
      var n := |slots| - 1;
      assert slots[..n][..i] == slots[..i];
      FillStopped(slots[..n], me, max, p, i);
    } else {
      assert slots[..i] == slots;
    }
  }

  /** GetActiveXtids: fills the array with the ids other workers run, slot by slot. `me` is the caller's own id, if it has one. */
  method GetActiveXtids(slots: array<Slot>, me: Option<XTID>, highLevel: XTID, xtids: array<XTID>) returns (count: nat, max: XTID, min: XTID)
    requires xtids.Length > 0
    modifies xtids
    ensures count <= xtids.Length
    ensures Snapshot(max, min, count, xtids[..]) == Active(slots[..], me, highLevel, old(xtids[..]))
  {
    hide Collected, Others, Recorded;
    ghost var all := slots[..];
    max := if highLevel == INVALID_XTID then 0 else highLevel + 1;
    min := if me.Some? && me.value < max then me.value else max;
    count := 0;
    ghost var p := Progress(0, xtids[..], min);
    var i := 0;
    while i < slots.Length
      invariant 0 <= i <= slots.Length && count < xtids.Length
      invariant Progress(count, xtids[..], min) == Fill(all[..i], me, max, p)
    {
      var slot := slots[i];
      i := i + 1;
      assert all[..i][..i - 1] == all[..i - 1];
      // An id above the limit is meant to be skipped here, but the test reads the cell about to be overwritten.
      if slot.ts != TS_IDLE && me != Some(slot.xid) && !(xtids[count] > max) {
        xtids[count] := slot.xid;
        if xtids[count] < min {
          min := xtids[count];
        }
        count := count + 1;
        if count >= xtids.Length {
          FillStopped(all, me, max, p, i);
          break;
        }
      }
    }
    assert i == |all| ==> all[..i] == all;
    FillCollects(all, me, max, p.now, p.min);
  }

  /** A session's snapshot record, refilled in place for each snapshot. */
  class SnapShotInfo {
    var highLevel: XTID
    var lowLevel: XTID
    var xidNum: nat
    const runningXidArr: array<XTID>

    ghost predicate Valid()
      reads this
    {
      runningXidArr.Length > 0 && xidNum <= runningXidArr.Length
    }

    ghost function Value(): Snapshot
      reads this, runningXidArr
    {
      Snapshot(highLevel, lowLevel, xidNum, runningXidArr[..])
    }

    constructor CreateSnapshot(maxClient: nat)
      requires maxClient > 0
      ensures Valid() && fresh(runningXidArr)
      ensures Value() == Snapshot(0, 0, 0, seq(maxClient, i => 0))
    {
      highLevel, lowLevel, xidNum := 0, 0, 0;
      runningXidArr := new XTID[maxClient](i => 0);
      new;
      assert runningXidArr[..] == seq(maxClient, i => 0);
    }

    method GetSnapshot(tc: TransactionControl, w: nat)
      requires Valid() && tc.Valid() && w < tc.slots.Length
      modifies this, runningXidArr
      ensures Valid() && Value() == Take(tc.State(), w, old(runningXidArr[..]))
    {
      var me := if tc.attached[w] then Some(tc.slots[w].xid) else None;
      xidNum, highLevel, lowLevel := GetActiveXtids(tc.slots, me, tc.highLevelXtid, runningXidArr);
    }

    method XtidIsInSnapshot(xtid: XTID) returns (found: bool)
      requires Valid()
      ensures found <==> XtidIsIn(xtid, Value())
    {
      var txidNum := 0;
      while txidNum < xidNum
        invariant 0 <= txidNum <= xidNum
        invariant xtid !in runningXidArr[..txidNum]
      {
        if xtid == runningXidArr[txidNum] {
          assert runningXidArr[..xidNum][txidNum] == xtid;
          assert runningXidArr[..][..xidNum] == runningXidArr[..xidNum];
          return true;
        }
        txidNum := txidNum + 1;
      }
      assert runningXidArr[..][..xidNum] == runningXidArr[..xidNum];
      return false;
    }

    method TupleVisibililtySnapshot(currxtid: XTID) returns (position: Position)
      requires Valid()
      ensures position == Classify(currxtid, Value())
    {
      if currxtid < lowLevel {
        return OUT_SNAPSHOT;
      } else if currxtid < highLevel {
        var found := XtidIsInSnapshot(currxtid);
        return if found then IN_SNAPSHOT else OUT_SNAPSHOT;
      }
      return IN_SNAPSHOT;
    }
  }
}
