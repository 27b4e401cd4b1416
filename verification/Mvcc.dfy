/** The multi-version engine as a transition system: transactions start, take snapshots, read and
    write column cells and finish, in any interleaving of atomic steps.

    Beside the stored versions the system keeps each cell's history, the list of its successful
    writes, and for each worker the set of transactions finished when it took its snapshot. */
module Mvcc {
  import opened Commons
  import opened Transactions
  import opened Snapshots
  import opened Versions

  datatype Op = Put(value: Value) | Del

  /** `seen`: what had finished when the writer took the snapshot it wrote under. */
  datatype Write = Write(xid: XTID, op: Op, seen: iset<XTID>)

  datatype System = System(tx: TxState, snaps: seq<Snapshot>, repeatable: bool, store: Store,
                           hist: map<CellId, seq<Write>>, seen: seq<iset<XTID>>)

  datatype Step =
    | StartT(w: nat) | BeginT(w: nat) | EndT(w: nat) | AbortT(w: nat) | FinishT(w: nat)
    | NewSession(w: nat)
    | Snap(w: nat)
    | InsertCell(w: nat, c: CellId, value: Value)
    | UpdateCell(w: nat, c: CellId, value: Value)
    | DeleteCell(w: nat, c: CellId)

  ghost function Init(workers: nat, repeatable: bool): System {
    System(InitTx(workers), seq(workers, i => EmptySnapshot(workers)), repeatable, Store(map[], []), map[], seq(workers, i => iset{}))
  }

  function EmptySnapshot(workers: nat): Snapshot {
    Snapshot(0, 0, 0, seq(workers, i => 0))
  }

  // ---------------------------------------------------------------- histories

  /** How many of the writes left a version: a delete, which can only be the last write, leaves none. */
  function Puts(h: seq<Write>): nat {
    if h != [] && h[|h| - 1].op.Del? then |h| - 1 else |h|
  }

  /** The chain holds one version for each put, newest first, each stamped with the write that replaced or deleted it. */
  ghost predicate Faithful(chain: seq<Version>, h: seq<Write>) {
    && |chain| == Puts(h)
    && forall k :: 0 <= k < |chain| ==> VersionOf(chain[k], h, |chain| - 1 - k)
  }

  ghost predicate VersionOf(v: Version, h: seq<Write>, i: nat)
    requires i < |h|
  {
    && h[i].op == Put(v.value)
    && v.tmin == h[i].xid
    && v.tmax == if i + 1 < |h| then h[i + 1].xid else INVALID_XTID
  }

  ghost predicate Saw(wr: Write, me: XTID, done: iset<XTID>) {
    wr.xid == me || wr.xid in done
  }

  /** A reader's view of a history is one of its prefixes. */
  ghost predicate SeesPrefix(h: seq<Write>, me: XTID, done: iset<XTID>) {
    forall i, j :: 0 <= i < j < |h| && Saw(h[j], me, done) ==> Saw(h[i], me, done)
  }

  /** The value of a cell as of the set of finished transactions `done`, overlaid with the reader's own writes. */
  ghost function AsOf(h: seq<Write>, me: XTID, done: iset<XTID>): Option<Value> {
    if h == [] then None
    else
      var last := h[|h| - 1];
      if Saw(last, me, done) then (if last.op.Put? then Some(last.op.value) else None)
      else AsOf(h[..|h| - 1], me, done)
  }

  /** Every writer is the same transaction as the writers before it, or they had finished before it took its snapshot. */
  ghost predicate Serial(h: seq<Write>) {
    forall i, j :: 0 <= i < j < |h| ==> h[i].xid == h[j].xid || h[i].xid in h[j].seen
  }

  ghost predicate HistoryInv(h: seq<Write>, next: XTID, done: iset<XTID>) {
    && h != []
    && (forall i :: 0 <= i < |h| && h[i].op.Del? ==> 0 < i == |h| - 1)
    && (forall i :: 0 <= i < |h| ==> 1 <= h[i].xid < next)
    && (forall i :: 0 <= i < |h| ==> h[i].seen <= done)
    && Serial(h)
  }

  // ---------------------------------------------------------------- steps

  predicate Ready(s: System, w: nat) {
    w < |s.tx.slots| && w < |s.tx.attached| && w < |s.snaps| && w < |s.seen| && s.tx.attached[w] && s.tx.slots[w].snapshot
  }

  ghost function Read(s: System, w: nat, c: CellId): Option<Version>
    requires Inv(s) && Ready(s, w)
  {
    s.store.Read(c, Some(s.snaps[w]), s.tx.slots[w].xid)
  }

  ghost function Apply(s: System, step: Step): System
    requires Inv(s)
  {
    match step
    case StartT(w) => s.(tx := Start(s.tx, w))
    case BeginT(w) => s.(tx := Begin(s.tx, w))
    case EndT(w) => s.(tx := Resolve(s.tx, w, TS_COMMIT))
    case AbortT(w) => s.(tx := Resolve(s.tx, w, TS_ABORT))
    case FinishT(w) => s.(tx := Finish(s.tx, w))
    case NewSession(w) => if w < |s.snaps| then s.(snaps := s.snaps[w := EmptySnapshot(|s.snaps|)]) else s
    case Snap(w) =>
      if w < |s.snaps| && s.tx.attached[w] && (s.repeatable ==> !s.tx.slots[w].snapshot)
      then s.(snaps := s.snaps[w := Take(s.tx, w, s.snaps[w].cells)], tx := MarkSnapshot(s.tx, w), seen := s.seen[w := FinishedSet(s.tx)])
      else s
    case InsertCell(w, c, value) =>
      if Ready(s, w) && c !in s.store.heads then
        var me := s.tx.slots[w].xid;
        s.(store := s.store.Insert(c, value, me), hist := s.hist[c := [Write(me, Put(value), s.seen[w])]])
      else s
    case UpdateCell(w, c, value) =>
      if Ready(s, w) && Writable(s, w, c)
      then ApplyUpdate(s, w, c, Read(s, w, c).value, value)
      else s
    case DeleteCell(w, c) =>
      if Ready(s, w) && Writable(s, w, c)
      then ApplyDelete(s, w, c, Read(s, w, c).value)
      else s
  }

  /** The scan returns a version, and the update check accepts it. */
  ghost predicate Writable(s: System, w: nat, c: CellId)
    requires Inv(s) && Ready(s, w)
  {
    c in s.store.heads && Read(s, w, c).Some? && TupleUpdateSatisfy(Read(s, w, c).value, s.tx.slots[w].xid) == TU_OK
  }

  ghost function ApplyUpdate(s: System, w: nat, c: CellId, copy: Version, value: Value): System
    requires Inv(s) && Ready(s, w) && c in s.store.heads
  {
    var me := s.tx.slots[w].xid;
    s.(store := s.store.Update(c, copy, value, me), hist := s.hist[c := s.hist[c] + [Write(me, Put(value), s.seen[w])]])
  }

  ghost function ApplyDelete(s: System, w: nat, c: CellId, copy: Version): System
    requires Inv(s) && Ready(s, w) && c in s.store.heads
  {
    var me := s.tx.slots[w].xid;
    s.(store := s.store.Delete(c, copy, me), hist := s.hist[c := s.hist[c] + [Write(me, Del, s.seen[w])]])
  }

  /** What a step asks of its caller: ids are not exhausted, a new client comes to an idle worker,
      and no running id is skipped when a snapshot array is refilled. */
  ghost predicate Allowed(s: System, step: Step)
    requires Inv(s)
  {
    match step
    case StartT(_) | BeginT(_) => s.tx.next < INVALID_XTID
    case NewSession(w) => w < |s.snaps| ==> !s.tx.attached[w]
    case Snap(w) => w < |s.snaps| ==> Complete(s.tx, w, s.snaps[w].cells)
    case _ => true
  }

  // ---------------------------------------------------------------- the invariant

  /** A worker that may read: its snapshot is exact, for a set of transactions that are finished by now. */
  ghost predicate WorkerInv(s: System, w: nat)
    requires Ready(s, w)
  {
    && Exact(s.snaps[w], s.tx.slots[w].xid, s.seen[w])
    && s.seen[w] <= FinishedSet(s.tx)
  }

  ghost predicate CellInv(s: System, c: CellId)
    requires s.store.Valid() && c in s.store.heads && c in s.hist
  {
    HistoryInv(s.hist[c], s.tx.next, FinishedSet(s.tx)) && Faithful(s.store.Chain(c), s.hist[c])
  }

  ghost predicate ShapeInv(s: System) {
    && s.tx.Inv()
    && |s.snaps| == |s.seen| == |s.tx.slots|
    && s.store.Valid()
    && s.store.heads.Keys == s.hist.Keys
    && (forall w :: 0 <= w < |s.snaps| ==> s.snaps[w].Valid())
  }

  ghost predicate ReadersInv(s: System) {
    forall w: nat :: Ready(s, w) ==> WorkerInv(s, w)
  }

  ghost predicate CellsInv(s: System)
    requires ShapeInv(s)
  {
    forall c :: c in s.hist ==> CellInv(s, c)
  }

  ghost predicate ViewsInv(s: System) {
    forall c, w: nat :: c in s.hist && Ready(s, w) ==> SeesPrefix(s.hist[c], s.tx.slots[w].xid, s.seen[w])
  }

  ghost predicate Inv(s: System) {
    ShapeInv(s) && ReadersInv(s) && CellsInv(s) && ViewsInv(s)
  }

  lemma InitInv(workers: nat, repeatable: bool)
    ensures Inv(Init(workers, repeatable))
  {
  }

  // ---------------------------------------------------------------- reading

  /** A version is visible exactly when its write is the last one the reader saw. */
  lemma VisibleVersion(v: Version, h: seq<Write>, i: nat, snap: Snapshot, me: XTID, done: iset<XTID>, next: XTID, all: iset<XTID>)
    requires HistoryInv(h, next, all) && i < |h| && VersionOf(v, h, i) && snap.Valid() && Exact(snap, me, done)
    ensures TupleVisibilitySatisfy(v, Some(snap), me) == TUPLE_VISIBLE
       <==> Saw(h[i], me, done) && (i + 1 < |h| ==> !Saw(h[i + 1], me, done))
  {
  }

  /** How many writes the reader saw. */
  ghost function SeenCount(h: seq<Write>, me: XTID, done: iset<XTID>): (q: nat)
    ensures q <= |h|
    ensures q > 0 ==> Saw(h[q - 1], me, done)
    ensures forall i :: q <= i < |h| ==> !Saw(h[i], me, done)
  {
    if h == [] then 0
    else if Saw(h[|h| - 1], me, done) then |h|
    else SeenCount(h[..|h| - 1], me, done)
  }

  lemma {:induction false} AsOfLastSeen(h: seq<Write>, me: XTID, done: iset<XTID>)
    ensures var q := SeenCount(h, me, done);
            AsOf(h, me, done) == if q == 0 || h[q - 1].op.Del? then None else Some(h[q - 1].op.value)
  {
    if h != [] && !Saw(h[|h| - 1], me, done) {
      AsOfLastSeen(h[..|h| - 1], me, done);
    }
  }

  lemma {:induction false} FirstVisibleAt(chain: seq<Version>, snap: Option<Snapshot>, me: XTID, k: nat)
    requires snap.Some? ==> snap.value.Valid()
    requires k <= |chain|
    requires forall i :: 0 <= i < k ==> TupleVisibilitySatisfy(chain[i], snap, me) == TUPLE_INVISIBLE
    requires k < |chain| ==> TupleVisibilitySatisfy(chain[k], snap, me) == TUPLE_VISIBLE
    ensures FirstVisible(chain, snap, me) == if k < |chain| then Some(chain[k]) else None
  {
    if k > 0 {
      FirstVisibleAt(chain[1..], snap, me, k - 1);
    }
  }

  /** At most one version of a chain is visible: the one left by the last write the reader saw. */
  lemma VisiblePosition(chain: seq<Version>, h: seq<Write>, snap: Snapshot, me: XTID, done: iset<XTID>, next: XTID, all: iset<XTID>, k: nat)
    requires HistoryInv(h, next, all) && Faithful(chain, h) && snap.Valid() && Exact(snap, me, done) && SeesPrefix(h, me, done)
    requires k < |chain|
    ensures TupleVisibilitySatisfy(chain[k], Some(snap), me) == TUPLE_VISIBLE <==> k == |chain| - SeenCount(h, me, done)
  {
    var i := |chain| - 1 - k;
    VisibleVersion(chain[k], h, i, snap, me, done, next, all);
    hide TupleVisibilitySatisfy, Exact;
    var q := SeenCount(h, me, done);
    assert i < q ==> Saw(h[i], me, done);
    assert i + 1 < q ==> Saw(h[i + 1], me, done);
  }

  /** What the walk down a chain finds, and that no other version of the chain is visible. */
  lemma ChainRead(chain: seq<Version>, h: seq<Write>, snap: Snapshot, me: XTID, done: iset<XTID>, next: XTID, all: iset<XTID>)
    requires HistoryInv(h, next, all) && Faithful(chain, h) && snap.Valid() && Exact(snap, me, done) && SeesPrefix(h, me, done)
    ensures var q := SeenCount(h, me, done);
            var k := if 0 < q <= |chain| then |chain| - q else |chain|;
            && FirstVisible(chain, Some(snap), me) == (if k < |chain| then Some(chain[k]) else None)
            && forall i :: 0 <= i < |chain| ==> (TupleVisibilitySatisfy(chain[i], Some(snap), me) == TUPLE_VISIBLE <==> i == k)
  {
    hide HistoryInv, SeesPrefix, Exact, TupleVisibilitySatisfy;
    var q := SeenCount(h, me, done);
    var k := if 0 < q <= |chain| then |chain| - q else |chain|;
    forall i | 0 <= i < |chain| ensures TupleVisibilitySatisfy(chain[i], Some(snap), me) == TUPLE_VISIBLE <==> i == k {
      VisiblePosition(chain, h, snap, me, done, next, all, i);
    }
    FirstVisibleAt(chain, Some(snap), me, k);
  }

  /** The walk from the head over the undo positions returns exactly the value as of the reader's
      snapshot overlaid with its own writes, or nothing if the cell is deleted or not yet there for the reader. */
  lemma ReadIsAsOf(s: System, w: nat, c: CellId)
    requires Inv(s) && Ready(s, w) && c in s.hist
    ensures var r := Read(s, w, c);
            && (if r.Some? then Some(r.value.value) else None) == AsOf(s.hist[c], s.tx.slots[w].xid, s.seen[w])
            && forall v :: v in s.store.Chain(c) && TupleVisibilitySatisfy(v, Some(s.snaps[w]), s.tx.slots[w].xid) == TUPLE_VISIBLE ==> r == Some(v)
  {
    var h, me, done, chain := s.hist[c], s.tx.slots[w].xid, s.seen[w], s.store.Chain(c);
    assert CellInv(s, c) && WorkerInv(s, w);
    hide HistoryInv, SeesPrefix, Exact, TupleVisibilitySatisfy;
    ChainRead(chain, h, s.snaps[w], me, done, s.tx.next, FinishedSet(s.tx));
    AsOfLastSeen(h, me, done);
  }

  // ---------------------------------------------------------------- writing

  /** A version that may be replaced is the newest one, and the writer has seen every write before it. */
  lemma WritableIsHead(s: System, w: nat, c: CellId)
    requires Inv(s) && Ready(s, w) && Writable(s, w, c)
    ensures Read(s, w, c) == Some(s.store.heads[c])
    ensures var h := s.hist[c];
            h[|h| - 1].op.Put? && forall i :: 0 <= i < |h| ==> Saw(h[i], s.tx.slots[w].xid, s.seen[w])
  {
    var h, me, done, chain := s.hist[c], s.tx.slots[w].xid, s.seen[w], s.store.Chain(c);
    var snap := s.snaps[w];
    assert CellInv(s, c) && WorkerInv(s, w);
    hide ReadersInv, CellsInv, Exact, SeesPrefix, TupleVisibilitySatisfy;
    var v := Read(s, w, c).value;
    var k := FirstVisibleIndex(chain, Some(snap), me);
    VisiblePosition(chain, h, snap, me, done, s.tx.next, FinishedSet(s.tx), k);
    assert VersionOf(v, h, |chain| - 1 - k);
    var q := SeenCount(h, me, done);
    assert q == |h|;
    assert Saw(h[|h| - 1], me, done);
  }

  lemma {:induction false} FirstVisibleIndex(chain: seq<Version>, snap: Option<Snapshot>, me: XTID) returns (k: nat)
    requires snap.Some? ==> snap.value.Valid()
    requires FirstVisible(chain, snap, me).Some?
    ensures k < |chain| && FirstVisible(chain, snap, me) == Some(chain[k])
    ensures TupleVisibilitySatisfy(chain[k], snap, me) == TUPLE_VISIBLE
  {
    if TupleVisibilitySatisfy(chain[0], snap, me) == TUPLE_VISIBLE {
      k := 0;
    } else {
      k := FirstVisibleIndex(chain[1..], snap, me);
      k := k + 1;
    }
  }

  /** Appending the writer's own write keeps the history in order. */
  lemma HistoryGrows(h: seq<Write>, next: XTID, all: iset<XTID>, me: XTID, done: iset<XTID>, op: Op)
    requires HistoryInv(h, next, all) && h[|h| - 1].op.Put? && 1 <= me < next && done <= all
    requires forall i :: 0 <= i < |h| ==> Saw(h[i], me, done)
    ensures HistoryInv(h + [Write(me, op, done)], next, all)
    ensures SeesPrefix(h + [Write(me, op, done)], me, done)
  {
  }

  /** A running transaction's write is invisible to everyone else, so their view stays a prefix. */
  lemma PrefixKept(h: seq<Write>, wr: Write, me: XTID, done: iset<XTID>)
    requires SeesPrefix(h, me, done) && !Saw(wr, me, done)
    ensures SeesPrefix(h + [wr], me, done)
  {
  }

  /** Only cell c's chain differs, and the new one holds what the history says. */
  ghost predicate CellWrite(st: Store, t: Store, c: CellId, h: seq<Write>)
    requires st.Valid()
  {
    && t.Valid()
    && t.heads.Keys == st.heads.Keys + {c}
    && (forall d :: d in st.heads && d != c ==> t.Chain(d) == st.Chain(d))
    && Faithful(t.Chain(c), h)
  }

  lemma InsertFaithful(st: Store, c: CellId, value: Value, me: XTID, done: iset<XTID>)
    requires st.Valid() && c !in st.heads
    ensures CellWrite(st, st.Insert(c, value, me), c, [Write(me, Put(value), done)])
  {
  }

  lemma UpdateFaithful(st: Store, c: CellId, h: seq<Write>, value: Value, me: XTID, done: iset<XTID>)
    requires st.Valid() && c in st.heads && h != [] && h[|h| - 1].op.Put? && Faithful(st.Chain(c), h)
    ensures CellWrite(st, st.Update(c, st.heads[c], value, me), c, h + [Write(me, Put(value), done)])
  {
    var head := st.heads[c];
    var t := st.Update(c, head, value, me);
    UpdateChains(st, c, head, value, me);
    var g := h + [Write(me, Put(value), done)];
    forall k | 0 <= k < |t.Chain(c)|
      ensures VersionOf(t.Chain(c)[k], g, |t.Chain(c)| - 1 - k)
    {
      if k > 0 {
        assert VersionOf(st.Chain(c)[k - 1], h, |st.Chain(c)| - k);
      }
    }
  }

  /** An update puts the new version before the stamped copy and the versions older than it; other chains do not change. */
  lemma UpdateChains(st: Store, c: CellId, copy: Version, value: Value, me: XTID)
    requires st.Valid() && c in st.heads && LinkedInto(copy.undo, st.undo)
    ensures var t := st.Update(c, copy, value, me);
            && t.Valid()
            && t.Chain(c) == [t.heads[c], copy.(tmax := me)] + Older(st.undo, copy.undo)
            && forall d :: d in st.heads && d != c ==> t.Chain(d) == st.Chain(d)
  {
    var more := [copy.(tmax := me)];
    OlderGrows(st.undo, more, copy.undo);
    forall d | d in st.heads && d != c
      ensures Older(st.undo + more, st.heads[d].undo) == Older(st.undo, st.heads[d].undo)
    {
      OlderGrows(st.undo, more, st.heads[d].undo);
    }
  }

  lemma DeleteFaithful(st: Store, c: CellId, h: seq<Write>, me: XTID, done: iset<XTID>)
    requires st.Valid() && c in st.heads && h != [] && h[|h| - 1].op.Put? && Faithful(st.Chain(c), h)
    ensures CellWrite(st, st.Delete(c, st.heads[c], me), c, h + [Write(me, Del, done)])
  {
    var t := st.Delete(c, st.heads[c], me);
    var g := h + [Write(me, Del, done)];
    forall k | 0 <= k < |t.Chain(c)|
      ensures VersionOf(t.Chain(c)[k], g, |t.Chain(c)| - 1 - k)
    {
      assert VersionOf(st.Chain(c)[k], h, |st.Chain(c)| - 1 - k);
    }
  }

  // ---------------------------------------------------------------- every step keeps the invariant

  /** Steps on the transaction slots alone: readers that stay keep their id, and nothing finished comes back. */
  lemma TxStepInv(s: System, tx: TxState)
    requires Inv(s) && tx.Inv() && |tx.slots| == |s.tx.slots| && s.tx.next <= tx.next
    requires FinishedSet(s.tx) <= FinishedSet(tx)
    requires forall w: nat :: Ready(s.(tx := tx), w) ==> Ready(s, w) && tx.slots[w].xid == s.tx.slots[w].xid
    ensures Inv(s.(tx := tx))
  {
  }

  lemma CellsKept(s: System, t: System)
    requires Inv(s) && ShapeInv(t) && t.store == s.store && t.hist == s.hist && s.tx.next <= t.tx.next
    requires FinishedSet(s.tx) <= FinishedSet(t.tx)
    ensures CellsInv(t)
  {
  }

  lemma SnapInv(s: System, w: nat)
    requires Inv(s) && Allowed(s, Snap(w))
    ensures Inv(Apply(s, Snap(w)))
  {
    var t := Apply(s, Snap(w));
    if t != s {
      MarkSnapshotInv(s.tx, w);
      assert FinishedSet(t.tx) == FinishedSet(s.tx);
      assert ShapeInv(t);
      CellsKept(s, t);
      SnapshotExactness(s.tx, w, s.snaps[w].cells);
      assert forall v: nat :: v != w && Ready(t, v) ==> Ready(s, v) && WorkerInv(s, v);
      SnapViews(s, t, w);
    }
  }

  /** A snapshot keeps the invariant if and only if it skips no running id below its upper limit. */
  lemma SnapKeepsInv(s: System, w: nat)
    requires Inv(s) && w < |s.snaps| && s.tx.attached[w] && (s.repeatable ==> !s.tx.slots[w].snapshot)
    ensures Inv(Apply(s, Snap(w))) <==> Complete(s.tx, w, s.snaps[w].cells)
  {
    var t := Apply(s, Snap(w));
    if Complete(s.tx, w, s.snaps[w].cells) {
      SnapInv(s, w);
    } else {
      SnapshotExactness(s.tx, w, s.snaps[w].cells);
      assert Ready(t, w) && !WorkerInv(t, w);
    }
  }

  lemma SnapViews(s: System, t: System, w: nat)
    requires Inv(s) && t.hist == s.hist && |t.seen| == |s.seen| && w < |s.seen|
    requires t.seen[w] == FinishedSet(s.tx)
    requires forall v: nat :: v != w && Ready(t, v) ==> Ready(s, v) && t.tx.slots[v].xid == s.tx.slots[v].xid && t.seen[v] == s.seen[v]
    ensures ViewsInv(t)
  {
  }

  /** A step that changes one cell only: every reader still sees a prefix of its new history. */
  lemma CellStepInv(s: System, c: CellId, h: seq<Write>, st: Store)
    requires Inv(s)
    requires CellWrite(s.store, st, c, h) && HistoryInv(h, s.tx.next, FinishedSet(s.tx))
    requires forall v: nat :: Ready(s, v) ==> SeesPrefix(h, s.tx.slots[v].xid, s.seen[v])
    ensures Inv(s.(store := st, hist := s.hist[c := h]))
  {
    var t := s.(store := st, hist := s.hist[c := h]);
    SameReaders(s, t);
    CellStepCells(s, c, h, st, t);
  }

  lemma SameReaders(s: System, t: System)
    requires ReadersInv(s) && t.tx == s.tx && t.snaps == s.snaps && t.seen == s.seen
    ensures ReadersInv(t) && forall v: nat :: Ready(t, v) <==> Ready(s, v)
  {
    assert forall v: nat :: Ready(t, v) ==> WorkerInv(s, v);
  }

  lemma CellStepCells(s: System, c: CellId, h: seq<Write>, st: Store, t: System)
    requires ShapeInv(s) && CellsInv(s)
    requires CellWrite(s.store, st, c, h) && HistoryInv(h, s.tx.next, FinishedSet(s.tx))
    requires ShapeInv(t) && t.tx == s.tx && t.store == st && t.hist == s.hist[c := h]
    ensures CellsInv(t)
  {
  }

  lemma InsertInv(s: System, w: nat, c: CellId, value: Value)
    requires Inv(s) && Ready(s, w) && c !in s.store.heads
    ensures Inv(s.(store := s.store.Insert(c, value, s.tx.slots[w].xid), hist := s.hist[c := [Write(s.tx.slots[w].xid, Put(value), s.seen[w])]]))
  {
    var me := s.tx.slots[w].xid;
    assert WorkerInv(s, w);
    InsertFaithful(s.store, c, value, me, s.seen[w]);
    CellStepInv(s, c, [Write(me, Put(value), s.seen[w])], s.store.Insert(c, value, me));
  }

  /** A write by a ready worker, given that the new store holds what the new history says. */
  lemma WriteInv(s: System, w: nat, c: CellId, op: Op, st: Store)
    requires Inv(s) && Ready(s, w) && Writable(s, w, c)
    requires CellWrite(s.store, st, c, s.hist[c] + [Write(s.tx.slots[w].xid, op, s.seen[w])])
    ensures Inv(s.(store := st, hist := s.hist[c := s.hist[c] + [Write(s.tx.slots[w].xid, op, s.seen[w])]]))
  {
    var me, done, h := s.tx.slots[w].xid, s.seen[w], s.hist[c];
    var wr := Write(me, op, done);
    assert HistoryInv(h + [wr], s.tx.next, FinishedSet(s.tx)) && SeesPrefix(h + [wr], me, done) by {
      assert WorkerInv(s, w) && CellInv(s, c);
      WritableIsHead(s, w, c);
      HistoryGrows(h, s.tx.next, FinishedSet(s.tx), me, done, op);
    }
    forall v: nat | Ready(s, v)
      ensures SeesPrefix(h + [wr], s.tx.slots[v].xid, s.seen[v])
    {
      if v != w {
        OthersDoNotSee(s, w, v, wr);
        PrefixKept(h, wr, s.tx.slots[v].xid, s.seen[v]);
      }
    }
    CellStepInv(s, c, h + [wr], st);
  }

  /** What a running transaction writes is seen by no other reader. */
  lemma OthersDoNotSee(s: System, w: nat, v: nat, wr: Write)
    requires Inv(s) && Ready(s, w) && Ready(s, v) && v != w && wr.xid == s.tx.slots[w].xid
    ensures !Saw(wr, s.tx.slots[v].xid, s.seen[v])
  {
  }

  lemma UpdateInv(s: System, w: nat, c: CellId, value: Value)
    requires Inv(s) && Ready(s, w) && Writable(s, w, c)
    ensures Read(s, w, c) == Some(s.store.heads[c])
    ensures Inv(ApplyUpdate(s, w, c, s.store.heads[c], value))
  {
    var me, head := s.tx.slots[w].xid, s.store.heads[c];
    WritableIsHead(s, w, c);
    assert CellInv(s, c);
    UpdateFaithful(s.store, c, s.hist[c], value, me, s.seen[w]);
    WriteInv(s, w, c, Put(value), s.store.Update(c, head, value, me));
  }

  lemma DeleteInv(s: System, w: nat, c: CellId)
    requires Inv(s) && Ready(s, w) && Writable(s, w, c)
    ensures Read(s, w, c) == Some(s.store.heads[c])
    ensures Inv(ApplyDelete(s, w, c, s.store.heads[c]))
  {
    WritableIsHead(s, w, c);
    assert CellInv(s, c);
    DeleteFaithful(s.store, c, s.hist[c], s.tx.slots[w].xid, s.seen[w]);
    WriteInv(s, w, c, Del, s.store.Delete(c, s.store.heads[c], s.tx.slots[w].xid));
  }

  lemma SessionInv(s: System, w: nat)
    requires Inv(s) && Allowed(s, NewSession(w))
    ensures Inv(Apply(s, NewSession(w)))
  {
    hide HistoryInv, SeesPrefix, Faithful, Exact;
    var t := Apply(s, NewSession(w));
    assert forall v: nat :: Ready(t, v) ==> Ready(s, v) && WorkerInv(s, v) && v != w;
    CellsKept(s, t);
  }

  lemma SlotStepInv(s: System, step: Step)
    requires Inv(s) && Allowed(s, step)
    requires step.StartT? || step.BeginT? || step.EndT? || step.AbortT? || step.FinishT?
    ensures Inv(Apply(s, step))
  {
    var tx := Apply(s, step).tx;
    match step {
      case StartT(w) => StartInv(s.tx, w);
      case BeginT(w) => BeginInv(s.tx, w);
      case EndT(w) => ResolveInv(s.tx, w, TS_COMMIT);
      case AbortT(w) => ResolveInv(s.tx, w, TS_ABORT);
      case FinishT(w) => FinishInv(s.tx, w);
    }
    assert Apply(s, step) == s.(tx := tx);
    TxStepInv(s, tx);
  }

  /** Every allowed step keeps the invariant. */
  lemma StepInv(s: System, step: Step)
    requires Inv(s) && Allowed(s, step)
    ensures Inv(Apply(s, step))
  {
    match step
    case NewSession(w) => SessionInv(s, w);
    case Snap(w) => SnapInv(s, w);
    case InsertCell(w, c, value) => if Ready(s, w) && c !in s.store.heads { InsertInv(s, w, c, value); }
    case UpdateCell(w, c, value) => if Ready(s, w) && Writable(s, w, c) { UpdateInv(s, w, c, value); }
    case DeleteCell(w, c) => if Ready(s, w) && Writable(s, w, c) { DeleteInv(s, w, c); }
    case _ => SlotStepInv(s, step);
  }

  // ---------------------------------------------------------------- whole runs

  /** The state after a run of steps, or None if some step was not allowed. */
  ghost function Exec(s: System, steps: seq<Step>): (t: Option<System>)
    requires Inv(s)
    ensures t.Some? ==> Inv(t.value)
  {
    if steps == [] then Some(s)
    else
      var n := |steps| - 1;
      var r := Exec(s, steps[..n]);
      if r.Some? && Allowed(r.value, steps[n]) then
        StepInv(r.value, steps[n]);
        Some(Apply(r.value, steps[n]))
      else None
  }

  ghost predicate Reachable(s: System) {
    exists workers, repeatable, steps :: ReachedBy(s, workers, repeatable, steps)
  }

  ghost predicate ReachedBy(s: System, workers: nat, repeatable: bool, steps: seq<Step>) {
    Inv(Init(workers, repeatable)) && Exec(Init(workers, repeatable), steps) == Some(s)
  }

  /** In every reachable state a reader gets the value as of its snapshot overlaid with its own writes. */
  lemma ReachableReads(s: System, w: nat, c: CellId)
    requires Reachable(s) && Ready(s, w) && c in s.hist
    ensures Inv(s)
    ensures var r := Read(s, w, c);
            (if r.Some? then Some(r.value.value) else None) == AsOf(s.hist[c], s.tx.slots[w].xid, s.seen[w])
  {
    var workers, repeatable, steps :| ReachedBy(s, workers, repeatable, steps);
    ReadIsAsOf(s, w, c);
  }

  /** In every reachable state each snapshot in use tells apart exactly what had finished when it was taken. */
  lemma ReachableSnapshots(s: System, w: nat)
    requires Reachable(s) && Ready(s, w)
    ensures Exact(s.snaps[w], s.tx.slots[w].xid, s.seen[w])
  {
    var workers, repeatable, steps :| ReachedBy(s, workers, repeatable, steps);
    assert WorkerInv(s, w);
  }

  lemma WritersFollow(chain: seq<Version>, h: seq<Write>, next: XTID, all: iset<XTID>)
    requires HistoryInv(h, next, all) && Faithful(chain, h)
    ensures Serial(h)
    ensures forall i, k :: 0 <= i && k == i + 1 && k < |chain| ==> chain[k].tmax == chain[i].tmin != INVALID_XTID
  {
    forall i, k | 0 <= i && k == i + 1 && k < |chain|
      ensures chain[k].tmax == chain[i].tmin != INVALID_XTID
    {
      assert VersionOf(chain[k], h, |chain| - 1 - k) && VersionOf(chain[i], h, |chain| - 1 - i);
    }
  }

  /** In every reachable state the writers of a cell follow one another: no two transactions that
      overlap both succeed in writing it. The chain is stamped accordingly. */
  lemma ReachableWriters(s: System, c: CellId)
    requires Reachable(s) && c in s.hist
    ensures Serial(s.hist[c])
    ensures Inv(s) && var chain := s.store.Chain(c);
            forall i, k :: 0 <= i && k == i + 1 && k < |chain| ==> chain[k].tmax == chain[i].tmin != INVALID_XTID
  {
    var workers, repeatable, steps :| ReachedBy(s, workers, repeatable, steps);
    assert CellInv(s, c);
    hide HistoryInv, Faithful, Serial;
    WritersFollow(s.store.Chain(c), s.hist[c], s.tx.next, FinishedSet(s.tx));
  }

  // ---------------------------------------------------------------- repeatable reads

  function Actor(step: Step): nat {
    step.w
  }

  ghost function ViewOf(s: System, w: nat, c: CellId): Option<Value>
    requires Ready(s, w)
  {
    if c in s.hist then AsOf(s.hist[c], s.tx.slots[w].xid, s.seen[w]) else None
  }

  /** What has finished stays finished. */
  lemma FinishedStays(s: System, step: Step, x: XTID)
    requires Inv(s) && Allowed(s, step) && s.tx.Finished(x)
    ensures Apply(s, step).tx.Finished(x)
  {
    hide ReadersInv, CellsInv, ViewsInv, Start, Begin, Resolve, Finish, MarkSnapshot, Writable;
    match step
    case StartT(w) => StartInv(s.tx, w);
    case BeginT(w) => BeginInv(s.tx, w);
    case EndT(w) => ResolveInv(s.tx, w, TS_COMMIT);
    case AbortT(w) => ResolveInv(s.tx, w, TS_ABORT);
    case FinishT(w) => FinishInv(s.tx, w);
    case Snap(w) => MarkSnapshotInv(s.tx, w);
    case _ =>
  }

  /** Under repeatable read a reader keeps its id and its snapshot through every step that does not finish it: those of
      others, its own reads, writes and the end of its block, and the finish at the end of each of its statements,
      which does nothing while the block is open. */
  lemma ReaderKept(s: System, step: Step, w: nat)
    requires Inv(s) && Ready(s, w) && Allowed(s, step)
    requires !Apply(s, step).tx.Finished(s.tx.slots[w].xid) && (step == Snap(w) ==> s.repeatable)
    ensures var t := Apply(s, step);
            && Ready(t, w) && t.tx.slots[w].xid == s.tx.slots[w].xid && t.snaps[w] == s.snaps[w] && t.seen[w] == s.seen[w]
            && t.repeatable == s.repeatable
  {
    if step == FinishT(w) {
      FinishInv(s.tx, w);
    }
    ReaderSteps(s, step, w);
  }

  lemma ReaderSteps(s: System, step: Step, w: nat)
    requires Inv(s) && Ready(s, w) && Allowed(s, step) && (step == Snap(w) ==> s.repeatable)
    requires step == FinishT(w) ==> s.tx.slots[w].ts !in {TS_START, TS_COMMIT, TS_ABORT}
    ensures var t := Apply(s, step);
            && Ready(t, w) && t.tx.slots[w].xid == s.tx.slots[w].xid && t.snaps[w] == s.snaps[w] && t.seen[w] == s.seen[w]
            && t.repeatable == s.repeatable
  {
    hide ReadersInv, CellsInv, ViewsInv, Writable, ApplyUpdate, ApplyDelete;
    if step.UpdateCell? || step.DeleteCell? {
      WriteKeepsReaders(s, step, w);
    }
  }

  lemma WriteKeepsReaders(s: System, step: Step, w: nat)
    requires Inv(s) && (step.UpdateCell? || step.DeleteCell?)
    ensures var t := Apply(s, step); t == s.(store := t.store, hist := t.hist)
  {
  }

  /** A step appends at most one write to a history, by a transaction that was running when the step began. */
  lemma HistoryStep(s: System, step: Step, c: CellId)
    requires Inv(s)
    ensures var t := Apply(s, step);
            var h := if c in s.hist then s.hist[c] else [];
            if c !in t.hist then c !in s.hist
            else t.hist[c] == h || (Ready(s, Actor(step)) && exists wr: Write :: wr.xid == s.tx.slots[Actor(step)].xid && t.hist[c] == h + [wr])
  {
    hide ReadersInv, CellsInv, ViewsInv, Start, Begin, Resolve, Finish, Take, MarkSnapshot;
  }

  predicate Writes(step: Step) {
    step.InsertCell? || step.UpdateCell? || step.DeleteCell?
  }

  /** A step of another worker, or one of its own that writes nothing and does not finish it, leaves worker w's view alone. */
  lemma ViewKept(s: System, step: Step, w: nat, c: CellId)
    requires Inv(s) && Ready(s, w) && Allowed(s, step)
    requires !Apply(s, step).tx.Finished(s.tx.slots[w].xid) && (step == Snap(w) ==> s.repeatable)
    requires Actor(step) == w ==> !Writes(step)
    ensures Ready(Apply(s, step), w) && ViewOf(Apply(s, step), w, c) == ViewOf(s, w, c)
  {
    hide ReadersInv, CellsInv, ViewsInv;
    ReaderKept(s, step, w);
    var t := Apply(s, step);
    var h := if c in s.hist then s.hist[c] else [];
    assert !Writes(step) ==> t.hist == s.hist;
    hide Apply;
    HistoryStep(s, step, c);
    if c in t.hist && t.hist[c] != h {
      var wr: Write :| wr.xid == s.tx.slots[Actor(step)].xid && t.hist[c] == h + [wr];
      OthersDoNotSee(s, Actor(step), w, wr);
      var g := t.hist[c];
      assert g[..|g| - 1] == h && g[|g| - 1] == wr;
      assert AsOf(g, s.tx.slots[w].xid, s.seen[w]) == AsOf(h, s.tx.slots[w].xid, s.seen[w]);
    }
  }

  ghost function ReadValue(s: System, w: nat, c: CellId): Option<Value>
    requires Inv(s) && Ready(s, w)
  {
    var r := Read(s, w, c);
    if r.Some? then Some(r.value.value) else None
  }

  lemma ReadIsView(s: System, w: nat, c: CellId)
    requires Inv(s) && Ready(s, w)
    ensures ReadValue(s, w, c) == ViewOf(s, w, c)
  {
    if c in s.hist {
      ReadIsAsOf(s, w, c);
    }
  }

  /** Over any run of a repeatable-read transaction, as long as it has not finished, its snapshot stays what it was, and
      so does how it tells every id apart; what it reads of a cell is the cell's history by then, as of the start of the
      run, overlaid with its own writes. The run may hold any number of its statements. */
  lemma {:induction false} ReadsUntilFinish(s: System, steps: seq<Step>, w: nat, c: CellId)
    requires Inv(s) && s.repeatable && Ready(s, w) && Exec(s, steps).Some?
    requires !Exec(s, steps).value.tx.Finished(s.tx.slots[w].xid)
    ensures var t := Exec(s, steps).value;
            && Ready(t, w) && t.repeatable && t.tx.slots[w].xid == s.tx.slots[w].xid
            && t.snaps[w] == s.snaps[w] && t.seen[w] == s.seen[w]
            && ReadValue(t, w, c) == if c in t.hist then AsOf(t.hist[c], s.tx.slots[w].xid, s.seen[w]) else None
  {
    hide ReadersInv, CellsInv, ViewsInv, Apply;
    if steps != [] {
      var n := |steps| - 1;
      var before := Exec(s, steps[..n]).value;
      NotFinishedBefore(before, steps[n], s.tx.slots[w].xid);
      ReadsUntilFinish(s, steps[..n], w, c);
      ReaderKept(before, steps[n], w);
    }
    ReadIsView(Exec(s, steps).value, w, c);
  }

  lemma NotFinishedBefore(s: System, step: Step, x: XTID)
    requires Inv(s) && Allowed(s, step) && !Apply(s, step).tx.Finished(x)
    ensures !s.tx.Finished(x)
  {
    if s.tx.Finished(x) {
      FinishedStays(s, step, x);
    }
  }

  /** As long as it writes nothing itself and has not finished, a repeatable-read transaction reads the same value for a
      cell again and again, whatever others do in between, and however many statements it takes. */
  lemma {:induction false} RepeatableReads(s: System, steps: seq<Step>, w: nat, c: CellId)
    requires Inv(s) && s.repeatable && Ready(s, w) && Exec(s, steps).Some?
    requires !Exec(s, steps).value.tx.Finished(s.tx.slots[w].xid)
    requires forall i :: 0 <= i < |steps| ==> Actor(steps[i]) == w ==> !Writes(steps[i])
    ensures Ready(Exec(s, steps).value, w)
    ensures ReadValue(Exec(s, steps).value, w, c) == ReadValue(s, w, c)
  {
    hide ReadersInv, CellsInv, ViewsInv, Apply;
    if steps != [] {
      var n := |steps| - 1;
      var before := Exec(s, steps[..n]).value;
      NotFinishedBefore(before, steps[n], s.tx.slots[w].xid);
      RepeatableReads(s, steps[..n], w, c);
      ReadsUntilFinish(s, steps[..n], w, c);
      ViewKept(before, steps[n], w, c);
      ReadIsView(before, w, c);
      ReadIsView(Exec(s, steps).value, w, c);
    }
  }

  /** A block stays open, and its id runs on, until its own worker ends or aborts it. */
  lemma {:induction false} OpenUntilResolved(s: System, steps: seq<Step>, w: nat)
    requires Inv(s) && w < |s.tx.slots| && s.tx.slots[w].ts == TS_BEGIN && Exec(s, steps).Some?
    requires EndT(w) !in steps && AbortT(w) !in steps
    ensures var t := Exec(s, steps).value;
            && w < |t.tx.slots| && t.tx.slots[w].ts == TS_BEGIN && t.tx.slots[w].xid == s.tx.slots[w].xid
            && t.tx.Running(s.tx.slots[w].xid)
  {
    hide ReadersInv, CellsInv, ViewsInv;
    if steps != [] {
      var n := |steps| - 1;
      OpenUntilResolved(s, steps[..n], w);
      StaysOpen(Exec(s, steps[..n]).value, steps[n], w);
    }
  }

  lemma StaysOpen(s: System, step: Step, w: nat)
    requires Inv(s) && w < |s.tx.slots| && s.tx.slots[w].ts == TS_BEGIN
    requires step != EndT(w) && step != AbortT(w)
    ensures var t := Apply(s, step); w < |t.tx.slots| && t.tx.slots[w].ts == TS_BEGIN && t.tx.slots[w].xid == s.tx.slots[w].xid
  {
    hide ReadersInv, CellsInv, ViewsInv, Writable, ApplyUpdate, ApplyDelete;
    if step.UpdateCell? || step.DeleteCell? {
      WriteKeepsReaders(s, step, w);
    }
  }

  // ---------------------------------------------------------------- reading what was written

  /** A cell may be written by a worker exactly when its last write was a put that the worker sees. */
  lemma WritableExactly(s: System, w: nat, c: CellId)
    requires Inv(s) && Ready(s, w) && c in s.hist && s.hist[c] != []
    ensures var last := s.hist[c][|s.hist[c]| - 1];
            Writable(s, w, c) <==> last.op.Put? && Saw(last, s.tx.slots[w].xid, s.seen[w])
  {
    var h := s.hist[c];
    if Writable(s, w, c) {
      WritableIsHead(s, w, c);
    }
    if h[|h| - 1].op.Put? && Saw(h[|h| - 1], s.tx.slots[w].xid, s.seen[w]) {
      assert CellInv(s, c) && WorkerInv(s, w);
      var head := s.store.Chain(c)[0];
      assert VersionOf(head, h, |h| - 1);
      VisibleVersion(head, h, |h| - 1, s.snaps[w], s.tx.slots[w].xid, s.seen[w], s.tx.next, FinishedSet(s.tx));
    }
  }

  /** What a worker inserts, updates or deletes is what it then reads, and every other cell reads as before. */
  lemma InsertIsRead(s: System, w: nat, c: CellId, value: Value, d: CellId)
    requires Inv(s) && Ready(s, w) && c !in s.store.heads
    ensures var t := Apply(s, InsertCell(w, c, value));
            Inv(t) && Ready(t, w) && ReadValue(t, w, d) == if d == c then Some(value) else ReadValue(s, w, d)
  {
    StepInv(s, InsertCell(w, c, value));
    OwnWriteIsRead(s, Apply(s, InsertCell(w, c, value)), w, c, d);
  }

  lemma UpdateIsRead(s: System, w: nat, c: CellId, value: Value, d: CellId)
    requires Inv(s) && Ready(s, w) && Writable(s, w, c)
    ensures var t := Apply(s, UpdateCell(w, c, value));
            Inv(t) && Ready(t, w) && ReadValue(t, w, d) == if d == c then Some(value) else ReadValue(s, w, d)
  {
    WriteShape(s, w, c, UpdateCell(w, c, value));
    StepInv(s, UpdateCell(w, c, value));
    hide Inv, Apply, Writable;
    OwnWriteIsRead(s, Apply(s, UpdateCell(w, c, value)), w, c, d);
  }

  lemma DeleteIsRead(s: System, w: nat, c: CellId, d: CellId)
    requires Inv(s) && Ready(s, w) && Writable(s, w, c)
    ensures var t := Apply(s, DeleteCell(w, c));
            Inv(t) && Ready(t, w) && ReadValue(t, w, d) == if d == c then None else ReadValue(s, w, d)
  {
    WriteShape(s, w, c, DeleteCell(w, c));
    StepInv(s, DeleteCell(w, c));
    hide Inv, Apply, Writable;
    OwnWriteIsRead(s, Apply(s, DeleteCell(w, c)), w, c, d);
  }

  lemma WriteShape(s: System, w: nat, c: CellId, write: Step)
    requires Inv(s) && Ready(s, w) && Writable(s, w, c)
    requires (write.UpdateCell? || write.DeleteCell?) && write.w == w && write.c == c
    ensures var t := Apply(s, write);
            && Ready(t, w) && t.tx == s.tx && t.seen == s.seen && c in t.hist && t.hist[c] != [] && t.hist == s.hist[c := t.hist[c]]
            && var last := t.hist[c][|t.hist[c]| - 1];
            last.xid == s.tx.slots[w].xid && last.op == if write.UpdateCell? then Put(write.value) else Del
  {
    hide ReadersInv, CellsInv, ViewsInv, Writable, Read;
  }

  /** A worker sees the write it appended. */
  lemma OwnWriteIsRead(s: System, t: System, w: nat, c: CellId, d: CellId)
    requires Inv(s) && Ready(s, w) && Inv(t) && Ready(t, w) && t.tx == s.tx && t.seen == s.seen
    requires c in t.hist && t.hist[c] != [] && t.hist == s.hist[c := t.hist[c]] && t.hist[c][|t.hist[c]| - 1].xid == s.tx.slots[w].xid
    ensures var last := t.hist[c][|t.hist[c]| - 1].op;
            ReadValue(t, w, d) == if d != c then ReadValue(s, w, d) else if last.Put? then Some(last.value) else None
  {
    ReadIsView(s, w, d);
    ReadIsView(t, w, d);
  }

  predicate WritesCell(step: Step, c: CellId) {
    (step.InsertCell? || step.UpdateCell? || step.DeleteCell?) && step.c == c
  }

  lemma StepWritesNot(s: System, step: Step, c: CellId)
    requires Inv(s) && c in s.hist && !WritesCell(step, c)
    ensures var t := Apply(s, step); c in t.hist && t.hist[c] == s.hist[c]
  {
    hide ReadersInv, CellsInv, ViewsInv, Writable, Read, Start, Begin, Resolve, Finish, Take, MarkSnapshot;
  }

  lemma {:induction false} NotWritten(s: System, steps: seq<Step>, c: CellId)
    requires Inv(s) && c in s.hist && Exec(s, steps).Some? && forall i :: 0 <= i < |steps| ==> !WritesCell(steps[i], c)
    ensures var t := Exec(s, steps).value; c in t.hist && t.hist[c] == s.hist[c]
  {
    hide Inv, Apply, Allowed;
    if steps != [] {
      var n := |steps| - 1;
      NotWritten(s, steps[..n], c);
      StepWritesNot(Exec(s, steps[..n]).value, steps[n], c);
    }
  }

  /** The value a writer leaves behind: after any run that does not write the cell and in which the writer has finished,
      whoever takes a snapshot reads it. */
  lemma WrittenIsReadLater(s: System, w: nat, c: CellId, write: Step, steps: seq<Step>, v: nat)
    requires Inv(s) && Ready(s, w) && write.w == w
    requires (write.InsertCell? && c == write.c && c !in s.store.heads) || ((write.UpdateCell? || write.DeleteCell?) && write.c == c && Writable(s, w, c))
    requires Inv(Apply(s, write)) && Exec(Apply(s, write), steps).Some? && forall i :: 0 <= i < |steps| ==> !WritesCell(steps[i], c)
    requires var m := Exec(Apply(s, write), steps).value;
             && m.tx.Finished(s.tx.slots[w].xid) && v < |m.snaps| && m.tx.attached[v] && (m.repeatable ==> !m.tx.slots[v].snapshot)
             && Allowed(m, Snap(v))
    ensures var u := Apply(Exec(Apply(s, write), steps).value, Snap(v));
            Inv(u) && Ready(u, v) && ReadValue(u, v, c) == if write.DeleteCell? then None else Some(write.value)
  {
    var t := Apply(s, write);
    var m := Exec(t, steps).value;
    match write {
      case InsertCell(_, _, value) => InsertIsRead(s, w, c, value, c);
      case UpdateCell(_, _, value) => UpdateIsRead(s, w, c, value, c);
      case DeleteCell(_, _) => DeleteIsRead(s, w, c, c);
    }
    LastWrite(s, w, c, write);
    hide Inv, Apply, Exec, Writable, Allowed;
    NotWritten(t, steps, c);
    SnapShape(m, v);
    ReadIsView(t, w, c);
    ReadIsView(Apply(m, Snap(v)), v, c);
  }

  lemma SnapShape(s: System, v: nat)
    requires Inv(s) && v < |s.snaps| && s.tx.attached[v] && (s.repeatable ==> !s.tx.slots[v].snapshot) && Allowed(s, Snap(v))
    ensures var u := Apply(s, Snap(v)); Inv(u) && Ready(u, v) && u.hist == s.hist && u.seen[v] == FinishedSet(s.tx)
  {
    StepInv(s, Snap(v));
  }

  lemma LastWrite(s: System, w: nat, c: CellId, write: Step)
    requires Inv(s) && Ready(s, w) && write.w == w
    requires (write.InsertCell? && c == write.c && c !in s.store.heads) || ((write.UpdateCell? || write.DeleteCell?) && write.c == c && Writable(s, w, c))
    ensures var t := Apply(s, write);
            && t.tx == s.tx && t.seen == s.seen && c in t.hist && t.hist[c] != []
            && var last := t.hist[c][|t.hist[c]| - 1];
            last.xid == s.tx.slots[w].xid && last.op == if write.DeleteCell? then Del else Put(write.value)
  {
    if !write.InsertCell? {
      WriteShape(s, w, c, write);
    }
  }

  // ---------------------------------------------------------------- writing what was scanned earlier

  /** The copy a scan returned when the cell had seen k writes, the k-th being a put: the head of that time. */
  ghost predicate ScannedAfter(st: Store, c: CellId, h: seq<Write>, copy: Version, k: nat) {
    && st.Valid() && LinkedInto(copy.undo, st.undo)
    && 1 <= k <= |h| && h[k - 1].op.Put?
    && Faithful([copy] + Older(st.undo, copy.undo), h[..k])
  }

  lemma CopyChain(st: Store, c: CellId, h: seq<Write>, copy: Version, k: nat, value: Value, me: XTID, done: iset<XTID>)
    requires st.Valid() && c in st.heads && ScannedAfter(st, c, h, copy, k)
    ensures copy.tmax == INVALID_XTID && copy.tmin == h[k - 1].xid
    ensures var t := st.Update(c, copy, value, me);
            t.Valid() && (Faithful(t.Chain(c), h + [Write(me, Put(value), done)]) <==> k == |h|)
  {
    var was := [copy] + Older(st.undo, copy.undo);
    assert VersionOf(was[0], h[..k], k - 1);
    UpdateChains(st, c, copy, value, me);
    var chain := st.Update(c, copy, value, me).Chain(c);
    var g := h + [Write(me, Put(value), done)];
    assert |was| == k && |chain| == k + 1 && Puts(g) == |h| + 1;
    if k == |h| {
      forall j | 0 <= j < |chain|
        ensures VersionOf(chain[j], g, |chain| - 1 - j)
      {
        if j > 0 {
          assert VersionOf(was[j - 1], h[..k], k - j);
        }
      }
    }
  }

  /** The update check reads the scanned copy, never the current head: it accepts the copy even if the cell has
      moved on since. The new chain then holds what the history says if and only if the cell was not written in between. */
  lemma UpdateFromCopy(s: System, w: nat, c: CellId, copy: Version, k: nat, value: Value)
    requires Inv(s) && Ready(s, w) && c in s.hist && ScannedAfter(s.store, c, s.hist[c], copy, k)
    ensures TupleUpdateSatisfy(copy, s.tx.slots[w].xid) == TU_OK
    ensures var t := ApplyUpdate(s, w, c, copy, value);
            && t.store.Valid()
            && (Faithful(t.store.Chain(c), t.hist[c]) <==> k == |s.hist[c]|)
  {
    CopyChain(s.store, c, s.hist[c], copy, k, value, s.tx.slots[w].xid, s.seen[w]);
    assert CellInv(s, c);
    assert 1 <= s.hist[c][k - 1].xid < s.tx.next;
  }

  /** Likewise for a delete, which writes the scanned copy itself over the current head. */
  lemma DeleteFromCopy(s: System, w: nat, c: CellId, copy: Version, k: nat)
    requires Inv(s) && Ready(s, w) && c in s.hist && ScannedAfter(s.store, c, s.hist[c], copy, k)
    ensures TupleUpdateSatisfy(copy, s.tx.slots[w].xid) == TU_OK
    ensures var t := ApplyDelete(s, w, c, copy);
            && t.store.Valid()
            && (Faithful(t.store.Chain(c), t.hist[c]) <==> k == |s.hist[c]|)
  {
    CopyDeleted(s.store, c, s.hist[c], copy, k, s.tx.slots[w].xid, s.seen[w]);
    assert CellInv(s, c);
    assert 1 <= s.hist[c][k - 1].xid < s.tx.next;
  }

  lemma CopyDeleted(st: Store, c: CellId, h: seq<Write>, copy: Version, k: nat, me: XTID, done: iset<XTID>)
    requires st.Valid() && c in st.heads && ScannedAfter(st, c, h, copy, k)
    ensures copy.tmax == INVALID_XTID && copy.tmin == h[k - 1].xid
    ensures var t := st.Delete(c, copy, me);
            t.Valid() && (Faithful(t.Chain(c), h + [Write(me, Del, done)]) <==> k == |h|)
  {
    var was := [copy] + Older(st.undo, copy.undo);
    assert VersionOf(was[0], h[..k], k - 1);
    var chain := st.Delete(c, copy, me).Chain(c);
    var g := h + [Write(me, Del, done)];
    assert |was| == k && |chain| == k && Puts(g) == |h|;
    if k == |h| {
      forall j | 0 <= j < |chain|
        ensures VersionOf(chain[j], g, |chain| - 1 - j)
      {
        assert VersionOf(was[j], h[..k], k - 1 - j);
      }
    }
  }

  /** The head of c now, against the copy that was scanned when the undo area had n entries: unchanged, or
      recognisably another version. */
  ghost predicate Aged(t: System, c: CellId, copy: Version, n: nat, k: nat)
    requires c in t.hist && c in t.store.heads
  {
    var head := t.store.heads[c];
    if |t.hist[c]| == k then head == copy
    else |t.hist[c]| > k && (head.tmax != INVALID_XTID || (head.undo.Some? && head.undo.value >= n))
  }

  lemma StepAges(t: System, step: Step, c: CellId, copy: Version, n: nat, k: nat)
    requires Inv(t) && Allowed(t, step) && c in t.hist && n <= |t.store.undo| && Aged(t, c, copy, n, k)
    ensures var u := Apply(t, step);
            && c in u.hist && c in u.store.heads && t.store.undo <= u.store.undo && t.hist[c] <= u.hist[c]
            && Aged(u, c, copy, n, k)
  {
    hide ReadersInv, CellsInv, ViewsInv, Writable, Read, Start, Begin, Resolve, Finish, Take, MarkSnapshot;
  }

  lemma {:induction false} RunAges(s: System, steps: seq<Step>, c: CellId)
    requires Inv(s) && c in s.hist && Exec(s, steps).Some?
    ensures var t := Exec(s, steps).value;
            && c in t.hist && c in t.store.heads && s.store.undo <= t.store.undo && s.hist[c] <= t.hist[c]
            && Aged(t, c, s.store.heads[c], |s.store.undo|, |s.hist[c]|)
  {
    hide ReadersInv, CellsInv, ViewsInv;
    if steps != [] {
      var n := |steps| - 1;
      RunAges(s, steps[..n], c);
      StepAges(Exec(s, steps[..n]).value, steps[n], c, s.store.heads[c], |s.store.undo|, |s.hist[c]|);
    }
  }

  lemma CopyRemains(was: Store, now: Store, c: CellId, h: seq<Write>, g: seq<Write>)
    requires was.Valid() && now.Valid() && was.undo <= now.undo && c in was.heads
    requires h != [] && h[|h| - 1].op.Put? && Faithful(was.Chain(c), h) && h <= g
    ensures ScannedAfter(now, c, g, was.heads[c], |h|) && was.heads[c].tmax == INVALID_XTID
  {
    assert VersionOf(was.Chain(c)[0], h, |h| - 1);
    assert now.undo == was.undo + now.undo[|was.undo|..];
    OlderGrows(was.undo, now.undo[|was.undo|..], was.heads[c].undo);
    assert g[..|h|] == h;
  }

  /** A copy scanned in one state is, in every later one, the copy of a head of that time; and the head still is this
      copy exactly when the cell was not written in between. */
  lemma ScannedEarlier(s: System, steps: seq<Step>, c: CellId)
    requires Inv(s) && c in s.hist && s.hist[c] != [] && s.hist[c][|s.hist[c]| - 1].op.Put? && Exec(s, steps).Some?
    ensures var t := Exec(s, steps).value;
            && c in t.hist && c in t.store.heads
            && ScannedAfter(t.store, c, t.hist[c], s.store.heads[c], |s.hist[c]|)
            && (t.store.heads[c] == s.store.heads[c] <==> |t.hist[c]| == |s.hist[c]|)
  {
    assert CellInv(s, c);
    RunAges(s, steps, c);
    hide ReadersInv, CellsInv, ViewsInv, HistoryInv, Faithful, Exec, ScannedAfter;
    CopyRemains(s.store, Exec(s, steps).value.store, c, s.hist[c], Exec(s, steps).value.hist[c]);
  }

  /** So whatever happens between a scan and the write that follows it: the scanned copy is accepted, and updating or
      deleting from it keeps the chain true to the history if and only if the head on the page still is that copy,
      which is what the check would have to ask. */
  lemma ScanThenWrite(s: System, steps: seq<Step>, w: nat, c: CellId, value: Value)
    requires Inv(s) && Ready(s, w) && Writable(s, w, c) && Exec(s, steps).Some? && Ready(Exec(s, steps).value, w)
    ensures var copy, t := Read(s, w, c).value, Exec(s, steps).value;
            && c in t.hist && c in t.store.heads
            && TupleUpdateSatisfy(copy, t.tx.slots[w].xid) == TU_OK
            && var u, d := ApplyUpdate(t, w, c, copy, value), ApplyDelete(t, w, c, copy);
            && u.store.Valid() && d.store.Valid()
            && (Faithful(u.store.Chain(c), u.hist[c]) <==> t.store.heads[c] == copy)
            && (Faithful(d.store.Chain(c), d.hist[c]) <==> t.store.heads[c] == copy)
  {
    WritableIsHead(s, w, c);
    ScannedEarlier(s, steps, c);
    var t := Exec(s, steps).value;
    UpdateFromCopy(t, w, c, s.store.heads[c], |s.hist[c]|, value);
    DeleteFromCopy(t, w, c, s.store.heads[c], |s.hist[c]|);
  }

  lemma CopyOutlived(st: Store, c: CellId, h: seq<Write>, wr: Write, value: Value)
    requires st.Valid() && c in st.heads && h != [] && h[|h| - 1].op.Put? && Faithful(st.Chain(c), h)
    ensures ScannedAfter(st.Update(c, st.heads[c], value, wr.xid), c, h + [wr], st.heads[c], |h|)
  {
    var copy := st.heads[c];
    UpdateChains(st, c, copy, value, wr.xid);
    OlderGrows(st.undo, [copy.(tmax := wr.xid)], copy.undo);
    assert (h + [wr])[..|h|] == h;
  }

  /** Two transactions that both scanned a cell before either wrote it: the second one's copy is still accepted
      after the first one's update, and writing it, as an update or as a delete, loses that update. */
  lemma LostUpdate(s: System, w1: nat, w2: nat, c: CellId, value1: Value, value2: Value) returns (t: System, u: System, d: System)
    requires Inv(s) && Ready(s, w1) && Writable(s, w1, c)
    requires Ready(s, w2) && Writable(s, w2, c) && w1 != w2
    ensures t == Apply(s, UpdateCell(w1, c, value1)) && Inv(t) && Ready(t, w2) && c in t.store.heads
    ensures Read(s, w2, c) == Some(s.store.heads[c])
    ensures TupleUpdateSatisfy(s.store.heads[c], t.tx.slots[w2].xid) == TU_OK
    ensures u == ApplyUpdate(t, w2, c, s.store.heads[c], value2)
    ensures u.store.Valid() && !Faithful(u.store.Chain(c), u.hist[c])
    ensures d == ApplyDelete(t, w2, c, s.store.heads[c])
    ensures d.store.Valid() && !Faithful(d.store.Chain(c), d.hist[c])
  {
    WritableIsHead(s, w2, c);
    t := FirstUpdate(s, w1, c, value1);
    u := ApplyUpdate(t, w2, c, s.store.heads[c], value2);
    UpdateFromCopy(t, w2, c, s.store.heads[c], |s.hist[c]|, value2);
    d := ApplyDelete(t, w2, c, s.store.heads[c]);
    DeleteFromCopy(t, w2, c, s.store.heads[c], |s.hist[c]|);
  }

  lemma FirstUpdate(s: System, w: nat, c: CellId, value: Value) returns (t: System)
    requires Inv(s) && Ready(s, w) && Writable(s, w, c)
    ensures t == Apply(s, UpdateCell(w, c, value)) && Inv(t)
    ensures t.tx == s.tx && t.snaps == s.snaps && t.seen == s.seen && c in t.hist && |t.hist[c]| == |s.hist[c]| + 1
    ensures ScannedAfter(t.store, c, t.hist[c], s.store.heads[c], |s.hist[c]|)
  {
    WritableIsHead(s, w, c);
    UpdateInv(s, w, c, value);
    t := ApplyUpdate(s, w, c, s.store.heads[c], value);
    assert CellInv(s, c);
    CopyOutlived(s.store, c, s.hist[c], Write(s.tx.slots[w].xid, Put(value), s.seen[w]), value);
  }
}
