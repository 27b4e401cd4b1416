/** Concurrent calls of SetHighLevelTransaction, interleaved at their atomic reads and
    compare-and-swap operations (src/sqlcore/transaction/xtid.c). */
module HighLevel {
  import opened Transactions

  /** Where a call is: not begun, in its loop with the value it expects to replace, or returned. */
  datatype Phase = Begin | Loop(expected: XTID) | Returned

  datatype Call = Call(xid: XTID, phase: Phase)

  datatype Shared = Shared(high: XTID, calls: seq<Call>)

  /** One atomic step of call i: the first read of the shared counter, or the test and the compare-and-swap. */
  function Step(s: Shared, i: nat): Shared {
    if i >= |s.calls| then s
    else
      var call := s.calls[i];
      match call.phase
      case Begin =>
        s.(calls := s.calls[i := call.(phase := if call.xid == INVALID_XTID then Returned else Loop(s.high))])
      case Loop(expected) =>
        if expected >= call.xid then s.(calls := s.calls[i := call.(phase := Returned)])
        else if s.high == expected then Shared(call.xid, s.calls[i := call.(phase := Returned)])
        else s.(calls := s.calls[i := call.(phase := Loop(s.high))])
      case Returned => s
  }

  /** The state after the calls named in `schedule` took a step each, in that order. */
  function Interleave(s: Shared, schedule: seq<nat>): Shared {
    if schedule == [] then s
    else Step(Interleave(s, schedule[..|schedule| - 1]), schedule[|schedule| - 1])
  }

  ghost predicate Fresh(s: Shared) {
    forall i :: 0 <= i < |s.calls| ==> s.calls[i].phase == Begin
  }

  predicate AllReturned(s: Shared) {
    forall i :: 0 <= i < |s.calls| ==> s.calls[i].phase == Returned
  }

  /** The greatest valid id among the calls and the start value. */
  function Greatest(start: XTID, calls: seq<Call>): XTID {
    if calls == [] then start else Raise(Greatest(start, calls[..|calls| - 1]), calls[|calls| - 1].xid)
  }

  ghost predicate Reached(t: Shared, s: Shared) {
    && |t.calls| == |s.calls|
    && (forall i :: 0 <= i < |s.calls| ==> t.calls[i].xid == s.calls[i].xid)
    && s.high <= t.high
    && (t.high == s.high || exists i :: 0 <= i < |s.calls| && s.calls[i].xid == t.high != INVALID_XTID)
    && (forall i :: 0 <= i < |t.calls| && t.calls[i].phase.Loop? ==> t.calls[i].phase.expected <= t.high && t.calls[i].xid != INVALID_XTID)
    && (forall i :: 0 <= i < |t.calls| && t.calls[i].phase.Returned? ==> t.calls[i].xid == INVALID_XTID || t.calls[i].xid <= t.high)
  }

  lemma StepReached(t: Shared, s: Shared, i: nat)
    requires Reached(t, s)
    ensures Reached(Step(t, i), s)
    ensures t.high <= Step(t, i).high
  {
  }

  lemma {:induction false} GreatestIs(start: XTID, calls: seq<Call>, high: XTID)
    requires start <= high
    requires high == start || exists i :: 0 <= i < |calls| && calls[i].xid == high != INVALID_XTID
    requires forall i :: 0 <= i < |calls| ==> calls[i].xid == INVALID_XTID || calls[i].xid <= high
    ensures Greatest(start, calls) == high
  {
    if calls != [] {
      var n := |calls| - 1;
      if high == start || exists i :: 0 <= i < n && calls[i].xid == high != INVALID_XTID {
        if high != start {
          var i :| 0 <= i < n && calls[i].xid == high != INVALID_XTID;
          assert calls[..n][i].xid == high;
        }
        GreatestIs(start, calls[..n], high);
      } else {
        GreatestBelow(start, calls[..n], high);
      }
    }
  }

  lemma {:induction false} GreatestBelow(start: XTID, calls: seq<Call>, bound: XTID)
    requires start <= bound && forall i :: 0 <= i < |calls| ==> calls[i].xid == INVALID_XTID || calls[i].xid <= bound
    ensures Greatest(start, calls) <= bound
  {
    if calls != [] {
      GreatestBelow(start, calls[..|calls| - 1], bound);
    }
  }

  /** Under every interleaving the counter only rises, and once all calls have returned
      it is the greatest of its start value and the ids passed in. */
  lemma {:induction false} Interleaving(s: Shared, schedule: seq<nat>)
    requires Fresh(s)
    ensures var t := Interleave(s, schedule);
            && Reached(t, s)
            && (schedule != [] ==> Interleave(s, schedule[..|schedule| - 1]).high <= t.high)
            && (AllReturned(t) ==> t.high == Greatest(s.high, s.calls))
  {
    if schedule != [] {
      var n := |schedule| - 1;
      Interleaving(s, schedule[..n]);
      StepReached(Interleave(s, schedule[..n]), s, schedule[n]);
    }
    var t := Interleave(s, schedule);
    if AllReturned(t) {
      assert forall i :: 0 <= i < |s.calls| ==> t.calls[i].xid == s.calls[i].xid;
      GreatestIs(s.high, s.calls, t.high);
    }
  }

  /** A call gets stuck on nobody: a compare-and-swap fails only because the counter rose past what the call
      expected, so each retry expects strictly more, and a call that has caught up returns in its next step. */
  lemma RetriesRise(t: Shared, s: Shared, i: nat)
    requires Reached(t, s) && i < |t.calls| && t.calls[i].phase.Loop?
    ensures var phase := Step(t, i).calls[i].phase;
            phase.Returned? || (phase.Loop? && t.calls[i].phase.expected < phase.expected == t.high)
    ensures t.calls[i].phase.expected == t.high ==> Step(t, i).calls[i].phase.Returned?
  {
  }
}
