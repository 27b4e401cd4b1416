/** Buffer descriptors, pins, the free list and clock replacement (src/util/bufferPool/bufferPool.c). */
module BufferPool {
  import opened HashTable

  const USE_COUNT_MAX := 5
  const INVLID_BUFFER := -1
  const FREE_LIST_END := -1
  const BUFFER_MIN_NUM := 8

  datatype BufferValidFlag = BVF_INVALID | BVF_VLID | BVF_TAG

  datatype BufferDesc = BufferDesc(bufferTag: BufferTag, isValid: BufferValidFlag, isDirty: bool, refCnt: nat, usedCnt: int, isInFreeList: bool)

  predicate Counts(ds: seq<BufferDesc>) {
    forall b :: 0 <= b < |ds| ==> 0 <= ds[b].usedCnt <= USE_COUNT_MAX
  }

  /** PinBuffer. */
  function Pinned(d: BufferDesc): BufferDesc {
    d.(usedCnt := USE_COUNT_MAX, refCnt := d.refCnt + 1)
  }

  /** unPinBuffer. */
  function Unpinned(d: BufferDesc): BufferDesc {
    if d.refCnt > 0 then d.(refCnt := d.refCnt - 1) else d
  }

  function Next(id: nat, n: nat): nat {
    if id + 1 == n then 0 else id + 1
  }

  function Aged(d: BufferDesc): BufferDesc {
    d.(usedCnt := if d.usedCnt > 0 then d.usedCnt - 1 else 0)
  }

  predicate Evictable(d: BufferDesc) {
    d.isValid == BVF_INVALID || (d.refCnt == 0 && d.usedCnt == 0)
  }

  /** At most `visits` steps of the clock hand, and where it stops. */
  function Sweep(ds: seq<BufferDesc>, id: nat, visits: nat): (r: (seq<BufferDesc>, nat))
    requires id < |ds|
    decreases visits
  {
    if visits == 0 || ds[id].isValid == BVF_INVALID then (ds, id)
    else
      var ds' := ds[id := Aged(ds[id])];
      if Evictable(ds'[id]) then (ds', id) else Sweep(ds', Next(id, |ds|), visits - 1)
  }

  /** The visit, counted from 1, at which a hand starting from `id` would take buffer v if it met no other first. */
  function Turn(ds: seq<BufferDesc>, id: nat, v: nat): int
    requires v < |ds|
  {
    var distance := if id <= v then v - id else v - id + |ds|;
    distance + 1 + if ds[v].isValid != BVF_INVALID && ds[v].usedCnt > 1 then (ds[v].usedCnt - 1) * |ds| else 0
  }

  predicate Victim(ds: seq<BufferDesc>, v: nat) {
    v < |ds| && (ds[v].isValid == BVF_INVALID || ds[v].refCnt == 0)
  }

  lemma TurnBound(ds: seq<BufferDesc>, id: nat, v: nat)
    requires Counts(ds) && id < |ds| && v < |ds|
    ensures 1 <= Turn(ds, id, v) <= USE_COUNT_MAX * |ds|
  {
  }

  /** A page that has just been used and given back: the hand passes its buffer by on every round but the last before
      it takes it. */
  lemma UsedIsSpared(ds: seq<BufferDesc>, id: nat, b: nat)
    requires Counts(ds) && id < |ds| && b < |ds| && ds[b].isValid != BVF_INVALID && ds[b].refCnt == 0
    ensures var ds' := ds[b := Unpinned(Pinned(ds[b]))];
            Counts(ds') && Victim(ds', b) && (USE_COUNT_MAX - 1) * |ds| < Turn(ds', id, b) <= USE_COUNT_MAX * |ds|
  {
    TurnBound(ds[b := Unpinned(Pinned(ds[b]))], id, b);
  }

  lemma TurnStep(ds: seq<BufferDesc>, id: nat, v: nat)
    requires Counts(ds) && id < |ds| && Victim(ds, v) && ds[id].isValid != BVF_INVALID && !Evictable(Aged(ds[id]))
    ensures var ds' := ds[id := Aged(ds[id])];
            Counts(ds') && Victim(ds', v) && Turn(ds', Next(id, |ds|), v) == Turn(ds, id, v) - 1
  {
  }

  ghost predicate OnlyAged(ds: seq<BufferDesc>, ds': seq<BufferDesc>) {
    |ds'| == |ds| && forall b :: 0 <= b < |ds| ==> ds'[b] == ds[b].(usedCnt := ds'[b].usedCnt) && ds'[b].usedCnt <= ds[b].usedCnt
  }

  lemma OnlyAgedSelf(ds: seq<BufferDesc>)
    ensures OnlyAged(ds, ds)
  {
  }

  lemma NextIs(id: nat, n: nat)
    requires id < n
    ensures (id + 1) % n == Next(id, n)
  {
  }

  lemma OnlyAgedStep(ds: seq<BufferDesc>, id: nat, ds': seq<BufferDesc>)
    requires Counts(ds) && id < |ds| && OnlyAged(ds[id := Aged(ds[id])], ds')
    ensures OnlyAged(ds, ds')
  {
  }

  /** If some buffer is empty or unpinned, the hand stops within the given number of visits, at a buffer that is;
      it changes nothing but use counts, which it lowers within their range. */
  lemma {:induction false} SweepStops(ds: seq<BufferDesc>, id: nat, visits: nat, v: nat)
    requires Counts(ds) && id < |ds| && Victim(ds, v) && Turn(ds, id, v) <= visits
    ensures var (ds', victim) := Sweep(ds, id, visits);
            OnlyAged(ds, ds') && Counts(ds') && victim < |ds'| && Evictable(ds'[victim]) && Victim(ds, victim)
    decreases visits
  {
    hide OnlyAged;
    var ds' := ds[id := Aged(ds[id])];
    OnlyAgedSelf(ds);
    OnlyAgedSelf(ds');
    if ds[id].isValid != BVF_INVALID {
      OnlyAgedStep(ds, id, ds');
      if !Evictable(ds'[id]) {
        TurnStep(ds, id, v);
        SweepStops(ds', Next(id, |ds|), visits - 1, v);
        OnlyAgedStep(ds, id, Sweep(ds', Next(id, |ds|), visits - 1).0);
      }
    }
  }

  /** Of all buffers that are empty or unpinned, the hand takes the one whose turn comes first. */
  lemma {:induction false} SweepTakesFirst(ds: seq<BufferDesc>, id: nat, visits: nat, v: nat)
    requires Counts(ds) && id < |ds| && Victim(ds, v) && Turn(ds, id, v) <= visits
    ensures var victim := Sweep(ds, id, visits).1;
            victim < |ds| && Turn(ds, id, victim) <= Turn(ds, id, v)
    decreases visits
  {
    var ds' := ds[id := Aged(ds[id])];
    if ds[id].isValid != BVF_INVALID && !Evictable(ds'[id]) {
      TurnStep(ds, id, v);
      SweepTakesFirst(ds', Next(id, |ds|), visits - 1, v);
      SweepStops(ds', Next(id, |ds|), visits - 1, v);
      TurnStep(ds, id, Sweep(ds', Next(id, |ds|), visits - 1).1);
    } else {
      TurnBound(ds, id, v);
    }
  }

  /** GetFreeBufferId on a list of free buffers: the first unpinned one; `Overrun` is a read before the list's array. */
  datatype FreeBuffer = Taken(id: int, rest: seq<int>) | Empty | Overrun

  function TakeFree(ds: seq<BufferDesc>, free: seq<int>): FreeBuffer
    requires forall i :: 0 <= i < |free| ==> 0 <= free[i] < |ds|
  {
    if free == [] then Empty
    else if ds[free[0]].refCnt == 0 then Taken(free[0], free[1..])
    else if |free| == 1 then Overrun
    else TakeFree(ds, free[1..])
  }

  /** The loop runs off the list exactly when the list holds pinned buffers only. */
  lemma {:induction false} TakeFreeOverrun(ds: seq<BufferDesc>, free: seq<int>)
    requires forall i :: 0 <= i < |free| ==> 0 <= free[i] < |ds|
    ensures TakeFree(ds, free) == Overrun <==> free != [] && forall i :: 0 <= i < |free| ==> ds[free[i]].refCnt > 0
    ensures TakeFree(ds, free).Taken? ==> TakeFree(ds, free).id in free && ds[TakeFree(ds, free).id].refCnt == 0
    ensures TakeFree(ds, free).Taken? ==>
              var k := |free| - |TakeFree(ds, free).rest| - 1;
              && 0 <= k && TakeFree(ds, free).id == free[k] && TakeFree(ds, free).rest == free[k + 1..]
              && forall i :: 0 <= i < k ==> ds[free[i]].refCnt > 0
  {
    if |free| > 1 && ds[free[0]].refCnt > 0 {
      TakeFreeOverrun(ds, free[1..]);
      assert forall i :: 1 <= i < |free| ==> free[i] == free[1..][i - 1];
    }
  }

  /** freeList[id] is the buffer after id; freeList[0] is the head, so buffer 0 is never on the list. */
  ghost predicate Listed(freeList: seq<int>, free: seq<int>) {
    && |freeList| > 0
    && freeList[0] == At(free, 0)
    && (forall i :: 0 <= i < |free| ==> 0 < free[i] < |freeList|)
    && (forall i {:trigger freeList[free[i]]} :: 0 <= i < |free| ==> freeList[free[i]] == At(free, i + 1))
    && (forall i, j :: 0 <= i < j < |free| ==> free[i] != free[j])
  }

  function At(free: seq<int>, i: int): int {
    if 0 <= i < |free| then free[i] else FREE_LIST_END
  }

  lemma ListedRest(freeList: seq<int>, free: seq<int>)
    requires Listed(freeList, free) && free != []
    ensures Listed(freeList[0 := freeList[free[0]]], free[1..])
  {
  }

  /** Nothing refills the free list (InvalidateBuffer has no callers), so its membership flags stay clear. */
  class BufferPoolContext {
    const bufferNum: nat
    const freeList: array<int>
    const bufferDesc: array<BufferDesc>
    var start: nat
    ghost var free: seq<int>

    ghost predicate Valid()
      reads this, freeList, bufferDesc
    {
      && bufferNum == freeList.Length == bufferDesc.Length
      && start < bufferNum
      && Counts(bufferDesc[..])
      && Listed(freeList[..], free)
      && (forall b :: 0 <= b < bufferNum ==> !bufferDesc[b].isInFreeList)
    }

    /** InitBufferPool: every buffer but the first is on the free list. */
    constructor InitBufferPool(pageNum: nat)
      requires BUFFER_MIN_NUM <= pageNum
      ensures Valid() && fresh(freeList) && fresh(bufferDesc) && bufferNum == pageNum && start == 0
      ensures free == seq(pageNum - 1, i => i + 1)
      ensures forall b :: 0 <= b < pageNum ==> bufferDesc[b] == BufferDesc(BufferTag(0, 0, 0, 0, 0), BVF_INVALID, false, 0, 0, false)
    {
      bufferNum := pageNum;
      freeList := new int[pageNum];
      bufferDesc := new BufferDesc[pageNum](_ => BufferDesc(BufferTag(0, 0, 0, 0, 0), BVF_INVALID, false, 0, 0, false));
      start := 0;
      new;
      for index := 0 to pageNum
        invariant forall k :: 0 <= k < index ==> freeList[k] == k + 1
        invariant start == 0
        invariant forall b :: 0 <= b < pageNum ==> bufferDesc[b] == BufferDesc(BufferTag(0, 0, 0, 0, 0), BVF_INVALID, false, 0, 0, false)
      {
        freeList[index] := index + 1;
        bufferDesc[index] := bufferDesc[index].(isValid := BVF_INVALID, isDirty := false);
      }
      freeList[pageNum - 1] := FREE_LIST_END;
      free := seq(pageNum - 1, i => i + 1);
    }

    method PinBuffer(bufferId: nat)
      requires Valid() && bufferId < bufferNum
      modifies bufferDesc
      ensures Valid() && bufferDesc[..] == old(bufferDesc[..])[bufferId := Pinned(old(bufferDesc[bufferId]))]
    {
      bufferDesc[bufferId] := bufferDesc[bufferId].(usedCnt := USE_COUNT_MAX);
      bufferDesc[bufferId] := bufferDesc[bufferId].(refCnt := bufferDesc[bufferId].refCnt + 1);
    }

    method UnPinBuffer(bufferId: nat)
      requires Valid() && bufferId < bufferNum
      modifies bufferDesc
      ensures Valid() && bufferDesc[..] == old(bufferDesc[..])[bufferId := Unpinned(old(bufferDesc[bufferId]))]
    {
      if bufferDesc[bufferId].refCnt > 0 {
        bufferDesc[bufferId] := bufferDesc[bufferId].(refCnt := bufferDesc[bufferId].refCnt - 1);
      }
    }

    /** The search loop of ClockSweep. */
    method AdvanceHand(ghost visits: nat, ghost v: nat) returns (id: nat)
      requires Valid() && Victim(bufferDesc[..], v) && Turn(bufferDesc[..], start, v) <= visits
      modifies bufferDesc
      ensures id < bufferNum
      ensures (bufferDesc[..], id) == Sweep(old(bufferDesc[..]), start, visits)
    {
      hide Turn, Listed, Counts;
      id := start;
      ghost var rest: nat := visits;
      while true
        invariant id < bufferNum
        invariant Counts(bufferDesc[..]) && Victim(bufferDesc[..], v)
        invariant Turn(bufferDesc[..], id, v) <= rest
        invariant Sweep(bufferDesc[..], id, rest) == Sweep(old(bufferDesc[..]), start, visits)
        decreases rest
      {
        TurnBound(bufferDesc[..], id, v);
        if bufferDesc[id].isValid == BVF_INVALID {
          break;
        }
        ghost var ds := bufferDesc[..];
        bufferDesc[id] := bufferDesc[id].(usedCnt := if bufferDesc[id].usedCnt > 0 then bufferDesc[id].usedCnt - 1 else 0);
        assert bufferDesc[..] == ds[id := Aged(ds[id])];
        if bufferDesc[id].refCnt == 0 && bufferDesc[id].usedCnt == 0 {
          break;
        }
        TurnStep(ds, id, v);
        NextIs(id, bufferNum);
        id := (id + 1) % bufferNum;
        rest := rest - 1;
      }
    }

    /** ClockSweep, where no other worker holds a descriptor's lock and some buffer is empty or unpinned. */
    method ClockSweep(ghost v: nat) returns (id: nat)
      requires Valid() && Victim(bufferDesc[..], v)
      modifies this`start, bufferDesc
      ensures Valid() && id < bufferNum
      ensures (bufferDesc[..], id) == Sweep(old(bufferDesc[..]), old(start), USE_COUNT_MAX * bufferNum)
      ensures start == Next(id, bufferNum)
      ensures Evictable(bufferDesc[id]) && OnlyAged(old(bufferDesc[..]), bufferDesc[..])
    {
      hide Turn, Listed, Sweep;
      TurnBound(bufferDesc[..], start, v);
      SweepStops(bufferDesc[..], start, USE_COUNT_MAX * bufferNum, v);
      id := AdvanceHand(USE_COUNT_MAX * bufferNum, v);
      if bufferDesc[id].isValid == BVF_INVALID || (bufferDesc[id].refCnt == 0 && bufferDesc[id].usedCnt == 0) {
        NextIs(id, bufferNum);
        start := (id + 1) % bufferNum;
      } else {
        // Only another worker could have taken the buffer here.
        assert false;
      }
    }

    /** GetFreeBufferId, where the list is empty or holds an unpinned buffer. */
    method GetFreeBufferId() returns (id: int)
      requires Valid() && TakeFree(bufferDesc[..], free) != Overrun
      modifies this`free, freeList, bufferDesc
      ensures Valid()
      ensures match TakeFree(old(bufferDesc[..]), old(free))
              case Taken(b, rest) => id == b && free == rest
              case _ => id == FREE_LIST_END && free == []
      ensures bufferDesc[..] == old(bufferDesc[..])
    {
      id := freeList[0];
      while id != FREE_LIST_END
        invariant Valid() && bufferDesc[..] == old(bufferDesc[..])
        invariant if id == FREE_LIST_END then old(free) == free == [] else free != []
        invariant TakeFree(bufferDesc[..], free) == TakeFree(bufferDesc[..], old(free)) != Overrun
        decreases |free|
      {
        ListedRest(freeList[..], free);
        id := freeList[0];
        freeList[0] := freeList[id];
        bufferDesc[id] := bufferDesc[id].(isInFreeList := false);
        free := free[1..];
        if bufferDesc[id].refCnt == 0 {
          break;
        }
      }
    }
  }
}
