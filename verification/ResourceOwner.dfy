/** The list of pages a worker holds, and how it accounts for pins
    (src/util/resourceManger/resourceMgr.c, src/sqlcore/storage/buffer/buffer.c). */
module ResourceOwner {
  import opened HashTable
  import opened BufferPool

  /** The entries without the first one for this buffer. */
  function Dropped(entries: seq<int>, buffer: int): seq<int> {
    if entries == [] then []
    else if entries[0] == buffer then entries[1..]
    else [entries[0]] + Dropped(entries[1..], buffer)
  }

  lemma {:induction false} DroppedCounts(entries: seq<int>, buffer: int)
    ensures multiset(Dropped(entries, buffer)) == multiset(entries) - multiset{buffer}
  {
    if entries != [] {
      assert entries == [entries[0]] + entries[1..];
      if entries[0] != buffer {
        DroppedCounts(entries[1..], buffer);
      }
    }
  }

  lemma {:induction false} DroppedAt(entries: seq<int>, buffer: int, i: nat)
    requires i <= |entries| && buffer !in entries[..i]
    ensures i < |entries| && entries[i] == buffer ==> Dropped(entries, buffer) == entries[..i] + entries[i + 1..]
    ensures i == |entries| ==> Dropped(entries, buffer) == entries
  {
    if i > 0 {
      assert entries[0] == entries[..i][0];
      assert entries[1..][..i - 1] == entries[..i][1..];
      DroppedAt(entries[1..], buffer, i - 1);
    }
  }

  class ResourceOwnerPool {
    var entries: seq<int>
    var onwerResourceNum: int

    ghost predicate Valid()
      reads this
    {
      onwerResourceNum == |entries|
    }

    constructor CreateResourceOwnerPool()
      ensures Valid() && entries == []
    {
      entries := [];
      onwerResourceNum := 0;
    }

    method PushResourceOwner(buffer: int)
      requires Valid()
      modifies this
      ensures Valid() && entries == old(entries) + [buffer]
    {
      entries := entries + [buffer];
      onwerResourceNum := onwerResourceNum + 1;
    }

    /** ReleaseResourceOwner: drops the oldest entry of the buffer, if it has one. */
    method ReleaseResourceOwner(buffer: int) returns (ret: int)
      requires Valid()
      modifies this
      ensures Valid() && entries == Dropped(old(entries), buffer)
      ensures ret == if buffer in old(entries) then 1 else 0
    {
      ret := 0;
      if onwerResourceNum == 0 {
        return;
      }
      var cur := 0;
      while cur < |entries|
        invariant 0 <= cur <= |entries| && entries == old(entries) && Valid() && ret == 0
        invariant buffer !in entries[..cur]
      {
        if entries[cur] == buffer {
          DroppedAt(entries, buffer, cur);
          entries := entries[..cur] + entries[cur + 1..];
          onwerResourceNum := onwerResourceNum - 1;
          ret := 1;
          return;
        }
        cur := cur + 1;
      }
      DroppedAt(entries, buffer, cur);
    }

    method PopResourceOwner() returns (ret: int, buffer: int)
      requires Valid()
      modifies this
      ensures Valid() && ret == if old(entries) == [] then 0 else 1
      ensures ret == 1 ==> buffer == old(entries[0]) && entries == old(entries[1..])
      ensures ret == 0 ==> entries == []
    {
      ret, buffer := 0, INVLID_BUFFER;
      if onwerResourceNum == 0 {
        return;
      }
      buffer := entries[0];
      entries := entries[1..];
      onwerResourceNum := onwerResourceNum - 1;
      ret := 1;
    }
  }

  /** What one worker's calls do to pins and the list: a page fetched, a read that failed, a page released. */
  datatype Step = Fetch(buffer: nat) | FailedRead(buffer: nat) | Release(buffer: nat)

  datatype Pins = Pins(descs: seq<BufferDesc>, entries: seq<int>)

  function Do(p: Pins, step: Step): Pins {
    if step.buffer >= |p.descs| then p
    else
      var d := p.descs[step.buffer];
      match step
      case Fetch(b) => Pins(p.descs[b := Pinned(d)], p.entries + [b])
      case FailedRead(b) => Pins(p.descs[b := Unpinned(Pinned(d))], p.entries)
      case Release(b) => Pins(p.descs[b := Unpinned(d)], Dropped(p.entries, b))
  }

  function DoAll(p: Pins, steps: seq<Step>): Pins {
    if steps == [] then p else Do(DoAll(p, steps[..|steps| - 1]), steps[|steps| - 1])
  }

  ghost predicate Accounted(p: Pins) {
    forall b: nat :: b < |p.descs| ==> p.descs[b].refCnt == multiset(p.entries)[b]
  }

  lemma StepAccounted(p: Pins, step: Step)
    requires Accounted(p)
    ensures Accounted(Do(p, step))
  {
    hide Dropped, Accounted;
    var b, d := step.buffer, if step.buffer < |p.descs| then p.descs[step.buffer] else BufferDesc(BufferTag(0, 0, 0, 0, 0), BVF_INVALID, false, 0, 0, false);
    if b < |p.descs| {
      match step
      case Fetch(_) =>
        assert multiset(p.entries + [b]) == multiset(p.entries) + multiset{b};
        Recount(p, b, Pinned(d), p.entries + [b]);
      case FailedRead(_) =>
        Recount(p, b, Unpinned(Pinned(d)), p.entries);
      case Release(_) =>
        DroppedCounts(p.entries, b);
        Recount(p, b, Unpinned(d), Dropped(p.entries, b));
    }
  }

  /** Pins and entries of one buffer change together. */
  lemma Recount(p: Pins, b: nat, d: BufferDesc, entries: seq<int>)
    requires Accounted(p) && b < |p.descs|
    requires multiset(entries) == multiset(p.entries) || multiset(entries) == multiset(p.entries) + multiset{b} || multiset(entries) == multiset(p.entries) - multiset{b}
    requires p.descs[b].refCnt == multiset(p.entries)[b] ==> d.refCnt == multiset(entries)[b]
    ensures Accounted(Pins(p.descs[b := d], entries))
  {
  }

  /** Over any run, each buffer has as many pins as entries. */
  lemma {:induction false} PinsAccounted(p: Pins, steps: seq<Step>)
    requires Accounted(p)
    ensures Accounted(DoAll(p, steps))
  {
    if steps != [] {
      PinsAccounted(p, steps[..|steps| - 1]);
      StepAccounted(DoAll(p, steps[..|steps| - 1]), steps[|steps| - 1]);
    }
  }

  /** ReleasePage. */
  method ReleasePage(pool: BufferPoolContext, owner: ResourceOwnerPool, buffer: nat)
    requires pool.Valid() && owner.Valid() && buffer < pool.bufferNum
    modifies pool.bufferDesc, owner
    ensures pool.Valid() && owner.Valid()
    ensures Pins(pool.bufferDesc[..], owner.entries) == Do(old(Pins(pool.bufferDesc[..], owner.entries)), Release(buffer))
  {
    pool.UnPinBuffer(buffer);
    var _ := owner.ReleaseResourceOwner(buffer);
  }

  /** What is left of c pins when the cleanup at the end of a statement has run. */
  function Leaked(c: nat): nat {
    c / 2
  }

  ghost predicate Halfway(before: seq<BufferDesc>, after: seq<BufferDesc>, entries: seq<int>) {
    |after| == |before| && forall b: nat :: b < |before| ==> after[b].refCnt == Leaked(before[b].refCnt) + (multiset(entries)[b] + 1) / 2
  }

  lemma DroppedTwice(entries: seq<int>, b: int)
    requires entries != []
    ensures multiset(Dropped(entries[1..], entries[0]))[b] ==
            if b != entries[0] then multiset(entries)[b] else if multiset(entries)[b] >= 2 then multiset(entries)[b] - 2 else 0
    ensures b == entries[0] ==> multiset(entries)[b] >= 1
  {
    hide Dropped;
    assert entries == [entries[0]] + entries[1..];
    DroppedCounts(entries[1..], entries[0]);
  }

  lemma HalfwayStep(before: seq<BufferDesc>, p: Pins)
    requires Halfway(before, p.descs, p.entries) && p.entries != [] && 0 <= p.entries[0] < |before|
    ensures var q := Do(Pins(p.descs, p.entries[1..]), Release(p.entries[0]));
            Halfway(before, q.descs, q.entries)
  {
    hide Dropped, Leaked;
    var e := p.entries[0];
    var q := Do(Pins(p.descs, p.entries[1..]), Release(e));
    forall b: nat | b < |before| ensures q.descs[b].refCnt == Leaked(before[b].refCnt) + (multiset(q.entries)[b] + 1) / 2 {
      DroppedTwice(p.entries, b);
    }
  }

  lemma HalfwayStart(p: Pins)
    requires Accounted(p)
    ensures Halfway(p.descs, p.descs, p.entries)
  {
  }

  lemma HalfwayEnd(before: seq<BufferDesc>, after: seq<BufferDesc>)
    requires Halfway(before, after, [])
    ensures |after| == |before| && forall b :: 0 <= b < |before| ==> after[b].refCnt == Leaked(before[b].refCnt)
  {
  }

  ghost predicate InPool(entries: seq<int>, n: nat) {
    forall i :: 0 <= i < |entries| ==> 0 <= entries[i] < n
  }

  lemma EmptyInPool(n: nat)
    ensures InPool([], n)
  {
  }

  lemma InPoolHead(entries: seq<int>, n: nat)
    requires InPool(entries, n) && entries != []
    ensures 0 <= entries[0] < n && InPool(entries[1..], n)
  {
  }

  lemma {:induction false} DroppedInPool(entries: seq<int>, buffer: int, n: nat)
    requires InPool(entries, n)
    ensures InPool(Dropped(entries, buffer), n)
  {
    if entries != [] {
      DroppedInPool(entries[1..], buffer, n);
    }
  }

  /** ReleaseAllResourceOwner: popping an entry and releasing its page drops two entries for one pin, so the list
      ends up empty and half of each buffer's pins, rounded down, stay. */
  method ReleaseAllResourceOwner(pool: BufferPoolContext, owner: ResourceOwnerPool)
    requires pool.Valid() && owner.Valid() && Accounted(Pins(pool.bufferDesc[..], owner.entries))
    requires InPool(owner.entries, pool.bufferNum)
    modifies pool.bufferDesc, owner
    ensures pool.Valid() && owner.Valid() && owner.entries == []
    ensures forall b :: 0 <= b < pool.bufferNum ==> pool.bufferDesc[b].refCnt == Leaked(old(pool.bufferDesc[b].refCnt))
  {
    hide Halfway, Accounted, Counts, Listed, Dropped, InPool;
    EmptyInPool(pool.bufferNum);
    ghost var before := pool.bufferDesc[..];
    HalfwayStart(Pins(pool.bufferDesc[..], owner.entries));
    var ret, page := owner.PopResourceOwner();
    ghost var held := old(owner.entries);
    while ret > 0
      invariant pool.Valid() && owner.Valid()
      invariant if ret == 0 then owner.entries == held == [] else held == [page] + owner.entries
      invariant InPool(held, pool.bufferNum)
      invariant Halfway(before, pool.bufferDesc[..], held)
      decreases |held|
    {
      assert page == held[0] && owner.entries == held[1..];
      InPoolHead(held, pool.bufferNum);
      HalfwayStep(before, Pins(pool.bufferDesc[..], held));
      DroppedInPool(held[1..], page, pool.bufferNum);
      DroppedShorter(held[1..], page);
      held := Dropped(held[1..], page);
      ReleasePage(pool, owner, page);
      ret, page := owner.PopResourceOwner();
    }
    HalfwayEnd(before, pool.bufferDesc[..]);
  }

  lemma {:induction false} DroppedShorter(entries: seq<int>, buffer: int)
    ensures |Dropped(entries, buffer)| <= |entries|
  {
    if entries != [] {
      DroppedShorter(entries[1..], buffer);
    }
  }

  /** So after a run that accounts for its pins, the cleanup gives every pin back exactly when no buffer is listed twice. */
  lemma CleanupComplete(p: Pins)
    requires Accounted(p)
    ensures (forall b: nat :: b < |p.descs| ==> Leaked(p.descs[b].refCnt) == 0) <==>
            (forall b: nat :: b < |p.descs| ==> multiset(p.entries)[b] <= 1)
  {
  }

  /** A page fetched twice is listed twice, and the cleanup leaves it pinned. */
  lemma TwoFetchesLeak(p: Pins, b: nat)
    requires Accounted(p) && b < |p.descs| && p.descs[b].refCnt == 0
    ensures var q := DoAll(p, [Fetch(b), Fetch(b)]);
            Accounted(q) && q.entries == p.entries + [b, b] && |q.descs| == |p.descs| && q.descs[b].refCnt == 2 && Leaked(q.descs[b].refCnt) == 1
  {
    var steps := [Fetch(b), Fetch(b)];
    PinsAccounted(p, steps);
    assert steps[..1] == [Fetch(b)] && steps[..1][..0] == [];
    assert DoAll(p, steps[..1]) == Do(p, Fetch(b));
  }
}
