/** The page cache as a state machine: what AllocBuffer, ReadPage, WritePage and CleanPageBuffer do to descriptors,
    buffers, the tag index and the files (src/sqlcore/storage/buffer/buffer.c), one operation at a time.

    The main result is that the cache cannot be told from a plain store of pages. */
module BufferCache {
  import opened Commons
  import opened HashTable
  import opened BufferPool

  /** A page of a table's file. */
  datatype Location = Location(tableId: int, pageno: int, forkNum: int)

  datatype Page = Page(pageNum: int, body: seq<byte>)

  /** The tag ReadPage builds. */
  function TagOf(l: Location): BufferTag {
    BufferTag(0, l.tableId, 0, l.pageno, l.forkNum)
  }

  function Home(t: BufferTag): Location {
    Location(t.tableId, t.pageno, t.forkNum)
  }

  /** `index` is what the hash table holds, `free` the free list, `start` the clock hand, `disk` the files. */
  datatype Cache = Cache(descs: seq<BufferDesc>, pages: seq<Page>, free: seq<int>, start: nat,
                         index: map<BufferTag, int>, disk: map<Location, Page>)

  ghost predicate ShapeInv(c: Cache) {
    && |c.pages| == |c.descs| && c.start < |c.descs| && Counts(c.descs)
    && (forall i :: 0 <= i < |c.free| ==> 0 < c.free[i] < |c.descs| && c.descs[c.free[i]].isValid == BVF_INVALID)
    && (forall i, j :: 0 <= i < j < |c.free| ==> c.free[i] != c.free[j])
  }

  /** The index maps a tag to a buffer exactly when the buffer's descriptor is tagged or valid with it. */
  ghost predicate IndexInv(descs: seq<BufferDesc>, index: map<BufferTag, int>) {
    && (forall t :: t in index ==>
          0 <= index[t] < |descs| && descs[index[t]].bufferTag == t && descs[index[t]].isValid != BVF_INVALID && t == TagOf(Home(t)) && 1 <= t.pageno)
    && (forall b :: 0 <= b < |descs| && descs[b].isValid != BVF_INVALID ==> descs[b].bufferTag in index && index[descs[b].bufferTag] == b)
  }

  ghost predicate DescInv(descs: seq<BufferDesc>) {
    forall b :: 0 <= b < |descs| ==>
      && (descs[b].isValid == BVF_INVALID ==> descs[b].refCnt == 0 && descs[b].bufferTag.pageno == 0)
      && (descs[b].isDirty ==> descs[b].isValid == BVF_VLID)
  }

  /** A valid buffer is the page its tag names, and is as on disk unless it is dirty or its holder has yet to say so. */
  ghost predicate PageInv(descs: seq<BufferDesc>, pages: seq<Page>, disk: map<Location, Page>, pending: set<int>)
    requires |pages| == |descs|
  {
    forall b :: 0 <= b < |descs| && descs[b].isValid == BVF_VLID ==>
      && pages[b].pageNum == descs[b].bufferTag.pageno
      && Home(descs[b].bufferTag) in disk
      && (pages[b] == disk[Home(descs[b].bufferTag)] || descs[b].isDirty || b in pending)
  }

  /** A page edited but not yet written or marked dirty stays pinned. */
  ghost predicate PendingInv(descs: seq<BufferDesc>, pending: set<int>) {
    forall b :: b in pending ==> 0 <= b < |descs| && descs[b].isValid == BVF_VLID && descs[b].refCnt > 0
  }

  ghost predicate DiskInv(disk: map<Location, Page>) {
    forall l :: l in disk ==> disk[l].pageNum == l.pageno
  }

  ghost predicate Inv(c: Cache, pending: set<int>) {
    && ShapeInv(c)
    && IndexInv(c.descs, c.index)
    && DescInv(c.descs)
    && PageInv(c.descs, c.pages, c.disk, pending)
    && PendingInv(c.descs, pending)
    && DiskInv(c.disk)
  }

  /** What the store holds at a location: the valid buffer if there is one, the file otherwise. */
  ghost function Content(c: Cache, l: Location): Page
    requires l in c.disk
  {
    var t := TagOf(l);
    if t in c.index && 0 <= c.index[t] < |c.descs| && c.index[t] < |c.pages| && c.descs[c.index[t]].isValid == BVF_VLID
    then c.pages[c.index[t]] else c.disk[l]
  }

  /** The plain page store that the cache stands for. */
  ghost function Store(c: Cache): map<Location, Page> {
    map l | l in c.disk :: Content(c, l)
  }

  /** CleanPageBuffer: a dirty page is flushed to the place its own header names, in the table and fork of its tag. */
  function Cleaned(c: Cache, b: nat): Cache
    requires b < |c.descs| && b < |c.pages|
  {
    var d := c.descs[b];
    c.(disk := if d.isDirty then c.disk[Location(d.bufferTag.tableId, c.pages[b].pageNum, d.bufferTag.forkNum) := c.pages[b]] else c.disk,
       descs := c.descs[b := d.(isDirty := false, isValid := BVF_INVALID)],
       index := c.index - {d.bufferTag})
  }

  /** The INIT_TAG part of AllocBuffer. */
  function Tagged(c: Cache, b: nat, t: BufferTag): Cache
    requires b < |c.descs|
  {
    c.(descs := c.descs[b := c.descs[b].(isValid := BVF_TAG, bufferTag := t, isDirty := false)], index := c.index[t := b])
  }

  function PinnedAt(c: Cache, b: nat): Cache
    requires b < |c.descs|
  {
    c.(descs := c.descs[b := Pinned(c.descs[b])])
  }

  function UnpinnedAt(c: Cache, b: nat): Cache
    requires b < |c.descs|
  {
    c.(descs := c.descs[b := Unpinned(c.descs[b])])
  }

  predicate Sound(c: Cache, t: BufferTag) {
    && c.start < |c.descs| && |c.pages| == |c.descs|
    && (t in c.index ==> 0 <= c.index[t] < |c.descs|)
    && (c.free != [] ==> 0 <= c.free[0] < |c.descs|)
  }

  /** AllocBuffer, when its retries are not needed: the new cache, the buffer, and whether it was BUFFER_FOUND. */
  function Alloc(c: Cache, t: BufferTag): (Cache, nat, bool)
    requires Sound(c, t)
  {
    if t in c.index then (PinnedAt(c, c.index[t]), c.index[t], c.descs[c.index[t]].isValid == BVF_VLID)
    else if c.free != [] then
      (Tagged(PinnedAt(c.(free := c.free[1..]), c.free[0]), c.free[0], t), c.free[0], false)
    else
      var (ds, b) := Sweep(c.descs, c.start, USE_COUNT_MAX * |c.descs|);
      if b >= |c.descs| || |ds| != |c.descs| then (c, 0, false)
      else (Tagged(Cleaned(PinnedAt(c.(descs := ds, start := Next(b, |ds|)), b), b), b, t), b, false)
  }

  /** Descriptors that differ in their counts only. */
  ghost predicate SameTags(ds: seq<BufferDesc>, ds': seq<BufferDesc>) {
    |ds'| == |ds| && forall b :: 0 <= b < |ds| ==> ds'[b] == ds[b].(refCnt := ds'[b].refCnt, usedCnt := ds'[b].usedCnt)
  }

  /** Counting differently changes neither the invariant nor the store, as long as unwritten edits stay pinned. */
  lemma Recounted(c: Cache, ds: seq<BufferDesc>, pending: set<int>)
    requires Inv(c, pending) && SameTags(c.descs, ds) && Counts(ds)
    requires forall b :: 0 <= b < |ds| && ds[b].isValid == BVF_INVALID ==> ds[b].refCnt == 0
    requires forall b :: b in pending && 0 <= b < |ds| ==> ds[b].refCnt > 0
    ensures Inv(c.(descs := ds), pending) && Store(c.(descs := ds)) == Store(c)
  {
    RecountedStore(c, ds);
  }

  lemma RecountedStore(c: Cache, ds: seq<BufferDesc>)
    requires SameTags(c.descs, ds)
    ensures Store(c.(descs := ds)) == Store(c)
  {
  }

  lemma PinInv(c: Cache, pending: set<int>, b: nat)
    requires Inv(c, pending) && b < |c.descs| && c.descs[b].isValid != BVF_INVALID
    ensures Inv(PinnedAt(c, b), pending) && Store(PinnedAt(c, b)) == Store(c)
  {
    Recounted(c, PinnedAt(c, b).descs, pending);
  }

  lemma UnpinInv(c: Cache, pending: set<int>, b: nat)
    requires Inv(c, pending) && b < |c.descs| && c.descs[b].isValid != BVF_INVALID && (b in pending ==> c.descs[b].refCnt > 1)
    ensures Inv(UnpinnedAt(c, b), pending) && Store(UnpinnedAt(c, b)) == Store(c)
  {
    Recounted(c, UnpinnedAt(c, b).descs, pending);
  }

  lemma SweepInv(c: Cache, pending: set<int>, ds: seq<BufferDesc>, hand: nat)
    requires Inv(c, pending) && OnlyAged(c.descs, ds) && Counts(ds) && hand < |ds|
    ensures Inv(c.(descs := ds, start := hand), pending) && Store(c.(descs := ds, start := hand)) == Store(c)
  {
    Recounted(c, ds, pending);
    var c1 := c.(descs := ds);
    forall l | l in c.disk ensures Content(c1.(start := hand), l) == Content(c1, l) {
    }
  }

  /** The descriptor of a buffer taken over for tag t. */
  function TakenOver(d: BufferDesc, t: BufferTag): BufferDesc {
    Pinned(d).(isValid := BVF_TAG, bufferTag := t, isDirty := false)
  }

  /** Pinning, cleaning and retagging a buffer. */
  function Replaced(c: Cache, b: nat, t: BufferTag): Cache
    requires b < |c.descs| && b < |c.pages|
  {
    Tagged(Cleaned(PinnedAt(c, b), b), b, t)
  }

  ghost predicate FreshTag(c: Cache, t: BufferTag) {
    t !in c.index && t == TagOf(Home(t)) && 1 <= t.pageno
  }

  lemma RetaggedIndex(descs: seq<BufferDesc>, index: map<BufferTag, int>, b: nat, t: BufferTag)
    requires IndexInv(descs, index) && DescInv(descs) && b < |descs|
    requires t !in index && t == TagOf(Home(t)) && 1 <= t.pageno
    ensures IndexInv(descs[b := TakenOver(descs[b], t)], (index - {descs[b].bufferTag})[t := b])
    ensures DescInv(descs[b := TakenOver(descs[b], t)])
  {
  }

  lemma ReplacedIndex(c: Cache, pending: set<int>, b: nat, t: BufferTag)
    requires Inv(c, pending) && b < |c.descs| && FreshTag(c, t)
    ensures IndexInv(Replaced(c, b, t).descs, Replaced(c, b, t).index)
    ensures DescInv(Replaced(c, b, t).descs)
  {
    RetaggedIndex(c.descs, c.index, b, t);
    hide IndexInv, DescInv, PageInv, PendingInv, DiskInv;
    var c' := Replaced(c, b, t);
    assert c'.descs == c.descs[b := TakenOver(c.descs[b], t)];
    assert c'.index == (c.index - {c.descs[b].bufferTag})[t := b];
  }

  /** What is flushed goes home. */
  lemma FlushedHome(c: Cache, pending: set<int>, b: nat)
    requires Inv(c, pending) && b < |c.descs|
    ensures var h := Home(c.descs[b].bufferTag);
            Cleaned(c, b).disk == if c.descs[b].isDirty then c.disk[h := c.pages[b]] else c.disk
    ensures c.descs[b].isDirty ==> Home(c.descs[b].bufferTag) in c.disk && c.pages[b].pageNum == Home(c.descs[b].bufferTag).pageno
  {
  }

  /** Tags of other buffers have other homes. */
  lemma HomesApart(c: Cache, pending: set<int>, b: nat, d: nat)
    requires Inv(c, pending) && b < |c.descs| && d < |c.descs| && b != d
    requires c.descs[b].isValid != BVF_INVALID && c.descs[d].isValid != BVF_INVALID
    ensures Home(c.descs[b].bufferTag) != Home(c.descs[d].bufferTag)
  {
  }

  lemma ReplacedPages(c: Cache, pending: set<int>, b: nat, t: BufferTag)
    requires Inv(c, pending) && b < |c.descs| && b !in pending && FreshTag(c, t)
    ensures var c' := Replaced(c, b, t);
            |c'.pages| == |c'.descs| && PageInv(c'.descs, c'.pages, c'.disk, pending) && PendingInv(c'.descs, pending) && DiskInv(c'.disk)
  {
    var c' := Replaced(c, b, t);
    FlushedHome(c, pending, b);
    forall d | 0 <= d < |c.descs| && c'.descs[d].isValid == BVF_VLID
      ensures c'.pages[d].pageNum == c'.descs[d].bufferTag.pageno && Home(c'.descs[d].bufferTag) in c'.disk
              && (c'.pages[d] == c'.disk[Home(c'.descs[d].bufferTag)] || c'.descs[d].isDirty || d in pending)
    {
      if c.descs[b].isDirty {
        HomesApart(c, pending, b, d);
      }
    }
  }

  lemma ReplacedContent(c: Cache, pending: set<int>, b: nat, t: BufferTag, l: Location)
    requires Inv(c, pending) && b < |c.descs| && b !in pending && FreshTag(c, t) && l in c.disk
    ensures l in Replaced(c, b, t).disk && Content(Replaced(c, b, t), l) == Content(c, l)
  {
  }

  /** Evicting whatever an unpinned buffer holds, flushing it first, keeps the invariant and the store. */
  lemma ReplacedInv(c: Cache, pending: set<int>, b: nat, t: BufferTag)
    requires Inv(c, pending) && b < |c.descs| && b !in pending && FreshTag(c, t) && b !in c.free
    ensures Inv(Replaced(c, b, t), pending) && Store(Replaced(c, b, t)) == Store(c)
  {
    ReplacedIndex(c, pending, b, t);
    ReplacedPages(c, pending, b, t);
    ReplacedShape(c, b, t);
    ReplacedStore(c, pending, b, t);
  }

  lemma ReplacedShape(c: Cache, b: nat, t: BufferTag)
    requires ShapeInv(c) && b < |c.descs| && b !in c.free
    ensures ShapeInv(Replaced(c, b, t))
  {
  }

  lemma ReplacedStore(c: Cache, pending: set<int>, b: nat, t: BufferTag)
    requires Inv(c, pending) && b < |c.descs| && b !in pending && FreshTag(c, t)
    ensures Store(Replaced(c, b, t)) == Store(c)
  {
    hide Content;
    var c' := Replaced(c, b, t);
    FlushedHome(c, pending, b);
    forall l | l in c.disk ensures l in c'.disk && Content(c', l) == Content(c, l) {
      ReplacedContent(c, pending, b, t, l);
    }
    assert c'.disk.Keys == c.disk.Keys;
  }

  /** Taking an empty buffer from the free list is the same with or without cleaning it. */
  lemma EmptyIsClean(c: Cache, pending: set<int>, b: nat, t: BufferTag)
    requires Inv(c, pending) && b < |c.descs| && c.descs[b].isValid == BVF_INVALID
    ensures Tagged(PinnedAt(c, b), b, t) == Replaced(c, b, t)
  {
  }

  lemma FreeRestInv(c: Cache, pending: set<int>)
    requires Inv(c, pending) && c.free != []
    ensures Inv(c.(free := c.free[1..]), pending) && Store(c.(free := c.free[1..])) == Store(c)
    ensures c.free[0] !in c.free[1..]
  {
  }

  /** Some buffer can be had for a tag that has none. */
  ghost predicate Room(c: Cache, t: BufferTag) {
    t in c.index || c.free != [] || exists v: nat :: Victim(c.descs, v)
  }

  /** AllocBuffer returns the tag's only buffer, pinned once more, and loses nothing on the way. */
  lemma AllocInv(c: Cache, pending: set<int>, t: BufferTag)
    requires Inv(c, pending) && t == TagOf(Home(t)) && 1 <= t.pageno && Room(c, t)
    ensures Sound(c, t)
    ensures var (c', b, found) := Alloc(c, t);
            && Inv(c', pending) && Store(c') == Store(c)
            && t in c'.index && c'.index[t] == b < |c'.descs|
            && c'.descs[b].isValid == (if found then BVF_VLID else BVF_TAG)
            && c'.descs[b].refCnt > 0
  {
    if t in c.index {
      PinInv(c, pending, c.index[t]);
    } else if c.free != [] {
      AllocFree(c, pending, t);
    } else {
      AllocSweep(c, pending, t);
    }
  }

  lemma AllocFree(c: Cache, pending: set<int>, t: BufferTag)
    requires Inv(c, pending) && FreshTag(c, t) && c.free != []
    ensures 0 <= c.free[0] < |c.descs|
    ensures var c' := Tagged(PinnedAt(c.(free := c.free[1..]), c.free[0]), c.free[0], t);
            Inv(c', pending) && Store(c') == Store(c)
  {
    var c1, b := c.(free := c.free[1..]), c.free[0];
    FreeRestInv(c, pending);
    assert b !in pending;
    EmptyIsClean(c1, pending, b, t);
    ReplacedInv(c1, pending, b, t);
  }

  lemma AllocSweep(c: Cache, pending: set<int>, t: BufferTag)
    requires Inv(c, pending) && FreshTag(c, t) && c.free == [] && exists v: nat :: Victim(c.descs, v)
    ensures var (ds, b) := Sweep(c.descs, c.start, USE_COUNT_MAX * |c.descs|);
            b < |ds| == |c.descs| && OnlyAged(c.descs, ds) && Counts(ds) && b !in pending && Evictable(ds[b])
            && var c' := Replaced(c.(descs := ds, start := Next(b, |ds|)), b, t);
            Inv(c', pending) && Store(c') == Store(c)
  {
    hide Sweep, Turn;
    var v: nat :| Victim(c.descs, v);
    TurnBound(c.descs, c.start, v);
    SweepStops(c.descs, c.start, USE_COUNT_MAX * |c.descs|, v);
    var (ds, b) := Sweep(c.descs, c.start, USE_COUNT_MAX * |c.descs|);
    SweepInv(c, pending, ds, Next(b, |ds|));
    var c1 := c.(descs := ds, start := Next(b, |ds|));
    assert b !in pending;
    ReplacedInv(c1, pending, b, t);
  }

  /** TableRead into buffer b, then SetBuffferValid. */
  function Loaded(c: Cache, b: nat, l: Location): Cache
    requires b < |c.descs| && b < |c.pages| && l in c.disk
  {
    c.(pages := c.pages[b := c.disk[l]], descs := c.descs[b := c.descs[b].(isValid := BVF_VLID)])
  }

  /** ReadPage: no page number below 1 is read, and a page past the end of its file gives the buffer back, still tagged. */
  function ReadPage(c: Cache, l: Location): (Cache, Option<nat>)
    requires Sound(c, TagOf(l))
  {
    if l.pageno <= 0 then (c, None)
    else
      var (c1, b, found) := Alloc(c, TagOf(l));
      if b >= |c1.descs| || b >= |c1.pages| then (c, None)
      else if found then (c1, Some(b))
      else if l in c1.disk then (Loaded(c1, b, l), Some(b))
      else (UnpinnedAt(c1, b), None)
  }

  lemma LoadedInv(c: Cache, pending: set<int>, b: nat, l: Location)
    requires Inv(c, pending) && l in c.disk && TagOf(l) in c.index && c.index[TagOf(l)] == b && b < |c.descs| && c.descs[b].isValid == BVF_TAG
    ensures Inv(Loaded(c, b, l), pending) && Store(Loaded(c, b, l)) == Store(c)
  {
    var c' := Loaded(c, b, l);
    assert Home(TagOf(l)) == l;
    forall k | k in c.disk ensures Content(c', k) == Content(c, k) {
      assert Home(TagOf(k)) == k;
    }
  }

  /** The client of a page holds a pin on its valid buffer. */
  predicate Held(c: Cache, l: Location) {
    var t := TagOf(l);
    t in c.index && 0 <= c.index[t] < |c.descs| && c.index[t] < |c.pages|
    && c.descs[c.index[t]].isValid == BVF_VLID && c.descs[c.index[t]].refCnt > 0
  }

  /** ReadPage returns what the store holds, pinned, or nothing if the store holds nothing there. */
  lemma ReadPageIsStoreRead(c: Cache, pending: set<int>, l: Location)
    requires Inv(c, pending) && (1 <= l.pageno ==> Room(c, TagOf(l)))
    ensures Sound(c, TagOf(l))
    ensures var (c', r) := ReadPage(c, l);
            && Inv(c', pending) && Store(c') == Store(c)
            && (r.Some? <==> l.pageno >= 1 && l in Store(c))
            && (r.Some? ==> Held(c', l) && c'.index[TagOf(l)] == r.value && c'.pages[r.value] == Store(c)[l])
  {
    hide PageInv, DescInv, DiskInv, Alloc;
    if l.pageno >= 1 {
      assert Home(TagOf(l)) == l;
      AllocInv(c, pending, TagOf(l));
      var (c1, b, found) := Alloc(c, TagOf(l));
      assert c1.disk.Keys == Store(c1).Keys;
      if found {
        FoundIsStored(c1, pending, l, b);
      } else if l in c1.disk {
        LoadedInv(c1, pending, b, l);
        FoundIsStored(Loaded(c1, b, l), pending, l, b);
      } else {
        assert b !in pending;
        UnpinInv(c1, pending, b);
      }
    } else {
      ShapeSound(c, pending, TagOf(l));
    }
  }

  lemma ShapeSound(c: Cache, pending: set<int>, t: BufferTag)
    requires Inv(c, pending)
    ensures Sound(c, t)
  {
  }

  lemma FoundIsStored(c: Cache, pending: set<int>, l: Location, b: nat)
    requires Inv(c, pending) && TagOf(l) in c.index && c.index[TagOf(l)] == b < |c.descs| && c.descs[b].isValid == BVF_VLID
    ensures l in Store(c) && b < |c.pages| && c.pages[b] == Store(c)[l]
  {
  }

  /** The calls clients make: `Edit` stands for the in-place changes between calls, `Extend` for one page of ExtensionTbl. */
  datatype Step =
    | Read(at: Location)
    | Release(at: Location)
    | Edit(at: Location, body: seq<byte>)
    | Write(at: Location)
    | MarkDirty(at: Location)
    | Extend(at: Location, body: seq<byte>)

  /** A state of the system: the cache, and which buffers hold edits not yet written or marked. */
  datatype System = System(cache: Cache, pending: set<int>)

  function BufferOf(c: Cache, l: Location): nat
    requires Held(c, l)
  {
    c.index[TagOf(l)]
  }

  /** Callers touch only pages they hold, give up no page with an unwritten edit, and extend a file beyond its end. */
  ghost predicate Allowed(s: System, step: Step) {
    match step
    case Read(l) => 1 <= l.pageno ==> Room(s.cache, TagOf(l))
    case Release(l) => Held(s.cache, l) && (BufferOf(s.cache, l) in s.pending ==> s.cache.descs[BufferOf(s.cache, l)].refCnt > 1)
    case Edit(l, _) => Held(s.cache, l)
    case Write(l) => Held(s.cache, l)
    case MarkDirty(l) => Held(s.cache, l)
    case Extend(l, _) => l !in s.cache.disk
  }

  function Edited(c: Cache, b: nat, body: seq<byte>): Cache
    requires b < |c.pages|
  {
    c.(pages := c.pages[b := c.pages[b].(body := body)])
  }

  /** WritePage: to the place the page's own header names, in the table and fork it is written through. */
  function Written(c: Cache, b: nat, l: Location): Cache
    requires b < |c.pages| && b < |c.descs|
  {
    c.(disk := c.disk[Location(l.tableId, c.pages[b].pageNum, l.forkNum) := c.pages[b]],
       descs := c.descs[b := c.descs[b].(isDirty := false)])
  }

  /** SetBuffferDirty. */
  function Marked(c: Cache, b: nat): Cache
    requires b < |c.descs|
  {
    c.(descs := c.descs[b := c.descs[b].(isDirty := true)])
  }

  /** One step, and what it returns. */
  ghost function Do(s: System, step: Step): (System, Option<Page>)
    requires Inv(s.cache, s.pending) && Allowed(s, step)
  {
    var c := s.cache;
    match step
    case Read(l) =>
      ShapeSound(c, s.pending, TagOf(l));
      var (c', r) := ReadPage(c, l);
      (System(c', s.pending), if r.Some? && r.value < |c'.pages| then Some(c'.pages[r.value]) else None)
    case Release(l) => (System(UnpinnedAt(c, BufferOf(c, l)), s.pending), None)
    case Edit(l, body) => (System(Edited(c, BufferOf(c, l), body), s.pending + {BufferOf(c, l)}), None)
    case Write(l) => (System(Written(c, BufferOf(c, l), l), s.pending - {BufferOf(c, l)}), None)
    case MarkDirty(l) => (System(Marked(c, BufferOf(c, l)), s.pending - {BufferOf(c, l)}), None)
    case Extend(l, body) => (System(c.(disk := c.disk[l := Page(l.pageno, body)]), s.pending), None)
  }

  /** The same step on a store of pages without any cache. */
  function Plain(store: map<Location, Page>, step: Step): (map<Location, Page>, Option<Page>) {
    match step
    case Read(l) => (store, if l.pageno >= 1 && l in store then Some(store[l]) else None)
    case Edit(l, body) => (if l in store then store[l := store[l].(body := body)] else store, None)
    case Extend(l, body) => (store[l := Page(l.pageno, body)], None)
    case _ => (store, None)
  }

  lemma EditInv(c: Cache, pending: set<int>, l: Location, body: seq<byte>)
    requires Inv(c, pending) && Held(c, l)
    ensures var b := BufferOf(c, l);
            Inv(Edited(c, b, body), pending + {b}) && l in Store(c)
            && Store(Edited(c, b, body)) == Store(c)[l := Store(c)[l].(body := body)]
  {
  }

  lemma MarkInv(c: Cache, pending: set<int>, l: Location)
    requires Inv(c, pending) && Held(c, l)
    ensures var b := BufferOf(c, l);
            Inv(Marked(c, b), pending - {b}) && Store(Marked(c, b)) == Store(c)
  {
    var c' := Marked(c, BufferOf(c, l));
    forall k | k in c.disk ensures Content(c', k) == Content(c, k) {
    }
  }

  lemma WrittenHome(c: Cache, pending: set<int>, l: Location)
    requires Inv(c, pending) && Held(c, l)
    ensures var b := BufferOf(c, l);
            Written(c, b, l).disk == c.disk[l := c.pages[b]] && c.pages[b].pageNum == l.pageno && l in c.disk
  {
  }

  lemma WriteInv(c: Cache, pending: set<int>, l: Location)
    requires Inv(c, pending) && Held(c, l)
    ensures var b := BufferOf(c, l);
            Inv(Written(c, b, l), pending - {b}) && Store(Written(c, b, l)) == Store(c)
  {
    var b := BufferOf(c, l);
    var c' := Written(c, b, l);
    WrittenHome(c, pending, l);
    WritePages(c, pending, l);
    forall k | k in c.disk ensures Content(c', k) == Content(c, k) {
      assert Home(TagOf(k)) == k && Home(TagOf(l)) == l;
    }
  }

  lemma WritePages(c: Cache, pending: set<int>, l: Location)
    requires Inv(c, pending) && Held(c, l)
    ensures var b := BufferOf(c, l);
            Inv(Written(c, b, l), pending - {b})
  {
    var b := BufferOf(c, l);
    var c' := Written(c, b, l);
    WrittenHome(c, pending, l);
    assert c.descs[b].bufferTag == TagOf(l);
    forall d | 0 <= d < |c.descs| && c'.descs[d].isValid == BVF_VLID
      ensures c'.pages[d].pageNum == c'.descs[d].bufferTag.pageno && Home(c'.descs[d].bufferTag) in c'.disk
              && (c'.pages[d] == c'.disk[Home(c'.descs[d].bufferTag)] || c'.descs[d].isDirty || d in pending - {b})
    {
      if d != b {
        HomesApart(c, pending, b, d);
      }
    }
  }

  lemma ExtendInv(c: Cache, pending: set<int>, l: Location, body: seq<byte>)
    requires Inv(c, pending) && l !in c.disk
    ensures var c' := c.(disk := c.disk[l := Page(l.pageno, body)]);
            Inv(c', pending) && Store(c') == Store(c)[l := Page(l.pageno, body)]
  {
    var c' := c.(disk := c.disk[l := Page(l.pageno, body)]);
    assert Home(TagOf(l)) == l;
    forall k | k in c.disk ensures Content(c', k) == Content(c, k) {
    }
  }

  /** Every step of the cache is the same step of the plain store, and returns the same. */
  lemma StepRefines(s: System, step: Step)
    requires Inv(s.cache, s.pending) && Allowed(s, step)
    ensures var (s', out) := Do(s, step);
            Inv(s'.cache, s'.pending) && (Store(s'.cache), out) == Plain(Store(s.cache), step)
  {
    hide Inv, Store, ReadPage, UnpinnedAt, Edited, Written, Marked;
    var c := s.cache;
    match step
    case Read(l) => ReadPageIsStoreRead(c, s.pending, l);
    case Release(l) => ReleaseInv(c, s.pending, l);
    case Edit(l, body) => EditInv(c, s.pending, l, body);
    case Write(l) => WriteInv(c, s.pending, l);
    case MarkDirty(l) => MarkInv(c, s.pending, l);
    case Extend(l, body) => ExtendInv(c, s.pending, l, body);
  }

  lemma ReleaseInv(c: Cache, pending: set<int>, l: Location)
    requires Inv(c, pending) && Held(c, l) && (BufferOf(c, l) in pending ==> c.descs[BufferOf(c, l)].refCnt > 1)
    ensures var b := BufferOf(c, l);
            Inv(UnpinnedAt(c, b), pending) && Store(UnpinnedAt(c, b)) == Store(c)
  {
    UnpinInv(c, pending, BufferOf(c, l));
  }

  /** The state after a run from the left, and everything it returned. */
  ghost function Run(s: System, steps: seq<Step>): (System, seq<Option<Page>>)
    decreases |steps|
  {
    if steps == [] then (s, [])
    else if !(Inv(s.cache, s.pending) && Allowed(s, steps[0])) then (s, [])
    else
      var (s1, out) := Do(s, steps[0]);
      var (s2, outs) := Run(s1, steps[1..]);
      (s2, [out] + outs)
  }

  ghost predicate AllAllowed(s: System, steps: seq<Step>)
    decreases |steps|
  {
    steps == [] ||
    (Allowed(s, steps[0]) && (Inv(s.cache, s.pending) ==> AllAllowed(Do(s, steps[0]).0, steps[1..])))
  }

  function PlainRun(store: map<Location, Page>, steps: seq<Step>): (map<Location, Page>, seq<Option<Page>>)
    decreases |steps|
  {
    if steps == [] then (store, [])
    else
      var (store1, out) := Plain(store, steps[0]);
      var (store2, outs) := PlainRun(store1, steps[1..]);
      (store2, [out] + outs)
  }

  /** Over any run, of reads, edits, writes, releases and extensions with whatever evictions they cause, every read
      returns exactly what a store without a cache returns, and the cache ends up standing for what that store holds. */
  lemma {:induction false} RunRefines(s: System, steps: seq<Step>)
    requires Inv(s.cache, s.pending) && AllAllowed(s, steps)
    ensures var (s', outs) := Run(s, steps);
            Inv(s'.cache, s'.pending) && (Store(s'.cache), outs) == PlainRun(Store(s.cache), steps)
    decreases |steps|
  {
    hide Inv, Store, Do, Plain, Allowed;
    if steps != [] {
      StepRefines(s, steps[0]);
      RunRefines(Do(s, steps[0]).0, steps[1..]);
    }
  }

  predicate Changes(step: Step, l: Location) {
    (step.Edit? || step.Extend?) && step.at == l
  }

  lemma {:induction false} UnchangedIsRead(store: map<Location, Page>, steps: seq<Step>, l: Location)
    requires l in store && 1 <= l.pageno && forall i :: 0 <= i < |steps| ==> !Changes(steps[i], l)
    ensures var outs := PlainRun(store, steps + [Read(l)]).1;
            |outs| == |steps| + 1 && outs[|steps|] == Some(store[l])
    decreases |steps|
  {
    if steps != [] {
      assert (steps + [Read(l)])[0] == steps[0] && (steps + [Read(l)])[1..] == steps[1..] + [Read(l)];
      UnchangedIsRead(Plain(store, steps[0]).0, steps[1..], l);
    } else {
      assert [] + [Read(l)] == [Read(l)] && [Read(l)][1..] == [];
    }
  }

  /** What was last put into a page, by an edit or by extending its file, is what a read of it returns, whatever is read,
      released, written, marked or evicted in between. */
  lemma ChangedIsRead(s: System, change: Step, steps: seq<Step>, l: Location)
    requires Inv(s.cache, s.pending) && AllAllowed(s, [change] + (steps + [Read(l)]))
    requires Changes(change, l) && 1 <= l.pageno && forall i :: 0 <= i < |steps| ==> !Changes(steps[i], l)
    ensures var outs := Run(s, [change] + (steps + [Read(l)])).1;
            |outs| == |steps| + 2 && outs[|steps| + 1].Some? && outs[|steps| + 1].value.body == change.body
  {
    var rest := steps + [Read(l)];
    var all := [change] + rest;
    assert all[0] == change && all[1..] == rest;
    RunRefines(s, all);
    if change.Edit? {
      EditInv(s.cache, s.pending, l, change.body);
    }
    hide Inv, Store, Do, Allowed, Run, AllAllowed;
    UnchangedIsRead(Plain(Store(s.cache), change).0, steps, l);
  }

  /** The pool as InitBufferPool leaves it, over existing files. */
  function Initial(n: nat, page: Page, disk: map<Location, Page>): Cache
    requires BUFFER_MIN_NUM <= n
  {
    Cache(seq(n, _ => BufferDesc(BufferTag(0, 0, 0, 0, 0), BVF_INVALID, false, 0, 0, false)), seq(n, _ => page),
          seq(n - 1, i => i + 1), 0, map[], disk)
  }

  lemma InitialInv(n: nat, page: Page, disk: map<Location, Page>)
    requires BUFFER_MIN_NUM <= n && DiskInv(disk)
    ensures Inv(Initial(n, page, disk), {}) && Store(Initial(n, page, disk)) == disk
  {
  }

  /** Buffer b still is the valid buffer of tag u, with no pin lost. */
  predicate Keeps(c: Cache, c': Cache, u: BufferTag, b: nat) {
    u in c'.index && c'.index[u] == b && b < |c'.descs| && b < |c.descs| && |c'.pages| == |c.pages|
    && c'.descs[b].isValid == BVF_VLID && c'.descs[b].refCnt >= c.descs[b].refCnt
  }

  lemma ReplacedKeeps(c: Cache, pending: set<int>, d: nat, t: BufferTag, u: BufferTag)
    requires Inv(c, pending) && d < |c.descs| && FreshTag(c, t)
    requires u in c.index && c.descs[c.index[u]].isValid == BVF_VLID && d != c.index[u]
    ensures Keeps(c, Replaced(c, d, t), u, c.index[u])
  {
  }

  lemma AllocKeeps(c: Cache, pending: set<int>, t: BufferTag, u: BufferTag)
    requires Inv(c, pending) && t == TagOf(Home(t)) && 1 <= t.pageno && Room(c, t)
    requires u in c.index && 0 <= c.index[u] < |c.descs| && c.descs[c.index[u]].isValid == BVF_VLID && c.descs[c.index[u]].refCnt > 0
    ensures Sound(c, t) && Keeps(c, Alloc(c, t).0, u, c.index[u])
  {
    hide DiskInv, PageInv, Sweep, Turn, Replaced;
    ShapeSound(c, pending, t);
    if t in c.index {
    } else if c.free != [] {
      FreeRestInv(c, pending);
      var c1 := c.(free := c.free[1..]);
      EmptyIsClean(c1, pending, c.free[0], t);
      ReplacedKeeps(c1, pending, c.free[0], t, u);
    } else {
      AllocSweep(c, pending, t);
      var (ds, b) := Sweep(c.descs, c.start, USE_COUNT_MAX * |c.descs|);
      SweepKeeps(c, pending, ds, b, t, u);
    }
  }

  lemma SweepKeeps(c: Cache, pending: set<int>, ds: seq<BufferDesc>, b: nat, t: BufferTag, u: BufferTag)
    requires Inv(c, pending) && FreshTag(c, t) && OnlyAged(c.descs, ds) && Counts(ds) && b < |ds| && Evictable(ds[b])
    requires u in c.index && c.descs[c.index[u]].isValid == BVF_VLID && c.descs[c.index[u]].refCnt > 0
    ensures var c1 := c.(descs := ds, start := Next(b, |ds|));
            Keeps(c, Tagged(Cleaned(PinnedAt(c1, b), b), b, t), u, c.index[u])
  {
    hide DiskInv, PageInv;
    SweepInv(c, pending, ds, Next(b, |ds|));
    ReplacedKeeps(c.(descs := ds, start := Next(b, |ds|)), pending, b, t, u);
  }

  lemma ReadKeeps(c: Cache, pending: set<int>, l: Location, u: BufferTag)
    requires Inv(c, pending) && 1 <= l.pageno && Room(c, TagOf(l))
    requires u in c.index && 0 <= c.index[u] < |c.descs| && c.descs[c.index[u]].isValid == BVF_VLID && c.descs[c.index[u]].refCnt > 0
    ensures Sound(c, TagOf(l)) && Keeps(c, ReadPage(c, l).0, u, c.index[u])
  {
    hide Inv, Alloc;
    assert Home(TagOf(l)) == l;
    AllocInv(c, pending, TagOf(l));
    AllocKeeps(c, pending, TagOf(l), u);
  }

  /** A page that somebody holds stays in its buffer, whatever else is done. */
  lemma HeldStays(s: System, step: Step, l: Location)
    requires Inv(s.cache, s.pending) && Allowed(s, step) && Held(s.cache, l)
    ensures var c' := Do(s, step).0.cache;
            TagOf(l) in c'.index && c'.index[TagOf(l)] == BufferOf(s.cache, l)
            && (Held(c', l) || (step.Release? && s.cache.descs[BufferOf(s.cache, l)].refCnt == 1))
  {
    hide Inv;
    if step.Read? && 1 <= step.at.pageno {
      hide ReadPage;
      ReadKeeps(s.cache, s.pending, step.at, TagOf(l));
    } else {
      StillHeld(s.cache, s.pending, l);
    }
  }

  lemma StillHeld(c: Cache, pending: set<int>, l: Location)
    requires Inv(c, pending) && Held(c, l)
    ensures forall k :: Held(c, k) ==> (BufferOf(c, k) == BufferOf(c, l) <==> k == l)
  {
  }

  /** Why edited pages must be written or marked before they are given up: evicting a valid buffer keeps the store
      exactly when the buffer is dirty or as on disk. */
  lemma EvictionKeepsStore(c: Cache, pending: set<int>, b: nat, t: BufferTag)
    requires Inv(c, pending) && b < |c.descs| && c.descs[b].isValid == BVF_VLID && FreshTag(c, t)
    ensures Home(c.descs[b].bufferTag) in c.disk
    ensures Store(Replaced(c, b, t)) == Store(c) <==> c.descs[b].isDirty || c.pages[b] == c.disk[Home(c.descs[b].bufferTag)]
  {
    var l := Home(c.descs[b].bufferTag);
    if c.descs[b].isDirty || c.pages[b] == c.disk[l] {
      SettledInv(c, pending, b);
      ReplacedStore(c, pending - {b}, b, t);
    } else {
      assert TagOf(l) == c.descs[b].bufferTag;
      assert Store(c)[l] == c.pages[b];
      assert Store(Replaced(c, b, t))[l] == c.disk[l];
    }
  }

  lemma SettledInv(c: Cache, pending: set<int>, b: nat)
    requires Inv(c, pending) && b < |c.descs| && c.descs[b].isValid == BVF_VLID
    requires c.descs[b].isDirty || (Home(c.descs[b].bufferTag) in c.disk && c.pages[b] == c.disk[Home(c.descs[b].bufferTag)])
    ensures Inv(c, pending - {b})
  {
  }
}
