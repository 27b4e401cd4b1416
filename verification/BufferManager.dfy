/** The buffer manager in place: descriptors, buffers, free list, hash table and files, updated as buffer.c updates
    them for one worker at a time, and proved to be the page cache of BufferCache. The branches that retry after a
    race are shown never to be taken (src/sqlcore/storage/buffer/buffer.c). */
module BufferManager {
  import opened Commons
  import opened HashSizing
  import opened HashTable
  import opened BufferPool
  import opened BufferCache

  /** Distinct tags lead to distinct buffers, so a buffer without a tag leaves an element free for it. */
  lemma {:induction false} ImageFits(index: map<BufferTag, int>, n: nat)
    requires forall t :: t in index ==> 0 <= index[t] < n
    requires forall t, u :: t in index && u in index && index[t] == index[u] ==> t == u
    ensures |index| <= n
    decreases n
  {
    if t :| t in index && index[t] == n - 1 {
      var rest := index - {t};
      assert rest.Keys == index.Keys - {t};
      ImageFits(rest, n - 1);
    } else if n > 0 {
      ImageFits(index, n - 1);
    } else {
      assert index.Keys == {};
    }
  }

  lemma ElementsSuffice(descs: seq<BufferDesc>, index: map<BufferTag, int>, b: nat)
    requires b < |descs|
    requires forall t :: t in index ==> 0 <= index[t] < |descs| && descs[index[t]].bufferTag == t && index[t] != b
    ensures |index| < |descs|
  {
    var last := |descs| - 1;
    var moved := map t | t in index :: if index[t] == last then b else index[t];
    assert moved.Keys == index.Keys;
    forall t, u | t in moved && u in moved && moved[t] == moved[u] ensures t == u {
      assert descs[index[t]].bufferTag == t && descs[index[u]].bufferTag == u;
    }
    ImageFits(moved, last);
  }

  lemma ShiftFour()
    ensures ShiftFor(4, 62)
  {
  }

  class BufferManager {
    const pool: BufferPoolContext
    const table: HashTableInfo
    const pages: array<Page>
    var disk: map<Location, Page>

    /** The buffer manager at start-up: an empty pool, and a hash table of four partitions with an element a buffer. */
    constructor (pageNum: nat, getHashKey: BufferTag -> HASHKEY, zero: Page, files: map<Location, Page>)
      requires BUFFER_MIN_NUM <= pageNum
      ensures Ready() && View() == Initial(pageNum, zero, files)
      ensures fresh(pool) && fresh(pool.freeList) && fresh(pool.bufferDesc) && fresh(table) && fresh(table.elements) && fresh(pages)
    {
      hide HashTable.Inv, ShiftFor, Contents, Counts, Listed;
      ShiftFour();
      pool := new BufferPoolContext.InitBufferPool(pageNum);
      table := new HashTableInfo.HashTableCreate(4, 62, pageNum, getHashKey);
      pages := new Page[pageNum](_ => zero);
      disk := files;
      new;
      assert View().descs == Initial(pageNum, zero, files).descs;
      assert View().pages == Initial(pageNum, zero, files).pages;
    }

    ghost predicate Ready()
      reads this, pool, pool.freeList, pool.bufferDesc, table, table.elements, pages
    {
      && pool.Valid() && table.Valid()
      && pool.bufferNum == pages.Length == table.elements.Length
    }

    ghost function View(): Cache
      reads this, pool, pool.freeList, pool.bufferDesc, table, table.elements, pages
    {
      Cache(pool.bufferDesc[..], pages[..], pool.free, pool.start, table.Entries(), disk)
    }

    /** SearchBuffer. */
    method SearchBuffer(tag: BufferTag) returns (id: int)
      requires Ready()
      ensures id == if tag in View().index then View().index[tag] else INVLID_BUFFER
    {
      var key := table.hashing.hash(tag);
      var partition := table.hashing.at(key).0;
      var entry := table.HashFindEntry(key, tag, partition);
      if entry == NULL {
        return INVLID_BUFFER;
      }
      id := table.elements[entry].bufferId;
    }

    /** CleanPageBuffer, where writing to the file succeeds. */
    method CleanPageBuffer(b: nat)
      requires Ready() && b < pool.bufferNum
      modifies this`disk, pool.bufferDesc, table, table.elements
      ensures Ready() && View() == Cleaned(old(View()), b)
    {
      hide HashTable.Inv, Contents, Listed;
      var tag := pool.bufferDesc[b].bufferTag;
      if pool.bufferDesc[b].isDirty {
        disk := disk[Location(tag.tableId, pages[b].pageNum, tag.forkNum) := pages[b]];
        pool.bufferDesc[b] := pool.bufferDesc[b].(isDirty := false);
      }
      pool.bufferDesc[b] := pool.bufferDesc[b].(isValid := BVF_INVALID);
      var _ := table.HashDeleteEntry(table.hashing.hash(tag), tag);
    }

    /** The INIT_TAG part of AllocBuffer: the buffer is still empty, the tag is new, and an element is free for it. */
    method InitTag(b: nat, tag: BufferTag)
      requires Ready() && b < pool.bufferNum && pool.bufferDesc[b].isValid == BVF_INVALID
      requires tag !in View().index && |View().index| < pool.bufferNum
      modifies pool.bufferDesc, table, table.elements
      ensures Ready() && View() == Tagged(old(View()), b, tag)
    {
      hide HashTable.Inv, Contents, Listed;
      if pool.bufferDesc[b].isValid == BVF_INVALID {
        pool.bufferDesc[b] := pool.bufferDesc[b].(isValid := BVF_TAG);
      } else {
        assert false;
      }
      pool.bufferDesc[b] := pool.bufferDesc[b].(bufferTag := tag);
      pool.bufferDesc[b] := pool.bufferDesc[b].(isDirty := false);
      var hashEntry, ret := table.HashGetFreeEntry(table.hashing.hash(tag), tag, b);
      if hashEntry == NULL {
        assert false;
      }
      if ret == HASH_FIND {
        assert false;
      }
    }

    /** The victim branch of AllocBuffer. */
    method SweepBuffer() returns (bufferId: nat)
      requires Ready() && exists v: nat :: Victim(View().descs, v)
      modifies this`disk, pool`start, pool.bufferDesc, table, table.elements
      ensures Ready() && bufferId < pool.bufferNum && pool.bufferDesc[bufferId].isValid == BVF_INVALID
      ensures var c := old(View());
              var (ds, b) := Sweep(c.descs, c.start, USE_COUNT_MAX * |c.descs|);
              && bufferId == b < |ds| == |c.descs|
              && View() == Cleaned(PinnedAt(c.(descs := ds, start := Next(b, |ds|)), b), b)
              && View().index == c.index - {c.descs[b].bufferTag}
    {
      hide HashTable.Inv, Contents, Listed, Sweep, Turn;
      ghost var v: nat :| Victim(View().descs, v);
      bufferId := pool.ClockSweep(v);
      pool.PinBuffer(bufferId);
      CleanPageBuffer(bufferId);
    }

    /** The half of AllocBuffer that finds a buffer for a new tag: a free one, or a victim, cleaned. */
    method EmptyBuffer(tag: BufferTag, ghost pending: set<int>) returns (bufferId: nat)
      requires Ready() && BufferCache.Inv(View(), pending) && FreshTag(View(), tag) && Room(View(), tag)
      modifies this`disk, pool, pool.freeList, pool.bufferDesc, table, table.elements
      ensures Ready() && bufferId < pool.bufferNum && pool.bufferDesc[bufferId].isValid == BVF_INVALID
      ensures tag !in View().index && |View().index| < pool.bufferNum
      ensures (Tagged(View(), bufferId, tag), bufferId, false) == Alloc(old(View()), tag)
    {
      hide HashTable.Inv, Contents, Listed, Sweep, TakeFree, Turn, BufferCache.Inv;
      ghost var c := View();
      ShapeSound(c, pending, tag);
      FreeUnpinned(c, pending);
      var id := pool.GetFreeBufferId();
      if id != INVLID_BUFFER {
        bufferId := id;
        FreeIndex(c, pending);
        pool.PinBuffer(bufferId);
      } else {
        ghost var v: nat :| Victim(c.descs, v);
        assert Victim(View().descs, v);
        bufferId := SweepBuffer();
        CleanIndex(c, pending, bufferId);
      }
    }

    /** AllocBuffer. */
    method AllocBuffer(tag: BufferTag, ghost pending: set<int>) returns (bufferId: nat, found: bool)
      requires Ready() && BufferCache.Inv(View(), pending) && tag == TagOf(Home(tag)) && 1 <= tag.pageno && Room(View(), tag)
      modifies this`disk, pool, pool.freeList, pool.bufferDesc, table, table.elements
      ensures Ready() && Sound(old(View()), tag)
      ensures (View(), bufferId, found) == Alloc(old(View()), tag)
    {
      hide HashTable.Inv, Contents, Listed;
      ghost var c := View();
      ShapeSound(c, pending, tag);
      var id := SearchBuffer(tag);
      if id != INVLID_BUFFER {
        bufferId := id;
        pool.PinBuffer(bufferId);
        if pool.bufferDesc[bufferId].bufferTag == tag {
          if pool.bufferDesc[bufferId].isValid != BVF_INVALID {
            found := pool.bufferDesc[bufferId].isValid != BVF_TAG;
            return;
          }
        }
        // Only another worker could have swept the buffer out.
        assert false;
      }
      bufferId := EmptyBuffer(tag, pending);
      InitTag(bufferId, tag);
      found := false;
    }

    /** ReadPage; a file without the page is a failing TableRead. */
    method ReadPage(at: Location, ghost pending: set<int>) returns (page: Option<nat>)
      requires Ready() && BufferCache.Inv(View(), pending) && (1 <= at.pageno ==> Room(View(), TagOf(at)))
      modifies this`disk, pool, pool.freeList, pool.bufferDesc, table, table.elements, pages
      ensures Ready() && Sound(old(View()), TagOf(at))
      ensures (View(), page) == BufferCache.ReadPage(old(View()), at)
    {
      hide HashTable.Inv, Contents, Listed, Alloc, BufferCache.Inv;
      ghost var c := View();
      ShapeSound(c, pending, TagOf(at));
      if at.pageno <= 0 {
        return None;
      }
      AllocInv(c, pending, TagOf(at));
      var b, found := AllocBuffer(TagOf(at), pending);
      if found {
        return Some(b);
      }
      if at !in disk {
        pool.UnPinBuffer(b);
        return None;
      }
      pages[b] := disk[at];
      pool.bufferDesc[b] := pool.bufferDesc[b].(isValid := BVF_VLID);
      page := Some(b);
    }

    /** ReleaseBuffer. */
    method ReleaseBuffer(b: nat)
      requires Ready() && b < pool.bufferNum
      modifies pool.bufferDesc
      ensures Ready() && View() == UnpinnedAt(old(View()), b)
    {
      hide HashTable.Inv, Contents, Listed;
      pool.UnPinBuffer(b);
    }

    /** WritePage, where writing to the file succeeds. */
    method WritePage(at: Location, b: nat)
      requires Ready() && b < pool.bufferNum
      modifies this`disk, pool.bufferDesc
      ensures Ready() && View() == Written(old(View()), b, at)
    {
      hide HashTable.Inv, Contents, Listed;
      disk := disk[Location(at.tableId, pages[b].pageNum, at.forkNum) := pages[b]];
      pool.bufferDesc[b] := pool.bufferDesc[b].(isDirty := false);
    }

    /** SetBuffferDirty. */
    method SetBuffferDirty(b: nat)
      requires Ready() && b < pool.bufferNum
      modifies pool.bufferDesc
      ensures Ready() && View() == Marked(old(View()), b)
    {
      hide HashTable.Inv, Contents, Listed;
      pool.bufferDesc[b] := pool.bufferDesc[b].(isDirty := true);
    }
  }

  /** Listed buffers are unpinned, so the free list never runs out over pinned ones. */
  lemma FreeUnpinned(c: Cache, pending: set<int>)
    requires BufferCache.Inv(c, pending)
    ensures forall i :: 0 <= i < |c.free| ==> 0 <= c.free[i] < |c.descs|
    ensures TakeFree(c.descs, c.free) == if c.free == [] then Empty else Taken(c.free[0], c.free[1..])
  {
  }

  lemma FreeIndex(c: Cache, pending: set<int>)
    requires BufferCache.Inv(c, pending) && c.free != []
    ensures 0 <= c.free[0] < |c.descs| && c.descs[c.free[0]].isValid == BVF_INVALID
    ensures |c.index| < |c.descs|
  {
    ElementsSuffice(c.descs, c.index, c.free[0]);
  }

  /** Once the victim's tag is dropped, no tag leads to it. */
  lemma CleanIndex(c: Cache, pending: set<int>, b: nat)
    requires BufferCache.Inv(c, pending) && b < |c.descs|
    ensures |c.index - {c.descs[b].bufferTag}| < |c.descs|
  {
    ElementsSuffice(c.descs, c.index - {c.descs[b].bufferTag}, b);
  }
}
