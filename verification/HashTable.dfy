/** The partitioned, chained hash table over a fixed arena of elements (src/util/hashtable/hashtab.c),
    holding what its one user keeps in it: buffer numbers under page tags.

    `Arena` is the value of the table's memory and `Shape` the chains it forms; the class
    `HashTableInfo` changes the memory in place and is proved against a finite map. */
module HashTable {
  import opened HashSizing

  /** Elements are named by their position in the arena. */
  const NULL := -1

  /** A partition and a bucket in it. */
  type Bucket = (HASHKEY, HASHKEY)

  datatype BufferTag = BufferTag(databaseId: int, tableId: int, segno: int, pageno: int, forkNum: int)

  datatype HashOp = HASH_FIND | HASH_INSERT | HASH_NULL

  /** The compared part of an element's value is its tag. */
  datatype Element = Element(link: int, hashKey: HASHKEY, tag: BufferTag, bufferId: int)

  datatype Arena = Arena(elements: seq<Element>, heads: map<Bucket, int>, freeHead: int, freeNum: int, usedNum: int)

  /** `where` tells in which element each tag is. */
  datatype Shape = Shape(chains: map<Bucket, seq<int>>, free: seq<int>, where: map<BufferTag, int>)

  /** A deterministic hash of tags, and the bucket of each hash key. */
  datatype Hashing = Hashing(hash: BufferTag -> HASHKEY, at: HASHKEY -> Bucket)

  function After(list: seq<int>, i: int): int {
    if 0 <= i < |list| then list[i] else NULL
  }

  /** The links lead from `head` through the elements of `list`, one by one, to the null pointer. */
  ghost predicate Threads(es: seq<Element>, head: int, list: seq<int>) {
    && head == After(list, 0)
    && (forall i :: 0 <= i < |list| ==> 0 <= list[i] < |es|)
    && (forall i {:trigger es[list[i]]} :: 0 <= i < |list| ==> es[list[i]].link == After(list, i + 1))
    && (forall i, j :: 0 <= i < j < |list| ==> list[i] != list[j])
  }

  ghost predicate Chained(es: seq<Element>, heads: map<Bucket, int>, chains: map<Bucket, seq<int>>) {
    && chains.Keys == heads.Keys
    && (forall b :: b in heads ==> Threads(es, heads[b], chains[b]))
  }

  /** Element e is the one recorded under its own tag. */
  ghost predicate Recorded(es: seq<Element>, where: map<BufferTag, int>, e: int) {
    0 <= e < |es| && es[e].tag in where && where[es[e].tag] == e
  }

  /** Chained elements carry the hash of their tag, are in its bucket, and no two of them have the same tag. */
  ghost predicate Placed(es: seq<Element>, chains: map<Bucket, seq<int>>, where: map<BufferTag, int>, h: Hashing) {
    forall b, e :: b in chains && e in chains[b] ==>
      Recorded(es, where, e) && es[e].hashKey == h.hash(es[e].tag) && h.at(es[e].hashKey) == b
  }

  /** Every recorded tag leads to an element of its bucket that carries it, and that is not free. */
  ghost predicate Found(es: seq<Element>, s: Shape, h: Hashing) {
    forall t :: t in s.where ==>
      && 0 <= s.where[t] < |es| && es[s.where[t]].tag == t && s.where[t] !in s.free
      && h.at(h.hash(t)) in s.chains && s.where[t] in s.chains[h.at(h.hash(t))]
  }

  ghost predicate Covered(es: seq<Element>, free: seq<int>, where: map<BufferTag, int>) {
    forall e :: 0 <= e < |es| ==> e in free || Recorded(es, where, e)
  }

  ghost predicate Counted(a: Arena, s: Shape) {
    a.freeNum == |s.free| && a.usedNum == |s.where| && a.freeNum + a.usedNum == |a.elements|
  }

  ghost predicate Inv(a: Arena, s: Shape, h: Hashing) {
    && Chained(a.elements, a.heads, s.chains)
    && Threads(a.elements, a.freeHead, s.free)
    && Placed(a.elements, s.chains, s.where, h)
    && Found(a.elements, s, h)
    && Covered(a.elements, s.free, s.where)
    && Counted(a, s)
    && (forall key: HASHKEY :: h.at(key) in a.heads)
  }

  /** What the table stands for. */
  ghost function Contents(es: seq<Element>, where: map<BufferTag, int>): map<BufferTag, int> {
    map t | t in where && 0 <= where[t] < |es| :: es[where[t]].bufferId
  }

  lemma ThreadsFrame(es: seq<Element>, head: int, list: seq<int>, e: int, x: Element)
    requires Threads(es, head, list) && 0 <= e < |es| && e !in list
    ensures Threads(es[e := x], head, list)
  {
  }

  lemma ThreadsPush(es: seq<Element>, head: int, list: seq<int>, e: int, x: Element)
    requires Threads(es, head, list) && 0 <= e < |es| && e !in list && x.link == head
    ensures Threads(es[e := x], e, [e] + list)
  {
  }

  lemma ThreadsPop(es: seq<Element>, head: int, list: seq<int>)
    requires Threads(es, head, list) && list != []
    ensures Threads(es, es[head].link, list[1..]) && head !in list[1..]
    ensures forall e :: e in list <==> e == head || e in list[1..]
  {
  }

  function Without(list: seq<int>, i: nat): seq<int>
    requires i < |list|
  {
    list[..i] + list[i + 1..]
  }

  lemma ThreadsUnlink(es: seq<Element>, head: int, list: seq<int>, i: nat, x: Element)
    requires Threads(es, head, list) && 0 < i < |list| && x.link == es[list[i]].link
    ensures Threads(es[list[i - 1] := x], head, Without(list, i))
  {
  }

  lemma WithoutMembers(list: seq<int>, i: nat, e: int)
    requires i < |list| && forall j, k :: 0 <= j < k < |list| ==> list[j] != list[k]
    ensures e in Without(list, i) <==> e in list && e != list[i]
  {
  }

  /** A free element pushed onto bucket b. */
  function Inserted(a: Arena, b: Bucket, key: HASHKEY, tag: BufferTag, id: int): Arena
    requires b in a.heads && 0 <= a.freeHead < |a.elements|
  {
    var e := a.freeHead;
    Arena(a.elements[e := Element(a.heads[b], key, tag, id)], a.heads[b := e], a.elements[e].link,
          a.freeNum - 1, a.usedNum + 1)
  }

  function InsertedShape(s: Shape, b: Bucket, tag: BufferTag): Shape
    requires b in s.chains && s.free != []
  {
    var e := s.free[0];
    Shape(s.chains[b := [e] + s.chains[b]], s.free[1..], s.where[tag := e])
  }

  /** Unlinking e from bucket b, where p is the element before it in its chain, or e itself at the head. */
  function CutOut(a: Arena, b: Bucket, p: int, e: int): Arena
    requires b in a.heads && 0 <= p < |a.elements| && 0 <= e < |a.elements|
  {
    a.(elements := a.elements[p := a.elements[p].(link := a.elements[e].link)],
       heads := a.heads[b := if p == e then a.elements[e].link else a.heads[b]],
       usedNum := a.usedNum - 1)
  }

  function Unlinked(es: seq<Element>, p: int, e: int, freeHead: int): seq<Element>
    requires 0 <= p < |es| && 0 <= e < |es|
  {
    var es1 := es[p := es[p].(link := es[e].link)];
    es1[e := es1[e].(link := freeHead)]
  }

  /** DeleteHashEntryFromBucket, then PutFreeList. */
  function Removed(a: Arena, b: Bucket, p: int, e: int): Arena
    requires b in a.heads && 0 <= p < |a.elements| && 0 <= e < |a.elements|
  {
    CutOut(a, b, p, e).(elements := Unlinked(a.elements, p, e, a.freeHead), freeHead := e, freeNum := a.freeNum + 1)
  }

  function RemovedShape(s: Shape, b: Bucket, i: nat, tag: BufferTag): Shape
    requires b in s.chains && i < |s.chains[b]|
  {
    Shape(s.chains[b := Without(s.chains[b], i)], [s.chains[b][i]] + s.free, s.where - {tag})
  }

  /** A free element is in no chain. */
  lemma FreeApart(es: seq<Element>, s: Shape, h: Hashing, b: Bucket, e: int)
    requires Placed(es, s.chains, s.where, h) && Found(es, s, h)
    requires b in s.chains && e in s.free
    ensures e !in s.chains[b]
  {
    assert e in s.chains[b] ==> Recorded(es, s.where, e);
  }

  lemma InsertChained(es: seq<Element>, heads: map<Bucket, int>, s: Shape, h: Hashing, b: Bucket, e: int, x: Element)
    requires Chained(es, heads, s.chains) && Placed(es, s.chains, s.where, h) && Found(es, s, h)
    requires b in heads && e in s.free && 0 <= e < |es| && x.link == heads[b]
    ensures Chained(es[e := x], heads[b := e], s.chains[b := [e] + s.chains[b]])
  {
    forall c | c in heads
      ensures Threads(es[e := x], heads[b := e][c], s.chains[b := [e] + s.chains[b]][c])
    {
      FreeApart(es, s, h, c, e);
      if c == b {
        ThreadsPush(es, heads[b], s.chains[b], e, x);
      } else {
        ThreadsFrame(es, heads[c], s.chains[c], e, x);
      }
    }
  }

  lemma InsertPlaced(es: seq<Element>, s: Shape, h: Hashing, b: Bucket, e: int, x: Element)
    requires Placed(es, s.chains, s.where, h) && Found(es, s, h) && x.tag !in s.where
    requires b in s.chains && e in s.free && 0 <= e < |es| && x.hashKey == h.hash(x.tag) && h.at(x.hashKey) == b
    ensures Placed(es[e := x], s.chains[b := [e] + s.chains[b]], s.where[x.tag := e], h)
  {
    var es', chains', where' := es[e := x], s.chains[b := [e] + s.chains[b]], s.where[x.tag := e];
    forall c, d | c in chains' && d in chains'[c]
      ensures Recorded(es', where', d) && es'[d].hashKey == h.hash(es'[d].tag) && h.at(es'[d].hashKey) == c
    {
      FreeApart(es, s, h, c, e);
      if d != e {
        assert d in s.chains[c];
        assert Recorded(es, s.where, d);
      }
    }
  }

  lemma InsertFound(es: seq<Element>, s: Shape, h: Hashing, b: Bucket, e: int, x: Element)
    requires Found(es, s, h) && x.tag !in s.where
    requires b in s.chains && 0 <= e < |es| && h.at(h.hash(x.tag)) == b
    requires s.free != [] && e == s.free[0] && e !in s.free[1..]
    ensures Found(es[e := x], InsertedShape(s, b, x.tag), h)
  {
  }

  lemma InsertCovered(es: seq<Element>, s: Shape, e: int, x: Element)
    requires Covered(es, s.free, s.where) && x.tag !in s.where && 0 <= e < |es|
    requires s.free != [] && e == s.free[0]
    ensures Covered(es[e := x], s.free[1..], s.where[x.tag := e])
  {
    forall d | 0 <= d < |es| ensures d in s.free[1..] || Recorded(es[e := x], s.where[x.tag := e], d) {
      if d != e && d !in s.free[1..] {
        assert d !in s.free;
        assert Recorded(es, s.where, d);
      }
    }
  }

  /** Inserting adds exactly one entry. */
  lemma InsertContents(a: Arena, s: Shape, h: Hashing, tag: BufferTag, id: int)
    requires Inv(a, s, h) && a.freeHead != NULL
    ensures var b := h.at(h.hash(tag));
            Contents(Inserted(a, b, h.hash(tag), tag, id).elements, InsertedShape(s, b, tag).where) == Contents(a.elements, s.where)[tag := id]
  {
    hide Chained, Placed, Covered;
    var e := a.freeHead;
    assert e in s.free;
    assert forall t :: t in s.where ==> s.where[t] != e;
  }

  /** Inserting keeps the table's invariant. */
  lemma InsertInv(a: Arena, s: Shape, h: Hashing, tag: BufferTag, id: int)
    requires Inv(a, s, h) && a.freeHead != NULL && tag !in s.where
    ensures var b := h.at(h.hash(tag));
            Inv(Inserted(a, b, h.hash(tag), tag, id), InsertedShape(s, b, tag), h)
  {
    hide Placed, Found, Covered;
    var b, e := h.at(h.hash(tag)), a.freeHead;
    var x := Element(a.heads[b], h.hash(tag), tag, id);
    ThreadsPop(a.elements, e, s.free);
    ThreadsFrame(a.elements, a.elements[e].link, s.free[1..], e, x);
    InsertChained(a.elements, a.heads, s, h, b, e, x);
    InsertPlaced(a.elements, s, h, b, e, x);
    InsertFound(a.elements, s, h, b, e, x);
    InsertCovered(a.elements, s, e, x);
  }

  /** The element before position i of a chain, as DeleteHashEntryFromBucket tracks it. */
  function Before(chain: seq<int>, i: nat): int
    requires i < |chain|
  {
    if i == 0 then chain[0] else chain[i - 1]
  }

  /** The chain itself loses the element. */
  lemma UnlinkedChain(es: seq<Element>, head: int, chain: seq<int>, i: nat, freeHead: int)
    requires Threads(es, head, chain) && i < |chain|
    ensures Threads(Unlinked(es, Before(chain, i), chain[i], freeHead), if i == 0 then es[chain[i]].link else head, Without(chain, i))
  {
    var p, e := Before(chain, i), chain[i];
    var x := es[p].(link := es[e].link);
    var es1 := es[p := x];
    WithoutMembers(chain, i, e);
    if i == 0 {
      ThreadsPop(es, head, chain);
      assert Without(chain, 0) == chain[1..];
      ThreadsFrame(es, es[head].link, chain[1..], p, x);
      ThreadsFrame(es1, es[head].link, chain[1..], e, es1[e].(link := freeHead));
    } else {
      ThreadsUnlink(es, head, chain, i, x);
      ThreadsFrame(es1, head, Without(chain, i), e, es1[e].(link := freeHead));
    }
  }

  /** Lists with neither of the two elements are not touched. */
  lemma UnlinkedOther(es: seq<Element>, head: int, list: seq<int>, p: int, e: int, freeHead: int)
    requires Threads(es, head, list)
    requires 0 <= p < |es| && p !in list && 0 <= e < |es| && e !in list
    ensures Threads(Unlinked(es, p, e, freeHead), head, list)
  {
  }

  /** The free list gains the element at its front. */
  lemma UnlinkedFree(es: seq<Element>, freeHead: int, free: seq<int>, p: int, e: int)
    requires Threads(es, freeHead, free)
    requires 0 <= p < |es| && p !in free && 0 <= e < |es| && e !in free
    ensures Threads(Unlinked(es, p, e, freeHead), e, [e] + free)
  {
  }

  /** Different chains share no element, and neither do a chain and the free list. */
  lemma ChainsApart(es: seq<Element>, s: Shape, h: Hashing, b: Bucket, e: int)
    requires Placed(es, s.chains, s.where, h) && Found(es, s, h)
    requires b in s.chains && e in s.chains[b]
    ensures 0 <= e < |es| && e !in s.free
    ensures forall c :: c in s.chains && c != b ==> e !in s.chains[c]
  {
    assert Recorded(es, s.where, e);
  }

  lemma RemoveOthers(es: seq<Element>, heads: map<Bucket, int>, s: Shape, h: Hashing, b: Bucket, p: int, e: int, freeHead: int)
    requires Chained(es, heads, s.chains) && Placed(es, s.chains, s.where, h) && Found(es, s, h)
    requires b in heads && p in s.chains[b] && e in s.chains[b]
    ensures 0 <= p < |es| && 0 <= e < |es|
    ensures forall c :: c in heads && c != b ==> Threads(Unlinked(es, p, e, freeHead), heads[c], s.chains[c])
  {
    ChainsApart(es, s, h, b, p);
    ChainsApart(es, s, h, b, e);
    forall c | c in heads && c != b ensures Threads(Unlinked(es, p, e, freeHead), heads[c], s.chains[c]) {
      UnlinkedOther(es, heads[c], s.chains[c], p, e, freeHead);
    }
  }

  lemma ChainedAgain(es: seq<Element>, heads: map<Bucket, int>, chains: map<Bucket, seq<int>>, b: Bucket, head: int, list: seq<int>)
    requires chains.Keys == heads.Keys && b in heads
    requires forall c :: c in heads && c != b ==> Threads(es, heads[c], chains[c])
    requires Threads(es, head, list)
    ensures Chained(es, heads[b := head], chains[b := list])
  {
  }

  ghost predicate SameButLinks(es: seq<Element>, es': seq<Element>) {
    |es'| == |es| && forall d :: 0 <= d < |es| ==> es'[d] == es[d].(link := es'[d].link)
  }

  lemma UnlinkedLinks(es: seq<Element>, p: int, e: int, freeHead: int)
    requires 0 <= p < |es| && 0 <= e < |es|
    ensures SameButLinks(es, Unlinked(es, p, e, freeHead))
  {
  }

  lemma RemovePlaced(es: seq<Element>, s: Shape, h: Hashing, b: Bucket, i: nat, es': seq<Element>)
    requires Placed(es, s.chains, s.where, h) && b in s.chains && i < |s.chains[b]|
    requires forall j, k :: 0 <= j < k < |s.chains[b]| ==> s.chains[b][j] != s.chains[b][k]
    requires SameButLinks(es, es') && 0 <= s.chains[b][i] < |es|
    ensures Placed(es', s.chains[b := Without(s.chains[b], i)], s.where - {es[s.chains[b][i]].tag}, h)
  {
    var e := s.chains[b][i];
    var chains', where' := s.chains[b := Without(s.chains[b], i)], s.where - {es[e].tag};
    forall c, d | c in chains' && d in chains'[c]
      ensures Recorded(es', where', d) && es'[d].hashKey == h.hash(es'[d].tag) && h.at(es'[d].hashKey) == c
    {
      WithoutMembers(s.chains[b], i, d);
      assert Recorded(es, s.where, d);
      assert Recorded(es, s.where, e);
    }
  }

  lemma RemoveFound(es: seq<Element>, s: Shape, h: Hashing, b: Bucket, i: nat, es': seq<Element>, tag: BufferTag)
    requires Found(es, s, h) && b in s.chains && i < |s.chains[b]|
    requires forall j, k :: 0 <= j < k < |s.chains[b]| ==> s.chains[b][j] != s.chains[b][k]
    requires SameButLinks(es, es')
    requires tag in s.where && s.where[tag] == s.chains[b][i]
    ensures Found(es', RemovedShape(s, b, i, tag), h)
  {
  }

  lemma RemoveCovered(es: seq<Element>, s: Shape, e: int, es': seq<Element>, tag: BufferTag)
    requires Covered(es, s.free, s.where)
    requires SameButLinks(es, es')
    requires tag in s.where && s.where[tag] == e
    ensures Covered(es', [e] + s.free, s.where - {tag})
  {
  }

  /** Removing drops exactly the tag's entry. */
  lemma RemoveContents(es: seq<Element>, where: map<BufferTag, int>, p: int, freeHead: int, tag: BufferTag)
    requires 0 <= p < |es| && tag in where && 0 <= where[tag] < |es|
    ensures Contents(Unlinked(es, p, where[tag], freeHead), where - {tag}) == Contents(es, where) - {tag}
  {
  }

  lemma RemoveRest(es: seq<Element>, s: Shape, h: Hashing, b: Bucket, i: nat, es': seq<Element>, tag: BufferTag)
    requires Placed(es, s.chains, s.where, h) && Found(es, s, h) && Covered(es, s.free, s.where)
    requires b in s.chains && i < |s.chains[b]| && tag in s.where && s.chains[b][i] == s.where[tag]
    requires forall j, k :: 0 <= j < k < |s.chains[b]| ==> s.chains[b][j] != s.chains[b][k]
    requires SameButLinks(es, es')
    ensures var s' := RemovedShape(s, b, i, tag);
            Placed(es', s'.chains, s'.where, h) && Found(es', s', h) && Covered(es', s'.free, s'.where)
  {
    assert es[s.where[tag]].tag == tag;
    RemovePlaced(es, s, h, b, i, es');
    RemoveFound(es, s, h, b, i, es', tag);
    RemoveCovered(es, s, s.where[tag], es', tag);
  }

  lemma RemoveLinks(a: Arena, s: Shape, h: Hashing, b: Bucket, i: nat, p: int, e: int)
    requires Inv(a, s, h) && b in s.chains && i < |s.chains[b]| && p == Before(s.chains[b], i) && e == s.chains[b][i]
    ensures 0 <= p < |a.elements| && 0 <= e < |a.elements|
    ensures var es' := Unlinked(a.elements, p, e, a.freeHead);
            && Chained(es', a.heads[b := if p == e then a.elements[e].link else a.heads[b]], s.chains[b := Without(s.chains[b], i)])
            && Threads(es', e, [e] + s.free)
  {
    RemoveOthers(a.elements, a.heads, s, h, b, p, e, a.freeHead);
    UnlinkedChain(a.elements, a.heads[b], s.chains[b], i, a.freeHead);
    ChainedAgain(Unlinked(a.elements, p, e, a.freeHead), a.heads, s.chains, b,
                 if i == 0 then a.elements[e].link else a.heads[b], Without(s.chains[b], i));
    ChainsApart(a.elements, s, h, b, p);
    ChainsApart(a.elements, s, h, b, e);
    UnlinkedFree(a.elements, a.freeHead, s.free, p, e);
    assert i == 0 <==> p == e;
  }

  lemma RemoveCounted(where: map<BufferTag, int>, tag: BufferTag)
    requires tag in where
    ensures |where - {tag}| == |where| - 1
  {
  }

  /** Removing keeps the table's invariant. */
  lemma RemoveInv(a: Arena, s: Shape, h: Hashing, b: Bucket, i: nat, tag: BufferTag)
    requires Inv(a, s, h) && tag in s.where
    requires b == h.at(h.hash(tag)) && b in s.chains && i < |s.chains[b]| && s.chains[b][i] == s.where[tag]
    ensures 0 <= Before(s.chains[b], i) < |a.elements| && 0 <= s.where[tag] < |a.elements|
    ensures Inv(Removed(a, b, Before(s.chains[b], i), s.where[tag]), RemovedShape(s, b, i, tag), h)
  {
    hide Placed, Found, Covered;
    var p, e := Before(s.chains[b], i), s.where[tag];
    RemoveLinks(a, s, h, b, i, p, e);
    UnlinkedLinks(a.elements, p, e, a.freeHead);
    RemoveRest(a.elements, s, h, b, i, Unlinked(a.elements, p, e, a.freeHead), tag);
    RemoveCounted(s.where, tag);
  }

  ghost predicate Matches(es: seq<Element>, e: int, key: HASHKEY, tag: BufferTag) {
    0 <= e < |es| && es[e].hashKey == key && es[e].tag == tag
  }

  /** Of the elements of the chain, exactly the one at position k matches. */
  ghost predicate MatchesAt(es: seq<Element>, chain: seq<int>, k: nat, key: HASHKEY, tag: BufferTag) {
    k <= |chain| && forall j :: 0 <= j < |chain| ==> (Matches(es, chain[j], key, tag) <==> j == k)
  }

  lemma ChainStep(es: seq<Element>, head: int, chain: seq<int>, k: nat, key: HASHKEY, tag: BufferTag, i: nat)
    requires Threads(es, head, chain) && MatchesAt(es, chain, k, key, tag) && i <= k
    ensures head == After(chain, 0) && k <= |chain| && (After(chain, i) == NULL <==> i == |chain|)
    ensures i < |chain| ==> 0 <= chain[i] < |es| && es[chain[i]].link == After(chain, i + 1)
    ensures i < |chain| ==> ((es[chain[i]].hashKey == key && es[chain[i]].tag == tag) <==> i == k)
  {
  }

  /** Following the chain of a tag's bucket: the tag is met at the element it is recorded in, or nowhere. */
  lemma ChainTag(a: Arena, s: Shape, h: Hashing, tag: BufferTag) returns (b: Bucket, i: nat)
    requires Inv(a, s, h)
    ensures b == h.at(h.hash(tag)) && b in s.chains && b in a.heads
    ensures Threads(a.elements, a.heads[b], s.chains[b])
    ensures MatchesAt(a.elements, s.chains[b], i, h.hash(tag), tag)
    ensures if i < |s.chains[b]| then tag in s.where && s.chains[b][i] == s.where[tag] else tag !in s.where
  {
    var key := h.hash(tag);
    b := h.at(key);
    assert h.at(key) in a.heads;
    var chain := s.chains[b];
    i := |chain|;
    if tag in s.where {
      i :| 0 <= i < |chain| && chain[i] == s.where[tag];
    }
    forall j | 0 <= j < |chain| ensures Matches(a.elements, chain[j], h.hash(tag), tag) <==> j == i {
      assert chain[j] in chain;
      assert Recorded(a.elements, s.where, chain[j]);
    }
  }

  /** GetHashEntryFromBucket: follows one chain from its head. */
  method GetHashEntryFromBucket(elements: array<Element>, bucket: int, key: HASHKEY, tag: BufferTag, ghost chain: seq<int>, ghost k: nat)
    returns (element: int)
    requires Threads(elements[..], bucket, chain) && MatchesAt(elements[..], chain, k, key, tag)
    ensures element == After(chain, k)
  {
    ghost var i := 0;
    element := bucket;
    ChainStep(elements[..], bucket, chain, k, key, tag, 0);
    while element != NULL
      invariant 0 <= i <= k && element == After(chain, i)
      decreases |chain| - i
    {
      ChainStep(elements[..], bucket, chain, k, key, tag, i);
      if elements[element].hashKey == key && elements[element].tag == tag {
        return;
      }
      element := elements[element].link;
      i := i + 1;
    }
  }

  lemma ContentsCount(a: Arena, s: Shape, h: Hashing)
    requires Inv(a, s, h)
    ensures Contents(a.elements, s.where).Keys == s.where.Keys && |Contents(a.elements, s.where)| == |s.where|
    ensures forall t :: t in s.where ==> 0 <= s.where[t] < |a.elements| && Contents(a.elements, s.where)[t] == a.elements[s.where[t]].bufferId
  {
  }

  lemma FreeHead(a: Arena, s: Shape, h: Hashing)
    requires Inv(a, s, h)
    ensures a.freeHead == NULL <==> |s.where| == |a.elements|
    ensures a.freeHead != NULL ==> 0 <= a.freeHead < |a.elements| && s.free != [] && a.freeHead == s.free[0] && a.freeHead in s.free
  {
  }

  ghost predicate InChain(s: Shape, b: Bucket, e: int) {
    b in s.chains && e in s.chains[b]
  }

  /** In every valid table the free list and the chains partition the arena, no tag is chained twice,
      and a tag is chained in the bucket of its hash and nowhere else. */
  lemma ArenaPartition(a: Arena, s: Shape, h: Hashing, e: int)
    requires Inv(a, s, h) && 0 <= e < |a.elements|
    ensures e in s.free <==> !exists b :: InChain(s, b, e)
    ensures forall b, c :: InChain(s, b, e) && InChain(s, c, e) ==> b == c == h.at(h.hash(a.elements[e].tag))
    ensures forall b, c, d :: InChain(s, b, e) && InChain(s, c, d) && 0 <= d < |a.elements| && a.elements[d].tag == a.elements[e].tag ==> d == e
    ensures a.freeNum + a.usedNum == |a.elements| && a.usedNum == |Contents(a.elements, s.where)|
  {
    hide Threads, Chained;
    ContentsCount(a, s, h);
    if e in s.free {
      forall b ensures !InChain(s, b, e) {
        if b in s.chains {
          FreeApart(a.elements, s, h, b, e);
        }
      }
    } else {
      assert Recorded(a.elements, s.where, e);
      assert InChain(s, h.at(h.hash(a.elements[e].tag)), e);
    }
  }

  /** The bucket arrays of all segments, zeroed. */
  function EmptyHeads(partNum: HASHKEY): map<Bucket, int>
    requires PowerOfTwo(partNum)
  {
    map partition, bucket | partition in Below(partNum) && bucket in Below(HASH_SEGMENT_SIZE) :: (partition, bucket) := NULL
  }

  function IndexesOf(key: HASHKEY, shift: bv7): Bucket
    requires shift < 64
  {
    (PartitionIndex(key, PartitionMask(shift), shift), BucketIndex(key, PartitionMask(shift)))
  }

  lemma KeysInHeads(partNum: HASHKEY, shift: bv7, key: HASHKEY)
    requires ShiftFor(partNum, shift)
    ensures IndexesOf(key, shift) in EmptyHeads(partNum)
  {
    hide PartitionIndex, BucketIndex, PartitionMask, Below;
    IndexesInRange(partNum, partNum, shift);
    BelowIs(partNum);
    BelowIs(HASH_SEGMENT_SIZE);
  }

  lemma ShiftRange(p: HASHKEY, shift: bv7)
    requires ShiftFor(p, shift)
    ensures 0 < shift < 64 && PowerOfTwo(p)
  {
  }

  function EmptyShape(heads: map<Bucket, int>, n: nat): Shape {
    Shape(map b | b in heads :: [], seq(n, i => i), map[])
  }

  lemma EmptyInv(es: seq<Element>, heads: map<Bucket, int>, h: Hashing)
    requires |es| > 0
    requires forall i :: 0 <= i < |es| ==> es[i].link == if i + 1 < |es| then i + 1 else NULL
    requires forall b :: b in heads ==> heads[b] == NULL
    requires forall key: HASHKEY :: h.at(key) in heads
    ensures Inv(Arena(es, heads, 0, |es|, 0), EmptyShape(heads, |es|), h)
  {
    var s := EmptyShape(heads, |es|);
    forall e | 0 <= e < |es| ensures e in s.free {
      assert s.free[e] == e;
    }
    assert Chained(es, heads, s.chains);
    assert Threads(es, 0, s.free);
    assert Placed(es, s.chains, s.where, h);
  }

  class HashTableInfo {
    const hashing: Hashing
    const elements: array<Element>
    var segBuckets: map<Bucket, int>
    var freeHashElementList: int
    var freeNum: int
    var usedNum: int
    ghost var shape: Shape

    /** HashTableCreate and InitHashTable, for a power of two of at least two partitions: an empty table. */
    constructor HashTableCreate(partNum: HASHKEY, shift: bv7, maxSize: nat, getHashKey: BufferTag -> HASHKEY)
      requires ShiftFor(partNum, shift) && maxSize > 0
      ensures 0 < shift < 64 && Valid() && fresh(elements) && elements.Length == maxSize
      ensures Entries() == map[] && hashing.hash == getHashKey
      ensures forall key :: hashing.at(key) == IndexesOf(key, shift)
    {
      hide PartitionIndex, BucketIndex, PartitionMask, Inv, ShiftFor;
      assert 0 < shift < 64 && PowerOfTwo(partNum) by { ShiftRange(partNum, shift); }
      hashing := Hashing(getHashKey, key => IndexesOf(key, shift));
      elements := new Element[maxSize](_ => Element(NULL, 0, BufferTag(0, 0, 0, 0, 0), 0));
      segBuckets := EmptyHeads(partNum);
      freeHashElementList := 0;
      freeNum := maxSize;
      usedNum := 0;
      new;
      var index := 1;
      while index < maxSize
        invariant 1 <= index <= maxSize
        invariant segBuckets == EmptyHeads(partNum) && freeHashElementList == 0 && freeNum == maxSize && usedNum == 0
        invariant forall k :: 0 <= k < index ==> elements[k].link == if k + 1 < index then k + 1 else NULL
      {
        elements[index - 1] := elements[index - 1].(link := index);
        elements[index] := elements[index].(link := NULL);
        index := index + 1;
      }
      shape := EmptyShape(segBuckets, maxSize);
      forall key: HASHKEY ensures hashing.at(key) in segBuckets {
        assert hashing.at(key) == IndexesOf(key, shift);
        KeysInHeads(partNum, shift, key);
      }
      EmptyInv(elements[..], segBuckets, hashing);
    }

    ghost function State(): Arena
      reads this, elements
    {
      Arena(elements[..], segBuckets, freeHashElementList, freeNum, usedNum)
    }

    ghost predicate Valid()
      reads this, elements
    {
      Inv(State(), shape, hashing)
    }

    /** The finite map the table stands for. */
    ghost function Entries(): map<BufferTag, int>
      reads this, elements
    {
      Contents(elements[..], shape.where)
    }

    /** HashFindEntry: the caller passes the partition of the key along. */
    method HashFindEntry(key: HASHKEY, tag: BufferTag, partition: HASHKEY) returns (entry: int)
      requires Valid() && key == hashing.hash(tag) && partition == hashing.at(key).0
      ensures entry != NULL <==> tag in Entries()
      ensures entry != NULL ==> 0 <= entry < elements.Length && elements[entry].bufferId == Entries()[tag]
    {
      ghost var b, i := ChainTag(State(), shape, hashing, tag);
      var bucket := hashing.at(key).1;
      assert (partition, bucket) == b;
      entry := GetHashEntryFromBucket(elements, segBuckets[(partition, bucket)], key, tag, shape.chains[b], i);
      ContentsCount(State(), shape, hashing);
    }

    /** GetFromFreeList, or null when no element is free. */
    method GetFromFreeList() returns (entry: int)
      requires freeHashElementList == NULL || 0 <= freeHashElementList < elements.Length
      modifies this`freeHashElementList, this`freeNum, elements
      ensures entry == old(freeHashElementList)
      ensures if entry == NULL then State() == old(State()) else
                State() == old(State()).(elements := old(elements[..])[entry := old(elements[entry]).(link := NULL)],
                                         freeHead := old(elements[entry].link), freeNum := old(freeNum) - 1)
    {
      entry := NULL;
      if freeHashElementList != NULL {
        entry := freeHashElementList;
        freeHashElementList := elements[entry].link;
        elements[entry] := elements[entry].(link := NULL);
        freeNum := freeNum - 1;
      }
    }

    /** PutFreeList. */
    method PutFreeList(entry: int)
      requires 0 <= entry < elements.Length
      modifies this`freeHashElementList, this`freeNum, elements
      ensures State() == old(State()).(elements := old(elements[..])[entry := old(elements[entry]).(link := old(freeHashElementList))],
                                       freeHead := entry, freeNum := old(freeNum) + 1)
    {
      elements[entry] := elements[entry].(link := freeHashElementList);
      freeHashElementList := entry;
      freeNum := freeNum + 1;
    }

    /** The inserting half of HashGetFreeEntry: a free element goes to the front of bucket b. */
    method TakeElement(b: Bucket, key: HASHKEY, tag: BufferTag, id: int) returns (entry: int)
      requires b in segBuckets && (freeHashElementList == NULL || 0 <= freeHashElementList < elements.Length)
      modifies this`segBuckets, this`freeHashElementList, this`freeNum, this`usedNum, elements
      ensures entry == old(freeHashElementList)
      ensures State() == if entry == NULL then old(State()) else Inserted(old(State()), b, key, tag, id)
    {
      entry := GetFromFreeList();
      if entry != NULL {
        elements[entry] := elements[entry].(link := segBuckets[b]);
        segBuckets := segBuckets[b := entry];
        usedNum := usedNum + 1;
        elements[entry] := elements[entry].(hashKey := key);
        elements[entry] := elements[entry].(tag := tag, bufferId := id);
      }
    }

    /** HashGetFreeEntry: finds the tag again, or inserts it, or fails when every element is in use. */
    method HashGetFreeEntry(key: HASHKEY, tag: BufferTag, id: int) returns (entry: int, flag: HashOp)
      requires Valid() && key == hashing.hash(tag)
      modifies this, elements
      ensures Valid()
      ensures flag == if tag in old(Entries()) then HASH_FIND else if |old(Entries())| == elements.Length then HASH_NULL else HASH_INSERT
      ensures Entries() == if flag == HASH_INSERT then old(Entries())[tag := id] else old(Entries())
      ensures entry == NULL <==> flag == HASH_NULL
      ensures entry != NULL ==> 0 <= entry < elements.Length && tag in Entries() && elements[entry].bufferId == Entries()[tag]
    {
      hide Inv, Threads, MatchesAt;
      ghost var a, s := State(), shape;
      ghost var b, i := ChainTag(a, s, hashing, tag);
      FreeHead(a, s, hashing);
      ContentsCount(a, s, hashing);
      entry := GetHashEntryFromBucket(elements, segBuckets[hashing.at(key)], key, tag, s.chains[b], i);
      if entry != NULL {
        return entry, HASH_FIND;
      }
      entry := TakeElement(hashing.at(key), key, tag, id);
      if entry == NULL {
        return NULL, HASH_NULL;
      }
      shape := InsertedShape(s, b, tag);
      InsertInv(a, s, hashing, tag, id);
      InsertContents(a, s, hashing, tag, id);
      flag := HASH_INSERT;
    }

    /** The branch of DeleteHashEntryFromBucket that unlinks the element it found. */
    method Unlink(b: Bucket, preelement: int, element: int)
      requires b in segBuckets && 0 <= preelement < elements.Length && 0 <= element < elements.Length
      modifies this`segBuckets, this`usedNum, elements
      ensures State() == CutOut(old(State()), b, preelement, element)
    {
      if preelement == element {
        segBuckets := segBuckets[b := elements[element].link];
      }
      elements[preelement] := elements[preelement].(link := elements[element].link);
      usedNum := usedNum - 1;
    }

    /** DeleteHashEntryFromBucket: unlinks the matching element of one chain, if there is one. */
    method DeleteHashEntryFromBucket(b: Bucket, key: HASHKEY, tag: BufferTag, ghost chain: seq<int>, ghost k: nat) returns (element: int)
      requires b in segBuckets && Threads(elements[..], segBuckets[b], chain) && MatchesAt(elements[..], chain, k, key, tag)
      requires After(chain, k) != NULL ==> 0 <= Before(chain, k) < elements.Length && 0 <= After(chain, k) < elements.Length
      modifies this`segBuckets, this`usedNum, elements
      ensures element == After(chain, k)
      ensures State() == if element == NULL then old(State()) else CutOut(old(State()), b, Before(chain, k), element)
    {
      hide CutOut, Threads, MatchesAt;
      element := segBuckets[b];
      var preelement := element;
      ghost var i := 0;
      ChainStep(elements[..], segBuckets[b], chain, k, key, tag, 0);
      while element != NULL
        invariant 0 <= i <= k && element == After(chain, i)
        invariant i < |chain| ==> preelement == Before(chain, i)
        invariant State() == old(State())
        decreases |chain| - i
      {
        ChainStep(elements[..], segBuckets[b], chain, k, key, tag, i);
        if elements[element].hashKey == key && elements[element].tag == tag {
          Unlink(b, preelement, element);
          return;
        }
        preelement := element;
        element := elements[element].link;
        i := i + 1;
      }
      ChainStep(elements[..], segBuckets[b], chain, k, key, tag, i);
    }

    /** HashDeleteEntry: the element of the tag goes back to the free list; -1 when there is none. */
    method HashDeleteEntry(key: HASHKEY, tag: BufferTag) returns (ret: int)
      requires Valid() && key == hashing.hash(tag)
      modifies this, elements
      ensures Valid()
      ensures ret == if tag in old(Entries()) then 0 else -1
      ensures Entries() == old(Entries()) - {tag}
    {
      hide Inv, Threads, MatchesAt;
      ghost var a, s := State(), shape;
      ghost var b, i := ChainTag(a, s, hashing, tag);
      ContentsCount(a, s, hashing);
      var entry := DeleteHashEntryFromBucket(hashing.at(key), key, tag, s.chains[b], i);
      if entry == NULL {
        return -1;
      }
      PutFreeList(entry);
      shape := RemovedShape(s, b, i, tag);
      RemoveInv(a, s, hashing, b, i, tag);
      RemoveContents(a.elements, s.where, Before(s.chains[b], i), a.freeHead, tag);
      ret := 0;
    }
  }
}
