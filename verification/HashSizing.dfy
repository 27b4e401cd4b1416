/** Power-of-two sizing and the partition and bucket arithmetic of the hash table
    (src/util/hashtable/hashtab.c). Indices stay machine words, as they are computed. */
module HashSizing {

  type HASHKEY = bv64

  const HASH_SEGMENT_SIZE: bv64 := 32

  predicate PowerOfTwo(x: HASHKEY) {
    x != 0 && x & (x - 1) == 0
  }

  /** getAlignNum: `num - 1` wraps at 32 bits before it is widened. */
  function AlignNum(num: bv32): HASHKEY {
    var m0 := (num - 1) as bv64;
    var m1 := m0 | (m0 >> 1);
    var m2 := m1 | (m1 >> 2);
    var m3 := m2 | (m2 >> 4);
    var m4 := m3 | (m3 >> 8);
    var m5 := m4 | (m4 >> 16);
    m5 + 1
  }

  /** The least power of two at or above a positive argument; zero wraps around to 2^32. */
  lemma AlignIsLeast(num: bv32, q: HASHKEY)
    ensures PowerOfTwo(AlignNum(num))
    ensures num == 0 ==> AlignNum(num) == 0x1_0000_0000
    ensures num != 0 ==> num as bv64 <= AlignNum(num)
    ensures num != 0 && PowerOfTwo(q) && num as bv64 <= q ==> AlignNum(num) <= q
  {
    AlignPower(num);
    if num != 0 {
      AlignAbove(num);
      if PowerOfTwo(q) && num as bv64 <= q {
        AlignBelow(num, q);
      }
    }
  }

  lemma AlignPower(num: bv32)
    ensures PowerOfTwo(AlignNum(num))
  {
  }

  lemma AlignAbove(num: bv32)
    requires num != 0
    ensures num as bv64 <= AlignNum(num)
  {
  }

  lemma AlignBelow(num: bv32, q: HASHKEY)
    requires num != 0 && PowerOfTwo(q) && num as bv64 <= q
    ensures AlignNum(num) <= q
  {
  }

  lemma ShiftDown(k: HASHKEY)
    ensures k >> 1 != 0 ==> k >> 1 < k
    ensures k >> 1 == 0 ==> k == 0 || k == 1
  {
  }

  /** How often a key can be halved before nothing is left of it but its highest bit. */
  function Log(key: HASHKEY): nat
    decreases key
  {
    if key >> 1 == 0 then 0
    else
      ShiftDown(key);
      Log(key >> 1) + 1
  }

  method GetShiftNum(key: HASHKEY) returns (shift: nat)
    ensures shift == Log(key)
  {
    shift := 0;
    var k := key;
    while k >> 1 != 0
      invariant shift + Log(k) == Log(key)
      decreases k
    {
      ShiftDown(k);
      k := k >> 1;
      shift := shift + 1;
    }
  }

  lemma ShiftWords(s: bv7)
    ensures s != 0 ==> s as nat - 1 == (s - 1) as nat
    ensures s as nat == 0 ==> s == 0
  {
  }

  lemma ShiftTwice(key: HASHKEY, k: HASHKEY, s: bv7, t: bv7)
    requires s != 0 && t == s - 1 && t < 64 && k == key >> 1 && k >> t == 1
    ensures s < 64 && key >> s == 1
  {
  }

  lemma ShiftNone(key: HASHKEY, s: bv7)
    requires key != 0 && key >> 1 == 0 && s == 0
    ensures key >> s == 1
  {
  }

  /** The shift number of a nonzero key is the position of its highest set bit. */
  lemma {:induction false} LogIsHighestBit(key: HASHKEY, s: bv7)
    requires key != 0 && s as nat == Log(key)
    ensures s < 64 && key >> s == 1
    decreases key
  {
    ShiftWords(s);
    ShiftDown(key);
    if key >> 1 != 0 {
      var k, t := key >> 1, s - 1;
      LogIsHighestBit(k, t);
      ShiftTwice(key, k, s, t);
    } else {
      ShiftNone(key, s);
    }
  }

  lemma NextWord(t: bv7)
    requires t < 64
    ensures t + 1 != 0 && (t + 1) - 1 == t
  {
  }

  /** Every shift number fits the word it is kept in. */
  lemma {:induction false} LogFits(key: HASHKEY) returns (s: bv7)
    ensures s as nat == Log(key)
    decreases key
  {
    ShiftDown(key);
    if key >> 1 == 0 {
      s := 0;
    } else {
      var t := LogFits(key >> 1);
      LogIsHighestBit(key >> 1, t);
      NextWord(t);
      s := t + 1;
      ShiftWords(s);
    }
  }

  /** The mask of HashTableCreate, for a shift of at most 63. */
  function PartitionMask(shift: bv7): HASHKEY
    requires shift < 64
  {
    !((1 << shift) - 1)
  }

  /** GetPartitionIndex: the shift binds tighter than the conjunction. */
  function PartitionIndex(key: HASHKEY, mask: HASHKEY, shift: bv7): HASHKEY
    requires shift < 64
  {
    key & (mask >> shift)
  }

  /** GetBucketIndex: the remainder binds tighter than the conjunction. */
  function BucketIndex(key: HASHKEY, mask: HASHKEY): HASHKEY {
    key & (!mask % HASH_SEGMENT_SIZE)
  }

  /** `shift` is what HashTableCreate stores for p, the aligned number of at least two partitions. */
  ghost predicate ShiftFor(p: HASHKEY, shift: bv7) {
    PowerOfTwo(p) && p <= 0x8000_0000 && 0 < shift < 64 && p >> (64 - shift) == 1
  }

  lemma HalfWords(s: bv7)
    requires s < 64
    ensures 64 - (64 - s) == s && (s != 0 ==> 0 < 64 - s < 64)
  {
  }

  /** A table with at least two partitions gets such a shift; with one, C leaves the shift by 64 undefined. */
  lemma ShiftForPartitions(p: HASHKEY, s: bv7)
    requires PowerOfTwo(p) && 2 <= p <= 0x8000_0000 && s as nat == Log(p)
    ensures ShiftFor(p, 64 - s)
  {
    LogIsHighestBit(p, s);
    HalfWords(s);
    ShiftWords(s);
    ShiftDown(p);
  }

  lemma ShiftLarge(p: HASHKEY, shift: bv7)
    requires ShiftFor(p, shift)
    ensures 33 <= shift
  {
  }

  lemma LowFive(shift: bv7, key: HASHKEY)
    requires 33 <= shift < 64
    ensures BucketIndex(key, PartitionMask(shift)) == key & 31
  {
  }

  lemma AndBelow(key: HASHKEY, p: HASHKEY)
    requires PowerOfTwo(p)
    ensures key & (p - 1) < p
  {
  }

  lemma AndLowFive(key: HASHKEY)
    ensures key & 31 < HASH_SEGMENT_SIZE
  {
  }

  lemma BucketIs(p: HASHKEY, shift: bv7, key: HASHKEY)
    requires ShiftFor(p, shift)
    ensures BucketIndex(key, PartitionMask(shift)) == key & 31
  {
    ShiftLarge(p, shift);
    LowFive(shift, key);
  }

  lemma PartitionIs(p: HASHKEY, shift: bv7, key: HASHKEY)
    requires ShiftFor(p, shift)
    ensures PartitionIndex(key, PartitionMask(shift), shift) == key & (p - 1)
  {
  }

  lemma AlignFixed(partNum: bv32)
    requires partNum != 0
    ensures AlignNum(partNum) == partNum as bv64 <==> PowerOfTwo(partNum as bv64)
    ensures partNum as bv64 <= AlignNum(partNum)
  {
    AlignAbove(partNum);
    AlignPower(partNum);
    if PowerOfTwo(partNum as bv64) {
      AlignBelow(partNum, partNum as bv64);
    }
  }

  lemma LastPartition(p: HASHKEY, n: HASHKEY)
    requires PowerOfTwo(p) && n < p
    ensures n <= p - 1
  {
  }

  /** Every key stays inside its partition's bucket array, and inside the array of n segments exactly when
      aligning changed nothing, that is, when the number of partitions is a power of two (AlignFixed). */
  lemma IndexesInRange(n: HASHKEY, p: HASHKEY, shift: bv7)
    requires ShiftFor(p, shift) && n <= p
    ensures forall key :: BucketIndex(key, PartitionMask(shift)) < HASH_SEGMENT_SIZE
    ensures (forall key :: PartitionIndex(key, PartitionMask(shift), shift) < n) <==> n == p
  {
    forall key ensures BucketIndex(key, PartitionMask(shift)) < HASH_SEGMENT_SIZE {
      BucketIs(p, shift, key);
      AndLowFive(key);
    }
    if n == p {
      forall key ensures PartitionIndex(key, PartitionMask(shift), shift) < n {
        PartitionIs(p, shift, key);
        AndBelow(key, p);
      }
    } else {
      PartitionIs(p, shift, p - 1);
      LastPartition(p, n);
      assert !(PartitionIndex(p - 1, PartitionMask(shift), shift) < n);
    }
  }

  ghost predicate Uses(p: HASHKEY, shift: bv7, partition: HASHKEY, bucket: HASHKEY, key: HASHKEY)
    requires shift < 64
  {
    PartitionIndex(key, PartitionMask(shift), shift) == partition && BucketIndex(key, PartitionMask(shift)) == bucket
  }

  lemma UsesLowBits(p: HASHKEY, shift: bv7, partition: HASHKEY, bucket: HASHKEY, key: HASHKEY)
    requires ShiftFor(p, shift)
    ensures Uses(p, shift, partition, bucket, key) <==> key & (p - 1) == partition && key & 31 == bucket
  {
    PartitionIs(p, shift, key);
    BucketIs(p, shift, key);
  }

  lemma JoinBits(p: HASHKEY, partition: HASHKEY, bucket: HASHKEY)
    requires PowerOfTwo(p) && partition < p && bucket < HASH_SEGMENT_SIZE
    requires partition & 31 == bucket & (p - 1)
    ensures (partition | bucket) & (p - 1) == partition && (partition | bucket) & 31 == bucket
  {
  }

  lemma ShareBits(m: HASHKEY, key: HASHKEY)
    ensures (key & m) & 31 == (key & 31) & m
  {
  }

  /** Both indices come from the low bits of the key: a partition and a bucket are used together exactly
      when they agree on the bits they share. With four partitions, each uses only eight of its 32 buckets. */
  lemma BucketsUsed(p: HASHKEY, shift: bv7, partition: HASHKEY, bucket: HASHKEY)
    requires ShiftFor(p, shift) && partition < p && bucket < HASH_SEGMENT_SIZE
    ensures (exists key :: Uses(p, shift, partition, bucket, key)) <==> partition & 31 == bucket & (p - 1)
  {
    if partition & 31 == bucket & (p - 1) {
      JoinBits(p, partition, bucket);
      UsesLowBits(p, shift, partition, bucket, partition | bucket);
    }
    if key :| Uses(p, shift, partition, bucket, key) {
      UsesLowBits(p, shift, partition, bucket, key);
      ShareBits(p - 1, key);
    }
  }

  lemma HalfPower(p: HASHKEY)
    requires PowerOfTwo(p) && p != 1
    ensures PowerOfTwo(p >> 1) && p >> 1 < p
  {
  }

  function WithBit(s: set<HASHKEY>, h: HASHKEY): set<HASHKEY> {
    set x | x in s :: x | h
  }

  /** The indices of an array whose length is a power of two. */
  function Below(p: HASHKEY): set<HASHKEY>
    requires PowerOfTwo(p)
    decreases p
  {
    if p == 1 then {0}
    else
      HalfPower(p);
      Below(p >> 1) + WithBit(Below(p >> 1), p >> 1)
  }

  lemma BelowOne(x: HASHKEY)
    ensures x < 1 <==> x == 0
  {
  }

  lemma DropBit(x: HASHKEY, p: HASHKEY, h: HASHKEY, y: HASHKEY)
    requires PowerOfTwo(p) && p != 1 && x < p && h == p >> 1 && !(x < h) && y == x & !h
    ensures y < h && y | h == x
  {
  }

  lemma WithBitHas(s: set<HASHKEY>, h: HASHKEY, y: HASHKEY)
    requires y in s
    ensures y | h in WithBit(s, h)
  {
  }

  lemma InBelow(low: set<HASHKEY>, h: HASHKEY, p: HASHKEY, x: HASHKEY)
    requires PowerOfTwo(p) && p != 1 && h == p >> 1 && forall y :: y in low <==> y < h
    requires x in low + WithBit(low, h)
    ensures x < p
  {
  }

  lemma BelowIn(low: set<HASHKEY>, h: HASHKEY, p: HASHKEY, x: HASHKEY)
    requires PowerOfTwo(p) && p != 1 && h == p >> 1 && forall y :: y in low <==> y < h
    requires x < p
    ensures x in low + WithBit(low, h)
  {
    if !(x < h) {
      var y := x & !h;
      DropBit(x, p, h, y);
      WithBitHas(low, h, y);
    }
  }

  lemma {:induction false} BelowIs(p: HASHKEY)
    requires PowerOfTwo(p)
    ensures forall x :: x in Below(p) <==> x < p
    decreases p
  {
    if p == 1 {
      forall x ensures x in Below(p) <==> x < p {
        BelowOne(x);
      }
    } else {
      HalfPower(p);
      BelowIs(p >> 1);
      forall x ensures x in Below(p) <==> x < p {
        if x in Below(p) {
          InBelow(Below(p >> 1), p >> 1, p, x);
        }
        if x < p {
          BelowIn(Below(p >> 1), p >> 1, p, x);
        }
      }
    }
  }
}
