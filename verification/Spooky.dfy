/** SpookyHash over messages given at once or in pieces (src/util/hashtable/spooky-c.c).

    The hash of messages under 192 bytes is a parameter: both interfaces hand such messages to it as they are. */
module Spooky {
  import opened Commons

  const SC_CONST: bv64 := 0xdeadbeefdeadbeef
  const SC_BLOCKSIZE := 96
  const SC_BUFSIZE := 192

  datatype State = State(s0: bv64, s1: bv64, s2: bv64, s3: bv64, s4: bv64, s5: bv64,
                         s6: bv64, s7: bv64, s8: bv64, s9: bv64, s10: bv64, s11: bv64)

  datatype Block = Block(d0: bv64, d1: bv64, d2: bv64, d3: bv64, d4: bv64, d5: bv64,
                         d6: bv64, d7: bv64, d8: bv64, d9: bv64, d10: bv64, d11: bv64)

  const ZERO_BLOCK := Block(0, 0, 0, 0, 0, 0, 0, 0, 0, 0, 0, 0)

  /** mix: line i adds a word, stirs its neighbours and rotates it. */
  function Mix(s: State, d: Block): State {
    var x0 := s.s0 + d.d0; var y0 := s.s2 ^ s.s10; var z0 := (s.s11 ^ x0) + s.s1; var r0 := (x0 << 11) | (x0 >> 53);
    var x1 := s.s1 + d.d1; var y1 := s.s3 ^ z0; var z1 := (r0 ^ x1) + y0; var r1 := (x1 << 32) | (x1 >> 32);
    var x2 := y0 + d.d2; var y2 := s.s4 ^ z1; var z2 := (r1 ^ x2) + y1; var r2 := (x2 << 43) | (x2 >> 21);
    var x3 := y1 + d.d3; var y3 := s.s5 ^ z2; var z3 := (r2 ^ x3) + y2; var r3 := (x3 << 31) | (x3 >> 33);
    var x4 := y2 + d.d4; var y4 := s.s6 ^ z3; var z4 := (r3 ^ x4) + y3; var r4 := (x4 << 17) | (x4 >> 47);
    var x5 := y3 + d.d5; var y5 := s.s7 ^ z4; var z5 := (r4 ^ x5) + y4; var r5 := (x5 << 28) | (x5 >> 36);
    var x6 := y4 + d.d6; var y6 := s.s8 ^ z5; var z6 := (r5 ^ x6) + y5; var r6 := (x6 << 39) | (x6 >> 25);
    var x7 := y5 + d.d7; var y7 := s.s9 ^ z6; var z7 := (r6 ^ x7) + y6; var r7 := (x7 << 57) | (x7 >> 7);
    var x8 := y6 + d.d8; var y8 := s.s10 ^ z7; var z8 := (r7 ^ x8) + y7; var r8 := (x8 << 55) | (x8 >> 9);
    var x9 := y7 + d.d9; var y9 := z0 ^ z8; var z9 := (r8 ^ x9) + y8; var r9 := (x9 << 54) | (x9 >> 10);
    var x10 := y8 + d.d10; var y10 := z1 ^ z9; var z10 := (r9 ^ x10) + y9; var r10 := (x10 << 22) | (x10 >> 42);
    var x11 := y9 + d.d11; var y11 := z2 ^ z10; var z11 := (r10 ^ x11) + y10; var r11 := (x11 << 46) | (x11 >> 18);
    State(y10, y11, z3, z4, z5, z6, z7, z8, z9, z10, z11, r11)
  }

  /** Mixing does not tell all blocks apart: here are two that lead from one state to the same one. */
  lemma BlocksMeet()
    ensures var s := State(0x0000000000000000, 0x0000000000000000, 0x0000000000000000, 0xca543a0d864b21d3, 0x0000000000000000, 0x0000000000000000, 0x0000000000000000, 0x0000000000000000, 0x0000000000000000, 0xffffffffffffffff, 0x0000000000000000, 0x35abc5f279b4de2c);
            var d := Block(0x0000000000000000, 0x0000000000000000, 0x0000000000000000, 0x0000000000000001, 0x0000000000000000, 0x0000000000000001, 0x0000000000000000, 0x0000000000000001, 0x0000000000000000, 0x0000000000000000, 0x0000000000000000, 0xca543a0d864b21d4);
            var e := Block(0x35abc5f279b4de2f, 0x5e2f93cda6f179ad, 0x935abc5f279b4de2, 0x101ada8d4f97d76c, 0x6af17c9e6d378a4d, 0xf93cda6f149ad5e3, 0xf149ad5e2f93cda6, 0xc9e6d378a4d6af18, 0x2f93cda6f149ad5e, 0xaf17c9e6d378a4d6, 0x0000000000000000, 0xfffffffffffffffd);
            d != e && Mix(s, d) == Mix(s, e)
  {
    hide Mix;
    BlockMixed();
    OtherMixed();
  }

  lemma BlockMixed()
    ensures Mix(State(0x0000000000000000, 0x0000000000000000, 0x0000000000000000, 0xca543a0d864b21d3, 0x0000000000000000, 0x0000000000000000, 0x0000000000000000, 0x0000000000000000, 0x0000000000000000, 0xffffffffffffffff, 0x0000000000000000, 0x35abc5f279b4de2c), Block(0x0000000000000000, 0x0000000000000000, 0x0000000000000000, 0x0000000000000001, 0x0000000000000000, 0x0000000000000001, 0x0000000000000000, 0x0000000000000001, 0x0000000000000000, 0x0000000000000000, 0x0000000000000000, 0xca543a0d864b21d4)) == State(0x0000000000000000, 0xca543a0d864b21d3, 0x0000000000000000, 0xffffffffffffffff, 0x0000000000000000, 0xffffffffffffffff, 0x0000000000000000, 0x0000000000000000, 0x0000000000000000, 0x35abc5f279b4de2c, 0x0000000000000000, 0x0000000000000000)
  {
  }

  lemma OtherMixed()
    ensures Mix(State(0x0000000000000000, 0x0000000000000000, 0x0000000000000000, 0xca543a0d864b21d3, 0x0000000000000000, 0x0000000000000000, 0x0000000000000000, 0x0000000000000000, 0x0000000000000000, 0xffffffffffffffff, 0x0000000000000000, 0x35abc5f279b4de2c), Block(0x35abc5f279b4de2f, 0x5e2f93cda6f179ad, 0x935abc5f279b4de2, 0x101ada8d4f97d76c, 0x6af17c9e6d378a4d, 0xf93cda6f149ad5e3, 0xf149ad5e2f93cda6, 0xc9e6d378a4d6af18, 0x2f93cda6f149ad5e, 0xaf17c9e6d378a4d6, 0x0000000000000000, 0xfffffffffffffffd)) == State(0x0000000000000000, 0xca543a0d864b21d3, 0x0000000000000000, 0xffffffffffffffff, 0x0000000000000000, 0xffffffffffffffff, 0x0000000000000000, 0x0000000000000000, 0x0000000000000000, 0x35abc5f279b4de2c, 0x0000000000000000, 0x0000000000000000)
  {
  }

  function EndPartial(h: State): State {
    var a0 := h.s11 + h.s1; var c0 := h.s2 ^ a0; var b0 := (h.s1 << 44) | (h.s1 >> 20);
    var a1 := h.s0 + c0; var c1 := h.s3 ^ a1; var b1 := (c0 << 15) | (c0 >> 49);
    var a2 := b0 + c1; var c2 := h.s4 ^ a2; var b2 := (c1 << 34) | (c1 >> 30);
    var a3 := b1 + c2; var c3 := h.s5 ^ a3; var b3 := (c2 << 21) | (c2 >> 43);
    var a4 := b2 + c3; var c4 := h.s6 ^ a4; var b4 := (c3 << 38) | (c3 >> 26);
    var a5 := b3 + c4; var c5 := h.s7 ^ a5; var b5 := (c4 << 33) | (c4 >> 31);
    var a6 := b4 + c5; var c6 := h.s8 ^ a6; var b6 := (c5 << 10) | (c5 >> 54);
    var a7 := b5 + c6; var c7 := h.s9 ^ a7; var b7 := (c6 << 13) | (c6 >> 51);
    var a8 := b6 + c7; var c8 := h.s10 ^ a8; var b8 := (c7 << 38) | (c7 >> 26);
    var a9 := b7 + c8; var c9 := a0 ^ a9; var b9 := (c8 << 53) | (c8 >> 11);
    var a10 := b8 + c9; var c10 := a1 ^ a10; var b10 := (c9 << 42) | (c9 >> 22);
    var a11 := b9 + c10; var c11 := a2 ^ a11; var b11 := (c10 << 54) | (c10 >> 10);
    State(b11, c11, a3, a4, a5, a6, a7, a8, a9, a10, a11, b10)
  }

  function End(h: State): State {
    EndPartial(EndPartial(EndPartial(h)))
  }

  /** Eight bytes as a word, low byte first. */
  function Word(b: seq<byte>): bv64
    requires |b| == 8
  {
    (b[0] as bv64) | ((b[1] as bv64) << 8) | ((b[2] as bv64) << 16) | ((b[3] as bv64) << 24)
    | ((b[4] as bv64) << 32) | ((b[5] as bv64) << 40) | ((b[6] as bv64) << 48) | ((b[7] as bv64) << 56)
  }

  function BlockOf(b: seq<byte>): Block
    requires |b| == SC_BLOCKSIZE
  {
    Block(Word(b[0..8]), Word(b[8..16]), Word(b[16..24]), Word(b[24..32]), Word(b[32..40]), Word(b[40..48]),
          Word(b[48..56]), Word(b[56..64]), Word(b[64..72]), Word(b[72..80]), Word(b[80..88]), Word(b[88..96]))
  }

  function Init(seed1: bv64, seed2: bv64): State {
    State(seed1, seed2, SC_CONST, seed1, seed2, SC_CONST, seed1, seed2, SC_CONST, seed1, seed2, SC_CONST)
  }

  /** The whole blocks of a message, mixed in from the first on; what is left over is not looked at. */
  function MixAll(s: State, m: seq<byte>): State
    decreases |m|
  {
    if |m| < SC_BLOCKSIZE then s else MixAll(Mix(s, BlockOf(m[..SC_BLOCKSIZE])), m[SC_BLOCKSIZE..])
  }

  function Whole(m: seq<byte>): seq<byte> {
    m[..|m| - |m| % SC_BLOCKSIZE]
  }

  function Tail(m: seq<byte>): (t: seq<byte>)
    ensures |t| < SC_BLOCKSIZE
  {
    m[|m| - |m| % SC_BLOCKSIZE..]
  }

  /** The last partial block: filled with zeros, its length in its last byte. */
  function Pad(tail: seq<byte>): (b: seq<byte>)
    requires |tail| < SC_BLOCKSIZE
    ensures |b| == SC_BLOCKSIZE
  {
    tail + seq(SC_BLOCKSIZE - 1 - |tail|, _ => 0) + [|tail| as byte]
  }

  /** Different rests are padded to different blocks. */
  lemma PadTells(t: seq<byte>, u: seq<byte>)
    requires |t| < SC_BLOCKSIZE && |u| < SC_BLOCKSIZE && Pad(t) == Pad(u)
    ensures t == u
  {
    assert Pad(t)[SC_BLOCKSIZE - 1] == |t| && Pad(u)[SC_BLOCKSIZE - 1] == |u|;
    assert Pad(t)[..|t|] == t && Pad(u)[..|u|] == u;
  }

  type ShortHash = (seq<byte>, bv64, bv64) -> (bv64, bv64)

  /** spooky_hash128. */
  function OneShot(m: seq<byte>, seed1: bv64, seed2: bv64, short: ShortHash): (bv64, bv64) {
    if |m| < SC_BUFSIZE then short(m, seed1, seed2)
    else
      var h := End(MixAll(Init(seed1, seed2), m));
      (h.s0, h.s1)
  }

  /** What spooky_final returns for the whole message that was fed in, given the seeds of the start and of the end. */
  function Incremental(m: seq<byte>, seed1: bv64, seed2: bv64, last1: bv64, last2: bv64, short: ShortHash): (bv64, bv64) {
    if |m| < SC_BUFSIZE then short(m, last1, last2)
    else
      var h := End(Mix(MixAll(Init(seed1, seed2), m), BlockOf(Pad(Tail(m)))));
      (h.s0, h.s1)
  }

  ghost predicate Blocks(m: seq<byte>) {
    |m| % SC_BLOCKSIZE == 0
  }

  /** Whole blocks can be mixed in piece by piece. */
  lemma {:induction false} MixAllAppend(s: State, m: seq<byte>, n: seq<byte>)
    requires Blocks(m)
    ensures MixAll(s, m + n) == MixAll(MixAll(s, m), n)
    decreases |m|
  {
    hide Mix, BlockOf;
    if m == [] {
      assert m + n == n;
    } else {
      assert (m + n)[..SC_BLOCKSIZE] == m[..SC_BLOCKSIZE];
      assert (m + n)[SC_BLOCKSIZE..] == m[SC_BLOCKSIZE..] + n;
      MixAllAppend(Mix(s, BlockOf(m[..SC_BLOCKSIZE])), m[SC_BLOCKSIZE..], n);
    }
  }

  lemma MixAllWhole(s: State, m: seq<byte>)
    ensures MixAll(s, m) == MixAll(s, Whole(m))
  {
    hide Mix, BlockOf;
    assert m == Whole(m) + Tail(m);
    MixAllAppend(s, Whole(m), Tail(m));
  }

  /** Short messages hash the same both ways, if the seeds are passed again at the end. */
  lemma ShortAgree(m: seq<byte>, seed1: bv64, seed2: bv64, short: ShortHash)
    requires |m| < SC_BUFSIZE
    ensures Incremental(m, seed1, seed2, seed1, seed2, short) == OneShot(m, seed1, seed2, short)
  {
  }

  /** For longer messages the incremental hash is the one-shot hash of the whole blocks and the padded rest as a block. */
  lemma IncrementalIsPaddedOneShot(m: seq<byte>, seed1: bv64, seed2: bv64, last1: bv64, last2: bv64, short: ShortHash)
    requires |m| >= SC_BUFSIZE
    ensures Incremental(m, seed1, seed2, last1, last2, short) == OneShot(Whole(m) + Pad(Tail(m)), seed1, seed2, short)
  {
    hide Mix, BlockOf, End;
    var s := Init(seed1, seed2);
    MixAllWhole(s, m);
    MixAllAppend(s, Whole(m), Pad(Tail(m)));
    assert Pad(Tail(m))[..SC_BLOCKSIZE] == Pad(Tail(m));
  }

  /** The one-shot hash fills a last block but never mixes it in: bytes after the last whole block do not count. */
  lemma OneShotIgnoresTail(m: seq<byte>, n: seq<byte>, seed1: bv64, seed2: bv64, short: ShortHash)
    requires |m| >= SC_BUFSIZE && |n| >= SC_BUFSIZE && Whole(m) == Whole(n)
    ensures OneShot(m, seed1, seed2, short) == OneShot(n, seed1, seed2, short)
  {
    hide Mix, BlockOf, End;
    MixAllWhole(Init(seed1, seed2), m);
    MixAllWhole(Init(seed1, seed2), n);
  }

  lemma Zero1()
    ensures Mix(State(0x0000000000000000, 0x0000000000000000, 0xdeadbeefdeadbeef, 0x0000000000000000, 0x0000000000000000, 0xdeadbeefdeadbeef, 0x0000000000000000, 0x0000000000000000, 0xdeadbeefdeadbeef, 0x0000000000000000, 0x0000000000000000, 0xdeadbeefdeadbeef), ZERO_BLOCK) == State(0x3a25e7500925e5d1, 0x44abb6d47567ad57, 0x92087f0a92087f09, 0x95f224c895f224c9, 0xb031fd75b031fd73, 0x2a2938021a293803, 0x0069e39c0069e51c, 0x27e0dfd619e0dfd8, 0xe48859bfd7885b3e, 0xf9f0cb0bc83cd089, 0x5873629089736120, 0x584dfe53584e71d3)
  {
  }

  lemma Zero2()
    ensures Mix(State(0x3a25e7500925e5d1, 0x44abb6d47567ad57, 0x92087f0a92087f09, 0x95f224c895f224c9, 0xb031fd75b031fd73, 0x2a2938021a293803, 0x0069e39c0069e51c, 0x27e0dfd619e0dfd8, 0xe48859bfd7885b3e, 0xf9f0cb0bc83cd089, 0x5873629089736120, 0x584dfe53584e71d3), ZERO_BLOCK) == State(0xbf51ec23bd47a111, 0xdda9900fb3cf975a, 0x704e4e8f51c37527, 0x0b84bf79856080e1, 0xf979d519290ccb30, 0xc70e7f2b5898493e, 0x171e09be8ddb669f, 0xaea7f88832622a67, 0x895db814c883e3be, 0x2c570be3013d99d7, 0x81870981d8aa5175, 0x5acf826d0dd7fd2c)
  {
  }

  lemma Zero3()
    ensures Mix(State(0xbf51ec23bd47a111, 0xdda9900fb3cf975a, 0x704e4e8f51c37527, 0x0b84bf79856080e1, 0xf979d519290ccb30, 0xc70e7f2b5898493e, 0x171e09be8ddb669f, 0xaea7f88832622a67, 0x895db814c883e3be, 0x2c570be3013d99d7, 0x81870981d8aa5175, 0x5acf826d0dd7fd2c), ZERO_BLOCK) == State(0xe3ba91c4273ddee2, 0x8305386da3a99387, 0x3fc9d896dc43fcff, 0x1b3c26adc3f5c43e, 0xf6f5dd56d6b5af9d, 0x13da35ec7edccade, 0xf97f5373b8b5c694, 0x0c50910dd5b6b708, 0xa72b45303f0de010, 0x89cf291195a9b454, 0x5749fa7a70f5596b, 0x5127f3c5dbd4ec7a)
  {
  }

  lemma OneShotEnd1()
    ensures EndPartial(State(0xbf51ec23bd47a111, 0xdda9900fb3cf975a, 0x704e4e8f51c37527, 0x0b84bf79856080e1, 0xf979d519290ccb30, 0xc70e7f2b5898493e, 0x171e09be8ddb669f, 0xaea7f88832622a67, 0x895db814c883e3be, 0x2c570be3013d99d7, 0x81870981d8aa5175, 0x5acf826d0dd7fd2c)) == State(0xd344005d45a2cae8, 0x79cbf68880821f1e, 0xab743982b990dada, 0x8faa4ff611406d9f, 0xc2bd5e4f749aaa4e, 0xae3f9fe2658a2aa1, 0x60983df7de7255b0, 0xb76a5330c1507217, 0x7bec3052531e084e, 0x17883c01c68721ff, 0x7c4852c1e14ee291, 0xe673210e5488ba4a)
  {
  }

  lemma OneShotEnd2()
    ensures EndPartial(State(0xd344005d45a2cae8, 0x79cbf68880821f1e, 0xab743982b990dada, 0x8faa4ff611406d9f, 0xc2bd5e4f749aaa4e, 0xae3f9fe2658a2aa1, 0x60983df7de7255b0, 0xb76a5330c1507217, 0x7bec3052531e084e, 0x17883c01c68721ff, 0x7c4852c1e14ee291, 0xe673210e5488ba4a)) == State(0x7329d59d7868bd32, 0x1e2e1326fcd47c1c, 0x88b44db81858e6e8, 0xb47e5e6ec2685267, 0xc249338944983d19, 0xe9d6730328bce5ad, 0xca6e5301256fb515, 0x6b6955180524cebe, 0x5f8b374e42269e76, 0x39d95b9010c80756, 0x2d395a029e315711, 0xb11c78fed083625c)
  {
  }

  lemma OneShotEnd3()
    ensures EndPartial(State(0x7329d59d7868bd32, 0x1e2e1326fcd47c1c, 0x88b44db81858e6e8, 0xb47e5e6ec2685267, 0xc249338944983d19, 0xe9d6730328bce5ad, 0xca6e5301256fb515, 0x6b6955180524cebe, 0x5f8b374e42269e76, 0x39d95b9010c80756, 0x2d395a029e315711, 0xb11c78fed083625c)) == State(0xf8a749759c489872, 0x492ab512070e25c0, 0xf620a338d1124e6a, 0x5c756ed03709d11d, 0xac41d7165fd90e3f, 0x32d373d658b1cf7f, 0x92250ca946cdccab, 0x4e0490a54d07d319, 0x6bd0cdfabd57b1b3, 0x260d414a6f163e20, 0x1e323e2a775c32b2, 0x01bf2e9269077dc0)
  {
  }

  lemma FinalEnd1()
    ensures EndPartial(State(0xe3ba91c4273ddee2, 0x8305386da3a99387, 0x3fc9d896dc43fcff, 0x1b3c26adc3f5c43e, 0xf6f5dd56d6b5af9d, 0x13da35ec7edccade, 0xf97f5373b8b5c694, 0x0c50910dd5b6b708, 0xa72b45303f0de010, 0x89cf291195a9b454, 0x5749fa7a70f5596b, 0x5127f3c5dbd4ec7a)) == State(0x516f220538cf889e, 0x8d73f534ae1b2340, 0x157c97414a204b77, 0x2ce12228878b04b9, 0x89efe575eff22765, 0xc4dfdeb9e3ed3bba, 0xe2721fe5881dbe60, 0x698f17dd2ff5c04a, 0xd23829437a75e59f, 0x7317928af45922a5, 0xe0afedc0f30e5958, 0x2d9678185415c014)
  {
  }

  lemma FinalEnd2()
    ensures EndPartial(State(0x516f220538cf889e, 0x8d73f534ae1b2340, 0x157c97414a204b77, 0x2ce12228878b04b9, 0x89efe575eff22765, 0xc4dfdeb9e3ed3bba, 0xe2721fe5881dbe60, 0x698f17dd2ff5c04a, 0xd23829437a75e59f, 0x7317928af45922a5, 0xe0afedc0f30e5958, 0x2d9678185415c014)) == State(0x4048369019907caf, 0x14a4d7b9945bc80f, 0x89dac66dfd5e2f77, 0x6ab1eab76ad00db1, 0xd5791eddea4f4e65, 0x69bb3c540700c336, 0x811e7cba8efd114e, 0xca2df14764dcf2de, 0x8d250c363ca7e2f6, 0xdf3c5c77c1128dc0, 0x919f90a9d2e5b756, 0x5c0688d8bd85ecfa)
  {
  }

  lemma FinalEnd3()
    ensures EndPartial(State(0x4048369019907caf, 0x14a4d7b9945bc80f, 0x89dac66dfd5e2f77, 0x6ab1eab76ad00db1, 0xd5791eddea4f4e65, 0x69bb3c540700c336, 0x811e7cba8efd114e, 0xca2df14764dcf2de, 0x8d250c363ca7e2f6, 0xdf3c5c77c1128dc0, 0x919f90a9d2e5b756, 0x5c0688d8bd85ecfa)) == State(0x8e8f1d73fc081b03, 0xb4da630ccb184c88, 0xae700cbee0f47a3c, 0x79cb9b5c341595ec, 0xc4b85e866b83e2a8, 0x0bc3f273022b4b2f, 0xfcb8078b303879a6, 0x7a43603a6d6ccca0, 0xcba5986554c4acd2, 0x05cc127fe63c1917, 0xbb534b8e32e3ff69, 0x94676eec3be3dc14)
  {
  }

  lemma TwoBlocks(s: State, a: seq<byte>, b: seq<byte>)
    requires |a| == |b| == SC_BLOCKSIZE
    ensures MixAll(s, a + b) == Mix(Mix(s, BlockOf(a)), BlockOf(b))
  {
    hide Mix, BlockOf;
    assert (a + b)[..SC_BLOCKSIZE] == a && (a + b)[SC_BLOCKSIZE..] == b;
    assert b[..SC_BLOCKSIZE] == b && b[SC_BLOCKSIZE..] == [];
    assert MixAll(Mix(s, BlockOf(a)), b) == MixAll(Mix(Mix(s, BlockOf(a)), BlockOf(b)), []);
  }

  lemma ZeroWord(b: seq<byte>)
    requires |b| == 8 && forall i :: 0 <= i < |b| ==> b[i] == 0
    ensures Word(b) == 0
  {
    assert b == [0, 0, 0, 0, 0, 0, 0, 0];
  }

  function Placed(k: nat, v: bv64): Block
    requires k < 12
  {
    if k == 0 then ZERO_BLOCK.(d0 := v)
    else if k == 1 then ZERO_BLOCK.(d1 := v)
    else if k == 2 then ZERO_BLOCK.(d2 := v)
    else if k == 3 then ZERO_BLOCK.(d3 := v)
    else if k == 4 then ZERO_BLOCK.(d4 := v)
    else if k == 5 then ZERO_BLOCK.(d5 := v)
    else if k == 6 then ZERO_BLOCK.(d6 := v)
    else if k == 7 then ZERO_BLOCK.(d7 := v)
    else if k == 8 then ZERO_BLOCK.(d8 := v)
    else if k == 9 then ZERO_BLOCK.(d9 := v)
    else if k == 10 then ZERO_BLOCK.(d10 := v)
    else ZERO_BLOCK.(d11 := v)
  }

  /** The eight bytes at place k of a block, and no others, are its word k, low byte first. */
  lemma WordInPlace(b: seq<byte>, k: nat, w: seq<byte>)
    requires |b| == SC_BLOCKSIZE && k < 12 && |w| == 8 && b[8 * k..8 * k + 8] == w
    requires forall i :: 0 <= i < |b| && !(8 * k <= i < 8 * k + 8) ==> b[i] == 0
    ensures BlockOf(b) == Placed(k, Word(w))
  {
    hide Word;
    forall i, j | 0 <= i && j == i + 8 && j <= |b| && (j <= 8 * k || 8 * k + 8 <= i) ensures Word(b[i..j]) == 0 {
      ZeroWord(b[i..j]);
    }
  }

  lemma LowByteFirst()
    ensures Word([1, 2, 3, 4, 5, 6, 7, 8]) == 0x0807060504030201
  {
  }

  lemma ZeroWords(b: seq<byte>)
    requires |b| == SC_BLOCKSIZE && forall i :: 0 <= i < |b| ==> b[i] == 0
    ensures BlockOf(b) == ZERO_BLOCK
  {
    hide Word;
    forall i, j | 0 <= i && j == i + 8 && j <= |b| ensures Word(b[i..j]) == 0 {
      ZeroWord(b[i..j]);
    }
  }

  /** For longer messages the two hashes differ: for one, on 192 zero bytes with zero seeds. */
  lemma LongDisagree(short: ShortHash)
    ensures var m := seq(SC_BUFSIZE, _ => 0);
            Incremental(m, 0, 0, 0, 0, short) != OneShot(m, 0, 0, short)
  {
    hide Mix, BlockOf, EndPartial, MixAll;
    var m := seq(SC_BUFSIZE, _ => 0);
    var first, second := m[..SC_BLOCKSIZE], m[SC_BLOCKSIZE..];
    assert m == first + second && Tail(m) == [];
    TwoBlocks(Init(0, 0), first, second);
    ZeroWords(first);
    ZeroWords(second);
    ZeroWords(Pad(Tail(m)));
    Zero1();
    Zero2();
    Zero3();
    assert MixAll(Init(0, 0), m) == State(0xbf51ec23bd47a111, 0xdda9900fb3cf975a, 0x704e4e8f51c37527, 0x0b84bf79856080e1, 0xf979d519290ccb30, 0xc70e7f2b5898493e, 0x171e09be8ddb669f, 0xaea7f88832622a67, 0x895db814c883e3be, 0x2c570be3013d99d7, 0x81870981d8aa5175, 0x5acf826d0dd7fd2c);
    OneShotEnd1();
    OneShotEnd2();
    OneShotEnd3();
    FinalEnd1();
    FinalEnd2();
    FinalEnd3();
  }

  /** The loop over whole blocks, from an offset on; where it stops, less than a block is left. */
  method MixBlocks(s: State, message: seq<byte>, from: nat) returns (h: State, endp: nat)
    requires from <= |message|
    ensures h == MixAll(s, message[from..])
    ensures from <= endp <= |message| < endp + SC_BLOCKSIZE && Blocks(message[from..endp])
  {
    hide Mix, BlockOf;
    h, endp := s, from;
    while endp + SC_BLOCKSIZE <= |message|
      invariant from <= endp <= |message| && (endp - from) % SC_BLOCKSIZE == 0
      invariant MixAll(h, message[endp..]) == MixAll(s, message[from..])
    {
      assert message[endp..][..SC_BLOCKSIZE] == message[endp..endp + SC_BLOCKSIZE];
      assert message[endp..][SC_BLOCKSIZE..] == message[endp + SC_BLOCKSIZE..];
      h := Mix(h, BlockOf(message[endp..endp + SC_BLOCKSIZE]));
      endp := endp + SC_BLOCKSIZE;
    }
  }

  /** spooky_hash128; the last block that it fills is never read. */
  method SpookyHash128(message: seq<byte>, seed1: bv64, seed2: bv64, short: ShortHash) returns (hash1: bv64, hash2: bv64)
    ensures (hash1, hash2) == OneShot(message, seed1, seed2, short)
  {
    hide Mix, BlockOf, EndPartial;
    if |message| < SC_BUFSIZE {
      var r := short(message, seed1, seed2);
      return r.0, r.1;
    }
    assert message[0..] == message;
    var h, endp := MixBlocks(Init(seed1, seed2), message, 0);
    h := End(h);
    return h.s0, h.s1;
  }

  class SpookyState {
    const m_data: array<byte>
    var m_state: State
    var m_length: nat
    var m_remainder: nat
    ghost var message: seq<byte>
    ghost var done: seq<byte>
    ghost const seed1: bv64
    ghost const seed2: bv64

    /** The state is the mix of the blocks taken so far, and the rest of the message is stashed away. */
    ghost predicate Valid()
      reads this, m_data
    {
      && m_data.Length == SC_BUFSIZE && m_length == |message| && m_remainder < SC_BUFSIZE
      && message == done + m_data[..m_remainder] && Blocks(done)
      && if m_length < SC_BUFSIZE then done == [] && m_state.s0 == seed1 && m_state.s1 == seed2
         else m_state == MixAll(Init(seed1, seed2), done)
    }

    /** spooky_init. */
    constructor (seed1: bv64, seed2: bv64)
      ensures Valid() && message == [] && this.seed1 == seed1 && this.seed2 == seed2 && fresh(m_data)
    {
      this.seed1, this.seed2 := seed1, seed2;
      m_data := new byte[SC_BUFSIZE](_ => 0);
      m_length, m_remainder, message, done := 0, 0, [], [];
      m_state := Init(seed1, seed2);
    }

    /** memcpy into the stash. */
    method Copy(at: nat, bytes: seq<byte>)
      requires at + |bytes| <= m_data.Length
      modifies m_data
      ensures m_data[..at + |bytes|] == old(m_data[..at]) + bytes
    {
      forall i | 0 <= i < |bytes| {
        m_data[at + i] := bytes[i];
      }
    }

    /** A piece that leaves the stash short of two blocks is stuffed away. */
    method Stash(msg: seq<byte>)
      requires Valid() && m_remainder + |msg| < SC_BUFSIZE
      modifies this, m_data
      ensures Valid() && message == old(message) + msg
    {
      hide Blocks, MixAll;
      Copy(m_remainder, msg);
      m_length := m_length + |msg|;
      m_remainder := m_remainder + |msg|;
      message := message + msg;
      assert message == done + (old(m_data[..m_remainder]) + msg);
    }

    /** What is stashed away is completed to two blocks and used. */
    method UseStash(h: State, msg: seq<byte>) returns (h': State, prefix: nat)
      requires m_data.Length == SC_BUFSIZE && m_remainder < SC_BUFSIZE <= m_remainder + |msg|
      modifies m_data
      ensures prefix == if m_remainder == 0 then 0 else SC_BUFSIZE - m_remainder
      ensures h' == MixAll(h, old(m_data[..m_remainder]) + msg[..prefix])
      ensures Blocks(old(m_data[..m_remainder]) + msg[..prefix])
    {
      hide Mix, BlockOf;
      h', prefix := h, 0;
      if m_remainder > 0 {
        prefix := SC_BUFSIZE - m_remainder;
        Copy(m_remainder, msg[..prefix]);
        assert m_data[..] == m_data[..m_remainder + prefix];
        assert m_data[..] == m_data[..SC_BLOCKSIZE] + m_data[SC_BLOCKSIZE..];
        TwoBlocks(h, m_data[..SC_BLOCKSIZE], m_data[SC_BLOCKSIZE..]);
        h' := Mix(h, BlockOf(m_data[..SC_BLOCKSIZE]));
        h' := Mix(h', BlockOf(m_data[SC_BLOCKSIZE..]));
      }
    }

    /** The last bytes are stuffed away, and then the variables. */
    method Settle(h: State, rest: seq<byte>, ghost taken: seq<byte>, ghost total: seq<byte>)
      requires m_data.Length == SC_BUFSIZE <= m_length == |total| && |rest| < SC_BLOCKSIZE
      requires total == taken + rest && Blocks(taken) && h == MixAll(Init(seed1, seed2), taken)
      modifies this, m_data
      ensures Valid() && message == total
    {
      hide Mix, BlockOf, MixAll, Blocks;
      m_remainder := |rest|;
      Copy(0, rest);
      m_state := h;
      message, done := total, taken;
    }

    /** spooky_update. */
    method Update(msg: seq<byte>)
      requires Valid()
      modifies this, m_data
      ensures Valid() && message == old(message) + msg
    {
      hide Mix, BlockOf, MixAll, Blocks;
      if |msg| + m_remainder < SC_BUFSIZE {
        Stash(msg);
        return;
      }
      ghost var stash := m_data[..m_remainder];
      var h := if m_length < SC_BUFSIZE then Init(m_state.s0, m_state.s1) else m_state;
      NoBlocks(Init(seed1, seed2));
      m_length := m_length + |msg|;
      var prefix, endp;
      h, prefix := UseStash(h, msg);
      h, endp := MixBlocks(h, msg, prefix);
      Taken(Init(seed1, seed2), done, stash + msg[..prefix], msg[prefix..endp], msg[endp..]);
      Regroup(done, stash, msg, prefix, endp);
      Settle(h, msg[endp..], done + (stash + msg[..prefix]) + msg[prefix..endp], message + msg);
    }

    /** A whole first block of the stash is mixed in. */
    method FirstBlock(h: State) returns (h': State, at: nat)
      requires Valid()
      ensures at <= m_remainder < at + SC_BLOCKSIZE <= SC_BUFSIZE && Blocks(m_data[..at])
      ensures h' == MixAll(h, m_data[..at])
    {
      hide Mix, BlockOf;
      h', at := h, 0;
      if m_remainder >= SC_BLOCKSIZE {
        assert m_data[..SC_BLOCKSIZE][SC_BLOCKSIZE..] == [];
        assert m_data[..SC_BLOCKSIZE][..SC_BLOCKSIZE] == m_data[..SC_BLOCKSIZE];
        h' := Mix(h, BlockOf(m_data[..SC_BLOCKSIZE]));
        at := SC_BLOCKSIZE;
      }
    }

    /** The last partial block is padded in place, behind the stashed bytes. */
    method PadStash(at: nat) returns (block: seq<byte>)
      requires Valid() && at <= m_remainder < at + SC_BLOCKSIZE <= SC_BUFSIZE
      modifies m_data
      ensures Valid() && message == old(message) && m_data[..m_remainder] == old(m_data[..m_remainder])
      ensures block == Pad(m_data[at..m_remainder])
    {
      hide MixAll, Blocks;
      var remainder := m_remainder - at;
      Copy(m_remainder, seq(SC_BLOCKSIZE - remainder, _ => 0));
      ghost var filled := m_data[..at + SC_BLOCKSIZE];
      assert m_data[..at + SC_BLOCKSIZE - 1] == filled[..at + SC_BLOCKSIZE - 1];
      Copy(at + SC_BLOCKSIZE - 1, [remainder as byte]);
      PadIs(old(m_data[..m_remainder]), at, filled, m_data[..at + SC_BLOCKSIZE]);
      assert m_data[..m_remainder] == m_data[..at + SC_BLOCKSIZE][..m_remainder];
      block := m_data[at..at + SC_BLOCKSIZE];
      assert block == m_data[..at + SC_BLOCKSIZE][at..];
    }

    /** spooky_final; the state can be fed further afterwards. */
    method Final(last1: bv64, last2: bv64, short: ShortHash) returns (hash1: bv64, hash2: bv64)
      requires Valid()
      modifies m_data
      ensures Valid() && message == old(message)
      ensures (hash1, hash2) == Incremental(message, seed1, seed2, last1, last2, short)
    {
      hide Mix, BlockOf, MixAll, Blocks, EndPartial, Pad;
      if m_length < SC_BUFSIZE {
        assert message == m_data[..m_length];
        var r := short(m_data[..m_length], last1, last2);
        return r.0, r.1;
      }
      var h, at := FirstBlock(m_state);
      ghost var first, tail := m_data[..at], m_data[at..m_remainder];
      assert message == (done + first) + tail;
      BlocksJoin(done, first);
      MixAllAppend(Init(seed1, seed2), done, first);
      Rest(Init(seed1, seed2), done + first, tail);
      var block := PadStash(at);
      h := Mix(h, BlockOf(block));
      h := End(h);
      return h.s0, h.s1;
    }
  }

  lemma PadIs(p: seq<byte>, at: nat, filled: seq<byte>, final: seq<byte>)
    requires at <= |p| < at + SC_BLOCKSIZE
    requires filled == p + seq(SC_BLOCKSIZE - (|p| - at), _ => 0)
    requires final == filled[..at + SC_BLOCKSIZE - 1] + [(|p| - at) as byte]
    ensures final[..|p|] == p && final[at..] == Pad(p[at..])
  {
    var zeros: seq<byte> := seq(SC_BLOCKSIZE - 1 - (|p| - at), _ => 0);
    assert filled[..at + SC_BLOCKSIZE - 1] == p + zeros;
    assert final == p + (zeros + [(|p| - at) as byte]);
    assert final[at..] == p[at..] + zeros + [(|p| - at) as byte];
  }

  lemma Rest(s: State, taken: seq<byte>, tail: seq<byte>)
    requires Blocks(taken) && |tail| < SC_BLOCKSIZE
    ensures MixAll(s, taken + tail) == MixAll(s, taken) && Tail(taken + tail) == tail
  {
    hide Mix, BlockOf;
    MixAllAppend(s, taken, tail);
  }

  lemma NoBlocks(s: State)
    ensures Blocks([]) && MixAll(s, []) == s
  {
  }

  lemma BlocksJoin(m: seq<byte>, n: seq<byte>)
    requires Blocks(m) && Blocks(n)
    ensures Blocks(m + n)
  {
  }

  /** A stash completed to two blocks and the blocks of what follows: together, the blocks taken from the message. */
  lemma Taken(s: State, done: seq<byte>, stash: seq<byte>, blocks: seq<byte>, rest: seq<byte>)
    requires Blocks(done) && Blocks(stash) && Blocks(blocks) && |rest| < SC_BLOCKSIZE
    ensures Blocks(done + stash + blocks)
    ensures MixAll(MixAll(MixAll(s, done), stash), blocks + rest) == MixAll(s, done + stash + blocks)
  {
    hide Mix, BlockOf, MixAll;
    BlocksJoin(done, stash);
    BlocksJoin(done + stash, blocks);
    MixAllAppend(s, done, stash);
    MixAllAppend(s, done + stash, blocks);
    MixAllAppend(MixAll(s, done + stash), blocks, rest);
    FewBytes(MixAll(s, done + stash + blocks), rest);
  }

  lemma Regroup(done: seq<byte>, stash: seq<byte>, msg: seq<byte>, prefix: nat, endp: nat)
    requires prefix <= endp <= |msg|
    ensures msg[prefix..] == msg[prefix..endp] + msg[endp..]
    ensures (done + stash) + msg == (done + (stash + msg[..prefix]) + msg[prefix..endp]) + msg[endp..]
  {
  }

  lemma FewBytes(s: State, rest: seq<byte>)
    requires |rest| < SC_BLOCKSIZE
    ensures MixAll(s, rest) == s
  {
  }

  function Joined(pieces: seq<seq<byte>>): seq<byte> {
    if pieces == [] then [] else Joined(pieces[..|pieces| - 1]) + pieces[|pieces| - 1]
  }

  /** However a message is cut into pieces, feeding them in turn gives the same hash; for short messages, and seeds
      passed again, it is the one-shot hash. */
  method HashPieces(pieces: seq<seq<byte>>, seed1: bv64, seed2: bv64, short: ShortHash) returns (hash1: bv64, hash2: bv64)
    ensures (hash1, hash2) == Incremental(Joined(pieces), seed1, seed2, seed1, seed2, short)
    ensures |Joined(pieces)| < SC_BUFSIZE ==> (hash1, hash2) == OneShot(Joined(pieces), seed1, seed2, short)
  {
    hide Incremental, OneShot;
    var state := new SpookyState(seed1, seed2);
    for i := 0 to |pieces|
      invariant state.Valid() && state.message == Joined(pieces[..i]) && fresh(state.m_data) && state.seed1 == seed1 && state.seed2 == seed2
    {
      assert pieces[..i + 1][..i] == pieces[..i];
      state.Update(pieces[i]);
    }
    assert pieces[..|pieces|] == pieces;
    hash1, hash2 := state.Final(seed1, seed2, short);
    if |Joined(pieces)| < SC_BUFSIZE {
      ShortAgree(Joined(pieces), seed1, seed2, short);
    }
  }
}
