/** Reassembly of framed messages from a byte stream (src/portal/netclient.c) and the client's drain loop
    (src/tools/tsql/tsqlclient.c). */
module Framing {
  import opened Commons

  const PORT_BUFFER_SIZE := 2048
  const MSG_HEADER_LEN := 8
  const PORT_MSG_FINISH := 4

  /** A 32-bit integer as it lies in memory, low byte first. */
  function Int32(b: seq<byte>): (v: int)
    requires |b| >= 4
    ensures -0x8000_0000 <= v < 0x8000_0000
  {
    var u := (b[0] as int) + 0x100 * ((b[1] as int) + 0x100 * ((b[2] as int) + 0x100 * (b[3] as int)));
    if u < 0x8000_0000 then u else u - 0x1_0000_0000
  }

  function Bytes32(v: int): (b: seq<byte>)
    requires -0x8000_0000 <= v < 0x8000_0000
    ensures |b| == 4
  {
    var u := if v < 0 then v + 0x1_0000_0000 else v;
    var u1 := u / 0x100;
    var u2 := u1 / 0x100;
    [u % 0x100, u1 % 0x100, u2 % 0x100, u2 / 0x100]
  }

  lemma Bytes32RoundTrip(v: int, rest: seq<byte>)
    requires -0x8000_0000 <= v < 0x8000_0000
    ensures Int32(Bytes32(v) + rest) == v
  {
  }

  datatype Frame = Frame(kind: int, body: seq<byte>)

  /** A frame that ParserMsg takes. */
  predicate Sendable(f: Frame) {
    -0x8000_0000 <= f.kind < 0x8000_0000 && |f.body| < PORT_BUFFER_SIZE
  }

  function Encode(f: Frame): (b: seq<byte>)
    requires Sendable(f)
    ensures |b| == MSG_HEADER_LEN + |f.body|
  {
    Bytes32(f.kind) + Bytes32(|f.body|) + f.body
  }

  /** On the wire: the kind, then the size of the body, each with its low byte first, then the body. */
  lemma FrameBytes()
    ensures Encode(Frame(-2, seq(0x102, _ => 7))) == [0xfe, 0xff, 0xff, 0xff, 2, 1, 0, 0] + seq(0x102, _ => 7)
  {
  }

  function EncodeAll(fs: seq<Frame>): seq<byte>
    requires forall i :: 0 <= i < |fs| ==> Sendable(fs[i])
  {
    if fs == [] then [] else Encode(fs[0]) + EncodeAll(fs[1..])
  }

  function SizeField(s: seq<byte>): int
    requires |s| >= MSG_HEADER_LEN
  {
    Int32(s[4..])
  }

  /** The stream starts with a whole frame of a size that is not refused. */
  predicate Complete(s: seq<byte>) {
    |s| >= MSG_HEADER_LEN && 0 <= SizeField(s) < PORT_BUFFER_SIZE && MSG_HEADER_LEN + SizeField(s) <= |s|
  }

  function First(s: seq<byte>): Frame
    requires Complete(s)
  {
    Frame(Int32(s), s[MSG_HEADER_LEN..MSG_HEADER_LEN + SizeField(s)])
  }

  function Rest(s: seq<byte>): seq<byte>
    requires Complete(s)
  {
    s[MSG_HEADER_LEN + SizeField(s)..]
  }

  /** Every header met is well formed: sizes are neither negative nor refused. */
  predicate Sane(s: seq<byte>)
    decreases |s|
  {
    |s| >= MSG_HEADER_LEN ==> 0 <= SizeField(s) < PORT_BUFFER_SIZE && (Complete(s) ==> Sane(Rest(s)))
  }

  /** All whole frames of a stream, and what is left over. */
  function Frames(s: seq<byte>): (seq<Frame>, seq<byte>)
    decreases |s|
  {
    if !Complete(s) then ([], s)
    else
      var (fs, tail) := Frames(Rest(s));
      ([First(s)] + fs, tail)
  }

  lemma EncodeFirst(f: Frame, tail: seq<byte>)
    requires Sendable(f)
    ensures Complete(Encode(f) + tail) && First(Encode(f) + tail) == f && Rest(Encode(f) + tail) == tail
  {
  }

  /** What was encoded is read back, whatever incomplete frame follows. */
  lemma {:induction false} FramesRoundTrip(fs: seq<Frame>, tail: seq<byte>)
    requires (forall i :: 0 <= i < |fs| ==> Sendable(fs[i])) && !Complete(tail)
    ensures Frames(EncodeAll(fs) + tail) == (fs, tail)
  {
    hide Complete, Encode, First, Rest;
    if fs == [] {
      assert EncodeAll(fs) + tail == tail;
    } else {
      EncodeFirst(fs[0], EncodeAll(fs[1..]) + tail);
      assert EncodeAll(fs) + tail == Encode(fs[0]) + (EncodeAll(fs[1..]) + tail);
      FramesRoundTrip(fs[1..], tail);
      assert [fs[0]] + fs[1..] == fs;
    }
  }

  lemma CompletePrefix(s: seq<byte>, t: seq<byte>)
    requires Complete(s)
    ensures Complete(s + t) && First(s + t) == First(s) && Rest(s + t) == Rest(s) + t
  {
  }

  /** Frames found early are found later: a stream can be parsed piece by piece. */
  lemma {:induction false} FramesAppend(s: seq<byte>, t: seq<byte>)
    ensures var (fs, tail) := Frames(s);
            Frames(s + t) == (fs + Frames(tail + t).0, Frames(tail + t).1)
    decreases |s|
  {
    if Complete(s) {
      CompletePrefix(s, t);
      FramesAppend(Rest(s), t);
      var (fs, tail) := Frames(Rest(s));
      assert [First(s)] + (fs + Frames(tail + t).0) == ([First(s)] + fs) + Frames(tail + t).0;
    } else {
      assert [] + Frames(s + t).0 == Frames(s + t).0;
    }
  }

  /** What one call of ParserMsg does with what is pending and a new piece: the return value, the message handed
      over, and what is pending afterwards. */
  datatype Outcome = Outcome(ret: int, message: Option<Frame>, pending: seq<byte>)

  function Parse(pending: seq<byte>, msg: seq<byte>): Outcome {
    var total := pending + msg;
    if |total| < MSG_HEADER_LEN then Outcome(0, None, pending)
    else if SizeField(total) >= PORT_BUFFER_SIZE then
      Outcome(-1, None, if |pending| < MSG_HEADER_LEN then total[..MSG_HEADER_LEN] else pending)
    else if Complete(total) then Outcome(|First(total).body|, Some(First(total)), Rest(total))
    else Outcome(0, None, total)
  }

  /** A header below zero in size makes the original copy without bound; the smallest piece it cannot use is lost. */
  predicate Usable(pending: seq<byte>, msg: seq<byte>) {
    |pending + msg| >= MSG_HEADER_LEN ==> 0 <= SizeField(pending + msg)
  }

  /** A step keeps every byte, that is, what it hands over, encoded, and what it keeps are what it was given, exactly
      when the piece is empty, or it and the pending bytes are a bare header, or go on behind one whose size is not
      refused. */
  lemma ParseConserves(pending: seq<byte>, msg: seq<byte>)
    requires Usable(pending, msg)
    ensures var o := Parse(pending, msg);
            && (o.message.Some? ==> Sendable(o.message.value))
            && ((if o.message.Some? then Encode(o.message.value) else []) + o.pending == pending + msg <==>
                msg == [] || |pending + msg| == MSG_HEADER_LEN || (|pending + msg| > MSG_HEADER_LEN && SizeField(pending + msg) < PORT_BUFFER_SIZE))
  {
    var o, total := Parse(pending, msg), pending + msg;
    if Complete(total) {
      EncodeOfFirst(total);
    }
    assert |total| == |pending| + |msg|;
    assert [] + o.pending == o.pending;
  }

  lemma Int32Injective(b: seq<byte>, c: seq<byte>)
    requires |b| >= 4 && |c| >= 4 && Int32(b) == Int32(c)
    ensures b[..4] == c[..4]
  {
    Digits(b[3], b[2], b[1], b[0], c[3], c[2], c[1], c[0]);
  }

  /** A number has one expansion in base 256. */
  lemma Digits(b3: int, b2: int, b1: int, b0: int, c3: int, c2: int, c1: int, c0: int)
    requires 0 <= b0 < 0x100 && 0 <= b1 < 0x100 && 0 <= b2 < 0x100 && 0 <= c0 < 0x100 && 0 <= c1 < 0x100 && 0 <= c2 < 0x100
    requires b0 + 0x100 * (b1 + 0x100 * (b2 + 0x100 * b3)) == c0 + 0x100 * (c1 + 0x100 * (c2 + 0x100 * c3))
    ensures b0 == c0 && b1 == c1 && b2 == c2 && b3 == c3
  {
    assert b1 + 0x100 * (b2 + 0x100 * b3) == c1 + 0x100 * (c2 + 0x100 * c3);
    assert b2 + 0x100 * b3 == c2 + 0x100 * c3;
  }

  /** A frame encodes to the bytes it was read from. */
  lemma EncodeOfFirst(s: seq<byte>)
    requires Complete(s)
    ensures Sendable(First(s)) && Encode(First(s)) + Rest(s) == s
  {
    var f := First(s);
    EncodeFirst(f, []);
    Bytes32RoundTrip(f.kind, []);
    Bytes32RoundTrip(|f.body|, []);
    Int32Injective(Bytes32(f.kind) + [], s);
    Int32Injective(Bytes32(|f.body|) + [], s[4..]);
    var n := MSG_HEADER_LEN + SizeField(s);
    assert s == s[..4] + s[4..][..4] + s[MSG_HEADER_LEN..n] + s[n..];
  }

  /** ReadMessage of the clients: parse the new piece, then what is pending, until a call returns nothing more;
      the messages handed over, and what stays pending. */
  function Drain(pending: seq<byte>, msg: seq<byte>): (seq<Frame>, seq<byte>)
    decreases |pending| + |msg|
  {
    var o := Parse(pending, msg);
    if o.message.None? then ([], o.pending)
    else if o.message.value.kind == PORT_MSG_FINISH || o.ret <= 0 then ([o.message.value], o.pending)
    else
      var (fs, tail) := Drain(o.pending, []);
      ([o.message.value] + fs, tail)
  }

  /** A frame that does not end the loop: it is not the last of an answer, and it is not empty. */
  predicate GoesOn(f: Frame) {
    f.kind != PORT_MSG_FINISH && f.body != []
  }

  predicate Reaches(pending: seq<byte>, msg: seq<byte>) {
    msg == [] || |pending| + |msg| >= MSG_HEADER_LEN
  }

  /** Draining loses no frame; it leaves a whole frame pending only behind one that ended the loop, and only the last
      frame it hands over can be such a one. */
  lemma {:induction false} DrainKeepsFrames(pending: seq<byte>, msg: seq<byte>)
    requires Reaches(pending, msg) && Sane(pending + msg)
    ensures var (fs, tail) := Drain(pending, msg);
            && Sane(tail)
            && Frames(pending + msg) == (fs + Frames(tail).0, Frames(tail).1)
            && (Complete(tail) ==> fs != [] && !GoesOn(fs[|fs| - 1]))
            && forall i :: 0 <= i < |fs| - 1 ==> GoesOn(fs[i])
    decreases |pending| + |msg|
  {
    hide Int32;
    var o, total := Parse(pending, msg), pending + msg;
    if |total| < MSG_HEADER_LEN {
      assert total == pending;
    }
    var (fs, tail) := Drain(pending, msg);
    if o.message.None? {
      assert o.pending == total;
      assert [] + Frames(tail).0 == Frames(tail).0;
    } else if GoesOn(o.message.value) {
      assert o.pending + [] == o.pending;
      DrainKeepsFrames(o.pending, []);
      var (fs', tail') := Drain(o.pending, []);
      assert [First(total)] + (fs' + Frames(tail').0) == ([First(total)] + fs') + Frames(tail').0;
    }
  }

  /** So draining hands over all whole frames, and keeps only an incomplete one, exactly when every frame but the
      last goes on. */
  lemma DrainIsComplete(pending: seq<byte>, msg: seq<byte>)
    requires Reaches(pending, msg) && Sane(pending + msg)
    ensures var all := Frames(pending + msg).0;
            Drain(pending, msg) == Frames(pending + msg) <==> forall i :: 0 <= i < |all| - 1 ==> GoesOn(all[i])
    ensures Drain(pending, msg) == Frames(pending + msg) <==> !Complete(Drain(pending, msg).1)
  {
    DrainKeepsFrames(pending, msg);
    var (fs, tail) := Drain(pending, msg);
    var all := Frames(pending + msg).0;
    assert forall i :: 0 <= i < |fs| ==> all[i] == fs[i];
    assert fs + [] == fs;
    if Complete(tail) {
      assert !GoesOn(all[|fs| - 1]) && |all| > |fs|;
    }
  }

  /** An empty frame does end it: what follows in the same piece waits for the next read. */
  lemma EmptyFrameStops(kind: int, f: Frame)
    requires -0x8000_0000 <= kind < 0x8000_0000 && Sendable(f)
    ensures Drain([], Encode(Frame(kind, [])) + Encode(f)) == ([Frame(kind, [])], Encode(f)) && Complete(Encode(f))
  {
    var z := Frame(kind, []);
    EncodeFirst(z, Encode(f));
    EncodeFirst(f, []);
    assert Encode(f) + [] == Encode(f);
    assert [] + (Encode(z) + Encode(f)) == Encode(z) + Encode(f);
  }

  function Joined(chunks: seq<seq<byte>>): seq<byte> {
    if chunks == [] then [] else Joined(chunks[..|chunks| - 1]) + chunks[|chunks| - 1]
  }

  /** All pieces read and drained in turn. */
  function Receive(chunks: seq<seq<byte>>): (seq<Frame>, seq<byte>) {
    if chunks == [] then ([], [])
    else
      var (fs, pending) := Receive(chunks[..|chunks| - 1]);
      var (gs, tail) := Drain(pending, chunks[|chunks| - 1]);
      (fs + gs, tail)
  }

  ghost predicate AllReach(chunks: seq<seq<byte>>) {
    chunks != [] ==>
      AllReach(chunks[..|chunks| - 1]) && Reaches(Receive(chunks[..|chunks| - 1]).1, chunks[|chunks| - 1])
  }

  lemma {:induction false} SanePrefix(s: seq<byte>, t: seq<byte>)
    requires Sane(s + t)
    ensures Sane(s) && Sane(Frames(s).1 + t)
    decreases |s|
  {
    if |s| >= MSG_HEADER_LEN {
      assert (s + t)[4..] == s[4..] + t;
      assert SizeField(s + t) == SizeField(s);
      if Complete(s) {
        CompletePrefix(s, t);
        SanePrefix(Rest(s), t);
      }
    }
  }

  lemma {:induction false} SaneJoin(s: seq<byte>, t: seq<byte>)
    requires Sane(s) && Sane(Frames(s).1 + t)
    ensures Sane(s + t)
    decreases |s|
  {
    hide Int32;
    if |s| >= MSG_HEADER_LEN {
      HeaderOf(s, t);
      if Complete(s) {
        CompletePrefix(s, t);
        SaneJoin(Rest(s), t);
      }
    }
  }

  /** Over any chunking in which each piece, with what is pending, reaches a header, no frame of the stream is lost,
      repeated or reordered: its whole frames are those handed over, then those still pending. Nothing whole is
      pending unless a frame has just ended the loop. */
  lemma {:induction false} Reassembly(chunks: seq<seq<byte>>)
    requires AllReach(chunks) && Sane(Joined(chunks))
    ensures var (fs, tail) := Receive(chunks);
            && Sane(tail)
            && Frames(Joined(chunks)) == (fs + Frames(tail).0, Frames(tail).1)
            && (Complete(tail) ==> fs != [] && !GoesOn(fs[|fs| - 1]))
  {
    hide Sane, Complete, Drain, Frames, GoesOn;
    if chunks == [] {
      NothingFramed();
      assert [] + Frames([]).0 == Frames([]).0;
    } else {
      var s, t := Joined(chunks[..|chunks| - 1]), chunks[|chunks| - 1];
      var (fs, pending) := Receive(chunks[..|chunks| - 1]);
      SanePrefix(s, t);
      Reassembly(chunks[..|chunks| - 1]);
      SaneJoin(pending, t);
      DrainKeepsFrames(pending, t);
      FramesAppend(s, t);
      FramesAppend(pending, t);
      var (gs, tail) := Drain(pending, t);
      var more := Frames(Frames(pending).1 + t).0;
      assert (fs + Frames(pending).0) + more == fs + (Frames(pending).0 + more);
      assert fs + (gs + Frames(tail).0) == (fs + gs) + Frames(tail).0;
    }
  }

  lemma NothingFramed()
    ensures Sane([]) && Frames([]) == ([], []) && !Complete([])
  {
  }

  // ---------------------------------------------------------------- the end of an answer

  predicate Finishes(fs: seq<Frame>) {
    fs != [] && fs[|fs| - 1].kind == PORT_MSG_FINISH
  }

  /** What a read reports: that it received the end of an answer, or, when the piece does not complete a header and
      the message type is still that of the last read, what that one reported. */
  predicate Reports(stale: bool, pending: seq<byte>, msg: seq<byte>) {
    Finishes(Drain(pending, msg).0) || (stale && |pending| + |msg| < MSG_HEADER_LEN)
  }

  /** What the last of these reads reports. */
  predicate Finished(chunks: seq<seq<byte>>) {
    chunks != [] &&
    var before := chunks[..|chunks| - 1];
    Reports(Finished(before), Receive(before).1, chunks[|chunks| - 1])
  }

  /** Read k received the end of an answer. */
  predicate ReceivesEnd(chunks: seq<seq<byte>>, k: nat)
    requires k < |chunks|
  {
    Finishes(Drain(Receive(chunks[..k]).1, chunks[k]).0)
  }

  predicate TooShort(chunks: seq<seq<byte>>, k: nat)
    requires k < |chunks|
  {
    |Receive(chunks[..k]).1| + |chunks[k]| < MSG_HEADER_LEN
  }

  /** Read k received the end of an answer, and all pieces since were too short to complete a header. */
  ghost predicate EndsAt(chunks: seq<seq<byte>>, k: nat) {
    k < |chunks| && ReceivesEnd(chunks, k) && forall j: nat :: k < j < |chunks| ==> TooShort(chunks, j)
  }

  lemma EndsEarlier(chunks: seq<seq<byte>>, k: nat)
    requires chunks != []
    ensures var n := |chunks| - 1;
            EndsAt(chunks, k) <==> (k == n && ReceivesEnd(chunks, n)) || (k < n && EndsAt(chunks[..n], k) && TooShort(chunks, n))
  {
    var n := |chunks| - 1;
    hide ReceivesEnd, TooShort;
    assert forall j: nat :: j < n ==> ReceivesEnd(chunks[..n], j) == ReceivesEnd(chunks, j) && TooShort(chunks[..n], j) == TooShort(chunks, j) by {
      forall j: nat | j < n ensures ReceivesEnd(chunks[..n], j) == ReceivesEnd(chunks, j) && TooShort(chunks[..n], j) == TooShort(chunks, j) {
        SameRead(chunks, j);
      }
    }
  }

  lemma SameRead(chunks: seq<seq<byte>>, j: nat)
    requires j < |chunks| - 1
    ensures ReceivesEnd(chunks[..|chunks| - 1], j) == ReceivesEnd(chunks, j)
    ensures TooShort(chunks[..|chunks| - 1], j) == TooShort(chunks, j)
  {
    assert chunks[..|chunks| - 1][..j] == chunks[..j];
  }

  /** A read reports the end of an answer exactly when it received one, or an earlier one did and all pieces since
      were too short to complete a header. */
  lemma {:induction false} FinishedMeans(chunks: seq<seq<byte>>)
    ensures Finished(chunks) <==> exists k: nat :: EndsAt(chunks, k)
  {
    hide Drain, EndsAt, Receive;
    if chunks == [] {
      NeverEnds(chunks);
    } else {
      var n := |chunks| - 1;
      FinishedMeans(chunks[..n]);
      EndsEarlier(chunks, n);
      if k: nat :| EndsAt(chunks, k) {
        EndsEarlier(chunks, k);
      }
      if k: nat :| EndsAt(chunks[..n], k) {
        EndsEarlier(chunks, k);
        EndsBefore(chunks[..n], k);
      }
    }
  }

  lemma EndsBefore(chunks: seq<seq<byte>>, k: nat)
    ensures EndsAt(chunks, k) ==> k < |chunks|
  {
  }

  lemma NeverEnds(chunks: seq<seq<byte>>)
    ensures chunks == [] ==> forall k: nat :: !EndsAt(chunks, k)
  {
  }

  /** The end of one answer, and a first piece of the next that is too short: the piece is lost, and reported as the
      end of that answer. */
  lemma NextAnswerFinishes(body: seq<byte>, piece: seq<byte>)
    requires |body| < PORT_BUFFER_SIZE && 0 < |piece| < MSG_HEADER_LEN
    ensures var chunks := [Encode(Frame(PORT_MSG_FINISH, body)), piece];
            Finished(chunks) && !ReceivesEnd(chunks, 1) && Receive(chunks) == ([Frame(PORT_MSG_FINISH, body)], [])
  {
    hide Int32;
    var f := Frame(PORT_MSG_FINISH, body);
    var chunks := [Encode(f), piece];
    EncodeFirst(f, []);
    assert [] + Encode(f) == Encode(f) == Encode(f) + [];
    assert Drain([], Encode(f)) == ([f], []) && [] + [f] == [f] == [f] + [];
    assert chunks[..1] == chunks[..2][..1] && chunks[..1] == [Encode(f)];
    var none: seq<seq<byte>> := [];
    assert [Encode(f)][..0] == none;
    assert Receive(none) == ([], []);
    assert Receive([Encode(f)]) == ([f], []);
    assert Finished([Encode(f)]);
    assert Drain([], piece) == ([], []);
  }

  /** With the buffer drained after every read of at most 2048 bytes, the double buffer is never overrun. */
  lemma DrainedBufferFits(pending: seq<byte>, msg: seq<byte>)
    requires Sane(pending) && !Complete(pending) && |msg| <= PORT_BUFFER_SIZE
    ensures |pending| < MSG_HEADER_LEN + PORT_BUFFER_SIZE - 1
    ensures Sane(pending + msg) ==> |Parse(pending, msg).pending| <= 2 * PORT_BUFFER_SIZE
  {
  }

  class ClientContext {
    const restMsg: array<byte>
    var restLen: nat
    var kind: int
    var size: int
    var body: seq<byte>

    constructor ()
      ensures Valid() && Idle() && Pending() == [] && fresh(restMsg)
    {
      restMsg := new byte[2 * PORT_BUFFER_SIZE];
      restLen, kind, size, body := 0, 0, 0, [];
    }

    ghost predicate Valid()
      reads this
    {
      restMsg.Length == 2 * PORT_BUFFER_SIZE && restLen <= restMsg.Length
    }

    ghost function Pending(): seq<byte>
      requires Valid()
      reads this, restMsg
    {
      restMsg[..restLen]
    }

    /** memcpy(restMsg + restLen, bytes, n), then restLen += n. */
    method Append(bytes: seq<byte>)
      requires Valid() && restLen + |bytes| <= restMsg.Length
      modifies this`restLen, restMsg
      ensures Valid() && Pending() == old(Pending()) + bytes
    {
      forall i | 0 <= i < |bytes| {
        restMsg[restLen + i] := bytes[i];
      }
      restLen := restLen + |bytes|;
    }

    /** memcpy(restMsg, restMsg + from, restLen), where the areas may overlap. */
    method Shift(from: nat)
      requires Valid() && from + restLen <= restMsg.Length
      modifies restMsg
      ensures Valid() && Pending() == old(restMsg[from..from + restLen])
    {
      forall i | 0 <= i < restLen {
        restMsg[i] := restMsg[from + i];
      }
    }

    /** GetMsgIntValue. */
    method GetMsgIntValue(at: nat) returns (v: int)
      requires at + 4 <= restMsg.Length
      ensures v == Int32(restMsg[at..])
    {
      v := Int32(restMsg[at..at + 4]);
    }

    ghost function Message(): Frame
      reads this
    {
      Frame(kind, body)
    }

    /** The first part of ParserMsg: the pending bytes are filled up to a header. */
    method FillHeader(msg: seq<byte>) returns (msgOffset: nat)
      requires Valid() && restLen + |msg| >= MSG_HEADER_LEN
      modifies this`restLen, restMsg
      ensures Valid() && restLen >= MSG_HEADER_LEN && msgOffset <= |msg|
      ensures Pending() + msg[msgOffset..] == old(Pending()) + msg
      ensures if old(restLen) >= MSG_HEADER_LEN then Pending() == old(Pending()) else restLen == MSG_HEADER_LEN
    {
      msgOffset := 0;
      if restLen < MSG_HEADER_LEN {
        msgOffset := MSG_HEADER_LEN - restLen;
        Append(msg[..msgOffset]);
        assert msg == msg[..msgOffset] + msg[msgOffset..];
      }
    }

    /** The second part: if the pending bytes and the rest of the piece hold the whole frame, the pending bytes are
        filled up to it. */
    method FillFrame(msg: seq<byte>, from: nat) returns (msgOffset: nat, waits: bool)
      requires Valid() && restLen >= MSG_HEADER_LEN && from <= |msg| && 0 <= size < PORT_BUFFER_SIZE
      modifies this`restLen, restMsg
      ensures Valid() && from <= msgOffset <= |msg|
      ensures Pending() + msg[msgOffset..] == old(Pending()) + msg[from..]
      ensures waits <==> MSG_HEADER_LEN + size > |old(Pending()) + msg[from..]|
      ensures if waits then Pending() == old(Pending()) else restLen >= MSG_HEADER_LEN + size
    {
      msgOffset := from;
      waits := size > restLen + |msg| - msgOffset;
      if !waits && restLen - MSG_HEADER_LEN < size {
        var tmpLen := size - restLen + MSG_HEADER_LEN;
        if |msg| - msgOffset >= tmpLen {
          Append(msg[msgOffset..msgOffset + tmpLen]);
          msgOffset := msgOffset + tmpLen;
          assert msg[from..] == msg[from..msgOffset] + msg[msgOffset..];
        } else {
          waits := true;
        }
      }
    }

    method ReadHeader()
      requires Valid() && restLen >= MSG_HEADER_LEN
      modifies this`kind, this`size
      ensures kind == Int32(Pending()) && size == SizeField(Pending())
    {
      kind := GetMsgIntValue(0);
      size := GetMsgIntValue(4);
      assert restMsg[0..] == Pending() + restMsg[restLen..] && restMsg[4..] == Pending()[4..] + restMsg[restLen..];
      HeaderOf(Pending(), restMsg[restLen..]);
    }

    /** The message is copied out, and the pending bytes move up. */
    method TakeMessage()
      requires Valid() && 0 <= size && restLen >= MSG_HEADER_LEN + size
      modifies this`body, this`restLen, restMsg
      ensures Valid() && Pending() == old(Pending())[MSG_HEADER_LEN + size..]
      ensures body == old(Pending())[MSG_HEADER_LEN..MSG_HEADER_LEN + size]
    {
      body := restMsg[MSG_HEADER_LEN..MSG_HEADER_LEN + size];
      restLen := restLen - (MSG_HEADER_LEN + size);
      Shift(MSG_HEADER_LEN + size);
    }

    /** ParserMsg, where the result fits the double buffer. */
    method ParserMsg(msg: seq<byte>) returns (ret: int)
      requires Valid() && Usable(Pending(), msg) && |Parse(Pending(), msg).pending| <= restMsg.Length
      modifies this, restMsg
      ensures Valid()
      ensures var o := Parse(old(Pending()), msg);
              && ret == o.ret && Pending() == o.pending
              && (o.message.Some? ==> Message() == o.message.value && size == |body|)
              && (o.message.None? ==> body == old(body))
              && (o.message.None? && ret == 0 ==> if |old(Pending()) + msg| < MSG_HEADER_LEN then kind == old(kind) && size == old(size) else kind == size == 0)
    {
      hide Int32, Parse;
      ghost var pending, total := Pending(), Pending() + msg;
      if |msg| + restLen < MSG_HEADER_LEN {
        ParseShort(pending, msg);
        return 0;
      }
      var msgOffset := FillHeader(msg);
      HeaderOf(Pending(), msg[msgOffset..]);
      ParseLong(pending, msg, Pending());
      ReadHeader();
      if size >= PORT_BUFFER_SIZE {
        return -1;
      }
      var waits;
      msgOffset, waits := FillFrame(msg, msgOffset);
      if waits {
        kind, size := 0, 0;
      } else {
        TakenFrom(Pending(), msg[msgOffset..], total, size);
        TakeMessage();
      }
      Append(msg[msgOffset..]);
      ret := size;
    }

    /** The message is cleared, or still is the one that ended the last answer. */
    ghost predicate Idle()
      reads this
    {
      kind == PORT_MSG_FINISH || (kind == 0 && size == 0)
    }

    /** ReadMessage: what it hands to the message procedure that is not empty, and whether it takes the answer for
        finished. The message type of a finished answer stays for the next call. */
    method ReadMessage(msg: seq<byte>) returns (shown: seq<Frame>, finished: bool)
      requires Valid() && Idle() && Sane(Pending() + msg) && |Parse(Pending(), msg).pending| <= restMsg.Length
      modifies this, restMsg
      ensures Valid() && Idle()
      ensures var (fs, tail) := Drain(old(Pending()), msg);
              && Pending() == tail
              && shown == if fs != [] && !GoesOn(fs[|fs| - 1]) then fs[..|fs| - 1] else fs
      ensures finished == Reports(old(kind) == PORT_MSG_FINISH, old(Pending()), msg)
      ensures finished <==> kind == PORT_MSG_FINISH
    {
      hide Int32, Parse, Drain, Sane, Finishes;
      shown, finished := [], false;
      var message := msg;
      assert [] + Drain(Pending(), msg).0 == Drain(Pending(), msg).0;
      while true
        invariant forall i :: 0 <= i < |shown| ==> GoesOn(shown[i])
        invariant Valid() && Idle() && !finished && Sane(Pending() + message) && |Parse(Pending(), message).pending| <= restMsg.Length
        invariant kind == PORT_MSG_FINISH ==> old(kind) == PORT_MSG_FINISH && shown == [] && message == msg && Pending() == old(Pending())
        invariant kind == 0 && old(kind) == PORT_MSG_FINISH ==> |old(Pending())| + |msg| >= MSG_HEADER_LEN
        invariant Drain(old(Pending()), msg) == (shown + Drain(Pending(), message).0, Drain(Pending(), message).1)
        decreases |Pending()| + |message|
      {
        ghost var pending := Pending();
        ghost var before, o := shown, Parse(pending, message);
        DrainStep(pending, message);
        var ret := ParserMsg(message);
        ghost var last := if o.message.Some? && !GoesOn(o.message.value) then o.message else None;
        if kind == PORT_MSG_FINISH {
          finished := true;
          DrainEnds(shown, last);
          break;
        }
        if size > 0 {
          shown := shown + [Frame(kind, body)];
          assert o.message == Some(Frame(kind, body));
          assert before + ([Frame(kind, body)] + Drain(o.pending, []).0) == shown + Drain(o.pending, []).0;
        }
        kind, size := 0, 0;
        message := [];
        if ret <= 0 {
          DrainEnds(shown, last);
          break;
        }
      }
    }
  }

  /** What a drain has handed over when its loop ends: frames that go on, and perhaps one that does not. */
  lemma DrainEnds(shown: seq<Frame>, last: Option<Frame>)
    requires (forall i :: 0 <= i < |shown| ==> GoesOn(shown[i])) && (last.Some? ==> !GoesOn(last.value))
    ensures var fs := shown + if last.Some? then [last.value] else [];
            && shown == (if fs != [] && !GoesOn(fs[|fs| - 1]) then fs[..|fs| - 1] else fs)
            && (Finishes(fs) <==> last.Some? && last.value.kind == PORT_MSG_FINISH)
  {
  }

  /** One turn of the drain loop. */
  lemma DrainStep(pending: seq<byte>, msg: seq<byte>)
    requires Sane(pending + msg)
    ensures var o := Parse(pending, msg);
            && Usable(pending, msg) && o.ret >= 0
            && (o.message.None? ==> o.ret == 0 && Drain(pending, msg) == ([], o.pending))
            && (o.message.Some? ==> o.ret == |o.message.value.body| && |o.pending| < |pending| + |msg| && MSG_HEADER_LEN <= |pending| + |msg|)
            && (o.message.Some? && !GoesOn(o.message.value) ==> Drain(pending, msg) == ([o.message.value], o.pending))
            && (o.message.Some? && GoesOn(o.message.value) ==>
                  Drain(pending, msg) == ([o.message.value] + Drain(o.pending, []).0, Drain(o.pending, []).1)
                  && Sane(o.pending + []) && |Parse(o.pending, []).pending| <= |o.pending|)
  {
    hide Int32;
    var o := Parse(pending, msg);
    assert o.pending + [] == o.pending;
  }

  lemma ParseShort(pending: seq<byte>, msg: seq<byte>)
    requires |pending| + |msg| < MSG_HEADER_LEN
    ensures Parse(pending, msg) == Outcome(0, None, pending)
  {
  }

  /** The outcome, once the header has been filled. */
  lemma ParseLong(pending: seq<byte>, msg: seq<byte>, p: seq<byte>)
    requires var total := pending + msg;
             |total| >= MSG_HEADER_LEN && 0 <= SizeField(total) && p <= total
             && if |pending| >= MSG_HEADER_LEN then p == pending else |p| == MSG_HEADER_LEN
    ensures var total := pending + msg;
            Parse(pending, msg) ==
              if SizeField(total) >= PORT_BUFFER_SIZE then Outcome(-1, None, p)
              else if MSG_HEADER_LEN + SizeField(total) <= |total| then Outcome(SizeField(total), Some(First(total)), Rest(total))
              else Outcome(0, None, total)
  {
  }

  lemma TakenFrom(p: seq<byte>, m: seq<byte>, total: seq<byte>, size: nat)
    requires total == p + m && MSG_HEADER_LEN + size <= |p|
    ensures p[MSG_HEADER_LEN + size..] + m == total[MSG_HEADER_LEN + size..]
    ensures p[MSG_HEADER_LEN..MSG_HEADER_LEN + size] == total[MSG_HEADER_LEN..MSG_HEADER_LEN + size]
  {
  }

  /** Both header fields lie in the bytes that are pending already. */
  lemma HeaderOf(s: seq<byte>, t: seq<byte>)
    requires |s| >= MSG_HEADER_LEN
    ensures Int32(s + t) == Int32(s) && Int32(s[4..] + t) == Int32(s[4..]) && SizeField(s + t) == Int32(s[4..])
  {
  }
}
