/** Frames over compressed packets: the sending queue, the receive buffer the packet is parked in, and the
    end-to-end guarantee. */
module Compressed {
  import opened Bytes
  import opened HashTable
  import opened Tokens
  import opened ControlWord
  import opened Matcher
  import opened Reader
  import opened Packet
  import opened Compress
  import opened Decompress
  import opened Stream
  import Varint
  import opened Framing

  function QlzFormula(i: nat): nat { i + i / 8 + 400 }

  // ---- the output queue as a value ----

  /** Packets produced and not yet acknowledged, and how many of the bytes were handed out. */
  datatype Queue = Queue(bytes: seq<byte>, handed: nat)

  function Push(q: Queue, p: seq<byte>): Queue { q.(bytes := q.bytes + p) }

  function HandOut(q: Queue): Queue { q.(handed := |q.bytes|) }

  function Acknowledge(q: Queue, n: nat): Queue { Queue(q.bytes[Min(n, |q.bytes|)..], 0) }

  /** Everything produced is what was handed out so far followed by what waits: no byte lost, repeated
      or out of order. */
  predicate InOrder(q: Queue, made: seq<byte>, out: seq<byte>)
  {
    q.handed <= |q.bytes| && made == out + q.bytes[q.handed..]
  }

  lemma PushInOrder(q: Queue, made: seq<byte>, out: seq<byte>, p: seq<byte>)
    requires InOrder(q, made, out)
    ensures InOrder(Push(q, p), made + p, out)
  {
    Assoc(out, q.bytes[q.handed..], p);
    assert (q.bytes + p)[q.handed..] == q.bytes[q.handed..] + p;
  }

  /** An acknowledgement keeps the order exactly when it is for the bytes handed out. */
  lemma AcknowledgeExactly(q: Queue, made: seq<byte>, out: seq<byte>, n: nat)
    requires InOrder(q, made, out)
    ensures InOrder(Acknowledge(q, n), made, out) <==> Min(n, |q.bytes|) == q.handed
  {
    var r := Acknowledge(q, n);
    assert r.bytes[0..] == r.bytes;
    if InOrder(r, made, out) { assert |out| + |r.bytes| == |out| + |q.bytes| - q.handed; }
  }

  class BufferCompressed {
    const sz: nat
    const send: SendBuffer
    const recv: ReceiveBuffer
    const comp: CompressState
    const decomp: DecompressState
    const sendBuf: array<byte>
    const compBuf: array<byte>
    const recBuf: array<byte>
    var compressedStart: int
    var compIndex: nat
    var bytesSent: nat
    ghost var made: seq<byte>
    ghost var out: seq<byte>

    /** The parts are set up and do not share memory. */
    ghost predicate Wired()
    {
      && send.buf == sendBuf && recv.rbuf == recBuf && recv.z == send.z == 4
      && sendBuf.Length == recBuf.Length == sz && compBuf.Length == QlzFormula(sz) && sz < 0x8000_0000
      && comp.Valid() && decomp.streamBuffer.Length == STREAM
      && sendBuf != recBuf && sendBuf != compBuf && recBuf != compBuf
      && Apart(comp, sendBuf) && Apart(comp, compBuf) && Apart(comp, recBuf) && Apart(comp, decomp.streamBuffer)
      && decomp.streamBuffer != sendBuf && decomp.streamBuffer != compBuf && decomp.streamBuffer != recBuf
    }

    /** The sending half: frames being collected, packets queued behind those already handed out. */
    ghost predicate SendOk()
      reads this, send, sendBuf, comp, comp.streamBuffer, comp.slots, comp.counts
    {
      Wired() && send.Valid() && Ready(comp) && bytesSent <= compIndex <= QlzFormula(sz)
    }

    ghost function Waiting(): Queue
      requires Wired() && compIndex <= QlzFormula(sz)
      reads this, compBuf
    {
      Queue(compBuf[..compIndex], bytesSent)
    }

    ghost predicate Fifo()
      requires Wired() && compIndex <= QlzFormula(sz)
      reads this, compBuf
    {
      InOrder(Waiting(), made, out)
    }

    constructor (sz: nat)
      requires sz < 0x8000_0000
      ensures SendOk() && Fifo() && this.sz == sz && made == out == [] && send.frames == [] && send.index == 0
      ensures decomp.Valid() && decomp.History() == [] && AsSender(comp).stream == []
      ensures compBuf.Length == sz + sz / 8 + 400 && recBuf.Length == sendBuf.Length == sz
    {
      var a, b, c := new byte[sz](i => 0), new byte[QlzFormula(sz)](i => 0), new byte[sz](i => 0);
      assert Pow256(4) == 0x1_0000_0000;
      var s := new SendBuffer(a, 4);
      var r := new ReceiveBuffer(c, 4);
      var st := new CompressState();
      var dt := new DecompressState();
      NothingTrusted(st.View(), 0);
      this.sz := sz;
      sendBuf, compBuf, recBuf, send, recv, comp, decomp := a, b, c, s, r, st, dt;
      compressedStart, compIndex, bytesSent, made, out := 0, 0, 0, [], [];
    }

    /** Compresses what was collected behind the queue. */
    method Enqueue() returns (ghost pad: seq<byte>)
      requires SendOk() && Fifo() && QlzFormula(send.index) <= QlzFormula(sz) - compIndex && 0 < send.index
      modifies `compIndex, `made, compBuf, comp, comp.streamBuffer, comp.slots, comp.counts
      ensures SendOk() && Fifo() && compIndex >= old(compIndex)
      ensures
        var c, msg := old(AsSender(comp)), sendBuf[..send.index];
        var p := PacketOf(c, msg, pad);
        && |pad| == PadSize(c, msg) && made == old(made) + p && Waiting() == Push(old(Waiting()), p)
        && AsSender(comp) == After(c, msg)
    {
      hide After, PacketOf, PadSize, SenderOk, IsFrame, Concat, InOrder;
      ghost var c, msg, q := AsSender(comp), sendBuf[..send.index], Waiting();
      var r;
      r, pad := QlzCompress(sendBuf, send.index, compBuf, compIndex, comp);
      ghost var p := PacketOf(c, msg, pad);
      assert compBuf[..compIndex + r] == q.bytes + p;
      PushInOrder(q, made, out, p);
      made := made + p;
      compIndex := compIndex + r;
    }

    /** Packs the collected frames into one packet and queues it; refused, dropping the frames, when the
        worst case might not fit. */
    method CompressFrames() returns (ok: bool, ghost pad: seq<byte>)
      requires SendOk() && Fifo()
      modifies this, send, compBuf, comp, comp.streamBuffer, comp.slots, comp.counts
      ensures SendOk() && Fifo() && send.frames == [] && send.index == send.savedSize == 0 && out == old(out)
      ensures ok <==> old(send.index) + old(send.index) / 8 + 400 <= sz + sz / 8 + 400 - old(compIndex)
      ensures !ok || old(send.index) == 0 ==>
        made == old(made) && Waiting() == old(Waiting()) && AsSender(comp) == old(AsSender(comp))
      ensures ok && old(send.index) > 0 ==>
        var c, msg := old(AsSender(comp)), old(sendBuf[..send.index]);
        && AsSender(comp) == After(c, msg) && |pad| == PadSize(c, msg)
        && made == old(made) + PacketOf(c, msg, pad) && Waiting() == Push(old(Waiting()), PacketOf(c, msg, pad))
      ensures old(send.index) == old(send.savedSize) ==> old(sendBuf[..send.index]) == Concat(old(send.frames))
      ensures bytesSent == old(bytesSent) && compIndex >= old(compIndex)
    {
      hide After, PacketOf, PadSize, SenderOk, IsFrame, Concat;
      pad := [];
      ok := QlzFormula(send.index) <= QlzFormula(sz) - compIndex;
      if ok && send.index > 0 {
        pad := Enqueue();
      }
      send.Reset();
    }

    /** The span of bytes to send next. */
    method OutDuo() returns (at: nat, len: nat)
      requires SendOk() && Fifo()
      modifies `bytesSent, `out
      ensures SendOk() && Fifo() && made == old(made)
      ensures at == old(bytesSent) && at + len == compIndex && out == old(out) + compBuf[at..at + len]
      ensures out == made && Waiting() == HandOut(old(Waiting()))
    {
      at, len := bytesSent, compIndex - bytesSent;
      out := out + compBuf[bytesSent..compIndex];
      bytesSent := compIndex;
    }

    /** Drops acknowledged bytes from the front. The queue stays in step with what was handed out exactly
        when the acknowledged bytes are those handed out. */
    method AdjustFrame(bytes: nat)
      requires SendOk() && Fifo()
      modifies `bytesSent, `compIndex, compBuf
      ensures SendOk() && Waiting() == Acknowledge(old(Waiting()), bytes)
      ensures Fifo() <==> Min(bytes, old(compIndex)) == old(bytesSent)
    {
      ghost var q := Waiting();
      AcknowledgeExactly(q, made, out, bytes);
      hide InOrder, IsFrame, Concat;
      bytesSent := 0;
      compIndex := if compIndex < bytes then 0 else compIndex - bytes;
      if compIndex > 0 {
        forall i | 0 <= i < compIndex { compBuf[i] := compBuf[bytes + i]; }
      }
      assert compBuf[..compIndex] == q.bytes[Min(bytes, |q.bytes|)..];
    }

    /** Sends everything in the buffer at once. Exactly when nothing of it had been handed out before, each byte
        goes out once and the queue is usable afterwards. */
    method Flush() returns (bytes: seq<byte>)
      requires SendOk() && Fifo()
      modifies `compIndex, `out
      ensures bytes == compBuf[..old(compIndex)] && out == old(out) + bytes && compIndex == 0
      ensures SendOk() <==> old(bytesSent) == 0
      ensures old(bytesSent) == 0 ==> Fifo() && out == made
      ensures old(bytesSent) > 0 ==> |out| > |made|
    {
      bytes := compBuf[..compIndex];
      assert bytes[0..] == bytes;
      out := out + bytes;
      compIndex := 0;
    }

    // ---- receiving ----

    ghost predicate RecvOk()
      reads this, decomp
    {
      Wired() && decomp.Valid()
    }

    /** With the first nine bytes in place: where the rest of the packet goes, at the end of the buffer.
        None is the exception for a packet or message larger than the buffer. The packet's size is read into an
        int; the span lies in the buffer exactly when that is not below nine. */
    method GotHdr() returns (span: Option<(int, nat)>)
      requires RecvOk() && 9 <= sz
      modifies `compressedStart
      ensures RecvOk() && span == BodySpan(recBuf[..9], sz)
      ensures var n := PacketInt(recBuf[..9]);
        span.Some? ==> compressedStart == sz - n
                       && (span.value.0 + span.value.1 <= sz <==> 9 <= n)
    {
      hide PacketInt, SizeDecompressed;
      var h := recBuf[..9];
      var n := PacketInt(h);
      if n > sz || SizeDecompressed(h) > sz { return None; }
      compressedStart := sz - n;
      span := Some((compressedStart + 9, if n < 9 then n - 9 + TWO64 else n - 9));
    }

    /** The packet as it lies in the buffer: header in front, the rest parked at the end. */
    ghost function Parked(): seq<byte>
      requires Wired() && 9 <= sz && 0 <= compressedStart <= sz - 9
      reads this, recBuf
    {
      recBuf[..9] + recBuf[compressedStart + 9..]
    }

    /** Moves the header to its packet and decompresses the packet onto the front of the same buffer, then
        starts the walk over the message, which stays inside it exactly when it is made of frames. */
    method Decompress() returns (more: bool)
      requires RecvOk() && 9 <= sz && 0 <= compressedStart <= sz - 9
      requires Acceptable(decomp.History(), Parked()) && RoomInPlace(decomp.streamCounter, Parked(), sz)
      requires SizeDecompressed(Parked()) <= sz
      modifies recBuf, decomp, decomp.streamBuffer, recv
      ensures RecvOk() && more
      ensures var h, p := old(decomp.History()), old(Parked());
        && decomp.History() == ReceiverAfter(h, p)
        && recBuf[..SizeDecompressed(p)] == Decode(h, p) && recv.packetLength == SizeDecompressed(p)
        && (recv.Open() <==> Split(4, Decode(h, p)).Some?)
        && (recv.Open() ==> [recv.Current()] + recv.Pending() == Split(4, Decode(h, p)).value)
    {
      hide Decode, ReceiverAfter, RoomInPlace, SizeDecompressed, SizeCompressed, Split, IsCompressed, HeaderSize,
          WellFormed;
      ghost var p := Parked();
      forall i | 0 <= i < 9 { recBuf[compressedStart + i] := recBuf[i]; }
      assert recBuf[compressedStart..sz] == p;
      var d := QlzDecompress(recBuf, compressedStart, sz, recBuf, decomp);
      more := recv.Update(d);
    }

    /** Receives one packet: its first nine bytes, then the rest to where they say. None is the exception. */
    method GotPacket(wire: seq<byte>) returns (r: Option<bool>)
      requires RecvOk() && 9 <= sz && Acceptable(decomp.History(), wire) && SizeCompressed(wire) < 0x8000_0000
      requires |wire| <= sz && SizeDecompressed(wire) <= sz ==> RoomInPlace(decomp.streamCounter, wire, sz)
      modifies this`compressedStart, recBuf, decomp, decomp.streamBuffer, recv
      ensures RecvOk()
      ensures var h := old(decomp.History());
        if |wire| > sz || SizeDecompressed(wire) > sz then r == None && decomp.History() == h
        else r.Some? && decomp.History() == ReceiverAfter(h, wire)
             && recBuf[..SizeDecompressed(wire)] == Decode(h, wire)
             && (recv.Open() <==> Split(4, Decode(h, wire)).Some?)
             && (recv.Open() ==> [recv.Current()] + recv.Pending() == Split(4, Decode(h, wire)).value)
    {
      hide Decode, ReceiverAfter, RoomInPlace, SizeDecompressed, SizeCompressed, Split, IsCompressed, HeaderSize,
          WellFormed;
      forall i | 0 <= i < 9 { recBuf[i] := wire[i]; }
      assert recBuf[..9] == wire[..9];
      NineBytesSuffice(wire);
      var span := GotHdr();
      if span.None? { return None; }
      var (at, n) := span.value;
      forall i | 0 <= i < n { recBuf[at + i] := wire[9 + i]; }
      assert recBuf[..9] == wire[..9] && recBuf[compressedStart + 9..] == wire[9..];
      assert Parked() == wire;
      var more := Decompress();
      r := Some(more);
    }

    /** Everything but the buffers' contents as constructed. */
    method CompressedReset()
      requires Wired() && send.Valid() && Ready(comp) && decomp.Valid()
      modifies this, send, comp, comp.slots, comp.counts, decomp
      ensures SendOk() && Fifo() && RecvOk() && made == out == [] && Waiting() == Queue([], 0)
      ensures send.frames == [] && send.index == send.savedSize == 0
      ensures decomp.History() == [] && AsSender(comp) == Fresh()
    {
      send.Reset();
      forall i | 0 <= i < 65536 { comp.slots[i] := 0; }
      forall i | 0 <= i < 4096 { comp.counts[i] := 0; }
      comp.streamCounter := 0;
      decomp.streamCounter := 0;
      compIndex, bytesSent, made, out := 0, 0, [], [];
      NothingTrusted(comp.View(), 0);
    }
  }

  /** Adds one frame to those being collected. */
  method Collect(b: BufferCompressed, payload: seq<byte>)
    requires b.SendOk() && b.Fifo() && b.send.index == b.send.savedSize && b.send.index + 4 + |payload| <= b.sz
    modifies b.send, b.sendBuf
    ensures b.SendOk() && b.Fifo() && b.send.index == b.send.savedSize == old(b.send.index) + 4 + |payload|
    ensures b.Waiting() == old(b.Waiting()) && AsSender(b.comp) == old(AsSender(b.comp))
    ensures b.send.frames == old(b.send.frames) + [Frame(4, [], payload)]
  {
    hide IsFrame, SenderOk, InOrder, Le;
    var room := b.sz - b.send.index;
    MarshalExactly(0, [payload], 4, room, b.sz);
    OnePiece(payload);
    ghost var f := Frame(4, [], payload);
    ConcatAppend(b.send.frames, f);
    hide Concat, MarshalFate;
    var r := b.send.Marshal([], [payload], b.sz);
  }

  lemma OnePiece(p: seq<byte>)
    ensures Concat([p]) == p
  {
  }

  function Frames(payloads: seq<seq<byte>>): (fs: seq<seq<byte>>)
    ensures |fs| == |payloads|
  {
    if payloads == [] then [] else Frames(payloads[..|payloads| - 1]) + [Frame(4, [], payloads[|payloads| - 1])]
  }

  lemma {:induction false} FramesGrow(payloads: seq<seq<byte>>, k: nat)
    requires k <= |payloads|
    ensures |Concat(Frames(payloads[..k]))| <= |Concat(Frames(payloads))|
    decreases |payloads| - k
  {
    if k < |payloads| {
      NextFrame(payloads, k);
      FramesGrow(payloads, k + 1);
    } else {
      assert payloads[..k] == payloads;
    }
  }

  lemma NextFrame(payloads: seq<seq<byte>>, k: nat)
    requires k < |payloads|
    ensures Frames(payloads[..k + 1]) == Frames(payloads[..k]) + [Frame(4, [], payloads[k])]
    ensures |Concat(Frames(payloads[..k + 1]))| == |Concat(Frames(payloads[..k]))| + 4 + |payloads[k]|
  {
    assert payloads[..k + 1][..k] == payloads[..k];
    ConcatAppend(Frames(payloads[..k]), Frame(4, [], payloads[k]));
  }

  lemma OneFrame(payload: seq<byte>)
    ensures |Concat(Frames([payload]))| == 4 + |payload|
  {
    NextFrame([payload], 0);
    assert [payload][..0] == [] && [payload][..1] == [payload] && Frames([]) == [] && Concat([]) == [];
  }

  method CollectAll(b: BufferCompressed, payloads: seq<seq<byte>>)
    requires b.SendOk() && b.Fifo() && b.send.frames == [] && b.send.index == b.send.savedSize == 0
    requires |Concat(Frames(payloads))| <= b.sz
    modifies b.send, b.sendBuf
    ensures b.SendOk() && b.Fifo() && b.send.index == b.send.savedSize && b.send.frames == Frames(payloads)
    ensures b.Waiting() == old(b.Waiting()) && AsSender(b.comp) == old(AsSender(b.comp))
    ensures b.sendBuf[..b.send.index] == Concat(Frames(payloads))
  {
    hide SenderOk, IsFrame, Frame, Concat, Frames, InOrder;
    ghost var c, q := AsSender(b.comp), b.Waiting();
    var k := 0;
    assert payloads[..0] == [] && Frames([]) == [];
    while k < |payloads|
      invariant 0 <= k <= |payloads| && b.SendOk() && b.Fifo() && b.Waiting() == q && AsSender(b.comp) == c
      invariant b.send.frames == Frames(payloads[..k]) && b.send.index == b.send.savedSize
      modifies b.send, b.sendBuf
    {
      NextFrame(payloads, k);
      FramesGrow(payloads, k + 1);
      Collect(b, payloads[k]);
      k := k + 1;
    }
    assert payloads[..k] == payloads;
  }

  /** Collects frames, packs them and hands the packet out. */
  method SendBatch(b: BufferCompressed, payloads: seq<seq<byte>>) returns (at: nat, len: nat, ghost pad: seq<byte>)
    requires b.SendOk() && b.Fifo() && b.bytesSent == b.compIndex && b.send.frames == []
    requires b.send.index == b.send.savedSize == 0
    requires var n := |Concat(Frames(payloads))|; 0 < n <= b.sz && QlzFormula(n) <= QlzFormula(b.sz) - b.compIndex
    modifies b, b.send, b.sendBuf, b.compBuf, b.comp, b.comp.streamBuffer, b.comp.slots, b.comp.counts
    ensures b.SendOk() && b.Fifo() && b.bytesSent == b.compIndex && b.send.frames == []
    ensures b.send.index == b.send.savedSize == 0
    ensures var c, msg := old(AsSender(b.comp)), Concat(Frames(payloads));
      var p := PacketOf(c, msg, pad);
      && |pad| == PadSize(c, msg) && at == old(b.compIndex) && len == |p| && 9 <= |p| <= QlzFormula(|msg|)
      && b.made == old(b.made) + p && b.out == b.made && b.Waiting() == HandOut(Push(old(b.Waiting()), p))
      && b.compBuf[at..at + len] == p && AsSender(b.comp) == After(c, msg)
  {
    hide PacketOf, After, PadSize, SenderOk, IsFrame, Frame, Outcome, Concat, Frames, InOrder;
    ghost var c, msg, q := AsSender(b.comp), Concat(Frames(payloads)), b.Waiting();
    CollectAll(b, payloads);
    var ok;
    ok, pad := b.CompressFrames();
    ghost var p := PacketOf(c, msg, pad);
    assert b.Waiting() == Push(q, p) && AsSender(b.comp) == After(c, msg);
    assert |p| <= QlzFormula(|msg|) by { HeaderFaithful(c, msg, pad); }
    assert 9 <= |p| by { HeaderFaithful(c, msg, pad); }
    NewlyQueued(b.compBuf, q.bytes, p, b.compIndex);
    hide QlzFormula, Push, HandOut, AsSender;
    at, len := b.OutDuo();
  }

  lemma NewlyQueued(a: array<byte>, was: seq<byte>, p: seq<byte>, e: nat)
    requires e <= a.Length && a[..e] == was + p
    ensures a[|was|..e] == p
  {
  }

  /** A real run that breaks the order: a second packet is handed out before the first is acknowledged. What
      then waits to be handed out is the second packet again. */
  method AcknowledgedEarly(b: BufferCompressed, first: seq<byte>, second: seq<byte>) returns (again: seq<byte>)
    requires b.SendOk() && b.Fifo() && b.Waiting() == Queue([], 0) && b.send.index == b.send.savedSize == 0
    requires b.send.frames == [] && 2 * (|first| + |second|) + 1000 <= b.sz
    modifies b, b.send, b.sendBuf, b.compBuf, b.comp, b.comp.streamBuffer, b.comp.slots, b.comp.counts
    ensures b.SendOk() && !b.Fifo() && b.Waiting() == Queue(again, 0) && b.out == b.made
    ensures again != [] && |again| <= |b.out| && b.out[|b.out| - |again|..] == again
  {
    hide PacketOf, After, PadSize, SenderOk, IsFrame, Frame, Outcome, Concat, Frames;
    OneFrame(first);
    OneFrame(second);
    var at, n, pad := SendBatch(b, [first]);
    ghost var p := b.made;
    var at', n', pad' := SendBatch(b, [second]);
    again := b.compBuf[at'..at' + n'];
    b.AdjustFrame(n);
  }

  lemma SizeIsWord(h: seq<byte>)
    requires |h| >= 9
    ensures SizeCompressed(h) < 0x1_0000_0000
  {
    PeekBound(h[1..], FieldWidth(h));
    Pow256Four();
  }

  /** The size of a packet, as the `int` it is read into. */
  function PacketInt(h: seq<byte>): Varint.int32
    requires |h| >= 9
  {
    SizeIsWord(h);
    Varint.ToSigned(SizeCompressed(h))
  }

  /** Where the body of a packet with this header goes in a buffer of size `sz`; None for the exception. */
  function BodySpan(h: seq<byte>, sz: nat): Option<(int, nat)>
    requires |h| >= 9
  {
    var n := PacketInt(h);
    if n > sz || SizeDecompressed(h) > sz then None
    else Some((sz - n + 9, if n < 9 then n - 9 + TWO64 else n - 9))
  }

  /** A sender that has sent nothing: no history, and a table whose slots are all empty and not trusted. */
  ghost function Fresh(): Sender { Sender([], Table(seq(65536, i => 0), seq(4096, i => 0))) }

  lemma NothingTrusted(t: Table, s: nat)
    requires t.count == seq(4096, i => 0)
    ensures Before(t, s)
  {
    assert forall h :: 0 <= h < BUCKETS ==> Trusted(t, h) == 0;
  }

  // ---- end to end ----

  /** With this much room the receive buffer takes any packet for the message, and there is room to decompress
      it in place unless it is a stored one that bypasses the history; that one needs half the buffer. */
  predicate Margin(size: nat, sz: nat) { 0 < size && size + 4 * (size / 31) + 16 <= sz < 0x8000_0000 }

  lemma PacketLength(c: Sender, msg: seq<byte>, pad: seq<byte>)
    requires 0 < |msg| <= MAX_SIZE && |pad| == PadSize(c, msg)
    ensures |PacketOf(c, msg, pad)| <= |msg| + 4 * (|msg| / 31) + 16
  {
    hide Run, Spans, Header;
    PaddingSmall(c, msg);
    if Outcome(c, msg).Packed? {
      var toks := Outcome(c, msg).toks;
      TokensFor(c, msg, toks);
      EmitLength(toks, 0);
      assert WordsFor(|toks|, 0) <= (|msg| + 30) / 31 <= |msg| / 31 + 1;
    }
  }

  lemma TokensFor(c: Sender, msg: seq<byte>, toks: seq<Token>)
    requires Outcome(c, msg).Packed? && toks == Outcome(c, msg).toks
    ensures |toks| <= Spans(toks) == |msg|
    ensures var h := |History(c.stream, |msg|)|; Legal(toks, h, h + |msg|)
  {
    hide Run, Legal, Expand, Reset, Spans;
    var h := History(c.stream, |msg|);
    var t := if StartsOver(|c.stream|, |msg|) then Reset(c.table) else c.table;
    assert h + msg == if StartsOver(|c.stream|, |msg|) then msg else c.stream + msg;
    RunSound(h + msg, |h|, |h|, t, []);
    assert toks[0..] == toks;
    LegalSpans(toks, |h|, |h| + |msg|);
  }

  lemma BodyParses(c: Sender, msg: seq<byte>, pad: seq<byte>)
    requires Outcome(c, msg).Packed?
    ensures Parse(BodyOf(c, msg) + pad, 1, |msg|) == Some(Outcome(c, msg).toks)
  {
    hide Run, Parse, Emit, Outcome;
    var toks := Outcome(c, msg).toks;
    TokensFor(c, msg, toks);
    ParseEmit(toks, 0, pad);
  }

  /** For every packet the size test lets through: when it can be decompressed where it is parked, by its tokens. */
  lemma FitsInPlace(c: Sender, msg: seq<byte>, pad: seq<byte>, sz: nat)
    requires 0 < |msg| <= sz < 0x8000_0000 && |pad| == PadSize(c, msg) && |PacketOf(c, msg, pad)| <= sz
    ensures var p := PacketOf(c, msg, pad);
      && 9 <= |p| && SizeCompressed(p) == |p| && SizeDecompressed(p) == |msg|
      && (RoomInPlace(|c.stream|, p, sz) <==>
          (StartsOver(|c.stream|, |msg|) ==>
             if Outcome(c, msg).GaveUp? then 2 * |msg| <= sz
             else InFront(Outcome(c, msg).toks, 0, sz - |BodyOf(c, msg) + pad|)))
  {
    hide Run, Emit, Outcome, SizeCompressed, SizeDecompressed, HeaderSize, IsCompressed, Header, InFront, Parse;
    HeaderFaithful(c, msg, pad);
    if Outcome(c, msg).Packed? { BodyParses(c, msg, pad); }
  }

  /** A stored packet for more than half the buffer that bypasses the history would be copied onto itself: the
      receiving end only compares sizes, so it takes the packet. */
  lemma StoredOverlap(c: Sender, msg: seq<byte>, sz: nat)
    requires StartsOver(|c.stream|, |msg|) && Outcome(c, msg).GaveUp? && |msg| <= MAX_SIZE
    requires Base(|msg|) + |msg| <= sz < 0x8000_0000 && sz < 2 * |msg|
    ensures var p := PacketOf(c, msg, []);
      9 <= |p| <= sz && BodySpan(p, sz).Some? && !RoomInPlace(|c.stream|, p, sz)
  {
    hide Run, SizeCompressed, SizeDecompressed, Header, RoomInPlace;
    FitsInPlace(c, msg, [], sz);
  }

  /** With the margin every packet is let through, and only stored ones that bypass the history lack room. */
  lemma MarginSuffices(c: Sender, msg: seq<byte>, pad: seq<byte>, sz: nat)
    requires Margin(|msg|, sz) && |pad| == PadSize(c, msg)
    ensures var p := PacketOf(c, msg, pad);
      && 9 <= |p| <= sz && SizeCompressed(p) == |p| && SizeDecompressed(p) == |msg| <= sz
      && (RoomInPlace(|c.stream|, p, sz) <==>
          (StartsOver(|c.stream|, |msg|) && Outcome(c, msg).GaveUp? ==> 2 * |msg| <= sz))
  {
    hide Run, Emit, Outcome, SizeCompressed, SizeDecompressed, HeaderSize, IsCompressed, Header, RoomInPlace, PacketOf,
        InFront;
    PacketLength(c, msg, pad);
    FitsInPlace(c, msg, pad, sz);
    if StartsOver(|c.stream|, |msg|) && Outcome(c, msg).Packed? { MarginIsRoom(c, msg, pad, sz); }
  }

  lemma MarginIsRoom(c: Sender, msg: seq<byte>, pad: seq<byte>, sz: nat)
    requires Margin(|msg|, sz) && |pad| == PadSize(c, msg)
    requires StartsOver(|c.stream|, |msg|) && Outcome(c, msg).Packed?
    ensures InFront(Outcome(c, msg).toks, 0, sz - |BodyOf(c, msg) + pad|)
  {
    hide Run, Outcome, PadSize, InFront, Legal, Emit;
    var toks := Outcome(c, msg).toks;
    PacketLength(c, msg, pad);
    PaddingSmall(c, msg);
    TokensFor(c, msg, toks);
    SizeIsRoom(sz - |BodyOf(c, msg) + pad|, sz - |pad|, toks, 0, 0, |msg|, |msg|);
  }

  /** What a receive buffer of size `sz` delivers packet by packet: None where it would raise or where
      decompressing in place is not safe. */
  function Deliver(sz: nat, stream: seq<byte>, ps: seq<seq<byte>>): Option<seq<seq<seq<byte>>>>
    decreases |ps|
  {
    if ps == [] then Some([])
    else if !Acceptable(stream, ps[0]) || !RoomInPlace(|stream|, ps[0], sz) then None
    else if SizeCompressed(ps[0]) > sz || SizeDecompressed(ps[0]) > sz then None
    else
      var fs, r := Split(4, Decode(stream, ps[0])), Deliver(sz, ReceiverAfter(stream, ps[0]), ps[1..]);
      if fs.None? || r.None? then None else Some([fs.value] + r.value)
  }

  ghost predicate Fits(c: Sender, fs: seq<seq<byte>>, sz: nat)
  {
    && (forall f <- fs :: IsFrame(4, f)) && Margin(|Concat(fs)|, sz)
    && (2 * |Concat(fs)| <= sz || |c.stream| + |Concat(fs)| <= STREAM || Outcome(c, Concat(fs)).Packed?)
  }

  ghost predicate Batch(c: Sender, fs: seq<seq<byte>>, pad: seq<byte>, sz: nat)
  {
    Fits(c, fs, sz) && |pad| == PadSize(c, Concat(fs))
  }

  ghost predicate Batches(c: Sender, bs: seq<seq<seq<byte>>>, pads: seq<seq<byte>>, sz: nat)
    decreases |bs|
  {
    if bs == [] then pads == []
    else pads != [] && Batch(c, bs[0], pads[0], sz) && Batches(After(c, Concat(bs[0])), bs[1..], pads[1..], sz)
  }

  ghost function Packets(c: Sender, bs: seq<seq<seq<byte>>>, pads: seq<seq<byte>>, sz: nat): seq<seq<byte>>
    requires Batches(c, bs, pads, sz)
    decreases |bs|
  {
    if bs == [] then []
    else [PacketOf(c, Concat(bs[0]), pads[0])] + Packets(After(c, Concat(bs[0])), bs[1..], pads[1..], sz)
  }

  lemma OneBatch(c: Sender, fs: seq<seq<byte>>, pad: seq<byte>, sz: nat)
    requires Batch(c, fs, pad, sz)
    ensures var p := PacketOf(c, Concat(fs), pad);
      && Acceptable(c.stream, p) && RoomInPlace(|c.stream|, p, sz) && SizeCompressed(p) <= sz
          && SizeDecompressed(p) <= sz
      && Split(4, Decode(c.stream, p)) == Some(fs) && ReceiverAfter(c.stream, p) == After(c, Concat(fs)).stream
  {
    hide PacketOf, Acceptable, RoomInPlace, Outcome, SizeCompressed, SizeDecompressed, PadSize, After,
        ReceiverAfter, Split, Decode;
    PacketRoundTrip(c, Concat(fs), pad);
    MarginSuffices(c, Concat(fs), pad, sz);
    SplitConcat(4, fs);
  }

  lemma DeliverCons(sz: nat, stream: seq<byte>, p: seq<byte>, rest: seq<seq<byte>>, fs: seq<seq<byte>>,
      bs: seq<seq<seq<byte>>>)
    requires Acceptable(stream, p) && RoomInPlace(|stream|, p, sz) && SizeCompressed(p) <= sz
        && SizeDecompressed(p) <= sz
    requires Split(4, Decode(stream, p)) == Some(fs) && Deliver(sz, ReceiverAfter(stream, p), rest) == Some(bs)
    ensures Deliver(sz, stream, [p] + rest) == Some([fs] + bs)
  {
    hide Acceptable, RoomInPlace, SizeCompressed, SizeDecompressed, Split, Decode, ReceiverAfter;
    assert ([p] + rest)[1..] == rest;
  }

  /** End to end: any number of batches of frames that fit the buffers arrive as the same frames in the same
      order, from any state in which both ends have the same history, in particular after a reset. */
  lemma {:induction false} EndToEnd(c: Sender, bs: seq<seq<seq<byte>>>, pads: seq<seq<byte>>, sz: nat)
    requires Batches(c, bs, pads, sz)
    ensures Deliver(sz, c.stream, Packets(c, bs, pads, sz)) == Some(bs)
    decreases |bs|
  {
    hide PacketOf, Batch, After, Acceptable, RoomInPlace, SizeCompressed, SizeDecompressed, Split, Decode,
        ReceiverAfter, Deliver;
    if bs == [] {
      NothingDelivered(sz, c.stream);
    } else {
      var next := After(c, Concat(bs[0]));
      OneBatch(c, bs[0], pads[0], sz);
      EndToEnd(next, bs[1..], pads[1..], sz);
      DeliverCons(sz, c.stream, PacketOf(c, Concat(bs[0]), pads[0]), Packets(next, bs[1..], pads[1..], sz), bs[0],
          bs[1..]);
      assert bs == [bs[0]] + bs[1..];
    }
  }

  lemma NothingDelivered(sz: nat, stream: seq<byte>)
    ensures Deliver(sz, stream, []) == Some([])
  {
  }

  /** The same on the wire, where packets come as one string of bytes: nine bytes are read, and where the packet
      ends is what they say. None also for bytes that end inside a packet. */
  function DeliverBytes(sz: nat, stream: seq<byte>, s: seq<byte>): Option<seq<seq<seq<byte>>>>
    decreases |s|
  {
    if s == [] then Some([])
    else if |s| < 9 then None
    else
      var n := SizeCompressed(s[..9]);
      if n < 9 || n > |s| then None
      else
        var p := s[..n];
        if !Acceptable(stream, p) || !RoomInPlace(|stream|, p, sz) || n > sz || SizeDecompressed(p) > sz then None
        else
          var fs, r := Split(4, Decode(stream, p)), DeliverBytes(sz, ReceiverAfter(stream, p), s[n..]);
          if fs.None? || r.None? then None else Some([fs.value] + r.value)
  }

  lemma CutFirst(p: seq<byte>, rest: seq<byte>)
    requires |p| >= 9 && SizeCompressed(p) == |p|
    ensures |p + rest| >= 9 && SizeCompressed((p + rest)[..9]) == |p| && (p + rest)[..|p|] == p
            && (p + rest)[|p|..] == rest
  {
    NineBytesSuffice(p);
    assert (p + rest)[..9] == p[..9];
  }

  /** Where the packets end is found from their own headers. */
  lemma {:induction false} BytesAsPackets(sz: nat, stream: seq<byte>, ps: seq<seq<byte>>)
    requires Deliver(sz, stream, ps).Some?
    ensures DeliverBytes(sz, stream, Concat(ps)) == Deliver(sz, stream, ps)
    decreases |ps|
  {
    if ps != [] {
      var p, rest := ps[0], Concat(ps[1..]);
      CutFirst(p, rest);
      BytesAsPackets(sz, ReceiverAfter(stream, p), ps[1..]);
      hide Decode, ReceiverAfter, RoomInPlace, SizeCompressed, SizeDecompressed, Split, IsCompressed, HeaderSize;
    }
  }

  /** End to end over the wire: the produced bytes, in one string, become the frames of all batches in order. */
  lemma EndToEndBytes(c: Sender, bs: seq<seq<seq<byte>>>, pads: seq<seq<byte>>, sz: nat)
    requires Batches(c, bs, pads, sz)
    ensures DeliverBytes(sz, c.stream, Concat(Packets(c, bs, pads, sz))) == Some(bs)
  {
    hide Batches, Packets, Deliver, DeliverBytes;
    EndToEnd(c, bs, pads, sz);
    BytesAsPackets(sz, c.stream, Packets(c, bs, pads, sz));
  }

  // ---- the sending end as it runs ----

  ghost predicate AllFit(c: Sender, batches: seq<seq<seq<byte>>>, sz: nat)
    decreases |batches|
  {
    batches == [] ||
    (Fits(c, Frames(batches[0]), sz) && AllFit(After(c, Concat(Frames(batches[0]))), batches[1..], sz))
  }

  function AllFrames(batches: seq<seq<seq<byte>>>): seq<seq<seq<byte>>>
  {
    if batches == [] then [] else [Frames(batches[0])] + AllFrames(batches[1..])
  }

  lemma BatchesCons(c: Sender, fs: seq<seq<byte>>, pad: seq<byte>, bs: seq<seq<seq<byte>>>, pads: seq<seq<byte>>,
      sz: nat)
    requires Batch(c, fs, pad, sz) && Batches(After(c, Concat(fs)), bs, pads, sz)
    ensures Batches(c, [fs] + bs, [pad] + pads, sz)
    ensures Concat(Packets(c, [fs] + bs, [pad] + pads, sz))
            == PacketOf(c, Concat(fs), pad) + Concat(Packets(After(c, Concat(fs)), bs, pads, sz))
  {
    hide Batch, After, PacketOf;
    assert ([fs] + bs)[1..] == bs && ([pad] + pads)[1..] == pads;
    var p, ps := PacketOf(c, Concat(fs), pad), Packets(After(c, Concat(fs)), bs, pads, sz);
    assert ([p] + ps)[1..] == ps;
  }

  lemma FirstBatch(c: Sender, batches: seq<seq<seq<byte>>>, sz: nat)
    requires batches != [] && AllFit(c, batches, sz)
    ensures Fits(c, Frames(batches[0]), sz) && AllFit(After(c, Concat(Frames(batches[0]))), batches[1..], sz)
    ensures 0 < |Concat(Frames(batches[0]))| <= sz
    ensures AllFrames(batches) == [Frames(batches[0])] + AllFrames(batches[1..])
  {
    hide After, Outcome, Frames;
  }

  /** Marshals, compresses and sends batch after batch, each acknowledged before the next. What went out is what a
      receiver with the same history turns into the same frames. */
  method SendBatches(b: BufferCompressed, batches: seq<seq<seq<byte>>>)
    returns (wire: seq<byte>, ghost pads: seq<seq<byte>>)
    requires b.SendOk() && b.Fifo() && b.Waiting() == Queue([], 0) && b.send.frames == []
    requires b.send.index == b.send.savedSize == 0 && AllFit(AsSender(b.comp), batches, b.sz)
    modifies b, b.send, b.sendBuf, b.compBuf, b.comp, b.comp.streamBuffer, b.comp.slots, b.comp.counts
    ensures b.SendOk() && b.Fifo() && b.Waiting() == Queue([], 0) && b.out == b.made == old(b.made) + wire
    ensures DeliverBytes(b.sz, old(AsSender(b.comp)).stream, wire) == Some(AllFrames(batches))
    ensures var c := old(AsSender(b.comp));
      Batches(c, AllFrames(batches), pads, b.sz) && wire == Concat(Packets(c, AllFrames(batches), pads, b.sz))
    decreases |batches|
  {
    hide AllFit, Fits, Frames, AllFrames, Batches, Packets, PacketOf, After, PadSize, SenderOk, IsFrame, Outcome,
        Concat, DeliverBytes, InOrder, Acknowledge;
    ghost var c := AsSender(b.comp);
    NothingWaits(b.made, b.out);
    if batches == [] {
      wire, pads := [], [];
      NoBatches(c, b.sz);
    } else {
      FirstBatch(c, batches, b.sz);
      ghost var fs := Frames(batches[0]);
      var at, len, pad := SendBatch(b, batches[0]);
      wire := b.compBuf[at..at + len];
      AcknowledgedAll(wire);
      b.AdjustFrame(len);
      var more, rest := SendBatches(b, batches[1..]);
      BatchesCons(c, fs, pad, AllFrames(batches[1..]), rest, b.sz);
      wire, pads := wire + more, [pad] + rest;
    }
    EndToEndBytes(c, AllFrames(batches), pads, b.sz);
  }

  lemma AcknowledgedAll(p: seq<byte>)
    ensures Acknowledge(HandOut(Push(Queue([], 0), p)), |p|) == Queue([], 0)
  {
  }

  lemma NothingWaits(made: seq<byte>, out: seq<byte>)
    ensures InOrder(Queue([], 0), made, out) <==> made == out
  {
  }

  lemma NoBatches(c: Sender, sz: nat)
    ensures AllFrames([]) == [] && Batches(c, [], [], sz) && Packets(c, [], [], sz) == [] && Concat([]) == []
  {
  }

  // ---- the receiving end as it runs ----

  /** What the first packet on the wire is and what is delivered for it. */
  lemma DeliverFirst(sz: nat, stream: seq<byte>, s: seq<byte>)
    requires s != [] && DeliverBytes(sz, stream, s).Some?
    ensures |s| >= 9 && 9 <= SizeCompressed(s[..9]) <= |s|
    ensures var p := s[..SizeCompressed(s[..9])];
      && SizeCompressed(p) == |p| <= sz && SizeDecompressed(p) <= sz
      && Acceptable(stream, p) && RoomInPlace(|stream|, p, sz)
      && Split(4, Decode(stream, p)).Some? && Split(4, Decode(stream, p)).value != []
      && DeliverBytes(sz, ReceiverAfter(stream, p), s[|p|..]).Some?
      && DeliverBytes(sz, stream, s).value
         == [Split(4, Decode(stream, p)).value] + DeliverBytes(sz, ReceiverAfter(stream, p), s[|p|..]).value
  {
    hide RoomInPlace, ReceiverAfter, Decode, WellFormed, IsCompressed, HeaderSize, Split;
    var p := s[..SizeCompressed(s[..9])];
    assert p[..9] == s[..9];
    NineBytesSuffice(p);
    NothingToSplit(4, Decode(stream, p));
  }

  /** Receives packet after packet, cut where their headers say, and walks each message: exactly what the bytes
      deliver. */
  method ReceiveBatches(b: BufferCompressed, wire: seq<byte>) returns (got: seq<seq<seq<byte>>>)
    requires b.RecvOk() && 9 <= b.sz && DeliverBytes(b.sz, b.decomp.History(), wire).Some?
    modifies b`compressedStart, b.recBuf, b.decomp, b.decomp.streamBuffer, b.recv
    ensures b.RecvOk() && DeliverBytes(b.sz, old(b.decomp.History()), wire) == Some(got)
  {
    hide DeliverBytes, Decode, ReceiverAfter, RoomInPlace, SizeDecompressed, SizeCompressed, Split, Acceptable;
    ghost var all := DeliverBytes(b.sz, b.decomp.History(), wire).value;
    var left := wire;
    got := [];
    assert [] + all == all;
    while left != []
      invariant b.RecvOk() && DeliverBytes(b.sz, b.decomp.History(), left).Some?
      invariant all == got + DeliverBytes(b.sz, b.decomp.History(), left).value
      decreases |left|
    {
      ghost var h := b.decomp.History();
      DeliverFirst(b.sz, h, left);
      var n := SizeCompressed(left[..9]);
      var p := left[..n];
      var r := b.GotPacket(p);
      var frames := b.recv.TakeFrames();
      Assoc(got, [frames], DeliverBytes(b.sz, ReceiverAfter(h, p), left[n..]).value);
      got := got + [frames];
      left := left[n..];
    }
    NoBytes(b.sz, b.decomp.History());
    assert got + [] == got;
  }

  lemma NoBytes(sz: nat, stream: seq<byte>)
    ensures DeliverBytes(sz, stream, []) == Some([])
  {
  }

  /** The two ends do not share memory. */
  ghost predicate FarApart(a: BufferCompressed, b: BufferCompressed)
  {
    var sending: set<object> :=
      {a, a.send, a.sendBuf, a.compBuf, a.comp, a.comp.streamBuffer, a.comp.slots, a.comp.counts};
    var receiving: set<object> := {b, b.recv, b.recBuf, b.decomp, b.decomp.streamBuffer};
    sending !! receiving
  }

  /** Both ends as they run: what was marshalled at one comes out at the other, batch by batch and frame by frame. */
  method Session(a: BufferCompressed, b: BufferCompressed, batches: seq<seq<seq<byte>>>)
    returns (got: seq<seq<seq<byte>>>)
    requires a.SendOk() && a.Fifo() && a.Waiting() == Queue([], 0) && a.send.frames == []
    requires a.send.index == a.send.savedSize == 0 && AllFit(AsSender(a.comp), batches, a.sz)
    requires b.RecvOk() && 9 <= b.sz == a.sz && FarApart(a, b) && b.decomp.History() == AsSender(a.comp).stream
    modifies a, a.send, a.sendBuf, a.compBuf, a.comp, a.comp.streamBuffer, a.comp.slots, a.comp.counts
    modifies b`compressedStart, b.recBuf, b.decomp, b.decomp.streamBuffer, b.recv
    ensures got == AllFrames(batches)
  {
    hide DeliverBytes, AllFit, AllFrames, Batches, Packets, SenderOk, InOrder;
    var wire, pads := SendBatches(a, batches);
    got := ReceiveBatches(b, wire);
  }
}
