/** One packet and the state the two ends carry from packet to packet, as values. */
module Packet {
  import opened Bytes
  import opened Tokens
  import opened ControlWord
  import opened HashTable
  import opened Matcher
  import opened Reader

  const MAX_SIZE: nat := 0xffff_ffff - 400

  // ---- header ----

  function Base(size: nat): nat { if size < 216 then 3 else 9 }

  /** Flag byte 01SSLLHC: stream size 1, level 3, H for four-byte fields, C for compressed. */
  function Header(r: nat, size: nat, compressed: bool): (h: seq<byte>)
    ensures |h| == Base(size)
  {
    var c := if compressed then 1 else 0;
    if size < 216 then [92 + c, r % 256, size % 256] else [94 + c] + Le(r, 4) + Le(size, 4)
  }

  function FieldWidth(p: seq<byte>): nat
    requires |p| >= 9
  {
    if p[0] / 2 % 2 == 1 then 4 else 1
  }

  function SizeCompressed(p: seq<byte>): nat
    requires |p| >= 9
  {
    Peek(p[1..], FieldWidth(p))
  }

  function SizeDecompressed(p: seq<byte>): nat
    requires |p| >= 9
  {
    Peek(p[1 + FieldWidth(p)..], FieldWidth(p))
  }

  function HeaderSize(p: seq<byte>): nat
    requires |p| >= 9
  {
    2 * FieldWidth(p) + 1
  }

  predicate IsCompressed(p: seq<byte>)
    requires |p| >= 9
  {
    p[0] % 2 == 1
  }

  lemma HeaderReadsBack(r: nat, size: nat, compressed: bool, body: seq<byte>)
    requires Base(size) + |body| >= 9 && r < 0x1_0000_0000 && size < 0x1_0000_0000 && (size < 216 ==> r < 256)
    ensures var p := Header(r, size, compressed) + body;
      SizeCompressed(p) == r && SizeDecompressed(p) == size && HeaderSize(p) == Base(size)
      && p[Base(size)..] == body && (IsCompressed(p) <==> compressed)
  {
    var h := Header(r, size, compressed);
    var p := h + body;
    if size < 216 {
      assert Peek(p[1..], 1) == r && Peek(p[2..], 1) == size;
    } else {
      var c := if compressed then 1 else 0;
      assert Pow256(4) == 0x1_0000_0000;
      var q1 := PeekOfLe(r, 4, Le(size, 4) + body, 4);
      var q2 := PeekOfLe(size, 4, body, 4);
      assert p[1..] == Le(r, 4) + (Le(size, 4) + body);
      assert p[5..] == Le(size, 4) + body;
      assert p[0] == 94 + c;
    }
  }

  /** Four bytes, the low one first. */
  function Value4(s: seq<byte>): nat
    requires |s| == 4
  {
    var a: nat, b: nat, c: nat, d: nat := s[0], s[1], s[2], s[3];
    a + 256 * b + 65536 * c + 16777216 * d
  }

  lemma FourBytes(r: ui32)
    ensures r == Value4(Le(r, 4))
  {
    DivDiv(r, 256, 256);
    DivDiv(r, 65536, 256);
    BytesOfWord(r % 256, r / 256 % 256, r / 65536 % 256, r / 16777216);
    hide Le;
  }

  /** The flag byte bit by bit, and the two fields: one byte each below 216, else four, low byte first. */
  lemma HeaderBits(r: ui32, size: ui32, compressed: bool)
    ensures var h := Header(r, size, compressed);
      && |h| == (if size < 216 then 3 else 9)
      && h[0] % 2 == (if compressed then 1 else 0) && h[0] / 2 % 2 == (if size < 216 then 0 else 1)
      && h[0] / 4 % 4 == 3 && h[0] / 16 % 4 == 1 && h[0] / 64 == 1
      && (size < 216 && r < 256 ==> h[1] == r && h[2] == size)
      && (size >= 216 ==>
            r == Value4(h[1..5]) && size == Value4(h[5..9]))
  {
    FourBytes(r);
    FourBytes(size);
    hide Le;
    var h := Header(r, size, compressed);
    if size >= 216 { assert h[1..5] == Le(r, 4) && h[5..9] == Le(size, 4); }
  }

  lemma {:induction false} PeekPrefix(s: seq<byte>, t: seq<byte>, n: nat)
    requires s <= t && n <= |s|
    ensures Peek(s, n) == Peek(t, n)
  {
    if n > 0 { PeekPrefix(s[1..], t[1..], n - 1); }
  }

  /** The first nine bytes are enough to read the header of any packet. */
  lemma NineBytesSuffice(p: seq<byte>)
    requires |p| >= 9
    ensures SizeCompressed(p[..9]) == SizeCompressed(p) && SizeDecompressed(p[..9]) == SizeDecompressed(p)
    ensures HeaderSize(p[..9]) == HeaderSize(p) && IsCompressed(p[..9]) == IsCompressed(p)
  {
    var n := FieldWidth(p);
    PeekPrefix(p[..9][1..], p[1..], n);
    PeekPrefix(p[..9][1 + n..], p[1 + n..], n);
  }

  // ---- the sending side ----

  /** The history both ends share, and the table of positions in it. */
  datatype Sender = Sender(stream: seq<byte>, table: Table)

  ghost predicate SenderOk(c: Sender)
  {
    |c.stream| <= STREAM && Before(c.table, |c.stream|)
  }

  /** The message no longer fits behind the history, so both ends start over. */
  predicate StartsOver(counter: nat, size: nat) { counter + size - 1 >= STREAM }

  ghost function Outcome(c: Sender, msg: seq<byte>): Result
  {
    if StartsOver(|c.stream|, |msg|) then Run(msg, 0, 0, Reset(c.table), [])
    else Run(c.stream + msg, |c.stream|, |c.stream|, c.table, [])
  }

  ghost function BodyOf(c: Sender, msg: seq<byte>): seq<byte>
  {
    match Outcome(c, msg)
    case GaveUp(_) => msg
    case Packed(toks, _) => Emit(toks, 0)
  }

  /** Bytes of padding: a compressed body has at least nine. */
  ghost function PadSize(c: Sender, msg: seq<byte>): nat
  {
    if Outcome(c, msg).GaveUp? then 0 else Max(9, |BodyOf(c, msg)|) - |BodyOf(c, msg)|
  }

  /** The packet for `msg`; what the padding holds is up to the destination. */
  ghost function PacketOf(c: Sender, msg: seq<byte>, pad: seq<byte>): seq<byte>
  {
    var body := BodyOf(c, msg) + pad;
    Header(Base(|msg|) + |body|, |msg|, Outcome(c, msg).Packed?) + body
  }

  lemma PacketShape(c: Sender, msg: seq<byte>, pad: seq<byte>, h: seq<byte>, n: nat)
    requires n == |BodyOf(c, msg)| + |pad| && h == Header(Base(|msg|) + n, |msg|, Outcome(c, msg).Packed?)
    ensures PacketOf(c, msg, pad) == h + (BodyOf(c, msg) + pad)
  {
    hide Outcome, BodyOf, Header;
  }

  ghost function After(c: Sender, msg: seq<byte>): Sender
  {
    var o := Outcome(c, msg);
    if StartsOver(|c.stream|, |msg|) then Sender([], Reset(o.table))
    else Sender(c.stream + msg, if o.GaveUp? then Reset(o.table) else o.table)
  }

  lemma ResetBefore(t: Table, s: nat)
    ensures Before(Reset(t), s)
  {
    assert forall h :: 0 <= h < BUCKETS ==> Trusted(Reset(t), h) == 0;
  }

  /** Between messages the table only trusts positions inside the history. */
  lemma AfterOk(c: Sender, msg: seq<byte>)
    requires SenderOk(c)
    ensures SenderOk(After(c, msg))
  {
    hide Run;
    if StartsOver(|c.stream|, |msg|) {
      ResetBefore(Outcome(c, msg).table, 0);
    } else {
      ResetBefore(Outcome(c, msg).table, |c.stream + msg|);
      RunBefore(c.stream + msg, |c.stream|, |c.stream|, c.table, []);
    }
  }

  // ---- what the table holds between messages ----

  /** The table is what entering the positions of `log` since the last reset makes it, all of them positions of
      the history under the bucket of their bytes there. */
  ghost predicate Knows(c: Sender, t0: Table, log: Log)
  {
    (forall e <- log :: e.0 < BUCKETS && EntryOf(e, c.stream)) && c.table == Replay(t0, log)
  }

  lemma EntriesKept(log: Log, a: seq<byte>, b: seq<byte>)
    requires a <= b && forall e <- log :: EntryOf(e, a)
    ensures forall e <- log :: EntryOf(e, b)
  {
  }

  /** One message adds the positions it passes, or everything is forgotten. */
  lemma AfterKnows(c: Sender, msg: seq<byte>, t0: Table, log: Log) returns (t': Table, log': Log)
    requires Knows(c, t0, log)
    ensures Knows(After(c, msg), t', log')
    ensures if StartsOver(|c.stream|, |msg|) || Outcome(c, msg).GaveUp? then log' == [] else t' == t0 && log <= log'
  {
    hide Run, Replay, EntryOf, Entries, AllChosen;
    var o, w, k := Outcome(c, msg), c.stream + msg, |c.stream|;
    t', log' := o.table, [];
    EmptyReplay(t');
    if !StartsOver(k, |msg|) && o.Packed? {
      t', log' := t0, log;
      var e := RunChooses(w, k, k, t0, log, []);
      EntriesKept(log, c.stream, w);
      if k < e { log' := log + Entries(w, k, e); }
    }
  }

  lemma EmptyReplay(t: Table)
    ensures Reset(t) == Replay(t, [])
  {
  }

  ghost function AfterAll(c: Sender, msgs: seq<seq<byte>>): Sender
    decreases |msgs|
  {
    if msgs == [] then c else AfterAll(After(c, msgs[0]), msgs[1..])
  }

  /** After any messages the table is what the insertions since the last reset make it, and the history holds
      their positions: no slot the search looks at is stale. */
  lemma {:induction false} AlwaysKnows(c: Sender, msgs: seq<seq<byte>>, t0: Table, log: Log)
    returns (t': Table, log': Log)
    requires Knows(c, t0, log)
    ensures Knows(AfterAll(c, msgs), t', log')
    decreases |msgs|
  {
    t', log' := t0, log;
    if msgs != [] {
      hide After, Knows;
      t', log' := AfterKnows(c, msgs[0], t0, log);
      t', log' := AlwaysKnows(After(c, msgs[0]), msgs[1..], t', log');
    }
  }

  /** Every match in a packet is the longest, and of those the nearest, among the most recent insertions since
      the last reset, of this message or of earlier ones. */
  lemma EmittedAreBest(c: Sender, msg: seq<byte>, t0: Table, log: Log)
    requires Knows(c, t0, log) && Outcome(c, msg).Packed?
    ensures var h := History(c.stream, |msg|);
      AllChosen(h + msg, |h|, if StartsOver(|c.stream|, |msg|) then [] else log, Outcome(c, msg).toks)
  {
    hide Run, Replay, AllChosen;
    var h, toks := History(c.stream, |msg|), Outcome(c, msg).toks;
    assert toks[0..] == toks;
    if StartsOver(|c.stream|, |msg|) {
      EmptyReplay(c.table);
      assert h + msg == msg;
      var e := RunChooses(msg, 0, 0, c.table, [], []);
    } else {
      var e := RunChooses(c.stream + msg, |c.stream|, |c.stream|, t0, log, []);
    }
  }

  /** A message is stored exactly when the tokens chosen from its start, among all insertions since the last reset, come
      to closed groups of 31 that are past the middle, at least 11 bytes from the end, and save less than a 32nd. */
  lemma StoredExactly(c: Sender, msg: seq<byte>, t0: Table, log: Log)
    requires Knows(c, t0, log)
    ensures var h := History(c.stream, |msg|);
      Outcome(c, msg).GaveUp? <==>
        exists g :: ChosenSoFar(h + msg, |h|, if StartsOver(|c.stream|, |msg|) then [] else log, g)
                    && g != [] && |g| % 31 == 0 && |msg| / 2 < Spans(g) <= |msg| - 11
                    && |Emit(g, 0)| + Spans(g) / 32 > Spans(g)
  {
    hide Run, Replay, ChosenSoFar, Spans, Emit;
    var h := History(c.stream, |msg|);
    EmptyReplay(c.table);
    if StartsOver(|c.stream|, |msg|) {
      assert h + msg == msg;
      GivesUpExactly(msg, 0, c.table, []);
    } else {
      GivesUpExactly(c.stream + msg, |c.stream|, t0, log);
    }
  }

  /** No closed groups of a compressed packet are such. */
  lemma PackedPays(c: Sender, msg: seq<byte>, i: nat)
    requires Outcome(c, msg).Packed? && i <= |Outcome(c, msg).toks| && i % 31 == 0
    ensures var g := Outcome(c, msg).toks[..i];
      Spans(g) + 11 <= |msg| ==> Spans(g) <= |msg| / 2 || |Emit(g, 0)| + Spans(g) / 32 <= Spans(g)
  {
    hide Run, Spans, Emit;
    EmptySpans();
    if StartsOver(|c.stream|, |msg|) {
      RunPasses(msg, 0, 0, Reset(c.table), [], i);
    } else {
      RunPasses(c.stream + msg, |c.stream|, |c.stream|, c.table, [], i);
    }
  }

  /** Both ends keep a message in the history exactly when the history has room for it, and start over otherwise. */
  lemma HistoryExactly(c: Sender, msg: seq<byte>)
    ensures After(c, msg).stream == if |c.stream| + |msg| <= 100000 then c.stream + msg else []
    ensures forall p :: Acceptable(c.stream, p) && SizeDecompressed(p) == |msg| ==>
      ReceiverAfter(c.stream, p) == if |c.stream| + |msg| <= 100000 then c.stream + Decode(c.stream, p) else []
  {
    hide Outcome, Acceptable, Decode, SizeDecompressed;
  }

  lemma {:induction false} GivingUpTakesData(w: seq<byte>, start: nat, s: nat, t: Table, toks: seq<Token>)
    requires start <= s <= |w| && |toks| <= s - start
    ensures Run(w, start, s, t, toks).GaveUp? ==> |w| - start >= 31
    decreases |w| - s
  {
    hide NextToken, InsertRange, TooLong, Emit;
    if s + 11 <= |w| && !Stops(start, s, |w|, toks) {
      var r := NextToken(t, w, s);
      GivingUpTakesData(w, start, s + Span(r), InsertRange(t, w, s, s + Span(r)), toks + [r]);
    } else if |w| < s + 11 && s < |w| {
      GivingUpTakesData(w, start, s + 1, t, toks + [Literal(w[s])]);
    }
  }

  lemma BodySize(c: Sender, msg: seq<byte>)
    requires 0 < |msg|
    ensures var n := |BodyOf(c, msg)|; n <= |msg| + |msg| / 8 + 8 && (n <= |msg| + 8 || |msg| <= 15830)
    ensures Outcome(c, msg).GaveUp? ==> |msg| >= 31
  {
    hide Run, Emit, Spans;
    EmptySpans();
    EmptyEmit();
    NoTokens();
    if StartsOver(|c.stream|, |msg|) {
      GivingUpTakesData(msg, 0, 0, Reset(c.table), []);
      if Outcome(c, msg).Packed? { RunLength(msg, 0, 0, Reset(c.table), [], []); }
    } else {
      GivingUpTakesData(c.stream + msg, |c.stream|, |c.stream|, c.table, []);
      if Outcome(c, msg).Packed? { RunLength(c.stream + msg, |c.stream|, |c.stream|, c.table, [], []); }
    }
  }

  lemma NoTokens()
    ensures var none: seq<Token> := []; none + none == none
  {
  }

  lemma EmptyEmit()
    ensures Emit([], 0) == []
  {
  }

  /** For every accepted size the packet holds at least nine bytes, fits size + size/8 + 400, and its
      fields read back exactly, in one byte each below 216 and in four otherwise. A stored body is the message, a
      compressed one its encoding, padded to nine bytes. */
  lemma HeaderFaithful(c: Sender, msg: seq<byte>, pad: seq<byte>)
    requires 0 < |msg| <= MAX_SIZE && |pad| == PadSize(c, msg)
    ensures var p := PacketOf(c, msg, pad);
      && 9 <= |p| <= |msg| + |msg| / 8 + 400 && |p| < 0x1_0000_0000
      && SizeCompressed(p) == |p| && SizeDecompressed(p) == |msg|
      && HeaderSize(p) == Base(|msg|) == (if |msg| < 216 then 3 else 9)
      && p[Base(|msg|)..] == BodyOf(c, msg) + pad
      && (IsCompressed(p) <==> Outcome(c, msg).Packed?)
      && (IsCompressed(p) ==> |p| == HeaderSize(p) + Max(9, |Emit(Outcome(c, msg).toks, 0)|))
      && (!IsCompressed(p) ==> p[HeaderSize(p)..] == msg)
  {
    hide Run, Emit, Outcome, SizeCompressed, SizeDecompressed, HeaderSize, IsCompressed, Header, Le;
    BodySize(c, msg);
    var body := BodyOf(c, msg) + pad;
    HeaderReadsBack(Base(|msg|) + |body|, |msg|, Outcome(c, msg).Packed?, body);
    assert msg + [] == msg;
  }

  // ---- the receiving side: the history is all its state ----

  function History(stream: seq<byte>, size: nat): seq<byte>
  {
    if StartsOver(|stream|, size) then [] else stream
  }

  /** The packets a receiver with this history can be given. */
  predicate Acceptable(stream: seq<byte>, p: seq<byte>)
  {
    && |p| >= 9 && SizeCompressed(p) == |p| && 0 < SizeDecompressed(p) && HeaderSize(p) <= |p|
    && var d := SizeDecompressed(p);
       if IsCompressed(p) then WellFormed(p[HeaderSize(p)..], |History(stream, d)|, d)
       else |p| == HeaderSize(p) + d
  }

  function Decode(stream: seq<byte>, p: seq<byte>): (msg: seq<byte>)
    requires Acceptable(stream, p)
    ensures |msg| == SizeDecompressed(p)
  {
    var d, body := SizeDecompressed(p), p[HeaderSize(p)..];
    if IsCompressed(p) then
      var h := History(stream, d);
      LegalSpans(Parse(body, 1, d).value, |h|, |h| + d);
      Meaning(body, h, d)[|h|..]
    else body
  }

  function ReceiverAfter(stream: seq<byte>, p: seq<byte>): seq<byte>
    requires Acceptable(stream, p)
  {
    if StartsOver(|stream|, SizeDecompressed(p)) then [] else stream + Decode(stream, p)
  }

  /** The core inverse: whatever the table holds, what a completed run emits for `w[start..]` is a body the
      decompressor accepts behind `w[..start]`, and it says `w` again. */
  lemma CoreInverse(w: seq<byte>, start: nat, t: Table, pad: seq<byte>)
    requires start <= |w| && |pad| <= 4 && Run(w, start, start, t, []).Packed?
    ensures var body := Emit(Run(w, start, start, t, []).toks, 0) + pad;
            WellFormed(body, start, |w| - start) && Meaning(body, w[..start], |w| - start) == w
  {
    hide Run, Emit, Legal, Expand, WellFormed, Parse;
    RunSound(w, start, start, t, []);
    var toks := Run(w, start, start, t, []).toks;
    assert toks[0..] == toks;
    EmitIsWellFormed(toks, pad, start, |w| - start);
  }

  lemma BodyMeans(c: Sender, msg: seq<byte>, pad: seq<byte>)
    requires 0 < |msg| && |pad| <= 4 && Outcome(c, msg).Packed?
    ensures var h, body := History(c.stream, |msg|), BodyOf(c, msg) + pad;
            WellFormed(body, |h|, |msg|) && Meaning(body, h, |msg|) == h + msg
  {
    hide Run, Emit, WellFormed, Meaning;
    var h := History(c.stream, |msg|);
    var w := h + msg;
    var t := if StartsOver(|c.stream|, |msg|) then Reset(c.table) else c.table;
    assert w == if StartsOver(|c.stream|, |msg|) then msg else c.stream + msg;
    CoreInverse(w, |h|, t, pad);
    assert w[..|h|] == h;
  }

  /** One packet: a receiver with the same history gets the message back and keeps the same history. */
  lemma PacketRoundTrip(c: Sender, msg: seq<byte>, pad: seq<byte>)
    requires 0 < |msg| <= MAX_SIZE && |pad| == PadSize(c, msg)
    ensures var p := PacketOf(c, msg, pad);
      Acceptable(c.stream, p) && Decode(c.stream, p) == msg && ReceiverAfter(c.stream, p) == After(c, msg).stream
  {
    hide Run, Emit, Outcome, SizeCompressed, SizeDecompressed, HeaderSize, IsCompressed, Header, WellFormed, Meaning;
    HeaderFaithful(c, msg, pad);
    var p := PacketOf(c, msg, pad);
    if Outcome(c, msg).Packed? {
      PaddingSmall(c, msg);
      BodyMeans(c, msg, pad);
    } else {
      assert BodyOf(c, msg) + pad == msg;
    }
  }

  /** Any encoding is a word and at least one byte, so at most four bytes of padding are needed. */
  lemma PaddingSmall(c: Sender, msg: seq<byte>)
    requires 0 < |msg|
    ensures PadSize(c, msg) <= 4
  {
    hide Run, Spans;
    if Outcome(c, msg).Packed? {
      var toks := Outcome(c, msg).toks;
      EncodesSomething(c, msg, toks);
      EmitLength(toks, 31);
    }
  }

  lemma EncodesSomething(c: Sender, msg: seq<byte>, toks: seq<Token>)
    requires 0 < |msg| && Outcome(c, msg).Packed? && toks == Outcome(c, msg).toks
    ensures toks != []
  {
    hide Run;
    var h := History(c.stream, |msg|);
    var t := if StartsOver(|c.stream|, |msg|) then Reset(c.table) else c.table;
    assert h + msg == if StartsOver(|c.stream|, |msg|) then msg else c.stream + msg;
    RunSound(h + msg, |h|, |h|, t, []);
    assert toks[0..] == toks;
  }

  // ---- streams of messages ----

  ghost predicate Sendable(c: Sender, msgs: seq<seq<byte>>, pads: seq<seq<byte>>)
    decreases |msgs|
  {
    if msgs == [] then pads == []
    else pads != [] && 0 < |msgs[0]| <= MAX_SIZE && |pads[0]| == PadSize(c, msgs[0])
         && Sendable(After(c, msgs[0]), msgs[1..], pads[1..])
  }

  ghost function SendAll(c: Sender, msgs: seq<seq<byte>>, pads: seq<seq<byte>>): seq<seq<byte>>
    requires Sendable(c, msgs, pads)
    decreases |msgs|
  {
    if msgs == [] then [] else [PacketOf(c, msgs[0], pads[0])] + SendAll(After(c, msgs[0]), msgs[1..], pads[1..])
  }

  /** The messages a receiver gets from packets in order, or None at the first it cannot accept. */
  function ReceiveAll(stream: seq<byte>, ps: seq<seq<byte>>): Option<seq<seq<byte>>>
    decreases |ps|
  {
    if ps == [] then Some([])
    else if !Acceptable(stream, ps[0]) then None
    else
      var r := ReceiveAll(ReceiverAfter(stream, ps[0]), ps[1..]);
      if r.None? then None else Some([Decode(stream, ps[0])] + r.value)
  }

  lemma ReceiveCons(stream: seq<byte>, p: seq<byte>, rest: seq<seq<byte>>, msgs: seq<seq<byte>>)
    requires Acceptable(stream, p) && ReceiveAll(ReceiverAfter(stream, p), rest) == Some(msgs)
    ensures ReceiveAll(stream, [p] + rest) == Some([Decode(stream, p)] + msgs)
  {
    hide Acceptable, Decode, ReceiverAfter;
    assert ([p] + rest)[1..] == rest;
  }

  /** The streaming round trip, over any number of messages of any accepted size: histories that agree
      deliver every message and agree afterwards, through resets, stored packets and giving up. */
  lemma {:induction false} StreamRoundTrip(c: Sender, msgs: seq<seq<byte>>, pads: seq<seq<byte>>)
    requires Sendable(c, msgs, pads)
    ensures ReceiveAll(c.stream, SendAll(c, msgs, pads)) == Some(msgs)
    decreases |msgs|
  {
    hide PacketOf, After, Acceptable, Decode, ReceiverAfter, PadSize, ReceiveAll;
    if msgs == [] {
      NothingReceived(c.stream);
    } else {
      PacketRoundTrip(c, msgs[0], pads[0]);
      StreamRoundTrip(After(c, msgs[0]), msgs[1..], pads[1..]);
      var rest := SendAll(After(c, msgs[0]), msgs[1..], pads[1..]);
      ReceiveCons(c.stream, PacketOf(c, msgs[0], pads[0]), rest, msgs[1..]);
      assert msgs == [msgs[0]] + msgs[1..];
    }
  }

  lemma NothingReceived(stream: seq<byte>)
    ensures ReceiveAll(stream, []) == Some([])
  {
  }
}
