/** qlz_compress and qlz_decompress on arrays, with the state they keep between calls. */
module Stream {
  import opened Bytes
  import opened Tokens
  import opened ControlWord
  import opened HashTable
  import opened Matcher
  import opened Reader
  import opened Packet
  import opened Compress
  import opened Decompress

  /** A copy between regions that do not overlap. */
  method Memcpy(dst: array<byte>, i: nat, src: array<byte>, j: nat, n: nat)
    requires i + n <= dst.Length && j + n <= src.Length
    requires dst != src || i + n <= j || j + n <= i
    modifies dst
    ensures dst[i..i + n] == old(src[j..j + n]) && dst[..i] == old(dst[..i]) && dst[i + n..] == old(dst[i + n..])
  {
    var k := 0;
    while k < n
      invariant 0 <= k <= n
      invariant dst[i..i + k] == old(src[j..j + k])
      invariant dst[..i] == old(dst[..i]) && dst[i + n..] == old(dst[i + n..])
      invariant src[j..j + n] == old(src[j..j + n])
    {
      assert src[j + k] == src[j..j + n][k];
      dst[i + k] := src[j + k];
      k := k + 1;
    }
  }

  ghost function AsSender(st: CompressState): Sender
    requires st.Valid() && st.streamCounter <= STREAM
    reads st, st.streamBuffer, st.slots, st.counts
  {
    Sender(st.streamBuffer[..st.streamCounter], st.View())
  }

  ghost predicate Ready(st: CompressState)
    reads st, st.streamBuffer, st.slots, st.counts
  {
    st.Valid() && st.streamCounter <= STREAM && SenderOk(AsSender(st))
  }

  ghost predicate Apart(st: CompressState, a: array<byte>) { a != st.streamBuffer && a != st.counts }

  /** What both branches leave behind: body and padding from `at` on, and the next state. */
  ghost predicate BodyDone(c: Sender, msg: seq<byte>, d: seq<byte>, at: nat, n: nat, compressed: bool, next: Sender)
  {
    && compressed == Outcome(c, msg).Packed?
    && n == |BodyOf(c, msg)| + PadSize(c, msg) && at + n <= |d|
    && d[at..at + |BodyOf(c, msg)|] == BodyOf(c, msg)
    && next == After(c, msg)
  }

  /** The message does not fit behind the history: compressed on its own, history and table forgotten. */
  method FreshBody(st: CompressState, source: array<byte>, size: nat, dest: array<byte>, at: nat)
    returns (n: nat, compressed: bool)
    requires Ready(st) && Apart(st, source) && Apart(st, dest) && source != dest
    requires 0 < size <= source.Length && StartsOver(st.streamCounter, size)
    requires at + size + size / 8 + 21 <= dest.Length
    modifies dest, st, st.slots, st.counts
    ensures Ready(st) && BodyDone(old(AsSender(st)), old(source[..size]), dest[..], at, n, compressed, AsSender(st))
    ensures dest[..at] == old(dest[..at])
    ensures forall i :: at + size + size / 8 + 21 <= i < dest.Length ==> dest[i] == old(dest[i])
  {
    hide Run, Emit, Before;
    ghost var c, msg := AsSender(st), source[..size];
    st.ResetTable();
    ResetBefore(c.table, 0);
    n := CompressCore(st, source, 0, size, dest, at);
    compressed := n != 0;
    ghost var t := st.View();
    st.ResetTable();
    if n == 0 {
      Memcpy(dest, at, source, 0, size);
      n := size;
    }
    st.streamCounter := 0;
    assert st.streamBuffer[..0] == [];
    ResetBefore(t, 0);
  }

  /** The message is appended to the history and compressed against it. */
  method StreamBody(st: CompressState, source: array<byte>, size: nat, dest: array<byte>, at: nat)
    returns (n: nat, compressed: bool)
    requires Ready(st) && Apart(st, source) && Apart(st, dest) && source != dest
    requires 0 < size <= source.Length && !StartsOver(st.streamCounter, size)
    requires at + size + size / 8 + 21 <= dest.Length
    modifies dest, st, st.streamBuffer, st.slots, st.counts
    ensures Ready(st) && BodyDone(old(AsSender(st)), old(source[..size]), dest[..], at, n, compressed, AsSender(st))
    ensures dest[..at] == old(dest[..at])
    ensures forall i :: at + size + size / 8 + 21 <= i < dest.Length ==> dest[i] == old(dest[i])
  {
    hide Run, Emit, Before;
    ghost var c, msg := AsSender(st), source[..size];
    AfterOk(c, msg);
    var k := st.streamCounter;
    Memcpy(st.streamBuffer, k, source, 0, size);
    assert st.streamBuffer[..k + size] == c.stream + msg;
    n := CompressCore(st, st.streamBuffer, k, size, dest, at);
    compressed := n != 0;
    assert st.streamBuffer[k..k + size] == msg;
    if n == 0 {
      Memcpy(dest, at, st.streamBuffer, k, size);
      st.ResetTable();
      n := size;
    }
    st.streamCounter := k + size;
  }

  method WriteHeader(dest: array<byte>, d0: nat, r: nat, size: nat, compressed: bool)
    requires d0 + Base(size) <= dest.Length && r < 0x1_0000_0000 && size < 0x1_0000_0000
    modifies dest
    ensures dest[d0..d0 + Base(size)] == Header(r, size, compressed)
    ensures dest[..d0] == old(dest[..d0]) && dest[d0 + Base(size)..] == old(dest[d0 + Base(size)..])
  {
    var c := if compressed then 1 else 0;
    if size < 216 {
      dest[d0], dest[d0 + 1], dest[d0 + 2] := 92 + c, r % 256, size % 256;
    } else {
      LeFour(r);
      LeFour(size);
      hide Le;
      dest[d0], dest[d0 + 1], dest[d0 + 2], dest[d0 + 3], dest[d0 + 4] :=
        94 + c, r % 256, r / 256 % 256, r / 65536 % 256, r / 16777216 % 256;
      dest[d0 + 5], dest[d0 + 6], dest[d0 + 7], dest[d0 + 8] :=
        size % 256, size / 256 % 256, size / 65536 % 256, size / 16777216 % 256;
    }
  }

  lemma Glue(mid: seq<byte>, fin: seq<byte>, d0: nat, h: seq<byte>, body: seq<byte>, pad: seq<byte>, at: nat, n: nat)
    requires at == d0 + |h| && n == |body| + |pad| && at + n <= |mid| == |fin|
    requires mid[at..at + |body|] == body && mid[at + |body|..at + n] == pad
    requires fin[d0..at] == h && fin[at..] == mid[at..]
    ensures fin[d0..at + n] == h + (body + pad)
  {
    TakeFrom(fin, at, n);
    TakeFrom(mid, at, n);
    CutAt(mid, at, at + |body|, at + n);
    CutAt(fin, d0, at, at + n);
  }

  lemma TakeFrom(s: seq<byte>, a: nat, n: nat)
    requires a + n <= |s|
    ensures s[a..][..n] == s[a..a + n]
  {
  }

  lemma CutAt(s: seq<byte>, a: nat, b: nat, c: nat)
    requires a <= b <= c <= |s|
    ensures s[a..c] == s[a..b] + s[b..c]
  {
  }

  lemma OutsideKept(was: seq<byte>, mid: seq<byte>, fin: seq<byte>, d0: nat, at: nat, end: nat)
    requires d0 <= at <= end <= |was| == |mid| == |fin|
    requires mid[..at] == was[..at] && fin[..d0] == mid[..d0] && fin[at..] == mid[at..]
    requires forall i :: end <= i < |was| ==> mid[i] == was[i]
    ensures fin[..d0] == was[..d0] && forall i :: end <= i < |was| ==> fin[i] == was[i]
  {
    assert mid[..d0] == mid[..at][..d0] && was[..d0] == was[..at][..d0];
    assert forall i :: at <= i < |was| ==> fin[i] == fin[at..][i - at] && mid[i] == mid[at..][i - at];
  }

  method FinishPacket(dest: array<byte>, d0: nat, size: nat, n: nat, compressed: bool, ghost body: seq<byte>,
                      ghost pad: seq<byte>, ghost end: nat)
    requires d0 + Base(size) + n <= end <= dest.Length && n == |body| + |pad|
    requires Base(size) + n < 0x1_0000_0000 && size < 0x1_0000_0000
    requires var at := d0 + Base(size); dest[at..at + |body|] == body && dest[at + |body|..at + n] == pad
    modifies dest
    ensures dest[d0..d0 + Base(size) + n] == Header(Base(size) + n, size, compressed) + (body + pad)
    ensures dest[..d0] == old(dest[..d0]) && forall i :: end <= i < dest.Length ==> dest[i] == old(dest[i])
  {
    hide Header;
    var at := d0 + Base(size);
    ghost var mid := dest[..];
    assert mid[at..at + |body|] == body && mid[at + |body|..at + n] == pad && mid[..d0] == dest[..d0];
    WriteHeader(dest, d0, n + Base(size), size, compressed);
    ghost var fin := dest[..];
    assert fin[d0..at] == dest[d0..at] && fin[at..] == dest[at..];
    Glue(mid, fin, d0, Header(n + Base(size), size, compressed), body, pad, at, n);
    assert fin[d0..at + n] == dest[d0..at + n] && fin[..d0] == dest[..d0];
    OutsideKept(mid, mid, fin, d0, at, end);
  }

  method MakeBody(st: CompressState, source: array<byte>, size: nat, dest: array<byte>, at: nat)
    returns (n: nat, compressed: bool)
    requires Ready(st) && Apart(st, source) && Apart(st, dest) && source != dest
    requires 0 < size <= source.Length && at + size + size / 8 + 21 <= dest.Length
    modifies dest, st, st.streamBuffer, st.slots, st.counts
    ensures Ready(st) && BodyDone(old(AsSender(st)), old(source[..size]), dest[..], at, n, compressed, AsSender(st))
    ensures dest[..at] == old(dest[..at])
    ensures forall i :: at + size + size / 8 + 21 <= i < dest.Length ==> dest[i] == old(dest[i])
  {
    if StartsOver(st.streamCounter, size) {
      n, compressed := FreshBody(st, source, size, dest, at);
    } else {
      n, compressed := StreamBody(st, source, size, dest, at);
    }
  }

  /** Puts the header in front of a body that is in place. */
  method SealPacket(dest: array<byte>, d0: nat, size: nat, n: nat, compressed: bool, ghost c: Sender,
                    ghost msg: seq<byte>)
    returns (r: nat, ghost pad: seq<byte>)
    requires 0 < size == |msg| <= MAX_SIZE && d0 + size + size / 8 + 400 <= dest.Length
    requires compressed == Outcome(c, msg).Packed? && n == |BodyOf(c, msg)| + PadSize(c, msg)
    requires d0 + Base(size) + n <= dest.Length
    requires dest[d0 + Base(size)..d0 + Base(size) + |BodyOf(c, msg)|] == BodyOf(c, msg)
    modifies dest
    ensures |pad| == PadSize(c, msg) && r <= size + size / 8 + 400
    ensures dest[d0..d0 + r] == PacketOf(c, msg, pad)
    ensures dest[..d0] == old(dest[..d0])
    ensures forall i :: d0 + size + size / 8 + 400 <= i < dest.Length ==> dest[i] == old(dest[i])
  {
    assert size < 0xffff_ffff;
    hide *;
    ghost var body, at := BodyOf(c, msg), d0 + Base(size);
    pad := dest[at + |body|..at + n];
    PacketFits(c, msg);
    PacketShape(c, msg, pad, Header(Base(size) + n, size, compressed), n);
    FinishPacket(dest, d0, size, n, compressed, body, pad, d0 + size + size / 8 + 400);
    r := n + Base(size);
  }

  lemma PacketFits(c: Sender, msg: seq<byte>)
    requires 0 < |msg| <= MAX_SIZE
    ensures var n := Base(|msg|) + |BodyOf(c, msg)| + PadSize(c, msg);
      n <= |msg| + |msg| / 8 + 400 && n < 0x1_0000_0000
  {
    BodySize(c, msg);
    hide Run, Emit, Outcome;
  }

  method CompressAccepted(source: array<byte>, size: nat, dest: array<byte>, d0: nat, st: CompressState)
    returns (r: nat, ghost pad: seq<byte>)
    requires Ready(st) && Apart(st, source) && Apart(st, dest) && source != dest
    requires 0 < size <= MAX_SIZE && size <= source.Length && d0 + size + size / 8 + 400 <= dest.Length
    modifies dest, st, st.streamBuffer, st.slots, st.counts
    ensures Ready(st)
    ensures var c, msg := old(AsSender(st)), old(source[..size]);
      && |pad| == PadSize(c, msg) && r <= size + size / 8 + 400
      && dest[d0..d0 + r] == PacketOf(c, msg, pad) && AsSender(st) == After(c, msg)
    ensures dest[..d0] == old(dest[..d0])
    ensures forall i :: d0 + size + size / 8 + 400 <= i < dest.Length ==> dest[i] == old(dest[i])
  {
    hide Run, Emit, Header, Outcome, After, BodyOf, PadSize, SenderOk, PacketOf;
    ghost var c, msg, at := AsSender(st), source[..size], d0 + Base(size);
    var n, compressed := MakeBody(st, source, size, dest, d0 + Base(size));
    ghost var next := AsSender(st);
    assert dest[at..at + |BodyOf(c, msg)|] == dest[..][at..at + |BodyOf(c, msg)|];
    assert dest[..d0] == dest[..at][..d0] && old(dest[..d0]) == old(dest[..at])[..d0];
    r, pad := SealPacket(dest, d0, size, n, compressed, c, msg);
    assert AsSender(st) == next;
  }

  /** Returns the packet's length, or 0 for a size that is not accepted. The packet at `dest[d0..]` is the one
      the specification gives; nothing past size + size/8 + 400 bytes is touched. */
  method QlzCompress(source: array<byte>, size: nat, dest: array<byte>, d0: nat, st: CompressState)
    returns (r: nat, ghost pad: seq<byte>)
    requires Ready(st) && Apart(st, source) && Apart(st, dest) && source != dest
    requires size <= source.Length && d0 + size + size / 8 + 400 <= dest.Length
    modifies dest, st, st.streamBuffer, st.slots, st.counts
    ensures Ready(st)
    ensures size == 0 || size > 0xffff_ffff - 400 ==>
      r == 0 && AsSender(st) == old(AsSender(st)) && dest[..] == old(dest[..])
    ensures 0 < size <= 0xffff_ffff - 400 ==>
      var c, msg := old(AsSender(st)), old(source[..size]);
      && |pad| == PadSize(c, msg) && r <= size + size / 8 + 400
      && dest[d0..d0 + r] == PacketOf(c, msg, pad) && AsSender(st) == After(c, msg)
    ensures dest[..d0] == old(dest[..d0])
    ensures forall i :: d0 + size + size / 8 + 400 <= i < dest.Length ==> dest[i] == old(dest[i])
  {
    hide Run, Emit, Header, Outcome, After, BodyOf, PadSize, SenderOk, PacketOf;
    if size == 0 || size > MAX_SIZE {
      r, pad := 0, [];
    } else {
      r, pad := CompressAccepted(source, size, dest, d0, st);
    }
  }

  // ---- decompression ----

  class DecompressState {
    const streamBuffer: array<byte>
    var streamCounter: nat

    constructor ()
      ensures Valid() && fresh(streamBuffer) && History() == []
    {
      streamBuffer := new byte[STREAM](i => 0);
      streamCounter := 0;
    }

    ghost predicate Valid()
      reads this
    {
      streamBuffer.Length == STREAM && streamCounter <= STREAM
    }

    ghost function History(): seq<byte>
      requires Valid()
      reads this, streamBuffer
    {
      streamBuffer[..streamCounter]
    }
  }

  /** When packet and destination share an array (the packet ending at `e`, the message going to the front),
      writing the message must not run into packet bytes still to be read: a compressed packet must be read ahead of
      the writer throughout, a stored one must not overlap the message. Via the history buffer anything goes. */
  predicate RoomInPlace(counter: nat, p: seq<byte>, e: nat)
    requires |p| >= 9
  {
    var d := SizeDecompressed(p);
    StartsOver(counter, d) ==>
      if IsCompressed(p) then ReadsAhead(p, e) else d + |p| <= e + HeaderSize(p)
  }

  predicate ReadsAhead(p: seq<byte>, e: nat)
    requires |p| >= 9
  {
    HeaderSize(p) <= |p| && BodyAhead(p[HeaderSize(p)..], SizeDecompressed(p), e)
  }

  /** The body ends at `e` and the message goes to the front. */
  predicate BodyAhead(body: seq<byte>, size: nat, e: nat)
  {
    var toks := Parse(body, 1, size);
    toks.Some? && InFront(toks.value, 0, e - |body|)
  }

  method DecodeFresh(source: array<byte>, body0: nat, ghost e: nat, dest: array<byte>, d: nat, compressed: bool)
    requires 0 < d <= dest.Length && body0 <= e <= source.Length
    requires if compressed then WellFormed(source[body0..e], 0, d) else e == body0 + d
    requires source == dest ==> if compressed then BodyAhead(source[body0..e], d, e) else d <= body0
    modifies dest
    ensures dest[..d] == var b := old(source[body0..e]); if compressed then Meaning(b, [], d) else b
    ensures dest[d..] == old(dest[d..])
  {
    hide WellFormed, Meaning;
    if compressed {
      assert dest[..0] == [];
      DecompressCore(source, body0, e, dest, 0, d);
    } else {
      Memcpy(dest, 0, source, body0, d);
      assert dest[..d] == dest[0..0 + d];
    }
  }

  method DecodeStream(source: array<byte>, body0: nat, ghost e: nat, dest: array<byte>, d: nat, compressed: bool,
                      st: DecompressState)
    requires st.Valid() && source != st.streamBuffer && dest != st.streamBuffer
    requires 0 < d <= dest.Length && body0 <= e <= source.Length && !StartsOver(st.streamCounter, d)
    requires if compressed then WellFormed(source[body0..e], st.streamCounter, d) else e == body0 + d
    modifies dest, st, st.streamBuffer
    ensures st.Valid() && |st.History()| == old(st.streamCounter) + d
    ensures var b, h := old(source[body0..e]), old(st.History());
            st.History() == if compressed then Meaning(b, h, d) else h + b
    ensures dest[..d] == st.History()[old(st.streamCounter)..] && dest[d..] == old(dest[d..])
  {
    hide WellFormed, Meaning;
    var k, buf := st.streamCounter, st.streamBuffer;
    if compressed {
      DecompressCore(source, body0, e, buf, k, d);
    } else {
      Memcpy(buf, k, source, body0, d);
      assert buf[..k + d] == buf[..k] + buf[k..k + d];
    }
    Memcpy(dest, 0, buf, k, d);
    st.streamCounter := k + d;
    assert st.History()[k..] == buf[k..k + d] && dest[..d] == dest[0..0 + d];
  }

  /** Delivers the message of the packet `source[at..e]` to `dest[..d]`, in place or not. */
  method QlzDecompress(source: array<byte>, at: nat, ghost e: nat, dest: array<byte>, st: DecompressState)
    returns (d: nat)
    requires st.Valid() && source != st.streamBuffer && dest != st.streamBuffer
    requires at <= e <= source.Length && Acceptable(st.History(), source[at..e])
    requires SizeDecompressed(source[at..e]) <= dest.Length
    requires source == dest ==> RoomInPlace(st.streamCounter, source[at..e], e)
    modifies dest, st, st.streamBuffer
    ensures var h, p := old(st.History()), old(source[at..e]);
      && d == SizeDecompressed(p) && dest[..d] == Decode(h, p)
      && st.Valid() && st.History() == ReceiverAfter(h, p)
    ensures dest[d..] == old(dest[d..])
  {
    hide WellFormed, Meaning, SizeDecompressed, SizeCompressed, HeaderSize, IsCompressed;
    ghost var h, p := st.History(), source[at..e];
    var header := source[at..at + 9];
    assert header == p[..9];
    NineBytesSuffice(p);
    d := SizeDecompressed(header);
    var body0 := at + HeaderSize(header);
    assert source[body0..e] == p[HeaderSize(p)..];
    if StartsOver(st.streamCounter, d) {
      DecodeFresh(source, body0, e, dest, d, IsCompressed(header));
      st.streamCounter := 0;
      assert st.streamBuffer[..0] == [];
    } else {
      DecodeStream(source, body0, e, dest, d, IsCompressed(header), st);
    }
    DecodeShape(h, p, d);
  }

  lemma DecodeShape(h: seq<byte>, p: seq<byte>, d: nat)
    requires Acceptable(h, p) && d == SizeDecompressed(p)
    ensures var b := p[HeaderSize(p)..];
      if StartsOver(|h|, d) then Decode(h, p) == (if IsCompressed(p) then Meaning(b, [], d) else b)
      else Decode(h, p) == (if IsCompressed(p) then Meaning(b, h, d) else h + b)[|h|..]
           && h + Decode(h, p) == (if IsCompressed(p) then Meaning(b, h, d) else h + b)
  {
    hide SizeDecompressed, SizeCompressed, HeaderSize, IsCompressed, Parse, Expand;
    if IsCompressed(p) { ExpandKeeps(h, Parse(p[HeaderSize(p)..], 1, d).value); }
  }
}
