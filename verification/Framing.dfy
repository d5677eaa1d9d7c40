/** Frames and the two buffers they pass through. `z` is the width of a frame's length field: the size of the
    integer type a buffer is instantiated with. */
module Framing {
  import opened Bytes
  import opened Varint

  // ---- frames as values ----

  /** A frame counts itself: length field, then an optional message id, then the payload. */
  function Frame(z: nat, id: seq<byte>, payload: seq<byte>): seq<byte>
  {
    Le(z + |id| + |payload|, z) + id + payload
  }

  predicate IsFrame(z: nat, f: seq<byte>)
  {
    0 < z <= |f| && FromLe(f[..z]) == |f|
  }

  function Concat(fs: seq<seq<byte>>): seq<byte>
  {
    if fs == [] then [] else fs[0] + Concat(fs[1..])
  }

  /** The frames a packet consists of, if it does. */
  function Split(z: nat, p: seq<byte>): Option<seq<seq<byte>>>
    decreases |p|
  {
    if p == [] then Some([])
    else if z == 0 || |p| < z then None
    else
      var n := FromLe(p[..z]);
      if n < z || n > |p| then None
      else
        var r := Split(z, p[n..]);
        if r.None? then None else Some([p[..n]] + r.value)
  }

  lemma {:induction false} ConcatAppend(fs: seq<seq<byte>>, f: seq<byte>)
    ensures Concat(fs + [f]) == Concat(fs) + f
  {
    if fs == [] {
      assert Concat([f]) == f + Concat([]);
    } else {
      assert (fs + [f])[1..] == fs[1..] + [f];
      ConcatAppend(fs[1..], f);
    }
  }

  /** Walking a concatenation of frames finds exactly those frames. */
  lemma {:induction false} SplitConcat(z: nat, fs: seq<seq<byte>>)
    requires forall f <- fs :: IsFrame(z, f)
    ensures Split(z, Concat(fs)) == Some(fs)
  {
    if fs != [] {
      var f, rest := fs[0], Concat(fs[1..]);
      assert f in fs && IsFrame(z, f);
      SplitConcat(z, fs[1..]);
      var p := f + rest;
      assert p[..z] == f[..z] && p[..|f|] == f && p[|f|..] == rest;
      assert fs == [f] + fs[1..];
    }
  }

  lemma {:induction false} ConcatSplit(z: nat, p: seq<byte>)
    requires Split(z, p).Some?
    ensures Concat(Split(z, p).value) == p && forall f <- Split(z, p).value :: IsFrame(z, f)
    decreases |p|
  {
    if p != [] {
      var n := FromLe(p[..z]);
      ConcatSplit(z, p[n..]);
      assert p[..n][..z] == p[..z];
      var fs := Split(z, p).value;
      assert fs[0] == p[..n] && fs[1..] == Split(z, p[n..]).value;
    }
  }

  lemma {:induction false} FromLeOfLe(f: nat, n: nat)
    requires f < Pow256(n)
    ensures FromLe(Le(f, n)) == f
  {
    if n > 0 {
      LeHead(f, n);
      FromLeOfLe(f / 256, n - 1);
    }
  }

  lemma FrameIsFrame(z: nat, id: seq<byte>, payload: seq<byte>)
    requires 0 < z && z + |id| + |payload| < Pow256(z)
    ensures IsFrame(z, Frame(z, id, payload))
  {
    FromLeOfLe(z + |id| + |payload|, z);
    assert Frame(z, id, payload)[..z] == Le(z + |id| + |payload|, z);
  }

  lemma IsFrameLe(z: nat, n: nat, body: seq<byte>)
    requires 0 < z && n == z + |body| && n < Pow256(z)
    ensures IsFrame(z, Le(n, z) + body)
  {
    FromLeOfLe(n, z);
    assert (Le(n, z) + body)[..z] == Le(n, z);
  }

  lemma Joined(a: array<byte>, i: nat, e: nat, l: seq<byte>, body: seq<byte>)
    requires i + |l| + |body| == e <= a.Length && a[i..i + |l|] == l
    requires forall k :: 0 <= k < |body| ==> a[i + |l| + k] == body[k]
    ensures a[i..e] == l + body
  {
    assert a[i + |l|..e] == body;
    assert a[i..e] == a[i..i + |l|] + a[i + |l|..e];
  }

  lemma Rebuilt(a: array<byte>, i: nat, z: nat, e: nat, was: seq<byte>, l: seq<byte>, body: seq<byte>)
    requires i + z <= e <= a.Length && a[..i] == was && a[i..i + z] == l
    requires |body| == e - (i + z) && forall k :: 0 <= k < |body| ==> a[i + z + k] == body[k]
    ensures a[..e] == was + (l + body)
  {
    assert a[i + z..e] == body;
    assert a[..e] == a[..i] + (a[i..i + z] + a[i + z..e]);
  }

  lemma Pieces(a: seq<byte>, b: seq<byte>, c: seq<byte>)
    ensures var s := a + (b + c); s[|a|..|a| + |b|] == b && s[|a| + |b|..] == c
  {
  }

  /** A string as it is sent, length first, is read back by its length and bytes whatever follows. */
  lemma StringReadsBack(text: seq<byte>, rest: seq<byte>)
    requires |text| < 0x8000_0000
    ensures var s := Encode(|text|) + (text + rest);
      Decode(s).Some? && var (v, k) := Decode(s).value;
      ToSigned(v % TWO32) == |text| && k + |text| <= |s| && s[k..k + |text|] == text && s[k + |text|..] == rest
  {
    hide Encode, Decode;
    DecodeEncode(|text|, text + rest);
    Pieces(Encode(|text|), text, rest);
  }

  // ---- sizes and the index type ----

  /** Half the range of the index type: a signed integer of `z` bytes. */
  function Half(z: nat): int { if z == 2 then 0x8000 else 0x8000_0000 }

  /** What an `int` becomes when it is converted to the index type. */
  function Narrow(n: int, z: nat): int { (n + Half(z)) % (2 * Half(z)) - Half(z) }

  predicate Granted(size: nat, z: nat, room: nat) { Narrow(size, z) <= room }

  /** The room test can be relied on for a size exactly when the size survives the conversion. */
  lemma GrantSound(size: nat, z: nat)
    requires size < 0x8000_0000
    ensures (forall room: nat :: room < Half(z) && Granted(size, z, room) ==> size <= room) <==> Narrow(size, z) == size
  {
    NarrowExactly(size, z);
    if size >= Half(z) {
      assert Granted(size, z, Half(z) - 1);
    }
  }

  lemma NarrowExactly(size: nat, z: nat)
    requires size < 0x8000_0000
    ensures Narrow(size, z) == size <==> size < Half(z)
    ensures -Half(z) <= Narrow(size, z) < Half(z)
  {
  }

  /** The conversion keeps the low 16 or 32 bits and reads them as a signed number. */
  lemma NarrowIs(n: int)
    ensures -0x8000 <= Narrow(n, 2) < 0x8000 && (n - Narrow(n, 2)) % 0x1_0000 == 0
    ensures -0x8000_0000 <= Narrow(n, 4) < 0x8000_0000 && (n - Narrow(n, 4)) % 0x1_0000_0000 == 0
  {
    Remainder(n + 0x8000, 0x1_0000);
    Remainder(n + 0x8000_0000, 0x1_0000_0000);
  }

  lemma Remainder(x: int, d: int)
    requires d > 0
    ensures 0 <= x % d < d && (x - x % d) % d == 0
  {
    var q := x / d;
    assert x - x % d == d * q;
    MultipleOf(d, q);
  }

  lemma MultipleOf(d: int, q: int)
    requires d > 0
    ensures (d * q) % d == 0
  {
    var r, p := (d * q) % d, (d * q) / d;
    assert d * (q - p) == r;
    assert q - p >= 1 ==> d * (q - p) >= d;
    assert q - p <= -1 ==> d * (q - p) <= -d;
  }

  /** 40000 bytes are granted in any 16-bit buffer, however full, and move its index backwards. */
  lemma FortyThousand(room: nat)
    ensures Narrow(40000, 2) == -25536 && Granted(40000, 2, room)
  {
  }

  /** What becomes of a piece: written, refused with an exception, or granted although it is larger than the
      room, so that it is copied past the end of the buffer. */
  datatype Fate = Written | Full | Overrun

  function FateOf(size: nat, z: nat, room: int): Fate
  {
    if Narrow(size, z) > room then Full else if size > room then Overrun else Written
  }

  lemma OneByte(z: nat, room: int)
    ensures FateOf(1, z, room) == if 1 <= room then Written else Full
  {
  }

  /** Piece after piece, until one is not written. */
  function FateOfAll(ps: seq<seq<byte>>, z: nat, room: int): Fate
    decreases |ps|
  {
    if ps == [] then Written
    else
      var f := FateOf(|ps[0]|, z, room);
      if f == Written then FateOfAll(ps[1..], z, room - |ps[0]|) else f
  }

  /** Pieces that survive the conversion are never copied past the end: they are written exactly when
      together they fit. */
  lemma {:induction false} SmallPieces(ps: seq<seq<byte>>, z: nat, room: nat)
    requires room < Half(z) && forall p <- ps :: |p| < Half(z)
    ensures FateOfAll(ps, z, room) == if |Concat(ps)| <= room then Written else Full
  {
    if ps != [] {
      assert ps[0] in ps;
      NarrowExactly(|ps[0]|, z);
      hide Narrow, Half;
      if |ps[0]| <= room { SmallPieces(ps[1..], z, room - |ps[0]|); }
    }
  }

  /** Where an overrun comes from: a piece too large for what the pieces before it left, of which the index
      type keeps little enough. */
  ghost predicate RunsAway(ps: seq<seq<byte>>, z: nat, room: int, k: nat)
    requires k < |ps|
  {
    var left := room - |Concat(ps[..k])|;
    0 <= left < |ps[k]| && Narrow(|ps[k]|, z) <= left
  }

  lemma RunsAwayNext(ps: seq<seq<byte>>, z: nat, room: int, k: nat)
    requires k + 1 < |ps|
    ensures RunsAway(ps, z, room, k + 1) <==> RunsAway(ps[1..], z, room - |ps[0]|, k)
  {
    assert ps[..k + 1][1..] == ps[1..][..k];
  }

  /** A marshal call copies past the end of its buffer exactly when one of its pieces runs away. */
  lemma {:induction false} OverrunExactly(ps: seq<seq<byte>>, z: nat, room: nat)
    requires room < Half(z) && forall p <- ps :: |p| < 0x8000_0000
    ensures FateOfAll(ps, z, room) == Overrun <==> exists k: nat :: k < |ps| && RunsAway(ps, z, room, k)
  {
    if ps != [] {
      var rest, n := ps[1..], |ps[0]|;
      assert ps[0] in ps && ps[..0] == [];
      NarrowExactly(n, z);
      assert RunsAway(ps, z, room, 0) <==> FateOf(n, z, room) == Overrun;
      if n <= room {
        var left := room - n;
        OverrunExactly(rest, z, left);
        forall k: nat | k < |rest| && RunsAway(rest, z, left, k)
          ensures RunsAway(ps, z, room, k + 1)
        {
          RunsAwayNext(ps, z, room, k);
        }
      }
      forall k: nat | 0 < k < |ps| && RunsAway(ps, z, room, k)
        ensures n <= room && RunsAway(rest, z, room - n, k - 1)
      {
        RunsAwayNext(ps, z, room, k - 1);
        ConcatPrefix(ps[..k], 1);
        assert ps[..k][..1] == [ps[0]] && Concat([ps[0]]) == ps[0] + Concat([]);
      }
    }
  }

  // ---- sending ----

  class SendBuffer {
    const buf: array<byte>
    const z: nat
    var savedSize: nat
    var index: int
    ghost var frames: seq<seq<byte>>

    /** `frames` are the frames completed since the last reset. */
    ghost predicate Valid()
      reads this, buf
    {
      && (z == 2 || z == 4) && buf.Length < Half(z) && savedSize <= index <= buf.Length
      && buf[..savedSize] == Concat(frames) && forall f <- frames :: IsFrame(z, f)
    }

    constructor (addr: array<byte>, z: nat)
      requires (z == 2 || z == 4) && addr.Length < Half(z)
      ensures Valid() && buf == addr && this.z == z && frames == [] && index == savedSize == 0
    {
      buf, this.z, savedSize, index, frames := addr, z, 0, 0, [];
    }

    /** The position of the reserved bytes; None is the exception. A negative size moves the index back. */
    method ReserveBytes(n: int) returns (at: Option<nat>)
      requires Valid() && -Half(z) <= n < Half(z)
      modifies `index
      ensures if n > buf.Length - old(index) then at == None && index == old(index)
              else at == Some(old(index)) && index == old(index) + n
      ensures Valid() <==> (at.Some? ==> old(savedSize) - old(index) <= n)
    {
      if n > buf.Length - index { return None; }
      at := Some(index);
      index := index + n;
    }

    /** Appends the bytes, or raises. After an overrun nothing is promised about the buffer: the bytes that do
        not fit go to whatever lies behind it. */
    method Receive(data: seq<byte>) returns (r: Fate)
      requires Valid() && |data| < 0x8000_0000
      modifies `index, buf
      ensures r == FateOf(|data|, z, buf.Length - old(index))
      ensures r != Overrun ==> Valid() && buf[..index] == old(buf[..index]) + if r == Written then data else []
      ensures r == Written ==> index == old(index) + |data|
      ensures r == Overrun ==> index == old(index) + Narrow(|data|, z)
    {
      hide Concat, IsFrame, Narrow, Half;
      NarrowExactly(|data|, z);
      var at := ReserveBytes(Narrow(|data|, z));
      if at.None? {
        assert buf[..index] == old(buf[..index]) + [];
        return Full;
      }
      var n := if |data| > buf.Length - at.value then buf.Length - at.value else |data|;
      forall i | 0 <= i < n { buf[at.value + i] := data[i]; }
      if n < |data| { return Overrun; }
      r := Written;
      assert buf[..savedSize] == old(buf[..savedSize]);
      assert buf[..index] == old(buf[..index]) + data;
    }

    /** Writes an integer in variable-length format, byte by byte; out of room it stops where it is. */
    method PutVarint(v: int32) returns (ok: bool)
      requires Valid()
      modifies `index, buf
      ensures Valid() && (ok <==> |Encode(ToUnsigned(v))| <= buf.Length - old(index))
      ensures ok ==> index == old(index) + |Encode(ToUnsigned(v))|
      ensures ok ==> buf[..index] == old(buf[..index]) + Encode(ToUnsigned(v))
    {
      hide Concat, IsFrame, ToUnsigned, FateOf, Narrow, Half, Encode;
      var n: nat := ToUnsigned(v);
      ghost var done: seq<byte>, all := [], Encode(n);
      assert old(buf[..index]) + [] == buf[..index];
      while true
        invariant Valid() && index == old(index) + |done| && all == done + Encode(n)
        invariant buf[..index] == old(buf[..index]) + done
        decreases n
      {
        EncodeStep(n);
        var a := n % 128;
        n := n / 128;
        OneByte(z, buf.Length - index);
        if n == 0 {
          var last := Receive([a]);
          ok := last == Written;
          Assoc(old(buf[..index]), done, [a]);
          return;
        }
        var more := Receive([a + 128]);
        ok := more == Written;
        if !ok { return; }
        n := n - 1;
        Assoc(done, [a + 128], Encode(n));
        Assoc(old(buf[..index]), done, [a + 128]);
        done := done + [a + 128];
      }
    }

    method ReceiveAt(where: nat, data: seq<byte>)
      requires Valid() && savedSize <= where && where + |data| <= buf.Length
      modifies buf
      ensures Valid()
      ensures buf[..where] == old(buf[..where]) && buf[where..where + |data|] == data
      ensures forall i :: where + |data| <= i < buf.Length ==> buf[i] == old(buf[i])
    {
      forall i | 0 <= i < |data| { buf[where + i] := data[i]; }
      assert buf[..savedSize] == old(buf[..savedSize]);
    }

    /** Completes the open frame, or refuses one longer than `max`. */
    method FillInSize(max: int) returns (ok: bool)
      requires Valid() && savedSize + z <= index
      modifies `savedSize, `frames, buf
      ensures Valid() && (ok <==> index - old(savedSize) <= max)
      ensures ok ==> savedSize == index
                     && frames == old(frames) + [Le(index - old(savedSize), z) + old(buf[savedSize + z..index])]
      ensures !ok ==> savedSize == old(savedSize) && frames == old(frames)
    {
      var n := index - savedSize;
      if n > max { return false; }
      ghost var was, body := buf[..savedSize], buf[savedSize + z..index];
      ReceiveAt(savedSize, Le(n, z));
      ok := true;
      ghost var f := Le(n, z) + body;
      Rebuilt(buf, savedSize, z, index, was, Le(n, z), body);
      IsFrameLe(z, n, body);
      ConcatAppend(frames, f);
      hide Concat, Le, IsFrame;
      frames := frames + [f];
      savedSize := index;
    }

    method Reset()
      requires Valid()
      modifies `savedSize, `index, `frames
      ensures Valid() && savedSize == index == 0 && frames == []
    {
      savedSize, index, frames := 0, 0, [];
      assert buf[..0] == [];
    }

    method Rollback()
      requires Valid()
      modifies `index
      ensures Valid() && index == savedSize
    {
      index := savedSize;
    }

    /** Fills in the id behind the length field, then the length. */
    method FillInHdr(max: int, id: seq<byte>) returns (ok: bool)
      requires Valid() && savedSize + z + |id| <= index
      modifies `savedSize, `frames, buf
      ensures Valid() && (ok <==> index - old(savedSize) <= max)
      ensures ok ==> savedSize == index
      ensures ok ==> frames == old(frames) + [Frame(z, id, old(buf[savedSize + z + |id|..index]))]
      ensures !ok ==> savedSize == old(savedSize) && frames == old(frames)
    {
      ghost var payload := buf[savedSize + z + |id|..index];
      var at := savedSize + z;
      ReceiveAt(at, id);
      Joined(buf, at, index, id, payload);
      Assoc(Le(index - savedSize, z), id, payload);
      ok := FillInSize(max);
    }

    /** The body of a marshal call: piece after piece, until one is not written. */
    method Take(pieces: seq<seq<byte>>) returns (r: Fate)
      requires Valid() && forall p <- pieces :: |p| < 0x8000_0000
      modifies `index, buf
      ensures r == FateOfAll(pieces, z, buf.Length - old(index)) && (r != Overrun ==> Valid())
      ensures r == Written ==> index == old(index) + |Concat(pieces)|
      ensures r == Written ==> buf[..index] == old(buf[..index]) + Concat(pieces)
    {
      hide FateOf, Concat, IsFrame;
      r := Written;
      var k := 0;
      assert pieces[0..] == pieces;
      NothingTaken(pieces, old(buf[..index]));
      while k < |pieces|
        invariant 0 <= k <= |pieces| && Valid() && r == Written
        invariant index == old(index) + |Concat(pieces[..k])|
        invariant buf[..index] == old(buf[..index]) + Concat(pieces[..k])
        invariant FateOfAll(pieces, z, buf.Length - old(index)) == FateOfAll(pieces[k..], z, buf.Length - index)
      {
        assert pieces[k..][1..] == pieces[k + 1..] && pieces[k] in pieces;
        assert pieces[..k + 1] == pieces[..k] + [pieces[k]];
        ConcatAppend(pieces[..k], pieces[k]);
        r := Receive(pieces[k]);
        if r != Written { return; }
        Assoc(old(buf[..index]), Concat(pieces[..k]), pieces[k]);
        k := k + 1;
      }
      assert pieces[..k] == pieces && pieces[k..] == [];
    }

    /** One marshal call: reserve the header, take the pieces, fill in id and size; any exception rolls back.
        Unless a piece runs away, the frame is added whole or not at all, and refused exactly when it does
        not fit. */
    method Marshal(id: seq<byte>, pieces: seq<seq<byte>>, max: int) returns (r: Fate)
      requires Valid() && index == savedSize
      requires z + |id| < Half(z) && forall p <- pieces :: |p| < 0x8000_0000
      modifies this, buf
      ensures r == MarshalFate(|id|, pieces, z, buf.Length - old(index), max)
      ensures r != Overrun ==> Valid() && index == savedSize
      ensures r != Overrun ==> frames == old(frames) + if r == Written then [Frame(z, id, Concat(pieces))] else []
    {
      NarrowExactly(z + |id|, z);
      var at := ReserveBytes(z + |id|);
      if at.None? { return Full; }
      ghost var start, n := savedSize, index;
      r := Take(pieces);
      if r == Overrun { return; }
      if r == Written {
        assert buf[n..index] == Concat(pieces);
        WrittenFits(pieces, z, buf.Length - n);
        var ok := FillInHdr(max, id);
        if !ok { r := Full; }
      }
      if r == Full { Rollback(); }
    }
  }

  lemma NothingTaken(pieces: seq<seq<byte>>, was: seq<byte>)
    ensures pieces[..0] == [] && Concat(pieces[..0]) == [] && was + Concat(pieces[..0]) == was
  {
  }

  /** A whole marshal call: header, pieces, size limit. */
  function MarshalFate(id: nat, pieces: seq<seq<byte>>, z: nat, room: int, max: int): Fate
  {
    if z + id > room then Full
    else
      var f := FateOfAll(pieces, z, room - (z + id));
      if f == Written && z + id + |Concat(pieces)| > max then Full else f
  }

  /** Without pieces too large for the index type: whole exactly when it fits room and limit, else refused. */
  lemma MarshalExactly(id: nat, pieces: seq<seq<byte>>, z: nat, room: nat, max: int)
    requires room < Half(z) && forall p <- pieces :: |p| < Half(z)
    ensures MarshalFate(id, pieces, z, room, max)
            == if z + id + |Concat(pieces)| <= Min(room, max) then Written else Full
  {
    if z + id <= room { SmallPieces(pieces, z, room - (z + id)); }
  }

  lemma {:induction false} WrittenFits(ps: seq<seq<byte>>, z: nat, room: int)
    requires FateOfAll(ps, z, room) == Written && 0 <= room
    ensures |Concat(ps)| <= room
  {
    if ps != [] { WrittenFits(ps[1..], z, room - |ps[0]|); }
  }

  lemma {:induction false} ConcatPrefix(fs: seq<seq<byte>>, k: nat)
    requires k <= |fs|
    ensures |Concat(fs[..k])| <= |Concat(fs)|
    decreases |fs| - k
  {
    if k < |fs| {
      assert fs[..k + 1] == fs[..k] + [fs[k]];
      ConcatAppend(fs[..k], fs[k]);
      ConcatPrefix(fs, k + 1);
    } else {
      assert fs[..k] == fs;
    }
  }

  // ---- receiving ----

  lemma ArraySlices(a: array<byte>, at: nat, k: nat, e: nat)
    requires at + k <= e <= a.Length
    ensures a[at..e][..k] == a[at..at + k] && a[at..e][k..] == a[at + k..e]
  {
  }

  /** Bytes are made of frames exactly when they start with a length that leaves them room for it and the
      rest is made of frames. */
  lemma SplitCases(z: nat, p: seq<byte>)
    requires 0 < z && p != []
    ensures Split(z, p).Some? <==> z <= |p| && var n := FromLe(p[..z]); z <= n <= |p| && Split(z, p[n..]).Some?
    ensures Split(z, p).Some? ==>
      var n := FromLe(p[..z]); IsFrame(z, p[..n]) && Split(z, p).value == [p[..n]] + Split(z, p[n..]).value
  {
    hide FromLe;
    if z <= |p| && z <= FromLe(p[..z]) <= |p| { assert p[..FromLe(p[..z])][..z] == p[..z]; }
  }

  /** The same in an array. */
  lemma FirstFrame(a: array<byte>, at: nat, e: nat, z: nat)
    requires 0 < z && at < e <= a.Length
    ensures Split(z, a[at..e]).Some? <==>
      at + z <= e && var n := FromLe(a[at..at + z]); z <= n <= e - at && Split(z, a[at + n..e]).Some?
    ensures Split(z, a[at..e]).Some? ==>
      var n := FromLe(a[at..at + z]);
      IsFrame(z, a[at..at + n]) && Split(z, a[at..e]).value == [a[at..at + n]] + Split(z, a[at + n..e]).value
  {
    hide Split, FromLe, IsFrame;
    SplitCases(z, a[at..e]);
    if at + z <= e {
      ArraySlices(a, at, z, e);
      var n := FromLe(a[at..at + z]);
      if n <= e - at { ArraySlices(a, at, n, e); }
    }
  }

  lemma {:induction false} FromLeBound(s: seq<byte>)
    ensures FromLe(s) < Pow256(|s|)
  {
    if s != [] { FromLeBound(s[1..]); }
  }

  lemma Pow256Four()
    ensures Pow256(2) == 0x1_0000 && Pow256(4) == 0x1_0000_0000
  {
  }

  lemma FromIndex(s: seq<byte>, i: nat)
    requires i <= |s|
    ensures (s[i..] == [] <==> i == |s|) && (i == 0 ==> s[i..] == s)
    ensures i < |s| ==> s[i..][0] == s[i] && s[i..][1..] == s[i + 1..]
  {
  }

  lemma Slices(s: seq<byte>, k: nat, n: nat)
    requires k + n <= |s|
    ensures s[k..][..n] == s[k..k + n] && s[k..][n..] == s[k + n..]
  {
  }

  lemma NothingToSplit(z: nat, p: seq<byte>)
    ensures p == [] ==> Split(z, p) == Some([])
    ensures p != [] && Split(z, p).Some? ==> Split(z, p).value != []
  {
  }

  const TWO64: nat := 0x1_0000_0000_0000_0000

  /** An `int` as the size of a span. */
  function SizeT(n: int32): nat { if n < 0 then n + TWO64 else n }

  /** The length field of a file, as the `int` it is read into. */
  function FileLength(s: seq<byte>): int32
    requires |s| >= 4
  {
    FromLeBound(s[..4]);
    Pow256Four();
    ToSigned(FromLe(s[..4]))
  }

  /** The decoded length of a string, as an `int`. */
  function StringLength(s: seq<byte>): int32
    requires Decode(s).Some?
  {
    ToSigned(Decode(s).value.0 % TWO32)
  }

  /** What a read yields: the exception, bytes, or a copy that runs out of the frame and far beyond. */
  datatype Gift = Raised | Given(bytes: seq<byte>) | Runaway

  lemma RoomForLength(a: array<byte>, at: nat, e: nat, z: nat)
    requires 0 < z && at <= e <= a.Length && Split(z, a[at..e]).Some?
    ensures at < e ==> at + z <= e
  {
    if at < e { SplitCases(z, a[at..e]); }
  }

  class ReceiveBuffer {
    const rbuf: array<byte>
    const z: nat
    var msgLength: int
    var subTotal: int
    var packetLength: nat
    var rindex: int

    constructor (addr: array<byte>, z: nat)
      ensures rbuf == addr && this.z == z
    {
      rbuf, this.z, msgLength, subTotal, packetLength, rindex := addr, z, 0, 0, 0, 0;
    }

    ghost predicate Sized() { (z == 2 || z == 4) && rbuf.Length < 0x8000_0000 }

    /** The walk stands at the end of a frame (or in front of the first) of a packet made of frames. */
    ghost predicate InPacket()
      reads `subTotal, `msgLength, `packetLength, rbuf
    {
      && Sized() && 0 <= subTotal && 0 <= msgLength && subTotal + msgLength <= packetLength <= rbuf.Length
      && Split(z, rbuf[subTotal + msgLength..packetLength]).Some?
    }

    /** A frame is open: `rindex` is past its length field and not past its end. */
    ghost predicate Open()
      reads this, rbuf
    {
      InPacket() && z <= rindex <= msgLength && IsFrame(z, Current())
    }

    ghost function Current(): seq<byte>
      requires InPacket()
      reads `subTotal, `msgLength, `packetLength, rbuf
    {
      rbuf[subTotal..subTotal + msgLength]
    }

    /** What of the current frame has not been given yet. */
    ghost function Rest(): seq<byte>
      requires InPacket() && 0 <= rindex <= msgLength
      reads this, rbuf
    {
      rbuf[subTotal + rindex..subTotal + msgLength]
    }

    /** The frames after the current one. */
    ghost function Pending(): seq<seq<byte>>
      requires InPacket()
      reads `subTotal, `msgLength, `packetLength, rbuf
    {
      Split(z, rbuf[subTotal + msgLength..packetLength]).value
    }

    /** The next `len` bytes of the frame, or the exception when it has fewer left. The test compares signed numbers,
        so it also passes a negative length: then nearly 2^64 bytes are copied, and the reader moves back. What is
        copied lies in the frame exactly when the length is not negative. */
    method Give(len: int32) returns (r: Gift)
      requires Open()
      modifies `rindex
      ensures var s := old(Rest());
        if len > |s| then r == Raised && rindex == old(rindex)
        else rindex == old(rindex) + len && if len < 0 then r == Runaway else r == Given(s[..len])
      ensures r != Runaway ==> Open() && Current() == old(Current()) && Pending() == old(Pending())
      ensures r.Given? ==> Rest() == old(Rest())[len..]
    {
      hide IsFrame, Split;
      if len > msgLength - rindex { return Raised; }
      if len < 0 {
        r := Runaway;
      } else {
        r := Given(rbuf[subTotal + rindex..subTotal + rindex + len]);
        assert rbuf[subTotal + rindex..subTotal + rindex + len] == Rest()[..len];
      }
      rindex := rindex + len;
    }

    /** A string of fewer than `n` bytes, its length first. Only the upper limit is tested. */
    method GiveFixedString(n: nat) returns (r: Gift)
      requires Open()
      modifies `rindex
      ensures var s := old(Rest());
        if Decode(s).None? || StringLength(s) >= n || StringLength(s) > |s| - Decode(s).value.1 then r == Raised
        else if StringLength(s) < 0 then r == Runaway
        else r == Given(s[Decode(s).value.1..][..StringLength(s)])
      ensures r != Runaway ==> Open()
    {
      hide Decode, IsFrame, Split, ToSigned, FromLe;
      var len := GiveVarint();
      if len.None? || len.value >= n { return Raised; }
      r := Give(len.value);
    }

    method GiveByte() returns (r: Option<byte>)
      requires Open()
      modifies `rindex
      ensures Open() && Current() == old(Current()) && Pending() == old(Pending())
      ensures if old(Rest()) == [] then r == None && Rest() == []
              else r == Some(old(Rest())[0]) && Rest() == old(Rest())[1..]
    {
      var b := Give(1);
      r := if b == Raised then None else Some(b.bytes[0]);
    }

    /** Reads a variable-length integer with wrapping 32-bit arithmetic; running out of bytes is the exception. */
    method GiveVarint() returns (r: Option<int32>)
      requires Open()
      modifies `rindex
      ensures Open() && Current() == old(Current()) && Pending() == old(Pending())
      ensures var s := old(Rest());
        if Decode(s).None? then r == None && Rest() == []
        else r == Some(ToSigned(Decode(s).value.0 % TWO32)) && Rest() == s[Decode(s).value.1..]
    {
      hide Decode, ToSigned, Underway, IsFrame, Split, Add, ShiftOn, FromLe;
      ghost var all, i: nat := Rest(), 0;
      var value: ui32, shift: ui32 := 0, 1;
      UnderwayStart(all);
      FromIndex(all, 0);
      while true
        invariant Open() && i <= |all| && Rest() == all[i..] && Underway(all, i, value, shift)
        decreases |all| - i
      {
        FromIndex(all, i);
        UnderwayEnds(all, i, value, shift);
        var b := GiveByte();
        if b.None? { return None; }
        var a := b.value;
        if a < 128 { return Some(ToSigned(Add(value, shift, a))); }
        UnderwayOn(all, i, value, shift);
        value := Add(value, shift, a - 128);
        shift := ShiftOn(shift);
        value := Add(value, shift, 1);
        i := i + 1;
      }
    }

    /** A byte that must be 0 or 1. */
    method GiveBool() returns (r: Option<bool>)
      requires Open()
      modifies `rindex
      ensures Open() && Current() == old(Current()) && Pending() == old(Pending())
      ensures var s := old(Rest());
        if s == [] then r == None && Rest() == s
        else Rest() == s[1..] && r == if s[0] == 0 then Some(false) else if s[0] == 1 then Some(true) else None
    {
      var b := GiveByte();
      if b.None? { return None; }
      r := if b.value == 0 then Some(false) else if b.value == 1 then Some(true) else None;
    }

    /** A span of the buffer from where the reader stands. The test compares signed numbers, so it also passes a
        negative length, which moves the reader back and makes a span of nearly 2^64 bytes. */
    method GiveSpan(len: int32) returns (r: Option<(nat, nat)>)
      requires Open()
      modifies `rindex
      ensures var s := old(Rest());
        if len > |s| then r == None && rindex == old(rindex)
        else r == Some((subTotal + old(rindex), SizeT(len))) && rindex == old(rindex) + len
      ensures r.Some? ==> (Inside(r.value) <==> 0 <= len)
      ensures r == None || 0 <= len ==> Open() && Current() == old(Current()) && Pending() == old(Pending())
      ensures r.Some? && 0 <= len ==>
        Rest() == old(Rest())[len..] && rbuf[r.value.0..r.value.0 + len] == old(Rest())[..len]
    {
      hide IsFrame, Split;
      if len > msgLength - rindex { return None; }
      assert 0 <= len ==> rbuf[subTotal + rindex..subTotal + rindex + len] == Rest()[..len];
      r := Some((subTotal + rindex, SizeT(len)));
      rindex := rindex + len;
    }

    /** The span ends within the frame. */
    ghost predicate Inside(span: (nat, nat))
      reads this
    {
      span.0 + span.1 <= subTotal + msgLength
    }

    /** A file: four bytes of length, then that many bytes, handed out as a span. What is handed out lies in the
        frame exactly when the length, read as a signed number, is not negative. */
    method GiveFile() returns (r: Option<(nat, nat)>)
      requires Open()
      modifies `rindex
      ensures var s := old(Rest());
        if |s| < 4 || FileLength(s) > |s| - 4 then r == None
        else
          && r == Some((subTotal + old(rindex) + 4, SizeT(FileLength(s)))) && (Inside(r.value) <==> 0 <= FileLength(s))
          && (0 <= FileLength(s) ==>
                Open() && Rest() == s[4 + FileLength(s)..]
                && rbuf[r.value.0..r.value.0 + r.value.1] == s[4..4 + FileLength(s)])
    {
      hide FromLe, IsFrame, Split, Pow256, ToSigned;
      ghost var s := Rest();
      var b := Give(4);
      if b == Raised { return None; }
      FromLeBound(b.bytes);
      Pow256Four();
      var n := ToSigned(FromLe(b.bytes));
      assert n == FileLength(s);
      hide FileLength;
      r := GiveSpan(n);
      if 0 <= n <= |s| - 4 {
        Slices(s, 4, n);
        assert Rest() == s[4 + n..];
      }
    }

    /** A string: its length in variable-length format, then its bytes. Again only a length that is not negative
        stays in the frame. */
    method GiveStringView() returns (r: Option<(nat, nat)>)
      requires Open()
      modifies `rindex
      ensures var s := old(Rest());
        if Decode(s).None? || StringLength(s) > |s| - Decode(s).value.1 then r == None
        else
          var n, k := StringLength(s), Decode(s).value.1;
          && r == Some((subTotal + old(rindex) + k, SizeT(n))) && (Inside(r.value) <==> 0 <= n)
          && (0 <= n ==> Open() && Rest() == s[k + n..] && rbuf[r.value.0..r.value.0 + r.value.1] == s[k..k + n])
    {
      hide Decode, IsFrame, Split, ToSigned, FromLe;
      ghost var s := Rest();
      var len := GiveVarint();
      if len.None? { return None; }
      ghost var k, n := Decode(s).value.1, len.value;
      assert |Rest()| == |s| - k && rindex == old(rindex) + k;
      r := GiveSpan(len.value);
      if 0 <= n <= |s| - k { Slices(s, k, n); }
    }

    /** Moves to the next frame if the packet is not used up. Nothing is tested, so the reader stays within the
        packet exactly when what is left of it is made of frames; a negative length field leads back. */
    method NextMessage() returns (more: bool)
      requires Sized() && packetLength <= rbuf.Length
      requires subTotal + msgLength < packetLength ==> 0 <= subTotal + msgLength <= rbuf.Length - z
      modifies this
      ensures packetLength == old(packetLength) && subTotal == old(subTotal + msgLength)
      ensures more <==> subTotal < packetLength
      ensures more ==> (Open() <==> Split(z, rbuf[subTotal..packetLength]).Some?)
      ensures more && Open() ==> rindex == z && [Current()] + Pending() == Split(z, rbuf[subTotal..packetLength]).value
      ensures old(InPacket()) ==> (more <==> old(Pending()) != [])
      ensures more && old(InPacket()) ==> Open() && [Current()] + Pending() == old(Pending())
      ensures !more ==> msgLength == old(msgLength) && rindex == old(rindex)
    {
      hide IsFrame, FromLe, Split;
      subTotal := subTotal + msgLength;
      more := subTotal < packetLength;
      if 0 <= subTotal <= packetLength { NothingToSplit(z, rbuf[subTotal..packetLength]); }
      if more {
        FirstFrame(rbuf, subTotal, packetLength, z);
        var field := rbuf[subTotal..subTotal + z];
        FromLeBound(field);
        Pow256Four();
        msgLength := ToSigned(FromLe(field));
        rindex := z;
      }
    }

    /** Starts on a packet of `len` bytes. */
    method Update(len: nat) returns (more: bool)
      requires Sized() && len <= rbuf.Length && (0 < len ==> z <= rbuf.Length)
      modifies this
      ensures packetLength == len && (more <==> 0 < len)
      ensures more ==> (Open() <==> Split(z, old(rbuf[..len])).Some?)
      ensures more && Open() ==> rindex == z && [Current()] + Pending() == Split(z, old(rbuf[..len])).value
    {
      hide IsFrame, Split;
      packetLength, msgLength, subTotal := len, 0, 0;
      assert rbuf[0..len] == rbuf[..len];
      more := NextMessage();
    }

    /** The walk as a loop: every frame of the packet, the open one first. */
    method TakeFrames() returns (fs: seq<seq<byte>>)
      requires Open()
      modifies this
      ensures fs == [old(Current())] + old(Pending())
    {
      hide IsFrame, Split, FromLe;
      ghost var all, todo := [Current()] + Pending(), Pending();
      fs := [];
      while true
        invariant Open() && todo == Pending() && all == fs + ([Current()] + todo)
        decreases |todo|
      {
        fs := fs + [rbuf[subTotal..subTotal + msgLength]];
        Assoc(fs[..|fs| - 1], [Current()], todo);
        RoomForLength(rbuf, subTotal + msgLength, packetLength, z);
        var more := NextMessage();
        if !more {
          assert fs + [] == fs;
          return;
        }
        todo := Pending();
      }
    }
  }
}
