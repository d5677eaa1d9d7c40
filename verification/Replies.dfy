/** What front tiers are told, on the bytes of the back tier's replies, and when the program ends. */
module Replies {
  import opened Bytes
  import opened Varint
  import opened Framing
  import Packet
  import opened Compressed
  import opened EventLoop
  import opened Refusals
  import opened Cleared

  // ---- replies as bytes ----

  /** A success: one, then the file with its length in four bytes; what may follow is not read. */
  function SuccessFrame(file: seq<byte>, rest: seq<byte>): seq<byte>
  {
    Frame(4, [1], Le(|file|, 4) + (file + rest))
  }

  /** A refusal: zero, then the text with its length in variable-length format. The length is cut to 32 bits when it
      is read, so `v` is any number that leaves it. */
  function RefusingFrame(v: nat, text: seq<byte>, rest: seq<byte>): seq<byte>
  {
    Frame(4, [0], Encode(v) + (text + rest))
  }

  lemma {:induction false} LeOfFromLe(s: seq<byte>)
    ensures Le(FromLe(s), |s|) == s
  {
    if s != [] {
      LeOfFromLe(s[1..]);
      DivRem(FromLe(s), 256, FromLe(s[1..]), s[0]);
      LeHead(FromLe(s), |s|);
      assert s == [s[0]] + s[1..];
    }
  }

  /** The parts of a frame of this width with one byte in front of the payload. */
  lemma FrameParts(flag: byte, payload: seq<byte>)
    requires 5 + |payload| < 0x1_0000_0000
    ensures var f := Frame(4, [flag], payload);
      IsFrame(4, f) && |f| == 5 + |payload| && f[4] == flag && f[5..] == payload
  {
    Pow256Four();
    FrameIsFrame(4, [flag], payload);
  }

  /** Any frame with that byte is one. */
  lemma PartsFrame(f: seq<byte>)
    requires IsFrame(4, f) && |f| >= 5
    ensures f == Frame(4, [f[4]], f[5..]) && |f| < 0x1_0000_0000
  {
    FromLeBound(f[..4]);
    Pow256Four();
    LeOfFromLe(f[..4]);
    hide Le, FromLe, Pow256;
    assert f == f[..4] + [f[4]] + f[5..];
  }

  lemma CutTwice(s: seq<byte>, k: nat, n: nat)
    requires k + n <= |s|
    ensures s == s[..k] + (s[k..k + n] + s[k + n..])
  {
  }

  lemma SuccessReadsBack(file: seq<byte>, rest: seq<byte>)
    requires |file| < 0x8000_0000 && 9 + |file| + |rest| < 0x1_0000_0000
    ensures var f := SuccessFrame(file, rest);
      && IsFrame(4, f) && |f| == 9 + |file| + |rest| && ContentOf(f) == Success(|file|)
      && f[9..9 + |file|] == file
  {
    var l := Le(|file|, 4);
    FrameParts(1, l + (file + rest));
    Pow256Four();
    FromLeOfLe(|file|, 4);
    hide Frame, IsFrame, FromLe, Le, Pow256;
    var f := SuccessFrame(file, rest);
    assert f[5..][..4] == l;
    assert f[9..9 + |file|] == f[5..][4..4 + |file|];
  }

  /** A frame is read as a success of this size exactly when it is made like that. */
  lemma SuccessIsFrame(f: seq<byte>) returns (file: seq<byte>, rest: seq<byte>)
    requires IsFrame(4, f) && ContentOf(f).Success? && 0 <= ContentOf(f).size
    ensures |file| == ContentOf(f).size && |file| < 0x8000_0000 && f == SuccessFrame(file, rest)
  {
    PartsFrame(f);
    var n := ContentOf(f).size;
    var s := f[5..];
    file, rest := s[4..4 + n], s[4 + n..];
    LeOfFromLe(s[..4]);
    FromLeBound(s[..4]);
    Pow256Four();
    hide Frame, IsFrame, FromLe, Le, Pow256;
    CutTwice(s, 4, n);
  }

  lemma RefusingReadsBack(v: nat, text: seq<byte>, rest: seq<byte>)
    requires v % TWO32 == |text| < 0x8000_0000 && 5 + |Encode(v)| + |text| + |rest| < 0x1_0000_0000
    ensures var f, k := RefusingFrame(v, text, rest), |Encode(v)|;
      && IsFrame(4, f) && |f| == 5 + k + |text| + |rest| && ContentOf(f) == Refused(5 + k, |text|)
      && f[5 + k..5 + k + |text|] == text
  {
    FrameParts(0, Encode(v) + (text + rest));
    DecodeEncode(v, text + rest);
    hide Frame, IsFrame, Encode, Decode;
    var f, k := RefusingFrame(v, text, rest), |Encode(v)|;
    assert f[5 + k..5 + k + |text|] == f[5..][k..k + |text|];
  }

  lemma RefusingIsFrame(f: seq<byte>) returns (v: nat, text: seq<byte>, rest: seq<byte>)
    requires IsFrame(4, f) && ContentOf(f).Refused? && 0 <= ContentOf(f).length
    ensures v % TWO32 == |text| == ContentOf(f).length && f == RefusingFrame(v, text, rest)
    ensures Slice(f, ContentOf(f).place, ContentOf(f).length) == text
  {
    PartsFrame(f);
    var s := f[5..];
    var k := Decode(s).value.1;
    var n := ContentOf(f).length;
    v := Decode(s).value.0;
    EncodeDecode(s);
    text, rest := s[k..k + n], s[k + n..];
    hide Frame, IsFrame, Encode, Decode;
    CutTwice(s, k, n);
    assert f[5 + k..5 + k + n] == s[k..k + n];
  }

  // ---- what the front tier is told ----

  /** Saved is said exactly for a frame that says success and holds its whole file, if the file can be opened. */
  lemma SavedExactly(s: State, e: Event)
    requires ReplyCame(s, e) && !Handle(s, e).smashed
    ensures Last(Handle(s, e)) == Saved <==>
      e.opens && exists file, rest :: |file| < 0x8000_0000 && e.f == SuccessFrame(file, rest)
  {
    ReplyAnswers(s, e);
    var q, c := TakeBody(s, e.f + e.behind), ContentFor(e.f, e.opens);
    PassOnSays(q, c, e.late);
    assert IsFrame(4, e.f) && Sane(ContentOf(e.f));
    hide Handle, PassOn, ReplyCame, RefusalFate, ContentOf, IsFrame, SuccessFrame, Last;
    if ContentOf(e.f).Success? {
      var file, rest := SuccessIsFrame(e.f);
    }
    forall file, rest | |file| < 0x8000_0000 && e.f == SuccessFrame(file, rest)
      ensures ContentOf(e.f).Success?
    {
      FrameSize(e.f, file, rest);
      SuccessReadsBack(file, rest);
    }
  }

  lemma FrameSize(f: seq<byte>, file: seq<byte>, rest: seq<byte>)
    requires IsFrame(4, f) && f == SuccessFrame(file, rest)
    ensures 9 + |file| + |rest| == |f| < 0x1_0000_0000
  {
    PartsFrame(f);
  }

  /** A text is said exactly for a frame that refuses with at most 1490 bytes of it. */
  lemma SaidExactly(s: State, e: Event)
    requires ReplyCame(s, e) && !Handle(s, e).smashed && |s.rec| <= 1101000
    ensures Last(Handle(s, e)).Said? <==>
      exists v: nat, text, rest ::
        v % 0x1_0000_0000 == |text| <= 1490 && e.f == RefusingFrame(v, text, rest)
  {
    ReplyAnswers(s, e);
    var q, c := TakeBody(s, e.f + e.behind), ContentFor(e.f, e.opens);
    PassOnSays(q, c, e.late);
    assert IsFrame(4, e.f) && Sane(ContentOf(e.f)) && |e.f| <= 1101000;
    if c.Refused? {
      PlaceInFrame(e.f, c.place, c.length);
      NextSlotKeeps(q, e.late);
      RefusalFateExactly(Slice(NextSlot(q, e.late).rec, c.place, c.length));
    }
    hide Handle, PassOn, ReplyCame, RefusalFate, ContentOf, IsFrame, RefusingFrame, Last, NextSlot, TakeBody,
        QueueIntact;
    if c.Refused? {
      var v, text, rest := RefusingIsFrame(e.f);
    }
    forall v: nat, text, rest | v % 0x1_0000_0000 == |text| <= 1490 && e.f == RefusingFrame(v, text, rest)
      ensures ContentOf(e.f).Refused? && ContentOf(e.f).length <= 1490
    {
      RefusingSize(e.f, v, text, rest);
      RefusingReadsBack(v, text, rest);
    }
  }

  lemma RefusingSize(f: seq<byte>, v: nat, text: seq<byte>, rest: seq<byte>)
    requires IsFrame(4, f) && f == RefusingFrame(v, text, rest)
    ensures 5 + |Encode(v)| + |text| + |rest| == |f| < 0x1_0000_0000
  {
    PartsFrame(f);
  }

  lemma SuccessContent(f: seq<byte>, file: seq<byte>, rest: seq<byte>)
    requires IsFrame(4, f) && f == SuccessFrame(file, rest) && Sane(ContentOf(f))
    ensures |file| < 0x8000_0000 && 9 + |file| <= |f| && ContentOf(f) == Success(|file|) && f[9..9 + |file|] == file
  {
    FrameSize(f, file, rest);
    if |file| >= 0x8000_0000 {
      LongIsNegative(f, file, rest);
    } else {
      SuccessReadsBack(file, rest);
    }
    hide Sane, ContentOf, IsFrame, SuccessFrame;
  }

  lemma LongIsNegative(f: seq<byte>, file: seq<byte>, rest: seq<byte>)
    requires |file| >= 0x8000_0000 && 9 + |file| + |rest| < 0x1_0000_0000 && f == SuccessFrame(file, rest)
    ensures !Sane(ContentOf(f))
  {
    var l := Le(|file|, 4);
    FrameParts(1, l + (file + rest));
    Pow256Four();
    FromLeOfLe(|file|, 4);
    hide Frame, IsFrame, FromLe, Le, Pow256;
    assert f[5..][..4] == l;
  }

  /** Behind the first nine bytes the buffer holds the reply as it came. */
  lemma LateBehindHeader(s: State, e: Event)
    requires ReplyCame(s, e)
    ensures |e.late| == |e.f + e.behind| && forall i :: 9 <= i < |e.late| ==> e.late[i] == (e.f + e.behind)[i]
  {
    var q := TakeBody(s, e.f + e.behind);
    NextReceive(s, q, ReceiveHeader);
    var out := Outstanding(q);
    hide Outstanding, Always, InStep, ContentOf, IsFrame, Sane;
    assert forall i: nat :: Target(out, i) ==> i < 9;
  }

  lemma FileStays(f: seq<byte>, behind: seq<byte>, rec: seq<byte>, n: nat)
    requires 9 + n <= |f| && |rec| == |f + behind| && forall i :: 9 <= i < |rec| ==> rec[i] == (f + behind)[i]
    ensures rec[9..9 + n] == f[9..9 + n]
  {
  }

  /** What a success leads to, from the state in which the body was taken on. */
  lemma SuccessQueues(q: State, n: nat, late: seq<byte>)
    requires QueueIntact(q)
    ensures var t := PassOn(q, Success(n), late);
      if q.s2ind + 1 < 5 then
        t.rec == q.rec && t.sq == q.sq + [Other, SaveFile(9, n), Other, Other, Reply(q.s2ind + 1, Saved)]
      else t.rec == late && t.sq == [Reply(0, Saved)]
  {
    hide Receives, SendSizes, ClearedIn, QueueIntact;
    Assoc(q.sq, [Other, SaveFile(9, n), Other, Other], [Reply(q.s2ind + 1, Saved)]);
    assert [Other, SaveFile(9, n), Other, Other] + [Reply(q.s2ind + 1, Saved)]
        == [Other, SaveFile(9, n), Other, Other, Reply(q.s2ind + 1, Saved)];
    assert [] + [Reply(0, Saved)] == [Reply(0, Saved)];
  }

  lemma SuccessTold(s: State, e: Event, file: seq<byte>, rest: seq<byte>)
    requires ReplyCame(s, e) && e.f == SuccessFrame(file, rest)
    ensures var t, c := Handle(s, e), if e.opens then Success(|file|) else BadFile;
      && t.answers == s.answers + [Answered(e.to, e.to, if e.opens then Saved else Excuse)] && t.running
      && t.requests == s.requests[1..]
      && var u := PassOn(TakeBody(s, e.f + e.behind), c, e.late); t.sq == u.sq && t.rec == u.rec
  {
    SuccessContent(e.f, file, rest);
    NotEmpty(s, e.to, e.f, e.behind, e.late, e.opens);
    ReplyAnswers(s, e);
    var q, c := TakeBody(s, e.f + e.behind), ContentFor(e.f, e.opens);
    PassOnKeeps(q, c, e.late);
    PassOnSays(q, c, e.late);
    hide PassOn, InStep, Possible, ContentOf, SuccessFrame, Last, QueueIntact, Conserved, RefusalFate, TakeBody;
  }

  lemma FileInBuffer(s: State, e: Event, n: nat)
    requires ReplyCame(s, e) && 9 + n <= |e.f|
    ensures var q := TakeBody(s, e.f + e.behind);
      && QueueIntact(q) && q.s2ind == s.s2ind && q.sq == s.sq + [ReceiveHeader]
      && 9 + n <= |q.rec| == |e.late| && q.rec[9..9 + n] == e.late[9..9 + n] == e.f[9..9 + n]
  {
    LateBehindHeader(s, e);
    AddedIntact(s, TakeBody(s, e.f + e.behind));
    FileStays(e.f, e.behind, e.f + e.behind, n);
    FileStays(e.f, e.behind, e.late, n);
    hide InStep, Possible, Conserved;
  }

  lemma AfterHeader(sq: seq<Entry>, es: seq<Entry>)
    ensures (sq + [ReceiveHeader]) + es == sq + ([ReceiveHeader] + es)
  {
  }

  /** A success in full: the oldest request's front tier is told, Saved if the file can be opened; then the next
      header's receive, the writes and the reply are queued in this order. The write names the file's bytes behind the
      first nine, and they are in the buffer whatever the header's receive has written by then. */
  lemma SuccessInFull(s: State, e: Event, file: seq<byte>, rest: seq<byte>)
    requires ReplyCame(s, e) && e.f == SuccessFrame(file, rest)
    ensures var t := Handle(s, e);
      && t.answers == s.answers + [Answered(e.to, e.to, if e.opens then Saved else Excuse)]
      && t.running && t.requests == s.requests[1..] && |file| < 0x8000_0000
      && (e.opens ==>
            && t.sq == (if s.s2ind + 1 < 5
                        then s.sq + [ReceiveHeader, Other, SaveFile(9, |file|), Other, Other, Reply(s.s2ind + 1, Saved)]
                        else [Reply(0, Saved)])
            && 9 + |file| <= |t.rec| && t.rec[9..9 + |file|] == file)
  {
    SuccessTold(s, e, file, rest);
    assert IsFrame(4, e.f) && Sane(ContentOf(e.f));
    SuccessContent(e.f, file, rest);
    FileInBuffer(s, e, |file|);
    hide Handle, ReplyCame, SuccessFrame, ContentOf, IsFrame, QueueIntact, TakeBody;
    SuccessQueues(TakeBody(s, e.f + e.behind), |file|, e.late);
    hide PassOn;
    var es := [Other, SaveFile(9, |file|), Other, Other, Reply(s.s2ind + 1, Saved)];
    AfterHeader(s.sq, es);
    assert [ReceiveHeader] + es
        == [ReceiveHeader, Other, SaveFile(9, |file|), Other, Other, Reply(s.s2ind + 1, Saved)];
  }

  // ---- requests ----

  /** A datagram that cannot be used leads to nothing; a bad request and one not sent on lead to one reply, the
      exception's text; one sent on joins the requests and leads to a send. */
  lemma RequestInFull(s: State, r: Req, intake: Intake)
    requires Always(s)
    ensures var t := Handle(s, Datagram(r, intake));
      match intake
      case BadDatagram => t == s
      case Sent(p) =>
        && t.requests == s.requests + [r] && t.accepted == s.accepted + [r] && t.answers == s.answers
        && t.sq == s.sq + [SendPacket(s.queue.handed, |s.queue.bytes| + |p| - s.queue.handed)] && t.slots == s.slots
        && t.s2ind == s.s2ind && t.rec == s.rec
      case _ =>
        && t.requests == s.requests && t.accepted == s.accepted && t.answers == s.answers
        && t.sq == (if s.s2ind + 1 < 5 then s.sq + [Reply(s.s2ind + 1, Excuse)] else [Reply(0, Excuse)])
        && t.slots == s.slots[(if s.s2ind + 1 < 5 then s.s2ind + 1 else 0) := Excuse]
  {
    hide Receives, SendSizes, ClearedIn, EntryIntact;
    assert [] + [Reply(0, Excuse)] == [Reply(0, Excuse)];
  }

  /** A header in full: it is in front of the buffer, and one that fits leads to a receive of the rest of the packet, at
      the end of the buffer; the message is not touched otherwise. */
  lemma HeaderInFull(s: State, h: seq<byte>)
    requires Always(s) && Possible(s, HeaderDone(h))
    ensures var t, n := Handle(s, HeaderDone(h)), PacketInt(h);
      && |t.rec| == |s.rec| && t.rec[..9] == h && t.rec[9..] == s.rec[9..]
      && t.requests == s.requests && t.answers == s.answers && t.slots == s.slots && t.s2ind == s.s2ind
      && (t.running && 9 <= n ==> t.sq == s.sq + [ReceiveBody(|s.rec| - n + 9, n - 9)])
      && (!t.running ==> t.sq == s.sq)
  {
    hide PacketInt, Packet.SizeDecompressed;
    assert h[..9] == h;
  }

  // ---- failures ----

  /** A failed completion in full: a result of zero gives the connection up, and so does -32 unless it is a file write's
      or sync's; other results of those change nothing; everything else ends the program. */
  lemma FailureInFull(s: State, op: Op, res: int)
    requires Always(s) && Possible(s, Failed(op, res))
    ensures var t, file := Handle(s, Failed(op, res)), op == Op.SaveOutput || op == Fsync;
      && (res == 0 || (res == -32 && !file) ==>
            && t.running && t.requests == [] && |t.answers| == |s.answers| + |s.requests|
            && s.answers <= t.answers
            && forall i :: 0 <= i < |s.requests| ==> t.answers[|s.answers| + i] == Vanished(s.requests[i]))
      && (res < 0 && file ==> t == s)
      && (res < 0 && res != -32 && !file ==> t == s.(running := false))
  {
    VanishedAt(s.requests);
    hide VanishedAll, Always;
  }

  lemma {:induction false} VanishedAt(rs: seq<Req>)
    ensures |VanishedAll(rs)| == |rs| && forall i :: 0 <= i < |rs| ==> VanishedAll(rs)[i] == Vanished(rs[i])
  {
    if rs != [] { VanishedAt(rs[1..]); }
  }

  /** A run that is still going has seen no other failures than these. */
  lemma {:induction false} OtherFailuresEnd(s: State, es: seq<Event>)
    requires PossibleRun(s, es) && RunLoop(s, es).running
    ensures forall e <- es :: e.Failed? ==> e.res == 0 || e.res == -32 || e.op == Op.SaveOutput || e.op == Fsync
    decreases |es|
  {
    if es != [] {
      if !Handle(s, es[0]).running { StaysOver(Handle(s, es[0]), es[1..]); }
      OtherFailuresEnd(Handle(s, es[0]), es[1..]);
      if es[0].Failed? { OneFailure(s, es[0]); }
      hide Handle, Possible;
      forall e | e in es
        ensures e.Failed? ==> e.res == 0 || e.res == -32 || e.op == Op.SaveOutput || e.op == Fsync
      {
        assert e == es[0] || e in es[1..];
      }
    }
  }

  lemma OneFailure(s: State, e: Event)
    requires Possible(s, e) && e.Failed? && Handle(s, e).running
    ensures e.res == 0 || e.res == -32 || e.op == Op.SaveOutput || e.op == Fsync
  {
  }

  /** Nothing happens after the end. */
  lemma StaysOver(s: State, es: seq<Event>)
    requires PossibleRun(s, es) && !s.running
    ensures es == []
  {
  }

  /** A refusal whose length makes its copy run past the slot. */
  ghost predicate RunsOver(f: seq<byte>)
  {
    exists v: nat, text, rest :: v % 0x1_0000_0000 == |text| && f == RefusingFrame(v, text, rest)
      && 0x8000 <= |text| < 0x8000_0000 && (|text| % 0x1_0000 >= 0x8000 || |text| % 0x1_0000 <= 1490)
  }

  lemma PassOnEnds(q: State, c: Content, late: seq<byte>)
    requires QueueIntact(q) && q.running && Sane(c)
    requires c.Refused? ==> c.place + c.length <= |q.rec| == |late| <= 1101000
    ensures PassOn(q, c, late).running <==> !(c.Refused? && c.length >= 0x8000
                                              && (c.length % 0x1_0000 >= 0x8000 || c.length % 0x1_0000 <= 1490))
  {
    PassOnKeeps(q, c, late);
    if c.Refused? {
      RefusalFateExactly(Slice(NextSlot(q, late).rec, c.place, c.length));
    }
    hide PassOn, RefusalFate, QueueIntact, Receives, SendSizes, ClearedIn;
  }

  lemma RunsOverExactly(f: seq<byte>, opens: bool)
    requires IsFrame(4, f) && Sane(ContentOf(f))
    ensures var c := ContentFor(f, opens);
      && (c.Refused? ==> c.place + c.length <= |f|)
      && (RunsOver(f) <==>
            c.Refused? && c.length >= 0x8000 && (c.length % 0x1_0000 >= 0x8000 || c.length % 0x1_0000 <= 1490))
  {
    var c := ContentFor(f, opens);
    if c.Refused? {
      PlaceInFrame(f, c.place, c.length);
      var v, text, rest := RefusingIsFrame(f);
    }
    hide ContentOf, IsFrame, RefusingFrame;
    forall v: nat, text, rest | v % 0x1_0000_0000 == |text| < 0x8000_0000 && f == RefusingFrame(v, text, rest)
      ensures c.Refused? && c.length == |text|
    {
      RefusingSize(f, v, text, rest);
      RefusingReadsBack(v, text, rest);
    }
  }

  lemma BodyEnds(s: State, e: Event)
    requires ReplyCame(s, e) && |s.rec| <= 1101000
    ensures Handle(s, e).running <==> !RunsOver(e.f)
  {
    HandleReply(s, e);
    RunsOverExactly(e.f, e.opens);
    var q := TakeBody(s, e.f + e.behind);
    PassOnEnds(q, ContentFor(e.f, e.opens), e.late);
    PassOnKeeps(q, ContentFor(e.f, e.opens), e.late);
    hide Handle, PassOn, ReplyCame, RunsOver, ContentOf, IsFrame, TakeBody, QueueIntact;
  }

  /** When the program ends: on any other failure, on a header whose packet or message is larger than the buffer, and on
      a refusal that runs past its slot. The assertion never ends it. */
  lemma EndsExactly(s: State, e: Event)
    requires Always(s) && InStep(s) && |s.rec| <= 1101000 && Possible(s, e)
    ensures Handle(s, e).running <==>
      match e
      case Failed(op, res) => res == 0 || res == -32 || op == Op.SaveOutput || op == Fsync
      case HeaderDone(h) => PacketInt(h) <= |s.rec| && Packet.SizeDecompressed(h) <= |s.rec|
      case BodyDone(_, f, _, _, _) => !RunsOver(f)
      case _ => true
  {
    hide RunsOver, Receives, SendSizes, InStep;
    match e
    case BodyDone(to, f, behind, late, opens) => BodyEnds(s, e);
    case Datagram(r, intake) => SendToKeeps(s, Excuse, s.rec);
    case HeaderDone(h) =>
    case Failed(op, res) =>
    case NewBatch =>
    case SendDone(n) =>
  }

  // ---- reply slots ----

  /** Which slot is used last after a completion: they start over with each batch and after the fifth; a reply takes the
      next one, a refusal that raises the next two. */
  lemma SlotsInTurn(s: State, e: Event)
    requires Always(s) && InStep(s) && Possible(s, e)
    ensures Handle(s, e).s2ind ==
      match e
      case NewBatch => -1
      case Datagram(_, intake) => if intake.BadRequest? || intake.NotSent? then (s.s2ind + 1) % 5 else s.s2ind
      case BodyDone(_, f, _, _, opens) =>
        if ContentOf(f).Refused? && LeavesEntry(f, opens) then (s.s2ind + 2) % 5 else (s.s2ind + 1) % 5
      case _ => s.s2ind
  {
    hide Receives, SendSizes, ClearedIn, ContentOf, InStep, Complete, EntryIntact;
    if e.BodyDone? { BodyTakesSlots(s, e); }
  }

  lemma NextSlotTakes(s: State, n: Notice, late: seq<byte>)
    requires -1 <= s.s2ind < 5
    ensures NextSlot(s, late).s2ind == SendTo(s, n, late).s2ind == (s.s2ind + 1) % 5
  {
    hide Submit;
  }

  lemma RefuseSlots(s: State, at: nat, len: int)
    requires 0 <= s.s2ind < 5
    ensures Refuse(s, at, len).s2ind
      == if RefusalFate(Slice(s.rec, at, len)) == Full then (s.s2ind + 1) % 5 else s.s2ind
  {
    NextSlotTakes(s.(sq := s.sq + [Entry.Cleared]), Excuse, s.rec);
    hide SendTo, RefusalFate, Slice;
  }

  lemma PassOnSlots(q: State, c: Content, late: seq<byte>)
    requires -1 <= q.s2ind < 5
    ensures PassOn(q, c, late).s2ind
      == if c.Refused? && RefusalFate(Slice(NextSlot(q, late).rec, c.place, c.length)) == Full then (q.s2ind + 2) % 5
         else (q.s2ind + 1) % 5
  {
    hide SendTo, NextSlot, Refuse, RefusalFate;
    NextSlotTakes(q, Excuse, late);
    match c
    case Success(n) =>
      NextSlotTakes(q.(sq := q.sq + [Other, SaveFile(HEADER, if n < 0 then 0 else n), Other, Other]), Saved, late);
    case BadFile =>
      NextSlotTakes(q.(sq := q.sq + [Other, Entry.Cleared]), Excuse, late);
    case Broken =>
    case Refused(at, len) =>
      RefuseSlots(NextSlot(q, late), at, len);
  }

  lemma BodyTakesSlots(s: State, e: Event)
    requires ReplyCame(s, e)
    ensures Handle(s, e).s2ind
      == if ContentOf(e.f).Refused? && LeavesEntry(e.f, e.opens) then (s.s2ind + 2) % 5 else (s.s2ind + 1) % 5
  {
    assert e.BodyDone?;
    hide PassOn, ReplyCame, Handle, RefusalFate, QueueIntact, ContentOf, NextSlot, TakeBody;
    HandleReply(s, e);
    var q, c := TakeBody(s, e.f + e.behind), ContentFor(e.f, e.opens);
    PassOnSlots(q, c, e.late);
    if c.Refused? { CopyFate(q, e.f, c.place, c.length, e.late); }
  }

  // ---- what the front tier reads ----

  lemma ConcatCons(p: seq<byte>, rest: seq<seq<byte>>)
    ensures Concat([p] + rest) == p + Concat(rest)
  {
    assert ([p] + rest)[1..] == rest;
  }

  lemma FivePieces(a: seq<byte>, b: seq<byte>, c: seq<byte>, d: seq<byte>, e: seq<byte>)
    ensures Concat([a, b, c, d, e]) == a + (b + ((c + d) + e))
  {
    ConcatCons(a, [b, c, d, e]);
    ConcatCons(b, [c, d, e]);
    ConcatCons(c, [d, e]);
    ConcatCons(d, [e]);
    ConcatCons(e, []);
    assert Concat([]) == [];
    hide Concat;
    assert [a, b, c, d, e] == [a] + [b, c, d, e] && [b, c, d, e] == [b] + [c, d, e] && [c, d, e] == [c] + [d, e];
    assert [d, e] == [d] + [e] && [e] == [e] + [] && e + [] == e;
    Assoc(c, d, e);
  }

  lemma DatagramIs(text: seq<byte>)
    ensures RefusalDatagram(text) == Frame(2, [], [0] + (Encode(4 + |text|) + ((CMW + text) + [0])))
  {
    FivePieces([0], Encode(4 + |text|), CMW, text, [0]);
    hide Concat, Encode, Frame;
  }

  lemma ShortFrame(flag: byte, tail: seq<byte>)
    requires 3 + |tail| < 0x1_0000
    ensures var d := Frame(2, [], [flag] + tail);
      IsFrame(2, d) && |d| == 3 + |tail| && d[2] == flag && d[3..] == tail
  {
    Pow256Four();
    FrameIsFrame(2, [], [flag] + tail);
    hide IsFrame;
  }

  /** The front tier reads the datagram as false and the text behind CMW and a colon; one byte is left. */
  lemma FrontReadsRefusal(text: seq<byte>)
    requires |text| <= 1490
    ensures var d := RefusalDatagram(text);
      && IsFrame(2, d) && |d| <= 1500 && d[2] == 0 && Decode(d[3..]).Some?
      && StringLength(d[3..]) == 4 + |text|
      && var k := Decode(d[3..]).value.1;
         && k + 4 + |text| <= |d[3..]| && d[3..][k..k + 4 + |text|] == [67, 77, 87, 58] + text
         && d[3..][k + 4 + |text|..] == [0]
  {
    EncodeLength(4 + |text|);
    DatagramIs(text);
    var said := CMW + text;
    ShortFrame(0, Encode(4 + |text|) + (said + [0]));
    StringReadsBack(said, [0]);
    hide IsFrame, Encode, Decode, Frame, RefusalDatagram, ToSigned;
  }
}
