/** Refusals passed on by the middle tier, and runs in which the event loop's guarantees end. */
module Refusals {
  import opened Bytes
  import opened Varint
  import opened Framing
  import opened Compressed
  import opened EventLoop

  // ---- the length of a refusal ----

  lemma EncodeLength(n: nat)
    requires n < 2113664
    ensures |Encode(n)| == if n < 128 then 1 else if n < 16512 then 2 else 3
  {
  }

  lemma FateStep(ps: seq<seq<byte>>, p: seq<byte>, rest: seq<seq<byte>>, room: int)
    requires ps == [p] + rest
    ensures FateOfAll(ps, 2, room)
            == var f := FateOf(|p|, 2, room); if f == Written then FateOfAll(rest, 2, room - |p|) else f
    ensures Concat(ps) == p + Concat(rest)
  {
    assert ps[1..] == rest;
  }

  lemma ShortWritten(size: nat, room: int)
    requires size <= 5
    ensures FateOf(size, 2, room) == if size <= room then Written else Full
  {
  }

  /** With `v` bytes of length in front of it: the text, then one more byte. */
  function TextFate(n: nat, v: nat): Fate
  {
    var f := FateOf(n, 2, 1493 - v);
    if f == Written && n > 1492 - v then Full else f
  }

  lemma PiecesFate(text: seq<byte>)
    requires |Encode(4 + |text|)| <= 5
    ensures var v := |Encode(4 + |text|)|;
      FateOfAll(RefusalPieces(text), 2, 1498) == TextFate(|text|, v) && |Concat(RefusalPieces(text))| == 6 + v + |text|
  {
    hide FateOf, Encode;
    var n, len := |text|, Encode(4 + |text|);
    FateStep(RefusalPieces(text), [0], [len, CMW, text, [0]], 1498);
    FateStep([len, CMW, text, [0]], len, [CMW, text, [0]], 1497);
    FateStep([CMW, text, [0]], CMW, [text, [0]], 1497 - |len|);
    FateStep([text, [0]], text, [[0]], 1493 - |len|);
    FateStep([[0]], [0], [], 1493 - |len| - n);
    ShortWritten(1, 1498);
    ShortWritten(|len|, 1497);
    ShortWritten(4, 1497 - |len|);
    ShortWritten(1, 1493 - |len| - n);
    assert Concat([]) == [] && FateOfAll([], 2, 1492 - |len| - n) == Written;
    hide FateOfAll, Concat;
  }

  lemma TextFateExactly(n: nat, v: nat)
    requires n < 2113660 && v == if n < 124 then 1 else if n < 16508 then 2 else 3
    ensures TextFate(n, v) ==
      if n <= 1490 then Written
      else if n >= 0x8000 && (n % 0x1_0000 >= 0x8000 || n % 0x1_0000 <= 1490) then Overrun
      else Full
  {
  }

  /** A refusal reaches the front tier exactly when its text has at most 1490 bytes. A longer one raises, unless the
      16-bit index keeps so little of its length that it is taken to fit: then it is copied over whatever lies behind
      the slot. */
  lemma RefusalFateExactly(text: seq<byte>)
    requires |text| < 2113660
    ensures RefusalFate(text) ==
      if |text| <= 1490 then Written
      else if |text| >= 0x8000 && (|text| % 0x1_0000 >= 0x8000 || |text| % 0x1_0000 <= 1490) then Overrun
      else Full
  {
    EncodeLength(4 + |text|);
    PiecesFate(text);
    TextFateExactly(|text|, |Encode(4 + |text|)|);
    hide FateOfAll, Concat, TextFate, RefusalPieces, Encode;
  }

  // ---- the text of a refusal ----

  const BUF_SIZE: nat := 1101000

  function Last(s: State): Notice
  {
    if s.answers == [] || s.answers[|s.answers| - 1].Vanished? then Excuse else s.answers[|s.answers| - 1].says
  }

  lemma SendToSays(s: State, n: Notice, late: seq<byte>)
    requires QueueIntact(s)
    ensures var t := SendTo(s, n, late); 0 <= t.s2ind < |t.slots| && t.slots[t.s2ind] == n
  {
    NextSlotKeeps(s, late);
    hide Receives, SendSizes, ClearedIn, EntryIntact;
  }

  /** What the slot says after a reply has been passed on. */
  lemma PassOnSays(s: State, c: Content, late: seq<byte>)
    requires QueueIntact(s) && !s.smashed && !PassOn(s, c, late).smashed
    ensures var t := PassOn(s, c, late);
      && 0 <= t.s2ind < |t.slots|
      && t.slots[t.s2ind] ==
        (match c
         case Success(_) => Saved
         case BadFile => Excuse
         case Broken => Excuse
         case Refused(at, len) =>
           var text := Slice(NextSlot(s, late).rec, at, len);
           if RefusalFate(text) == Written then Said(CMW + text) else Excuse)
  {
    match c
    case Success(n) =>
      var es := [Other, SaveFile(HEADER, if n < 0 then 0 else n), Other, Other];
      QueueMore(s, es);
      SendToSays(s.(sq := s.sq + es), Saved, late);
      hide SendTo, QueueIntact;
    case BadFile =>
      QueueMore(s, [Other, Entry.Cleared]);
      SendToSays(s.(sq := s.sq + [Other, Entry.Cleared]), Excuse, late);
      hide SendTo, QueueIntact;
    case Broken =>
      SendToSays(s, Excuse, late);
      hide SendTo, QueueIntact;
    case Refused(at, len) =>
      NextSlotKeeps(s, late);
      RefuseSlot(NextSlot(s, late), at, len);
      hide NextSlot, Refuse, QueueIntact, SlotFree, RefusalFate;
  }

  lemma RefuseSlot(s: State, at: nat, len: int)
    requires QueueIntact(s) && SlotFree(s) && RefusalFate(Slice(s.rec, at, len)) != Overrun
    ensures var t, text := Refuse(s, at, len), Slice(s.rec, at, len);
      && 0 <= t.s2ind < |t.slots|
      && t.slots[t.s2ind] == if RefusalFate(text) == Written then Said(CMW + text) else Excuse
  {
    QueueMore(s, [Entry.Cleared]);
    SendToSays(s.(sq := s.sq + [Entry.Cleared]), Excuse, s.rec);
    hide SendTo, RefusalFate, EntryIntact;
  }

  /** The reply at hand: the loop is in step, and a body has come in. */
  ghost predicate ReplyCame(s: State, e: Event)
  {
    Always(s) && InStep(s) && e.BodyDone? && Possible(s, e)
  }

  /** In step, a reply is passed on for the oldest request, which is the one it is for. */
  lemma HandleReply(s: State, e: Event)
    requires ReplyCame(s, e)
    ensures var q := TakeBody(s, e.f + e.behind);
      var u := PassOn(q, ContentFor(e.f, e.opens), e.late);
      && s.requests == q.requests != [] && s.requests[0] == e.to && QueueIntact(q) && -1 <= q.s2ind == s.s2ind < 5
      && q.running && !q.smashed && |e.f| <= |q.rec| == |e.late| == |s.rec| && Sane(ContentOf(e.f))
      && Handle(s, e) == if u.smashed then u else Leave(u, e.to, e.to)
  {
    NotEmpty(s, e.to, e.f, e.behind, e.late, e.opens);
    AddedIntact(s, TakeBody(s, e.f + e.behind));
    hide PassOn, ContentFor, InStep, Conserved, EntryIntact, Leave, KernelWrote, IsFrame;
  }

  lemma ReplyAnswers(s: State, e: Event)
    requires ReplyCame(s, e)
    ensures var t, q, c := Handle(s, e), TakeBody(s, e.f + e.behind), ContentFor(e.f, e.opens);
      && QueueIntact(q) && !q.smashed && t.smashed == PassOn(q, c, e.late).smashed
      && t.answers == (if t.smashed then s.answers else s.answers + [Answered(e.to, e.to, Last(t))])
      && (!t.smashed ==> var u := PassOn(q, c, e.late); 0 <= u.s2ind < |u.slots| && Last(t) == u.slots[u.s2ind])
  {
    HandleReply(s, e);
    var q, c := TakeBody(s, e.f + e.behind), ContentFor(e.f, e.opens);
    PassOnKeeps(q, c, e.late);
    hide Handle, PassOn, ContentFor, Smashes, ReplyCame;
    if !PassOn(q, c, e.late).smashed { PassOnSays(q, c, e.late); }
  }

  /** The loop is in step, a reply has come in and is a refusal with the text `f[at..at + len]`. Whether a file could be
      opened plays no part. */
  ghost predicate RefusalCame(s: State, to: Req, f: seq<byte>, behind: seq<byte>, at: nat, len: nat)
  {
    && Always(s) && InStep(s) && |s.rec| <= BUF_SIZE && Possible(s, BodyDone(to, f, behind, f + behind, true))
    && ContentOf(f) == Refused(at, len)
  }

  lemma PlaceInFrame(f: seq<byte>, at: nat, len: nat)
    requires ContentOf(f) == Refused(at, len)
    ensures at + len <= |f| && 6 <= at
  {
  }

  lemma OnlyHeaderArrives(s: State, to: Req, f: seq<byte>, behind: seq<byte>, at: nat, len: nat, late: seq<byte>)
    requires RefusalCame(s, to, f, behind, at, len)
    ensures Possible(s, BodyDone(to, f, behind, late, true)) <==>
      |late| == |f + behind| && forall i :: HEADER <= i < |late| ==> late[i] == (f + behind)[i]
  {
    var q := TakeBody(s, f + behind);
    NextReceive(s, q, ReceiveHeader);
    var out := Outstanding(q);
    hide Outstanding, Always, InStep, ContentOf;
    assert out[0] in out;
    assert forall i: nat :: Target(out, i) <==> i < HEADER;
  }

  /** What is sent is the text as the receive buffer holds it when it is copied. */
  lemma SentText(s: State, to: Req, f: seq<byte>, behind: seq<byte>, at: nat, len: nat, late: seq<byte>)
    requires RefusalCame(s, to, f, behind, at, len) && len <= 1490 && Possible(s, BodyDone(to, f, behind, late, true))
    ensures var rec := if s.s2ind + 1 < 5 then f + behind else late;
      at + len <= |rec|
      && Last(Handle(s, BodyDone(to, f, behind, late, true))) == Said([67, 77, 87, 58] + rec[at..at + len])
  {
    PlaceInFrame(f, at, len);
    NotEmpty(s, to, f, behind, late, true);
    var q := TakeBody(s, f + behind);
    AddedIntact(s, q);
    NextSlotKeeps(q, late);
    var t := NextSlot(q, late);
    RefusalFateExactly(Slice(t.rec, at, len));
    hide RefusalFate, ContentOf, Receives, SendSizes, InStep, Conserved, KernelWrote, EntryIntact;
    assert |t.rec| == |f + behind|;
    assert PassOn(q, ContentOf(f), late) == Say(t, Said(CMW + Slice(t.rec, at, len)));
  }

  lemma SameSlice(a: seq<byte>, b: seq<byte>, f: seq<byte>, at: nat, len: nat, k: nat)
    requires |a| == |b| && f <= a && at + len <= |f| && (len == 0 || k <= at)
    requires forall i :: k <= i < |a| ==> b[i] == a[i]
    ensures a[at..at + len] == f[at..at + len] && b[at..at + len] == f[at..at + len]
  {
  }

  lemma Untorn(s: State, to: Req, f: seq<byte>, behind: seq<byte>, at: nat, len: nat, late: seq<byte>)
    requires RefusalCame(s, to, f, behind, at, len) && len <= 1490 && Possible(s, BodyDone(to, f, behind, late, true))
    requires at + len <= |f| && (s.s2ind + 1 < SLOTS || len == 0 || HEADER <= at)
    ensures Last(Handle(s, BodyDone(to, f, behind, late, true))) == Said(CMW + f[at..at + len])
  {
    hide Handle, RefusalCame, ContentOf, Last;
    SentText(s, to, f, behind, at, len, late);
    OnlyHeaderArrives(s, to, f, behind, at, len, late);
    hide Possible;
    if s.s2ind + 1 < SLOTS {
      SameSlice(f + behind, f + behind, f, at, len, 0);
    } else {
      SameSlice(f + behind, late, f, at, len, HEADER);
    }
  }

  lemma Torn(s: State, to: Req, f: seq<byte>, behind: seq<byte>, at: nat, len: nat) returns (late: seq<byte>)
    requires RefusalCame(s, to, f, behind, at, len) && len <= 1490 && at + len <= |f|
    requires s.s2ind + 1 >= SLOTS && len > 0 && at < HEADER
    ensures Possible(s, BodyDone(to, f, behind, late, true))
    ensures Last(Handle(s, BodyDone(to, f, behind, late, true))) != Said(CMW + f[at..at + len])
  {
    hide Handle, RefusalCame, ContentOf, Possible, Last;
    late := (f + behind)[at := if f[at] == 0 then 1 else 0];
    OnlyHeaderArrives(s, to, f, behind, at, len, late);
    SentText(s, to, f, behind, at, len, late);
    assert (CMW + late[at..at + len])[4] == late[at] != f[at] == (CMW + f[at..at + len])[4];
  }

  /** Whatever the next header's receive writes, the front tier gets the text the back tier sent, exactly when the
      reply's slot is not the one that wraps, or the text is empty, or it lies behind the header's bytes. */
  lemma TornExactly(s: State, to: Req, f: seq<byte>, behind: seq<byte>, at: nat, len: nat)
    requires RefusalCame(s, to, f, behind, at, len) && len <= 1490
    ensures at + len <= |f|
    ensures (forall late :: Possible(s, BodyDone(to, f, behind, late, true)) ==>
               Last(Handle(s, BodyDone(to, f, behind, late, true))) == Said(CMW + f[at..at + len]))
            <==> s.s2ind + 1 < 5 || len == 0 || 9 <= at
  {
    PlaceInFrame(f, at, len);
    hide Possible, Handle, RefusalCame, ContentOf, Last;
    if s.s2ind + 1 < SLOTS || len == 0 || HEADER <= at {
      forall late | Possible(s, BodyDone(to, f, behind, late, true))
        ensures Last(Handle(s, BodyDone(to, f, behind, late, true))) == Said(CMW + f[at..at + len])
      {
        Untorn(s, to, f, behind, at, len, late);
      }
    } else {
      var late := Torn(s, to, f, behind, at, len);
    }
  }

  /** A refusal destroys memory exactly when its length does so whatever else happens. */
  lemma SmashedExactly(s: State, to: Req, f: seq<byte>, behind: seq<byte>, at: nat, len: nat, late: seq<byte>)
    requires RefusalCame(s, to, f, behind, at, len) && Possible(s, BodyDone(to, f, behind, late, true))
    ensures Handle(s, BodyDone(to, f, behind, late, true)).smashed <==>
      len >= 0x8000 && (len % 0x1_0000 >= 0x8000 || len % 0x1_0000 <= 1490)
  {
    PlaceInFrame(f, at, len);
    NotEmpty(s, to, f, behind, late, true);
    var q := TakeBody(s, f + behind);
    AddedIntact(s, q);
    PassOnKeeps(q, ContentOf(f), late);
    RefusalFateExactly(Slice(NextSlot(q, late).rec, at, len));
    hide PassOn, RefusalFate, ContentOf, Receives, SendSizes, InStep, Conserved, KernelWrote, EntryIntact;
  }

  // ---- runs ----

  /** No connection is lost; the completions of cleared entries only look like it. */
  predicate Quiet(es: seq<Event>) { forall e <- es :: Relogs(e) ==> NoopDone(e) }

  /** A run from the start leads to this state; a quiet one, if asked for. */
  ghost predicate Reached(rec: seq<byte>, s: State, quiet: bool)
  {
    exists es :: PossibleRun(Start(rec), es) && RunLoop(Start(rec), es) == s && (quiet ==> Quiet(es))
  }

  lemma {:induction false} RunOn(s: State, es: seq<Event>, e: Event)
    requires PossibleRun(s, es) && Possible(RunLoop(s, es), e)
    ensures PossibleRun(s, es + [e]) && RunLoop(s, es + [e]) == Handle(RunLoop(s, es), e)
    decreases |es|
  {
    hide Possible, Handle;
    if es == [] {
      assert [] + [e] == [e] && [e][1..] == [];
    } else {
      assert (es + [e])[1..] == es[1..] + [e];
      RunOn(Handle(s, es[0]), es[1..], e);
    }
  }

  lemma ReachStart(rec: seq<byte>)
    ensures Reached(rec, Start(rec), true)
  {
    assert PossibleRun(Start(rec), []) && RunLoop(Start(rec), []) == Start(rec) && Quiet([]);
  }

  lemma Step(rec: seq<byte>, s: State, e: Event, quiet: bool) returns (t: State)
    requires Reached(rec, s, quiet) && Possible(s, e) && (quiet && Relogs(e) ==> NoopDone(e))
    ensures t == Handle(s, e) && Reached(rec, t, quiet)
  {
    hide Possible, Handle, PossibleRun, RunLoop;
    var es :| PossibleRun(Start(rec), es) && RunLoop(Start(rec), es) == s && (quiet ==> Quiet(es));
    RunOn(Start(rec), es, e);
    t := Handle(s, e);
    assert quiet ==> Quiet(es + [e]);
  }

  /** A request is taken in and sent on. */
  lemma Take(rec: seq<byte>, s: State, r: Req, p: seq<byte>) returns (t: State)
    requires Reached(rec, s, true) && s.running && |s.rec| >= HEADER && p != [] && s.queue.handed <= |s.queue.bytes|
    ensures Reached(rec, t, true) && t.running && |t.rec| >= HEADER && t.accepted == s.accepted + [r]
    ensures t.queue == HandOut(Push(s.queue, p)) && t.sentBytes == s.sentBytes && t.link.sending == s.link.sending
    ensures t.link.packets == s.link.packets + p
    ensures t.link.wire == s.link.wire + (s.queue.bytes[s.queue.handed..] + p)
    ensures SendSizes(t.sq) == SendSizes(s.sq) + [|s.queue.bytes| - s.queue.handed + |p|]
  {
    hide Reached, SendSizes;
    t := Step(rec, s, Datagram(r, Sent(p)), true);
    var e := t.sq[|s.sq|];
    ReceivesAppend(s.sq, [e]);
    OneSend(e);
    assert (s.queue.bytes + p)[s.queue.handed..] == s.queue.bytes[s.queue.handed..] + p;
  }

  lemma OneSend(e: Entry)
    requires e.SendPacket?
    ensures SendSizes([e]) == [e.size]
  {
    assert [e][1..] == [];
  }

  lemma Loop(rec: seq<byte>, s: State, quiet: bool) returns (t: State)
    requires Reached(rec, s, quiet) && s.running && |s.rec| >= HEADER
    ensures t == StartBatch(s) && Reached(rec, t, quiet) && t.running && |t.rec| >= HEADER
  {
    hide Reached;
    t := Step(rec, s, NewBatch, quiet);
  }

  lemma AnyRun(rec: seq<byte>, s: State)
    requires Reached(rec, s, true)
    ensures Reached(rec, s, false)
  {
    hide PossibleRun, RunLoop;
  }

  /** A run that sends bytes twice, for any three packets: a request comes in the batch in which the first one's
      send completes, so the acknowledgement finds its packet on its way. With the next request it is sent again. */
  lemma SentTwice(rec: seq<byte>, p: seq<byte>, q: seq<byte>, r: seq<byte>) returns (s: State)
    requires |rec| >= HEADER && p != [] && q != [] && r != []
    ensures Reached(rec, s, true) && s.accepted == [1, 2, 3]
    ensures s.link.packets == p + q + r && s.link.wire == p + q + (q + r)
  {
    hide Reached, SendSizes;
    s := FirstSent(rec, p);
    assert p[|p|..] == [];
    s := Take(rec, s, 2, q);
    AcknowledgedFirst(p, q);
    hide Acknowledge;
    s := Loop(rec, s, true);
    s := Take(rec, s, 3, r);
    assert q[0..] == q && p + ([] + q) == p + q;
  }

  /** The first packet was handed out, and its send has completed. */
  lemma FirstSent(rec: seq<byte>, p: seq<byte>) returns (s: State)
    requires |rec| >= HEADER && p != []
    ensures Reached(rec, s, true) && s.running && |s.rec| >= HEADER && s.accepted == [1] && s.sentBytes == |p|
    ensures s.queue == Queue(p, |p|) && s.link.wire == p && s.link.packets == p
  {
    hide Reached, SendSizes, Receives;
    ReachStart(rec);
    StartSends(rec);
    s := Take(rec, Start(rec), 1, p);
    assert [] + p == p && [] + ([] + p) == p;
    s := Loop(rec, s, true);
    assert s.link.sending == [|p|];
    s := Step(rec, s, SendDone(|p|), true);
  }

  lemma AcknowledgedFirst(p: seq<byte>, q: seq<byte>)
    ensures Acknowledge(HandOut(Push(Queue(p, |p|), q)), |p|) == Queue(q, 0)
  {
    assert (p + q)[|p|..] == q;
  }

  lemma StartSends(rec: seq<byte>)
    ensures SendSizes(Start(rec).sq) == []
  {
    NoTransfers([Other]);
    assert Start(rec).sq[1..] == [Other];
  }

  /** Reached, everything in order, with one request waiting and the receive buffer untouched. */
  ghost predicate OneWaits(rec: seq<byte>, s: State)
  {
    && Reached(rec, s, true) && Always(s) && InStep(s) && s.running && |s.rec| == |rec|
    && s.requests == s.link.backTier == [1] && s.answers == []
  }

  lemma Orderly1(rec: seq<byte>, s: State, e: Event) returns (t: State)
    requires Reached(rec, s, true) && Always(s) && InStep(s) && Possible(s, e) && !Relogs(e)
    ensures t == Handle(s, e) && Reached(rec, t, true) && Always(t) && (t.running ==> InStep(t))
  {
    hide Reached, Always, InStep, Possible, Handle;
    HandleAlways(s, e);
    HandleInStep(s, e);
    t := Step(rec, s, e, true);
  }

  lemma OneSent(rec: seq<byte>) returns (s: State)
    requires 20 <= |rec|
    ensures OneWaits(rec, s) && s.link.receiving == [ReceiveHeader] && s.sq == [] && s.s2ind == -1
  {
    hide Reached, Always, InStep, Receives, SendSizes;
    ReachStart(rec);
    StartHolds(rec);
    NoTransfers([Other]);
    s := Orderly1(rec, Start(rec), Datagram(1, Sent([7])));
    var e := s.sq[2];
    ReceivesCons(ReceiveHeader, [Other, e]);
    NoReceives([Other, e]);
    assert s.sq == [ReceiveHeader] + [Other, e];
    s := Orderly1(rec, s, NewBatch);
  }

  lemma {:induction false} NoReceives(es: seq<Entry>)
    requires forall e <- es :: !e.ReceiveHeader? && !e.ReceiveBody?
    ensures Receives(es) == []
  {
    if es != [] {
      assert es[0] in es;
      NoReceives(es[1..]);
    }
  }

  lemma ReceivesCons(e: Entry, es: seq<Entry>)
    ensures Receives([e] + es) == (if e.ReceiveHeader? || e.ReceiveBody? then [e] else []) + Receives(es)
  {
    assert ([e] + es)[1..] == es;
  }

  /** The header of a packet of 20 bytes for a message of 11. */
  const SMALL_HEADER: seq<byte> := [92, 20, 11, 0, 0, 0, 0, 0, 0]

  lemma SmallSpan(sz: nat)
    requires 20 <= sz
    ensures BodySpan(SMALL_HEADER, sz) == Some((sz - 11, 11))
  {
    assert SMALL_HEADER[1..][0] == 20 && SMALL_HEADER[2..][0] == 11;
  }

  lemma HeaderIn(rec: seq<byte>) returns (s: State)
    requires 20 <= |rec|
    ensures OneWaits(rec, s) && s.link.receiving == [] && s.sq == [ReceiveBody(|rec| - 11, 11)] && s.s2ind == -1
  {
    hide Reached, Always, InStep, Receives, BodySpan;
    s := OneSent(rec);
    SmallSpan(|rec|);
    s := Orderly1(rec, s, HeaderDone(SMALL_HEADER));
    assert [] + [ReceiveBody(|rec| - 11, 11)] == [ReceiveBody(|rec| - 11, 11)];
  }

  /** A run that ends with two receives on one connection: a send fails in the batch in which a header was received.
      The body's receive is already queued; it is submitted after the login and reads from the new socket, in front
      of the header's. */
  lemma TwoReceives(rec: seq<byte>) returns (s: State)
    requires 20 <= |rec|
    ensures Reached(rec, s, false) && s.running && s.link.received == []
    ensures s.link.receiving == [ReceiveBody(|rec| - 11, 11), ReceiveHeader]
  {
    hide Reached, Always, InStep;
    s := HeaderIn(rec);
    hide Receives;
    AnyRun(rec, s);
    var e := s.sq[0];
    s := Step(rec, s, Failed(Op.Send, -EPIPE), false);
    ReceivesCons(e, [Other] + [ReceiveHeader]);
    ReceivesCons(Other, [ReceiveHeader]);
    ReceivesCons(ReceiveHeader, []);
    NoReceives([]);
    assert s.sq == [e] + ([Other] + [ReceiveHeader]) && [ReceiveHeader] + [] == [ReceiveHeader];
    s := Loop(rec, s, false);
  }

  lemma BodyIn(rec: seq<byte>) returns (s: State)
    requires 20 <= |rec|
    ensures OneWaits(rec, s) && s.link.receiving == [ReceiveBody(|rec| - 11, 11)] && s.s2ind == -1
  {
    hide Reached, Always, InStep;
    hide Receives;
    s := HeaderIn(rec);
    ReceivesCons(s.sq[0], []);
    NoReceives([]);
    assert s.sq == [s.sq[0]] + [];
    s := Orderly1(rec, s, NewBatch);
  }

  lemma BadOne(rec: seq<byte>, s: State) returns (t: State)
    requires OneWaits(rec, s) && |rec| >= HEADER && s.s2ind + 1 < SLOTS
    ensures OneWaits(rec, t) && t.link.receiving == s.link.receiving && t.s2ind == s.s2ind + 1
  {
    hide Reached, Always, InStep;
    t := Orderly1(rec, s, Datagram(2, BadRequest));
  }

  /** The reply that comes in now is any refusal. */
  lemma RefusalComes(rec: seq<byte>, s: State, f: seq<byte>, behind: seq<byte>, at: nat, len: nat)
    requires OneWaits(rec, s) && 20 <= |rec| <= BUF_SIZE && s.link.receiving == [ReceiveBody(|rec| - 11, 11)]
    requires IsFrame(4, f) && ContentOf(f) == Refused(at, len) && |f| + |behind| == |rec|
    ensures RefusalCame(s, 1, f, behind, at, len) && Possible(s, BodyDone(1, f, behind, f + behind, true))
    ensures Reached(rec, s, true) && |s.rec| == |rec|
  {
    hide Reached, Always, InStep, ContentOf, IsFrame, Target, Outstanding;
  }

  /** A frame that refuses with the text hello. */
  const HELLO: seq<byte> := [11, 0, 0, 0, 0, 5, 104, 101, 108, 108, 111]

  lemma HelloRefuses()
    ensures IsFrame(4, HELLO) && ContentOf(HELLO) == Refused(6, 5)
  {
    var s := HELLO[5..];
    assert s[0] == 5 && Decode(s) == Some((5, 1));
    assert HELLO[..4] == [11, 0, 0, 0] && HELLO[..4][1..] == [0, 0, 0] && HELLO[..4][1..][1..] == [0, 0];
    assert HELLO[..4][1..][1..][1..] == [0] && [0][1..] == [];
  }

  /** A run that sends a torn text: five datagrams are refused and a refusal comes in, all in one batch. The front
      tier is told something else than hello. */
  lemma TornRun(rec: seq<byte>) returns (s: State, behind: seq<byte>, late: seq<byte>)
    requires 20 <= |rec| <= BUF_SIZE
    ensures Reached(rec, s, true) && RefusalCame(s, 1, HELLO, behind, 6, 5)
    ensures Possible(s, BodyDone(1, HELLO, behind, late, true))
    ensures Last(Handle(s, BodyDone(1, HELLO, behind, late, true))) != Said(CMW + HELLO[6..11])
  {
    hide Reached, Always, InStep, ContentOf, IsFrame;
    s := BodyIn(rec);
    s := BadOne(rec, s);
    s := BadOne(rec, s);
    s := BadOne(rec, s);
    s := BadOne(rec, s);
    s := BadOne(rec, s);
    behind := rec[11..];
    HelloRefuses();
    RefusalComes(rec, s, HELLO, behind, 6, 5);
    hide Handle, Possible, RefusalCame, Last;
    late := Torn(s, 1, HELLO, behind, 6, 5);
  }

  /** What the back tier sends to refuse: zero, then the text with its length in front. */
  function RefusalFrame(text: seq<byte>): seq<byte> { Frame(4, [0], Encode(|text|) + text) }

  lemma RefusalReadsBack(text: seq<byte>)
    requires |text| < 0x4000_0000
    ensures var f := RefusalFrame(text);
      && IsFrame(4, f) && ContentOf(f) == Refused(5 + |Encode(|text|)|, |text|)
      && |f| == 5 + |Encode(|text|)| + |text|
  {
    var body := Encode(|text|) + text;
    Int32RoundTrip(|text|, text);
    Pow256Four();
    hide Pow256;
    FrameIsFrame(4, [0], body);
    var f := RefusalFrame(text);
    assert f[5..] == body && f[4] == 0;
    StringReadsBack(text, []);
    assert text + [] == text;
    hide IsFrame, Encode, Decode;
  }

  /** A run that destroys memory, for every refusal text of 32768 to 65535 bytes. */
  lemma SmashedRun(rec: seq<byte>, text: seq<byte>) returns (s: State)
    requires 0x8000 <= |text| < 0x1_0000 && |text| + 20 <= |rec| <= BUF_SIZE
    ensures Reached(rec, s, true) && s.smashed
  {
    hide Reached, Handle, RefusalCame, Possible, RefusalFrame, Encode, OneWaits, ContentOf, IsFrame;
    var f := RefusalFrame(text);
    RefusalReadsBack(text);
    EncodeLength(|text|);
    var behind := rec[|f|..];
    s := BodyIn(rec);
    RefusalComes(rec, s, f, behind, 8, |text|);
    SmashedExactly(s, 1, f, behind, 8, |text|, f + behind);
    s := Step(rec, s, BodyDone(1, f, behind, f + behind, true), true);
  }
}
