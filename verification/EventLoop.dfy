/** The middle tier's loop over completions: requests from front tiers go to the back tier in order, its
    replies come back in order. Requests are named by numbers. */
module EventLoop {
  import opened Bytes
  import opened Varint
  import opened Framing
  import opened Compressed

  type Req = nat

  const SLOTS: int := 5
  const EPIPE: int := 32

  /** The bytes of the receive buffer that the next header goes to. */
  const HEADER: nat := 9

  const CMW: seq<byte> := [67, 77, 87, 58]

  /** What an operation's completion carries in user_data. A cleared entry carries 0, like Recvmsg. */
  datatype Op = Recvmsg | Send | Recv9 | Recv | Save | SaveOutput | Fsync | Close | Sendto

  /** What a front tier is told: the output is saved, the back tier's text, or an exception's text. */
  datatype Notice = Saved | Said(text: seq<byte>) | Excuse

  datatype Answer = Answered(r: Req, to: Req, says: Notice) | Vanished(r: Req)

  /** An entry of the submission queue. Receives and sends name places in the receive buffer and in the output
      queue; a reply names its slot, and `says` records what it said when it was queued. */
  datatype Entry =
    | ReceiveHeader
    | ReceiveBody(at: int, len: nat)
    | SendPacket(from: nat, size: nat)
    | Reply(slot: int, says: Notice)
    | SaveFile(start: nat, bytes: nat)
    | Cleared
    | Other

  datatype Rx = Header | Body

  /** The connection to the back tier: what the kernel works on, what was received, requests sent and not replied
      to, how many were sent, the packets made for them and the bytes handed to the kernel. */
  datatype Link = Link(receiving: seq<Entry>, sending: seq<nat>, received: seq<Rx>, backTier: seq<Req>, sent: nat,
      packets: seq<byte>, wire: seq<byte>)

  const NEW_LINK := Link([], [], [], [], 0, [], [])

  datatype State = State(
    requests: seq<Req>,
    s2ind: int,
    sentBytes: nat,
    running: bool,
    sq: seq<Entry>,
    slots: seq<Notice>,
    rec: seq<byte>,
    queue: Queue,
    link: Link,
    accepted: seq<Req>,
    answers: seq<Answer>,
    // cleared entries submitted and not completed
    noops: nat,
    // whether the assertion failed, whether memory behind a reply slot was overwritten
    aborted: bool,
    smashed: bool)

  /** How far an incoming datagram gets: unusable, no request in it, request not sent on, sent on in a packet. */
  datatype Intake = BadDatagram | BadRequest | NotSent | Sent(packet: seq<byte>)

  /** A failed completion of Recvmsg with result 0 is a cleared entry's. A reply's body is complete: the receive buffer
      now starts with the frame `f`. `late` is what the buffer holds by the time a text in it is copied, if the next
      header's receive has been submitted by then; `opens` is whether the file for a success can be opened. */
  datatype Event =
    | NewBatch
    | Failed(op: Op, res: int)
    | Datagram(r: Req, intake: Intake)
    | SendDone(bytes: nat)
    | HeaderDone(header: seq<byte>)
    | BodyDone(to: Req, f: seq<byte>, behind: seq<byte>, late: seq<byte>, opens: bool)

  // ---- what a reply says ----

  /** A file of some length behind the header's bytes, a file that is cut short or cannot be opened, a text at some
      place in the buffer, or nothing that can be read. */
  datatype Content = Success(size: int) | BadFile | Refused(place: nat, length: int) | Broken

  function ContentOf(f: seq<byte>): Content
  {
    if |f| < 5 then Broken
    else if f[4] == 1 then
      if |f| < 9 || FileLength(f[5..]) > |f| - 9 then BadFile else Success(FileLength(f[5..]))
    else if f[4] == 0 && Decode(f[5..]).Some? then
      var n, k := StringLength(f[5..]), Decode(f[5..]).value.1;
      if n > |f| - 5 - k then Broken else Refused(5 + k, n)
    else Broken
  }

  /** What the loop makes of it. */
  function ContentFor(f: seq<byte>, opens: bool): Content
  {
    if ContentOf(f).Success? && !opens then BadFile else ContentOf(f)
  }

  /** Lengths that are negative as an `int` do not occur. */
  predicate Sane(c: Content)
  {
    match c
    case Success(n) => 0 <= n
    case Refused(_, n) => 0 <= n
    case _ => true
  }

  /** What the marshal call for a refusal is given. */
  function RefusalPieces(text: seq<byte>): seq<seq<byte>>
  {
    [[0], Encode(4 + |text|), CMW, text, [0]]
  }

  /** The datagram they make. */
  function RefusalDatagram(text: seq<byte>): seq<byte> { Frame(2, [], Concat(RefusalPieces(text))) }

  /** What becomes of a refusal with this text in a reply slot: 1500 bytes, indexed with 16 bits. */
  function RefusalFate(text: seq<byte>): Fate
  {
    MarshalFate(0, RefusalPieces(text), 2, 1500, 1500)
  }

  // ---- transitions ----

  function Start(rec: seq<byte>): State
  {
    State([], -1, 0, true, [ReceiveHeader, Other], [Excuse, Excuse, Excuse, Excuse, Excuse], rec, Queue([], 0),
        NEW_LINK, [], [], 0, false, false)
  }

  function Requests(answers: seq<Answer>): seq<Req>
  {
    if answers == [] then [] else [answers[0].r] + Requests(answers[1..])
  }

  function VanishedAll(rs: seq<Req>): seq<Answer>
  {
    if rs == [] then [] else [Vanished(rs[0])] + VanishedAll(rs[1..])
  }

  function Rest<T>(rs: seq<T>): seq<T> { if rs == [] then [] else rs[1..] }

  function Receives(sq: seq<Entry>): seq<Entry>
  {
    if sq == [] then []
    else (if sq[0].ReceiveHeader? || sq[0].ReceiveBody? then [sq[0]] else []) + Receives(sq[1..])
  }

  function SendSizes(sq: seq<Entry>): seq<nat>
  {
    if sq == [] then [] else (if sq[0].SendPacket? then [sq[0].size] else []) + SendSizes(sq[1..])
  }

  function ClearedIn(sq: seq<Entry>): nat
  {
    if sq == [] then 0 else (if sq[0].Cleared? then 1 else 0) + ClearedIn(sq[1..])
  }

  function Submit(s: State): State
  {
    s.(sq := [], noops := s.noops + ClearedIn(s.sq), link := s.link.(receiving := s.link.receiving + Receives(s.sq),
        sending := s.link.sending + SendSizes(s.sq)))
  }

  /** The next reply slot; after the last one everything queued is submitted first and slots start over. */
  function NextSlot(s: State, late: seq<byte>): State
  {
    if s.s2ind + 1 >= SLOTS then Submit(s).(s2ind := 0, rec := late) else s.(s2ind := s.s2ind + 1)
  }

  function Say(s: State, n: Notice): State
  {
    s.(slots := if 0 <= s.s2ind < |s.slots| then s.slots[s.s2ind := n] else s.slots, sq := s.sq + [Reply(s.s2ind, n)])
  }

  function SendTo(s: State, n: Notice, late: seq<byte>): State { Say(NextSlot(s, late), n) }

  function Slice(s: seq<byte>, at: nat, len: int): seq<byte>
  {
    if 0 <= len && at + len <= |s| then s[at..at + len] else []
  }

  /** The text is copied out of the receive buffer after the slot was taken. One that is too long leaves the entry
      cleared and the exception's text takes another. */
  function Refuse(s: State, at: nat, len: int): State
  {
    var text := Slice(s.rec, at, len);
    match RefusalFate(text)
    case Written => Say(s, Said(CMW + text))
    case Full => SendTo(s.(sq := s.sq + [Cleared]), Excuse, s.rec)
    case Overrun => s.(running := false, smashed := true)
  }

  function PassOn(s: State, c: Content, late: seq<byte>): State
  {
    match c
    case Success(n) =>
      SendTo(s.(sq := s.sq + [Other, SaveFile(HEADER, if n < 0 then 0 else n), Other, Other]), Saved, late)
    case BadFile => SendTo(s.(sq := s.sq + [Other, Cleared]), Excuse, late)
    case Refused(at, len) => Refuse(NextSlot(s, late), at, len)
    case Broken => SendTo(s, Excuse, late)
  }

  /** The body's receive is done, the next header's is queued, the buffer starts with the reply. */
  function TakeBody(s: State, buffer: seq<byte>): State
  {
    s.(rec := buffer, sq := s.sq + [ReceiveHeader],
       link := s.link.(receiving := Rest(s.link.receiving), received := s.link.received + [Body]))
  }

  /** The oldest request leaves, told what its slot says. */
  function Leave(s: State, r: Req, to: Req): State
  {
    var says := if 0 <= s.s2ind < |s.slots| then s.slots[s.s2ind] else Excuse;
    s.(answers := s.answers + [Answered(r, to, says)], requests := Rest(s.requests),
       link := s.link.(backTier := Rest(s.link.backTier)))
  }

  function Complete(s: State, to: Req, f: seq<byte>, behind: seq<byte>, late: seq<byte>, opens: bool): State
  {
    if s.requests == [] then s.(aborted := true, running := false)
    else
      var t := PassOn(TakeBody(s, f + behind), ContentFor(f, opens), late);
      if t.smashed then t else Leave(t, s.requests[0], to)
  }

  function TakeIn(s: State, r: Req, intake: Intake): State
  {
    match intake
    case BadDatagram => s
    case BadRequest => SendTo(s, Excuse, s.rec)
    case NotSent => SendTo(s, Excuse, s.rec)
    case Sent(p) =>
      var q, from := Push(s.queue, p), s.queue.handed;
      var bytes := Slice(q.bytes, from, |q.bytes| - from);
      s.(requests := s.requests + [r], accepted := s.accepted + [r], queue := HandOut(q),
         sq := s.sq + [SendPacket(from, |bytes|)],
         link := s.link.(backTier := s.link.backTier + [r], sent := s.link.sent + 1, packets := s.link.packets + p,
             wire := s.link.wire + bytes))
  }

  /** The connection is given up: everyone waiting is told, and a new one waits for a header. Entries queued before
      stay queued; the socket they use is by then the new one. */
  function Relogin(s: State): State
  {
    s.(answers := s.answers + VanishedAll(s.requests), requests := [], queue := Queue([], 0),
       sq := s.sq + [Other, ReceiveHeader], link := NEW_LINK)
  }

  function StartBatch(s: State): State
  {
    var t := Submit(s);
    t.(s2ind := -1, sentBytes := 0,
       queue := if s.sentBytes > 0 then Acknowledge(s.queue, s.sentBytes) else s.queue)
  }

  function TakeHeader(s: State, h: seq<byte>): State
    requires |h| >= 9
  {
    var span := BodySpan(h, |s.rec|);
    var t := s.(rec := if |s.rec| < 9 then s.rec else h[..9] + s.rec[9..]);
    if span.None? then t.(running := false)
    else
      t.(sq := s.sq + [ReceiveBody(span.value.0, span.value.1)],
         link := s.link.(receiving := Rest(s.link.receiving), received := s.link.received + [Header]))
  }

  /** The completion of a cleared entry: a no-op, with user_data 0 and result 0. */
  predicate NoopDone(e: Event) { e == Failed(Recvmsg, 0) }

  /** The loop gives the connection up. */
  predicate Relogs(e: Event)
  {
    e.Failed? && (e.res == 0 || (e.op != Op.SaveOutput && e.op != Fsync && e.res == -EPIPE))
  }

  /** One pass of the loop's body; a new batch is the loop's head. */
  function Handle(s: State, e: Event): State
  {
    match e
    case NewBatch => StartBatch(s)
    case Failed(op, res) =>
      if NoopDone(e) then Relogin(s).(noops := if s.noops == 0 then 0 else s.noops - 1)
      else if Relogs(e) then Relogin(s)
      else if op == Op.SaveOutput || op == Fsync then s else s.(running := false)
    case Datagram(r, intake) => TakeIn(s, r, intake)
    case SendDone(n) => s.(sentBytes := s.sentBytes + n, link := s.link.(sending := Rest(s.link.sending)))
    case HeaderDone(h) => if |h| < 9 then s else TakeHeader(s, h)
    case BodyDone(to, f, behind, late, opens) => Complete(s, to, f, behind, late, opens)
  }

  /** Until it completes, a receive may write where it was told to, and nowhere else. */
  ghost predicate KernelWrote(before: seq<byte>, now: seq<byte>, receives: seq<Entry>)
  {
    |now| == |before| && forall i :: 0 <= i < |now| && !Target(receives, i) ==> now[i] == before[i]
  }

  ghost predicate Target(receives: seq<Entry>, i: nat)
  {
    exists e <- receives :: if e.ReceiveBody? then e.at <= i < e.at + e.len else i < HEADER
  }

  /** What the kernel and the back tier may do: the oldest outstanding receive or send completes, and the back
      tier replies once to each request it was sent, in order, in frames. */
  ghost predicate Possible(s: State, e: Event)
  {
    && s.running && |s.rec| >= HEADER
    && match e
       case NewBatch => true
       case Failed(op, res) => res <= 0 && (op == Recvmsg && res == 0 ==> s.noops > 0)
       case Datagram(_, intake) => intake.Sent? ==> intake.packet != []
       case SendDone(n) => s.link.sending != [] && n == s.link.sending[0]
       case HeaderDone(h) => |h| == HEADER && s.link.receiving != [] && s.link.receiving[0] == ReceiveHeader
           && s.link.backTier != []
       case BodyDone(to, f, behind, late, _) =>
         && s.link.receiving != [] && s.link.receiving[0].ReceiveBody?
         && s.link.backTier != [] && to == s.link.backTier[0]
         && IsFrame(4, f) && |f| + |behind| == |s.rec| && Sane(ContentOf(f))
         && KernelWrote(f + behind, late, Outstanding(TakeBody(s, f + behind)))
  }

  /** Receives in the kernel, then those still queued. */
  function Outstanding(s: State): seq<Entry> { s.link.receiving + Receives(s.sq) }

  function Unsent(s: State): seq<nat> { s.link.sending + SendSizes(s.sq) }

  ghost predicate PossibleRun(s: State, es: seq<Event>)
    decreases |es|
  {
    es == [] || (Possible(s, es[0]) && PossibleRun(Handle(s, es[0]), es[1..]))
  }

  function RunLoop(s: State, es: seq<Event>): State
    decreases |es|
  {
    if es == [] then s else RunLoop(Handle(s, es[0]), es[1..])
  }

  // ---- what every run keeps ----

  /** Accepted requests are those answered, in order, followed by those waiting. */
  predicate Conserved(s: State) { s.accepted == Requests(s.answers) + s.requests }

  /** Every reply still queued is in its slot as it was written there, and no queued write of a file reads the bytes
      the next header goes to. */
  predicate EntryIntact(s: State, e: Entry)
  {
    match e
    case Reply(slot, says) => 0 <= slot <= s.s2ind && slot < |s.slots| && s.slots[slot] == says
    case SaveFile(start, _) => start >= HEADER
    case _ => true
  }

  predicate QueueIntact(s: State)
  {
    -1 <= s.s2ind < SLOTS && |s.slots| == SLOTS && forall e <- s.sq :: EntryIntact(s, e)
  }

  predicate Always(s: State)
  {
    && Conserved(s) && QueueIntact(s) && s.queue.handed <= |s.queue.bytes|
    && (s.running ==> !s.smashed && !s.aborted)
  }

  lemma {:induction false} RequestsAppend(a: seq<Answer>, b: seq<Answer>)
    ensures Requests(a + b) == Requests(a) + Requests(b)
  {
    if a == [] {
      assert a + b == b;
    } else {
      assert (a + b)[1..] == a[1..] + b;
      RequestsAppend(a[1..], b);
    }
  }

  lemma {:induction false} VanishedAreAll(rs: seq<Req>)
    ensures Requests(VanishedAll(rs)) == rs && forall a <- VanishedAll(rs) :: a.Vanished?
  {
    if rs != [] { VanishedAreAll(rs[1..]); }
  }

  lemma ReceivesAppend(a: seq<Entry>, b: seq<Entry>)
    ensures Receives(a + b) == Receives(a) + Receives(b) && SendSizes(a + b) == SendSizes(a) + SendSizes(b)
  {
    ReceivesJoin(a, b);
    SizesJoin(a, b);
  }

  lemma {:induction false} ReceivesJoin(a: seq<Entry>, b: seq<Entry>)
    ensures Receives(a + b) == Receives(a) + Receives(b)
  {
    if a == [] {
      assert a + b == b;
    } else {
      assert (a + b)[1..] == a[1..] + b;
      ReceivesJoin(a[1..], b);
      if a[0].ReceiveHeader? || a[0].ReceiveBody? { Assoc([a[0]], Receives(a[1..]), Receives(b)); }
    }
  }

  lemma {:induction false} SizesJoin(a: seq<Entry>, b: seq<Entry>)
    ensures SendSizes(a + b) == SendSizes(a) + SendSizes(b)
  {
    if a == [] {
      assert a + b == b;
    } else {
      assert (a + b)[1..] == a[1..] + b;
      SizesJoin(a[1..], b);
      if a[0].SendPacket? { Assoc([a[0].size], SendSizes(a[1..]), SendSizes(b)); }
    }
  }

  /** Entries that are neither receives nor sends. */
  lemma {:induction false} NoTransfers(a: seq<Entry>)
    requires forall e <- a :: !e.ReceiveHeader? && !e.ReceiveBody? && !e.SendPacket?
    ensures Receives(a) == [] && SendSizes(a) == []
  {
    if a != [] {
      assert a[0] in a;
      NoTransfers(a[1..]);
    }
  }

  /** All that passing on a reply changes: entries, slots, the receive buffer and what the kernel has, not which
      receives and sends are outstanding. */
  ghost predicate RepliesOnly(s: State, t: State)
  {
    && t == s.(s2ind := t.s2ind, sq := t.sq, slots := t.slots, rec := t.rec, noops := t.noops,
               link := s.link.(receiving := t.link.receiving, sending := t.link.sending),
               running := t.running, smashed := t.smashed)
    && Outstanding(t) == Outstanding(s) && Unsent(t) == Unsent(s) && QueueIntact(t)
  }

  /** The slot at `s2ind` is not used by a queued reply. */
  predicate SlotFree(s: State)
  {
    0 <= s.s2ind && forall e <- s.sq :: e.Reply? ==> e.slot < s.s2ind
  }

  lemma QueueMore(s: State, es: seq<Entry>)
    requires QueueIntact(s)
    requires forall e <- es :: e.Other? || e.Cleared? || (e.SaveFile? && e.start >= HEADER)
    ensures RepliesOnly(s, s.(sq := s.sq + es))
  {
    ReceivesAppend(s.sq, es);
    NoTransfers(es);
    hide Receives, SendSizes;
    assert Receives(s.sq) + [] == Receives(s.sq) && SendSizes(s.sq) + [] == SendSizes(s.sq);
    var t := s.(sq := s.sq + es);
    forall e | e in t.sq
      ensures EntryIntact(t, e)
    {
      if e in s.sq { assert EntryIntact(s, e); }
    }
  }

  lemma NextSlotKeeps(s: State, late: seq<byte>)
    requires QueueIntact(s)
    ensures var t := NextSlot(s, late);
      RepliesOnly(s, t) && SlotFree(t) && t.running == s.running && t.smashed == s.smashed
  {
    var t := NextSlot(s, late);
    assert s.link.receiving + Receives(s.sq) + [] == s.link.receiving + Receives(s.sq);
    assert s.link.sending + SendSizes(s.sq) + [] == s.link.sending + SendSizes(s.sq);
    hide Receives, SendSizes;
    forall e | e in t.sq
      ensures EntryIntact(t, e) && (e.Reply? ==> e.slot < t.s2ind)
    {
      assert EntryIntact(s, e);
    }
  }

  /** Writing a free slot leaves every queued reply as it was. */
  lemma SayKeeps(s: State, n: Notice)
    requires QueueIntact(s) && SlotFree(s)
    ensures var t := Say(s, n); RepliesOnly(s, t) && t.running == s.running && t.smashed == s.smashed
  {
    var t := Say(s, n);
    ReceivesAppend(s.sq, [Reply(s.s2ind, n)]);
    NoTransfers([Reply(s.s2ind, n)]);
    hide Receives, SendSizes;
    assert Receives(s.sq) + [] == Receives(s.sq) && SendSizes(s.sq) + [] == SendSizes(s.sq);
    forall e | e in t.sq
      ensures EntryIntact(t, e)
    {
      if e in s.sq { assert EntryIntact(s, e); }
    }
  }

  lemma SendToKeeps(s: State, n: Notice, late: seq<byte>)
    requires QueueIntact(s)
    ensures var t := SendTo(s, n, late); RepliesOnly(s, t) && t.running == s.running && t.smashed == s.smashed
  {
    NextSlotKeeps(s, late);
    SayKeeps(NextSlot(s, late), n);
    hide QueueIntact, Receives, SendSizes, NextSlot, Say, SlotFree;
  }

  lemma RefuseKeeps(s: State, at: nat, len: int)
    requires QueueIntact(s) && SlotFree(s)
    ensures var t := Refuse(s, at, len);
      && RepliesOnly(s, t) && (t.smashed <==> s.smashed || RefusalFate(Slice(s.rec, at, len)) == Overrun)
      && (t.running <==> s.running && RefusalFate(Slice(s.rec, at, len)) != Overrun)
  {
    var text := Slice(s.rec, at, len);
    SayKeeps(s, Said(CMW + text));
    QueueMore(s, [Cleared]);
    SendToKeeps(s.(sq := s.sq + [Cleared]), Excuse, s.rec);
    hide QueueIntact, Receives, SendSizes, SendTo, Say, SlotFree, RefusalFate;
  }

  /** Whether passing on a reply copies past the end of a slot. */
  ghost predicate Smashes(s: State, c: Content, late: seq<byte>)
  {
    c.Refused? && RefusalFate(Slice(NextSlot(s, late).rec, c.place, c.length)) == Overrun
  }

  lemma PassOnKeeps(s: State, c: Content, late: seq<byte>)
    requires QueueIntact(s)
    ensures var t := PassOn(s, c, late);
      && RepliesOnly(s, t) && (t.smashed <==> s.smashed || Smashes(s, c, late))
      && (t.running <==> s.running && !Smashes(s, c, late))
  {
    match c
    case Success(n) =>
      var es := [Other, SaveFile(HEADER, if n < 0 then 0 else n), Other, Other];
      QueueMore(s, es);
      SendToKeeps(s.(sq := s.sq + es), Saved, late);
      hide QueueIntact, Receives, SendSizes, SendTo;
    case BadFile =>
      QueueMore(s, [Other, Cleared]);
      SendToKeeps(s.(sq := s.sq + [Other, Cleared]), Excuse, late);
      hide QueueIntact, Receives, SendSizes, SendTo;
    case Refused(at, len) =>
      NextSlotKeeps(s, late);
      RefuseKeeps(NextSlot(s, late), at, len);
      hide QueueIntact, Receives, SendSizes, NextSlot, Refuse, SlotFree, RefusalFate;
    case Broken =>
      SendToKeeps(s, Excuse, late);
      hide QueueIntact, Receives, SendSizes, SendTo;
  }

  lemma ReloginConserves(s: State)
    requires Conserved(s)
    ensures Conserved(Relogin(s))
  {
    VanishedAreAll(s.requests);
    RequestsAppend(s.answers, VanishedAll(s.requests));
    assert Requests(s.answers) + s.requests + [] == Requests(s.answers) + s.requests;
  }

  lemma LeaveConserves(s: State, to: Req)
    requires Conserved(s) && s.requests != []
    ensures Conserved(Leave(s, s.requests[0], to))
  {
    var a := Leave(s, s.requests[0], to).answers[|s.answers|];
    RequestsAppend(s.answers, [a]);
    assert Requests([a]) == [s.requests[0]] + Requests([]);
    assert Requests(s.answers) + s.requests == Requests(s.answers) + [s.requests[0]] + s.requests[1..];
  }

  lemma AddedIntact(s: State, t: State)
    requires QueueIntact(s) && t.slots == s.slots && s.s2ind == t.s2ind && s.sq <= t.sq
    requires forall i :: |s.sq| <= i < |t.sq| ==> !t.sq[i].Reply? && !t.sq[i].SaveFile?
    ensures QueueIntact(t)
  {
    forall e | e in t.sq
      ensures EntryIntact(t, e)
    {
      var i :| 0 <= i < |t.sq| && t.sq[i] == e;
      if i < |s.sq| { assert e == s.sq[i] && e in s.sq && EntryIntact(s, e); }
    }
  }

  lemma CompleteAlways(s: State, to: Req, f: seq<byte>, behind: seq<byte>, late: seq<byte>, opens: bool)
    requires Always(s) && s.running
    ensures Always(Complete(s, to, f, behind, late, opens))
  {
    var q := TakeBody(s, f + behind);
    AddedIntact(s, q);
    PassOnKeeps(q, ContentFor(f, opens), late);
    hide PassOn, ContentFor, Smashes, Receives, SendSizes, EntryIntact;
    var t := PassOn(q, ContentFor(f, opens), late);
    if s.requests != [] && !t.smashed { LeaveConserves(t, to); }
  }

  lemma DatagramAlways(s: State, r: Req, intake: Intake)
    requires Always(s)
    ensures Always(TakeIn(s, r, intake))
  {
    SendToKeeps(s, Excuse, s.rec);
    hide SendTo, EntryIntact, Receives, SendSizes;
    if intake.Sent? {
      AddedIntact(s, TakeIn(s, r, intake));
      Assoc(Requests(s.answers), s.requests, [r]);
    }
  }

  /** Over any run whatever: no accepted request is lost or answered twice or out of order, and no queued reply is
      overwritten. */
  lemma HandleAlways(s: State, e: Event)
    requires Always(s) && Possible(s, e)
    ensures Always(Handle(s, e))
  {
    hide Receives, SendSizes, Complete, TakeIn, ContentOf;
    match e
    case Failed(op, res) => ReloginConserves(s); AddedIntact(s, Relogin(s));
    case Datagram(r, intake) => DatagramAlways(s, r, intake);
    case BodyDone(to, f, behind, late, opens) => CompleteAlways(s, to, f, behind, late, opens);
    case HeaderDone(h) => if TakeHeader(s, h).running { AddedIntact(s, TakeHeader(s, h)); }
    case NewBatch =>
    case SendDone(bytes) => AddedIntact(s, Handle(s, e));
  }

  // ---- in step with the back tier ----

  function Turn(i: nat): Rx { if i % 2 == 0 then Header else Body }

  /** One receive is outstanding, in the kernel or queued; headers and bodies have alternated since the login. */
  ghost predicate OneReceive(s: State)
  {
    var out, n := Outstanding(s), |s.link.received|;
    && |out| == 1 && (if n % 2 == 0 then out[0].ReceiveHeader? else out[0].ReceiveBody? && s.link.backTier != [])
    && forall i :: 0 <= i < n ==> s.link.received[i] == Turn(i)
  }

  /** The deque is what the back tier has still to reply to; each reply met the request it was for; the number
      waiting is what was sent less the replies received. */
  ghost predicate InStep(s: State)
  {
    && s.requests == s.link.backTier && s.link.sent == |s.requests| + |s.link.received| / 2
    && (forall a <- s.answers :: a.Answered? ==> a.to == a.r)
    && OneReceive(s)
  }

  /** When a receive completes nothing else is queued or in the kernel; what the loop queues next is all. */
  lemma NextReceive(s: State, t: State, e: Entry)
    requires OneReceive(s) && s.link.receiving != [] && (e.ReceiveHeader? || e.ReceiveBody?)
    requires t.sq == s.sq + [e] && t.link.receiving == Rest(s.link.receiving)
    ensures Outstanding(t) == [e]
  {
    ReceivesAppend(s.sq, [e]);
    assert Receives([e]) == [e] + Receives([]);
    hide Receives;
    assert Outstanding(s)[0] == s.link.receiving[0] && Receives(s.sq) == [] && Rest(s.link.receiving) == [];
  }

  /** The oldest request is the one replied to, and with it gone everything is in step again. */
  lemma LeaveInStep(s: State, t: State, to: Req)
    requires InStep(s) && s.link.backTier != [] && to == s.link.backTier[0] && |s.link.received| % 2 == 1
    requires t.requests == s.requests && t.answers == s.answers && Outstanding(t) == [ReceiveHeader]
    requires t.link == s.link.(receiving := t.link.receiving, sending := t.link.sending,
                               received := s.link.received + [Body])
    ensures InStep(Leave(t, s.requests[0], to))
  {
    var u := Leave(t, s.requests[0], to);
    assert Outstanding(u) == Outstanding(t);
    hide Outstanding;
  }

  lemma CompleteInStep(s: State, to: Req, f: seq<byte>, behind: seq<byte>, late: seq<byte>, opens: bool)
    requires Always(s) && InStep(s) && Possible(s, BodyDone(to, f, behind, late, opens))
    ensures var t := Complete(s, to, f, behind, late, opens); (t.running ==> InStep(t)) && !t.aborted
  {
    var q := TakeBody(s, f + behind);
    AddedIntact(s, q);
    NextReceive(s, q, ReceiveHeader);
    assert Outstanding(s)[0] == s.link.receiving[0];
    hide Outstanding;
    PassOnKeeps(q, ContentFor(f, opens), late);
    hide PassOn, ContentFor, Smashes, Receives, SendSizes, EntryIntact, QueueIntact, KernelWrote, Conserved;
    var t := PassOn(q, ContentFor(f, opens), late);
    if !t.smashed { LeaveInStep(s, t, to); }
    hide InStep, Leave;
  }

  /** A new login finds one receive outstanding exactly when none was queued for the old connection: an entry
      queued before it is submitted after it and reads from the new socket. */
  lemma ReloginInStep(s: State)
    requires InStep(s)
    ensures InStep(Relogin(s)) <==> Receives(s.sq) == []
  {
    VanishedAreAll(s.requests);
    ReceivesAppend(s.sq, [Other, ReceiveHeader]);
    assert [Other, ReceiveHeader][1..] == [ReceiveHeader];
    assert Receives([ReceiveHeader]) == [ReceiveHeader] + Receives([]);
    assert Outstanding(Relogin(s)) == Receives(s.sq) + [ReceiveHeader];
    hide Receives, SendSizes;
  }

  lemma BatchInStep(s: State)
    requires InStep(s)
    ensures InStep(StartBatch(s))
  {
    assert s.link.receiving + Receives(s.sq) + [] == s.link.receiving + Receives(s.sq);
  }

  lemma DatagramInStep(s: State, r: Req, intake: Intake)
    requires Always(s) && InStep(s)
    ensures InStep(TakeIn(s, r, intake))
  {
    SendToKeeps(s, Excuse, s.rec);
    hide SendTo, QueueIntact;
    if intake.Sent? {
      var t := TakeIn(s, r, intake);
      var e := t.sq[|s.sq|];
      ReceivesAppend(s.sq, [e]);
      assert Receives([e]) == [] + Receives([]) && Receives(s.sq) + [] == Receives(s.sq);
    }
  }

  lemma HeaderInStep(s: State, h: seq<byte>)
    requires InStep(s) && Possible(s, HeaderDone(h))
    ensures TakeHeader(s, h).running ==> InStep(TakeHeader(s, h))
  {
    var t := TakeHeader(s, h);
    if t.running {
      NextReceive(s, t, t.sq[|s.sq|]);
      hide Outstanding;
    }
  }

  /** Every completion keeps the loop in step with the back tier, except a relogin that finds a receive queued; and
      the assertion holds. */
  lemma HandleInStep(s: State, e: Event)
    requires Always(s) && InStep(s) && Possible(s, e)
    ensures !Handle(s, e).aborted
    ensures Handle(s, e).running ==> (InStep(Handle(s, e)) <==> (Relogs(e) ==> Receives(s.sq) == []))
  {
    hide Receives, SendSizes, Complete, EntryIntact, VanishedAll, SendTo;
    match e
    case Failed(op, res) => ReloginInStep(s);
    case Datagram(r, intake) => DatagramInStep(s, r, intake); SendToKeeps(s, Excuse, s.rec);
    case BodyDone(to, f, behind, late, opens) => CompleteInStep(s, to, f, behind, late, opens);
    case HeaderDone(h) => HeaderInStep(s, h);
    case NewBatch => BatchInStep(s);
    case SendDone(bytes) =>
  }

  // ---- whole runs ----

  /** No relogin of the run finds a receive queued. */
  ghost predicate Orderly(s: State, es: seq<Event>)
    decreases |es|
  {
    es == [] || ((Relogs(es[0]) ==> Receives(s.sq) == []) && Orderly(Handle(s, es[0]), es[1..]))
  }

  lemma {:induction false} RunAlways(s: State, es: seq<Event>)
    requires Always(s) && PossibleRun(s, es)
    ensures Always(RunLoop(s, es))
    decreases |es|
  {
    if es != [] {
      hide Handle, Always, Possible;
      HandleAlways(s, es[0]);
      RunAlways(Handle(s, es[0]), es[1..]);
    }
  }

  lemma {:induction false} RunInStep(s: State, es: seq<Event>)
    requires Always(s) && (s.running ==> InStep(s)) && !s.aborted && PossibleRun(s, es) && Orderly(s, es)
    ensures var t := RunLoop(s, es); (t.running ==> InStep(t)) && !t.aborted
    decreases |es|
  {
    if es != [] {
      hide Handle, Always, InStep, Receives;
      HandleAlways(s, es[0]);
      HandleInStep(s, es[0]);
      RunInStep(Handle(s, es[0]), es[1..]);
    }
  }

  lemma StartHolds(rec: seq<byte>)
    ensures Always(Start(rec)) && InStep(Start(rec)) && Tally(Start(rec))
  {
    var sq := Start(rec).sq;
    assert sq == [ReceiveHeader, Other] && sq[1..] == [Other];
    assert Receives([Other]) == [] + Receives([]) && SendSizes([Other]) == [] + SendSizes([]);
    assert Receives(sq) == [ReceiveHeader] + Receives([Other]) && SendSizes(sq) == SendSizes([Other]);
  }

  /** Over every run: accepted requests are the answered ones in order followed by the waiting ones, and no queued
      reply is overwritten. */
  lemma StartAlways(rec: seq<byte>, es: seq<Event>)
    requires PossibleRun(Start(rec), es)
    ensures Always(RunLoop(Start(rec), es))
  {
    StartHolds(rec);
    RunAlways(Start(rec), es);
  }

  /** Over every run in which no relogin finds a receive queued: the assertion holds, no request is answered with
      another's reply, one receive is outstanding and headers and bodies alternate. */
  lemma StartInStep(rec: seq<byte>, es: seq<Event>)
    requires PossibleRun(Start(rec), es) && Orderly(Start(rec), es)
    ensures var t := RunLoop(Start(rec), es); (t.running ==> InStep(t)) && !t.aborted
  {
    StartHolds(rec);
    RunInStep(Start(rec), es);
  }

  lemma NotEmpty(s: State, to: Req, f: seq<byte>, behind: seq<byte>, late: seq<byte>, opens: bool)
    requires InStep(s) && Possible(s, BodyDone(to, f, behind, late, opens))
    ensures s.requests != [] && s.requests[0] == to
  {
  }

  // ---- the bytes sent to the back tier ----

  function Sum(ns: seq<nat>): nat { if ns == [] then 0 else ns[0] + Sum(ns[1..]) }

  lemma {:induction false} SumAppend(a: seq<nat>, b: seq<nat>)
    ensures Sum(a + b) == Sum(a) + Sum(b)
  {
    if a == [] {
      assert a + b == b;
    } else {
      assert (a + b)[1..] == a[1..] + b;
      SumAppend(a[1..], b);
    }
  }

  /** The bytes handed to the kernel are those of the packets, each once and in order; all that is in the queue was
      handed out, and it is what was tallied since the last acknowledgement and what is still on its way. */
  ghost predicate Tally(s: State)
  {
    && InOrder(s.queue, s.link.packets, s.link.wire) && s.queue.handed == |s.queue.bytes|
    && |s.queue.bytes| == s.sentBytes + Sum(Unsent(s)) && forall n <- Unsent(s) :: n > 0
  }

  /** The loop acknowledges at its head what was tallied; that is right exactly when nothing is on its way then. A
      relogin is in order exactly when nothing was tallied and no send was queued before it. */
  ghost predicate Settled(s: State, e: Event)
  {
    (e.NewBatch? && s.sentBytes > 0 ==> Unsent(s) == []) &&
    (Relogs(e) ==> s.sentBytes == 0 && SendSizes(s.sq) == [])
  }

  lemma BatchTally(s: State)
    requires Tally(s)
    ensures Tally(StartBatch(s)) <==> (s.sentBytes > 0 ==> Unsent(s) == [])
  {
    var t := StartBatch(s);
    assert Unsent(t) == Unsent(s) by { assert Unsent(s) + [] == Unsent(s); }
    hide Unsent;
    if s.sentBytes > 0 {
      AcknowledgeExactly(s.queue, s.link.packets, s.link.wire, s.sentBytes);
      hide InOrder;
      if Unsent(s) != [] { assert Unsent(s)[0] in Unsent(s); }
    }
  }

  lemma ReloginTally(s: State)
    requires Tally(s)
    ensures Tally(Relogin(s)) <==> s.sentBytes == 0 && SendSizes(s.sq) == []
  {
    ReceivesAppend(s.sq, [Other, ReceiveHeader]);
    assert [Other, ReceiveHeader][1..] == [ReceiveHeader] && SendSizes([ReceiveHeader]) == [] + SendSizes([]);
    var t := Relogin(s);
    assert Unsent(t) == SendSizes(s.sq);
    if SendSizes(s.sq) != [] {
      var n := SendSizes(s.sq)[0];
      assert n in Unsent(s);
    }
  }

  /** With everything handed out before, a new packet is what is handed out next, and all of it. */
  lemma HandOutNew(q: Queue, p: seq<byte>, made: seq<byte>, out: seq<byte>)
    requires InOrder(q, made, out) && q.handed == |q.bytes|
    ensures var r := Push(q, p);
      Slice(r.bytes, q.handed, |r.bytes| - q.handed) == p && InOrder(HandOut(r), made + p, out + p)
      && HandOut(r).handed == |HandOut(r).bytes| == |q.bytes| + |p|
  {
    assert q.bytes[q.handed..] == [] && (q.bytes + p)[q.handed..] == p;
    assert (q.bytes + p)[|q.bytes + p|..] == [];
  }

  lemma UnsentMore(s: State, t: State, e: Entry)
    requires t.sq == s.sq + [e] && t.link.sending == s.link.sending && e.SendPacket? && e.size > 0
    requires forall n <- Unsent(s) :: n > 0
    ensures Sum(Unsent(t)) == Sum(Unsent(s)) + e.size && forall n <- Unsent(t) :: n > 0
  {
    ReceivesAppend(s.sq, [e]);
    assert [e][1..] == [] && SendSizes([e]) == [e.size];
    Assoc(s.link.sending, SendSizes(s.sq), [e.size]);
    assert Unsent(t) == Unsent(s) + [e.size];
    SumAppend(Unsent(s), [e.size]);
    assert [e.size][1..] == [] && Sum([e.size]) == e.size;
  }

  lemma SentTally(s: State, r: Req, p: seq<byte>)
    requires Tally(s) && p != []
    ensures Tally(TakeIn(s, r, Sent(p)))
  {
    HandOutNew(s.queue, p, s.link.packets, s.link.wire);
    hide InOrder, Unsent, Slice, SendTo, Push, HandOut, Sum;
    UnsentMore(s, TakeIn(s, r, Sent(p)), SendPacket(s.queue.handed, |p|));
  }

  lemma SameTally(s: State, t: State)
    requires Tally(s) && t.queue == s.queue && t.sentBytes == s.sentBytes && Unsent(t) == Unsent(s)
    requires t.link.packets == s.link.packets && t.link.wire == s.link.wire
    ensures Tally(t)
  {
  }

  lemma DoneTally(s: State, n: nat)
    requires Tally(s) && s.link.sending != [] && n == s.link.sending[0]
    ensures Tally(Handle(s, SendDone(n)))
  {
    var t, u := Handle(s, SendDone(n)), Unsent(s);
    assert u[0] == n && u[1..] == Unsent(t);
    forall m | m in Unsent(t)
      ensures m > 0
    {
      assert m in u;
    }
  }

  lemma HandleTally(s: State, e: Event)
    requires Always(s) && Tally(s) && Possible(s, e)
    ensures Tally(Handle(s, e)) <==> Settled(s, e)
  {
    match e
    case NewBatch => BatchTally(s);
    case Failed(op, res) => ReloginTally(s);
    case Datagram(r, intake) =>
      SendToKeeps(s, Excuse, s.rec);
      hide SendTo, Unsent;
      if intake.Sent? { SentTally(s, r, intake.packet); } else { SameTally(s, Handle(s, e)); }
    case SendDone(n) => DoneTally(s, n);
    case HeaderDone(h) => HeaderTally(s, h);
    case BodyDone(to, f, behind, late, opens) => CompleteTally(s, to, f, behind, late, opens);
  }

  lemma HeaderTally(s: State, h: seq<byte>)
    requires Tally(s) && |h| >= 9
    ensures Tally(TakeHeader(s, h))
  {
    var t := TakeHeader(s, h);
    if BodySpan(h, |s.rec|).Some? {
      var e := t.sq[|s.sq|];
      ReceivesAppend(s.sq, [e]);
      assert SendSizes([e]) == [] + SendSizes([]) && SendSizes(s.sq) + [] == SendSizes(s.sq);
    }
    SameTally(s, t);
  }

  lemma CompleteTally(s: State, to: Req, f: seq<byte>, behind: seq<byte>, late: seq<byte>, opens: bool)
    requires Always(s) && Tally(s)
    ensures Tally(Complete(s, to, f, behind, late, opens))
  {
    hide PassOn, ContentFor, Smashes, Receives, EntryIntact, Tally;
    var q := TakeBody(s, f + behind);
    AddedIntact(s, q);
    NoSend(s, q);
    hide SendSizes, QueueIntact, Conserved;
    PassOnKeeps(q, ContentFor(f, opens), late);
    SameTally(s, Complete(s, to, f, behind, late, opens));
  }

  lemma NoSend(s: State, q: State)
    requires q.sq == s.sq + [ReceiveHeader] && q.link.sending == s.link.sending
    ensures Unsent(q) == Unsent(s)
  {
    ReceivesAppend(s.sq, [ReceiveHeader]);
    assert SendSizes([ReceiveHeader]) == [] + SendSizes([]) && SendSizes(s.sq) + [] == SendSizes(s.sq);
  }

  ghost predicate AllSettled(s: State, es: seq<Event>)
    decreases |es|
  {
    es == [] || (Settled(s, es[0]) && AllSettled(Handle(s, es[0]), es[1..]))
  }

  lemma {:induction false} RunTally(s: State, es: seq<Event>)
    requires Always(s) && Tally(s) && PossibleRun(s, es) && AllSettled(s, es)
    ensures Tally(RunLoop(s, es))
    decreases |es|
  {
    if es != [] {
      hide Handle, Always, Tally, Settled, Possible;
      HandleAlways(s, es[0]);
      HandleTally(s, es[0]);
      RunTally(Handle(s, es[0]), es[1..]);
    }
  }

  /** Over every run in which acknowledgements and relogins find nothing on its way: what the kernel was given to send
      on this connection is the packets of the requests, each once and in order. */
  lemma StartTally(rec: seq<byte>, es: seq<Event>)
    requires PossibleRun(Start(rec), es) && AllSettled(Start(rec), es)
    ensures var t := RunLoop(Start(rec), es); t.link.wire == t.link.packets && Tally(t)
  {
    StartHolds(rec);
    RunTally(Start(rec), es);
  }
}
