/** The event loop as it runs: the deque, the submission queue, the reply slots and the receive buffer are updated in
    place, and every completion is proved to be the transition of `EventLoop`. */
module MiddleTier {
  import opened Bytes
  import opened Varint
  import opened Framing
  import opened Compressed
  import opened EventLoop

  class Loop {
    var requests: seq<Req>
    var s2ind: int
    var sentBytes: nat
    var running: bool
    var sq: seq<Entry>
    const slots: array<Notice>
    const rec: array<byte>
    var queue: Queue
    var link: Link
    var accepted: seq<Req>
    var answers: seq<Answer>
    var noops: nat
    var aborted: bool
    var smashed: bool

    ghost predicate Valid() { slots.Length == SLOTS }

    function View(): State
      reads this, slots, rec
    {
      State(requests, s2ind, sentBytes, running, sq, slots[..], rec[..], queue, link, accepted, answers, noops,
          aborted, smashed)
    }

    constructor (size: nat)
      ensures Valid() && rec.Length == size && View() == Start(rec[..])
    {
      requests, s2ind, sentBytes, running := [], -1, 0, true;
      sq, queue, link := [ReceiveHeader, Other], Queue([], 0), NEW_LINK;
      slots := new Notice[SLOTS](i => Excuse);
      rec := new byte[size](i => 0);
      accepted, answers, noops, aborted, smashed := [], [], 0, false, false;
      new;
      assert slots[..] == [Excuse, Excuse, Excuse, Excuse, Excuse];
    }

    /** Everything queued is the kernel's: it goes through the entries in order. */
    method SubmitAll()
      requires Valid()
      modifies `sq, `link, `noops
      ensures View() == Submit(old(View()))
    {
      ghost var was, held, idle := sq, link, noops;
      var k, receiving, sending := 0, link.receiving, link.sending;
      assert was[0..] == was;
      while k < |sq|
        invariant 0 <= k <= |sq| && sq == was && link == held
        invariant held.receiving + Receives(was) == receiving + Receives(was[k..])
        invariant held.sending + SendSizes(was) == sending + SendSizes(was[k..])
        invariant idle + ClearedIn(was) == noops + ClearedIn(was[k..])
        modifies `noops
      {
        var e := sq[k];
        assert was[k..][1..] == was[k + 1..];
        if e.ReceiveHeader? || e.ReceiveBody? {
          Assoc(receiving, [e], Receives(was[k + 1..]));
          receiving := receiving + [e];
        } else if e.SendPacket? {
          Assoc(sending, [e.size], SendSizes(was[k + 1..]));
          sending := sending + [e.size];
        } else if e.Cleared? {
          noops := noops + 1;
        }
        k := k + 1;
      }
      assert was[k..] == [] && receiving + [] == receiving && sending + [] == sending;
      sq, link := [], link.(receiving := receiving, sending := sending);
    }

    /** Takes the next reply slot. When the slots start over, the kernel may write before anything else happens. */
    method TakeSlot(late: seq<byte>)
      requires Valid() && |late| == rec.Length
      modifies `s2ind, `sq, `link, `noops, rec
      ensures View() == NextSlot(old(View()), late)
    {
      s2ind := s2ind + 1;
      if s2ind >= SLOTS {
        SubmitAll();
        forall i | 0 <= i < rec.Length { rec[i] := late[i]; }
        s2ind := 0;
        assert rec[..] == late;
      }
    }

    /** Queues a reply. Its slot says it, and every reply queued and not yet submitted is still in its slot. */
    method SendReply(n: Notice, late: seq<byte>)
      requires Valid() && |late| == rec.Length && QueueIntact(View())
      modifies `s2ind, `sq, `link, `noops, rec, slots
      ensures View() == SendTo(old(View()), n, late)
      ensures QueueIntact(View()) && 0 <= s2ind < SLOTS && slots[s2ind] == n && Reply(s2ind, n) in sq
    {
      hide Receives, SendSizes;
      SendToKeeps(View(), n, late);
      TakeSlot(late);
      slots[s2ind] := n;
      sq := sq + [Reply(s2ind, n)];
    }

    /** Puts a refusal into the slot taken for it: the text is copied out of the receive buffer now. */
    method PassRefusal(at: nat, len: nat)
      requires Valid() && QueueIntact(View()) && SlotFree(View()) && at + len <= rec.Length < 0x4000_0000
      modifies `s2ind, `sq, `link, `noops, rec, slots, `running, `smashed
      ensures View() == Refuse(old(View()), at, len) && QueueIntact(View())
    {
      hide Receives, SendSizes, RefusalFate, EntryIntact;
      RefuseKeeps(View(), at, len);
      var text := rec[at..at + len];
      assert text == Slice(rec[..], at, len);
      var fate, datagram := MarshalRefusal(text);
      match fate {
        case Written =>
          slots[s2ind] := Said(CMW + text);
          sq := sq + [Reply(s2ind, Said(CMW + text))];
        case Full =>
          QueueMore(View(), [Cleared]);
          sq := sq + [Cleared];
          SendReply(Excuse, rec[..]);
        case Overrun =>
          running, smashed := false, true;
      }
    }

    /** The replies a back tier's answer leads to. */
    method Forward(c: Content, late: seq<byte>)
      requires Valid() && QueueIntact(View()) && |late| == rec.Length < 0x4000_0000 && Sane(c)
      requires c.Refused? ==> c.place + c.length <= rec.Length
      modifies `s2ind, `sq, `link, `noops, rec, slots, `running, `smashed
      ensures View() == PassOn(old(View()), c, late) && QueueIntact(View())
      ensures !c.Refused? ==>
        var n := if c.Success? then Saved else Excuse; 0 <= s2ind < 5 && slots[s2ind] == n && Reply(s2ind, n) in sq
    {
      hide Receives, SendSizes, SendTo, Refuse;
      PassOnKeeps(View(), c, late);
      match c {
        case Success(n) =>
          QueueMore(View(), [Other, SaveFile(HEADER, n), Other, Other]);
          sq := sq + [Other, SaveFile(HEADER, n), Other, Other];
          SendReply(Saved, late);
        case BadFile =>
          QueueMore(View(), [Other, Cleared]);
          sq := sq + [Other, Cleared];
          SendReply(Excuse, late);
        case Refused(at, len) =>
          NextSlotKeeps(View(), late);
          TakeSlot(late);
          PassRefusal(at, len);
        case Broken =>
          SendReply(Excuse, late);
      }
    }

    /** Everyone waiting is told, in order; the connection is set up again. */
    method GiveUp()
      requires Valid()
      modifies this
      ensures View() == Relogin(old(View()))
    {
      ghost var v := View();
      var i := 0;
      assert v.answers + VanishedAll(requests) == v.answers + VanishedAll(requests[i..]);
      while i < |requests|
        invariant 0 <= i <= |requests| && View() == v.(answers := answers)
        invariant answers + VanishedAll(requests[i..]) == v.answers + VanishedAll(v.requests)
        modifies `answers
      {
        Assoc(answers, [Vanished(requests[i])], VanishedAll(requests[i + 1..]));
        assert requests[i..][1..] == requests[i + 1..];
        answers := answers + [Vanished(requests[i])];
        i := i + 1;
      }
      assert answers + [] == answers;
      requests, queue, link := [], Queue([], 0), NEW_LINK;
      sq := sq + [Other, ReceiveHeader];
    }

    /** A request joins the deque exactly when it was sent on; otherwise its front tier is told. */
    method TakeDatagram(r: Req, intake: Intake)
      requires Valid() && QueueIntact(View()) && queue.handed <= |queue.bytes|
      modifies this, rec, slots
      ensures View() == TakeIn(old(View()), r, intake)
    {
      hide SendTo, EntryIntact;
      ghost var v := View();
      match intake {
        case BadDatagram =>
        case BadRequest => SendReply(Excuse, rec[..]);
        case NotSent =>
          requests := requests + [r];
          AddedIntact(v, View());
          SendReplyElsewhere(v, requests);
          SendReply(Excuse, rec[..]);
          requests := requests[..|requests| - 1];
          assert requests == v.requests;
        case Sent(p) => SendOn(r, p);
      }
    }

    /** The packet joins the output queue; everything in it not yet handed out becomes one send. */
    method SendOn(r: Req, p: seq<byte>)
      requires queue.handed <= |queue.bytes|
      modifies `requests, `accepted, `queue, `sq, `link
      ensures View() == TakeIn(old(View()), r, Sent(p))
    {
      requests, accepted := requests + [r], accepted + [r];
      queue := Push(queue, p);
      var from := queue.handed;
      var bytes := queue.bytes[from..];
      assert bytes == Slice(queue.bytes, from, |queue.bytes| - from);
      queue := HandOut(queue);
      hide Slice, Push, HandOut;
      sq := sq + [SendPacket(from, |bytes|)];
      link := link.(backTier := link.backTier + [r], sent := link.sent + 1, packets := link.packets + p,
          wire := link.wire + bytes);
    }

    /** The body has been received and decompressed; the next header's receive is queued. */
    method StartReply(buffer: seq<byte>)
      requires |buffer| == rec.Length
      modifies `sq, `link, rec
      ensures View() == TakeBody(old(View()), buffer)
    {
      sq := sq + [ReceiveHeader];
      forall i | 0 <= i < rec.Length { rec[i] := buffer[i]; }
      link := link.(receiving := Rest(link.receiving), received := link.received + [Body]);
      assert rec[..] == buffer;
    }

    /** The oldest request leaves, told what its slot says. */
    method LeaveFront(front: Req, to: Req)
      requires Valid() && requests != []
      modifies `answers, `requests, `link
      ensures View() == Leave(old(View()), front, to)
    {
      var says := if 0 <= s2ind < slots.Length then slots[s2ind] else Excuse;
      answers, requests := answers + [Answered(front, to, says)], requests[1..];
      link := link.(backTier := Rest(link.backTier));
    }

    /** The oldest request is answered and leaves; the next header's receive is queued before its reply. */
    method TakeReply(to: Req, f: seq<byte>, behind: seq<byte>, late: seq<byte>, opens: bool)
      requires Valid() && QueueIntact(View()) && |f| + |behind| == |late| == rec.Length < 0x4000_0000
      requires Sane(ContentOf(f)) && !smashed
      modifies this, rec, slots
      ensures View() == Complete(old(View()), to, f, behind, late, opens)
    {
      hide PassOn, ContentFor, ContentOf, Receives, SendSizes, EntryIntact, TakeBody, Leave;
      if requests == [] {
        aborted, running := true, false;
        return;
      }
      var front := requests[0];
      ghost var v := View();
      BodyKeeps(v, f + behind);
      StartReply(f + behind);
      PassOnKeeps(View(), ContentFor(f, opens), late);
      PlaceFits(f, opens);
      Forward(ContentFor(f, opens), late);
      if smashed { return; }
      LeaveFront(front, to);
    }

    /** A failed write or sync of a file is only logged; other errors end the program, unless the connection is gone. A
        result of zero is taken for that as well. */
    method TakeFailure(op: Op, res: int)
      requires Valid() && res <= 0 && (op == Recvmsg && res == 0 ==> noops > 0)
      modifies this
      ensures View() == Handle(old(View()), Failed(op, res))
      ensures running <==>
        old(running) && (res == 0 || res == -32 || op == Op.SaveOutput || op == Fsync)
    {
      hide Relogin;
      if res < 0 && (op == Op.SaveOutput || op == Fsync) { return; }
      if res < 0 && res != -EPIPE {
        running := false;
        return;
      }
      ghost var v := View();
      ReloginNoops(v);
      GiveUp();
      if op == Recvmsg && res == 0 { noops := noops - 1; }
    }

    /** The header says where the body goes; one that is too large ends the program. */
    method ReadHeader(h: seq<byte>)
      requires |h| == 9 <= rec.Length
      modifies `running, `sq, `link, rec
      ensures View() == TakeHeader(old(View()), h)
    {
      hide BodySpan;
      ghost var was := rec[..];
      forall i | 0 <= i < 9 { rec[i] := h[i]; }
      assert rec[..] == h[..9] + was[9..] && rec[..9] == h;
      var span := BodySpan(rec[..9], rec.Length);
      if span.None? {
        running := false;
      } else {
        sq := sq + [ReceiveBody(span.value.0, span.value.1)];
        link := link.(receiving := Rest(link.receiving), received := link.received + [Header]);
      }
    }

    /** The loop's head: submits, acknowledges what was tallied, starts the reply slots over. */
    method NextBatch()
      requires Valid()
      modifies this
      ensures View() == StartBatch(old(View()))
    {
      hide Receives, SendSizes, Acknowledge;
      SubmitAll();
      if sentBytes > 0 { queue := Acknowledge(queue, sentBytes); }
      s2ind, sentBytes := -1, 0;
    }

    /** One completion, or the head of the loop. */
    method Completion(e: Event)
      requires Valid() && Always(View()) && Possible(View(), e) && rec.Length < 0x4000_0000
      modifies this, rec, slots
      ensures View() == Handle(old(View()), e) && Always(View())
    {
      ghost var v := View();
      HandleAlways(v, e);
      hide Complete, TakeIn, Relogin, Always, Receives, SendSizes, StartBatch, TakeHeader;
      match e {
        case NewBatch =>
          NextBatch();
        case Failed(op, res) =>
          TakeFailure(op, res);
        case Datagram(r, intake) =>
          TakeDatagram(r, intake);
        case SendDone(n) =>
          sentBytes := sentBytes + n;
          link := link.(sending := Rest(link.sending));
        case HeaderDone(h) =>
          ReadHeader(h);
        case BodyDone(to, f, behind, late, opens) =>
          TakeReply(to, f, behind, late, opens);
      }
    }
  }

  lemma BodyKeeps(s: State, buffer: seq<byte>)
    requires QueueIntact(s)
    ensures var t := TakeBody(s, buffer); QueueIntact(t) && t.requests == s.requests && t.smashed == s.smashed
  {
    AddedIntact(s, TakeBody(s, buffer));
  }

  lemma ReloginNoops(s: State)
    ensures Relogin(s).noops == s.noops && Relogin(s).running == s.running
  {
  }

  /** A reply does not depend on who waits. */
  lemma SendReplyElsewhere(s: State, rs: seq<Req>)
    ensures SendTo(s.(requests := rs), Excuse, s.rec).(requests := s.requests) == SendTo(s, Excuse, s.rec)
  {
    hide Receives, SendSizes, ClearedIn;
  }

  /** Reads a reply where it lies: at the start of the receive buffer, its length already read. The file of a success
      lies right behind the bytes the next header goes to. */
  method ReadReply(recv: ReceiveBuffer) returns (c: Content, span: Option<(nat, nat)>)
    requires recv.z == 4 && recv.Open() && recv.rindex == 4 && recv.subTotal == 0
    modifies recv`rindex
    ensures c == ContentOf(old(recv.Current()))
    ensures match c
      case Success(n) => span == Some((HEADER, if n < 0 then n + TWO64 else n))
      case Refused(at, n) => span == Some((at, if n < 0 then n + TWO64 else n))
      case _ => span == None
  {
    hide Decode, FromLe, IsFrame, Split, ToSigned;
    ghost var f, s := recv.Current(), recv.Rest();
    assert s == f[4..];
    span := None;
    var ok := recv.GiveBool();
    if ok.None? { return Broken, None; }
    assert recv.Rest() == s[1..] == f[5..] && f[4] == s[0];
    if ok.value {
      span := recv.GiveFile();
      c := if span.None? then BadFile else Success(AsInt(span.value.1));
    } else {
      span := recv.GiveStringView();
      c := if span.None? then Broken else Refused(span.value.0, AsInt(span.value.1));
    }
  }

  /** A span's size as the `int` it was made from. */
  function AsInt(n: nat): int { if n >= TWO64 / 2 then n - TWO64 else n }

  /** Marshals a refusal into a buffer of 1500 bytes with a 16-bit index. */
  method MarshalRefusal(text: seq<byte>) returns (fate: Fate, datagram: seq<byte>)
    requires |text| < 0x4000_0000
    ensures fate == RefusalFate(text) && (fate == Written ==> datagram == RefusalDatagram(text))
  {
    hide MarshalFate, IsFrame, Concat, Encode, Frame;
    var buf := new byte[1500](i => 0);
    var frnt := new SendBuffer(buf, 2);
    FiveBytes(4 + |text|);
    fate := frnt.Marshal([], RefusalPieces(text), 1500);
    datagram := [];
    if fate == Written {
      datagram := buf[..frnt.index];
      assert frnt.frames == [RefusalDatagram(text)];
      OnePiece(RefusalDatagram(text));
    }
  }

  lemma PlaceFits(f: seq<byte>, opens: bool)
    requires Sane(ContentOf(f))
    ensures var c := ContentFor(f, opens); Sane(c) && (c.Refused? ==> c.place + c.length <= |f|)
  {
  }
}
