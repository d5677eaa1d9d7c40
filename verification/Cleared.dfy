/** Replies that leave a submission entry cleared: what becomes of the entry, and of everyone waiting. */
module Cleared {
  import opened Bytes
  import opened Varint
  import opened Framing
  import opened Compressed
  import opened EventLoop
  import opened Refusals

  // ---- which replies do ----

  /** The reply's file cannot be written, or its text is refused by the reply slot: an exception comes after an entry
      was taken. */
  predicate LeavesEntry(f: seq<byte>, opens: bool)
  {
    match ContentFor(f, opens)
    case BadFile => true
    case Refused(at, len) => RefusalFate(Slice(f, at, len)) == Full
    case _ => false
  }

  predicate Clears(s: State, e: Event) { e.BodyDone? && s.requests != [] && LeavesEntry(e.f, e.opens) }

  /** Cleared entries, queued or submitted, that have not completed. */
  function Idle(s: State): nat { s.noops + ClearedIn(s.sq) }

  lemma {:induction false} SameSizes(ps: seq<seq<byte>>, qs: seq<seq<byte>>, z: nat, room: int)
    requires |ps| == |qs| && forall i :: 0 <= i < |ps| ==> |ps[i]| == |qs[i]|
    ensures FateOfAll(ps, z, room) == FateOfAll(qs, z, room) && |Concat(ps)| == |Concat(qs)|
  {
    if ps != [] {
      assert |ps[0]| == |qs[0]|;
      SameSizes(ps[1..], qs[1..], z, room - |ps[0]|);
    }
  }

  /** What becomes of a refusal depends on its length only. */
  lemma SameFate(a: seq<byte>, b: seq<byte>)
    requires |a| == |b|
    ensures RefusalFate(a) == RefusalFate(b)
  {
    var ps, qs := RefusalPieces(a), RefusalPieces(b);
    SameSizes(ps, qs, 2, 1498);
    hide FateOfAll, Concat, Encode;
  }

  /** What becomes of a refusal's copy is what becomes of the text that came. */
  lemma CopyFate(q: State, f: seq<byte>, at: nat, len: nat, late: seq<byte>)
    requires ContentOf(f) == Refused(at, len) && |f| <= |q.rec| == |late|
    ensures RefusalFate(Slice(NextSlot(q, late).rec, at, len)) == RefusalFate(Slice(f, at, len))
  {
    PlaceInFrame(f, at, len);
    SameFate(Slice(NextSlot(q, late).rec, at, len), Slice(f, at, len));
    hide RefusalFate, ContentOf, Submit;
  }

  lemma {:induction false} ClearedJoin(a: seq<Entry>, b: seq<Entry>)
    ensures ClearedIn(a + b) == ClearedIn(a) + ClearedIn(b)
  {
    if a == [] {
      assert a + b == b;
    } else {
      assert (a + b)[1..] == a[1..] + b;
      ClearedJoin(a[1..], b);
    }
  }

  lemma {:induction false} NoneCleared(a: seq<Entry>)
    requires forall e <- a :: !e.Cleared?
    ensures ClearedIn(a) == 0
  {
    if a != [] {
      assert a[0] in a;
      NoneCleared(a[1..]);
    }
  }

  lemma OneMore(s: State, t: State, es: seq<Entry>)
    requires t.sq == s.sq + es && t.noops == s.noops
    ensures Idle(t) == Idle(s) + ClearedIn(es)
  {
    ClearedJoin(s.sq, es);
  }

  lemma SendToIdle(s: State, n: Notice, late: seq<byte>)
    ensures Idle(NextSlot(s, late)) == Idle(s) && Idle(SendTo(s, n, late)) == Idle(s)
  {
    var t := NextSlot(s, late);
    NoneCleared([Reply(t.s2ind, n)]);
    OneMore(t, Say(t, n), [Reply(t.s2ind, n)]);
    hide Receives, SendSizes;
  }

  lemma RefuseIdle(s: State, at: nat, len: int)
    ensures Idle(Refuse(s, at, len)) == Idle(s) + if RefusalFate(Slice(s.rec, at, len)) == Full then 1 else 0
  {
    var text := Slice(s.rec, at, len);
    var u := s.(sq := s.sq + [Entry.Cleared]);
    OneMore(s, u, [Entry.Cleared]);
    SendToIdle(u, Excuse, s.rec);
    NoneCleared([Reply(s.s2ind, Said(CMW + text))]);
    OneMore(s, Say(s, Said(CMW + text)), [Reply(s.s2ind, Said(CMW + text))]);
    OneCleared();
    hide SendTo, RefusalFate, ClearedIn, Idle;
  }

  lemma OneCleared()
    ensures ClearedIn([Entry.Cleared]) == 1 && ClearedIn([Other, Entry.Cleared]) == 1
  {
    assert [Other, Entry.Cleared][1..] == [Entry.Cleared] && [Entry.Cleared][1..] == [];
  }

  lemma PassOnIdle(s: State, c: Content, late: seq<byte>)
    ensures Idle(PassOn(s, c, late)) == Idle(s) +
      (match c
       case BadFile => 1
       case Refused(at, len) => if RefusalFate(Slice(NextSlot(s, late).rec, at, len)) == Full then 1 else 0
       case _ => 0)
  {
    match c
    case Success(n) =>
      var es := [Other, SaveFile(HEADER, if n < 0 then 0 else n), Other, Other];
      NoneCleared(es);
      OneMore(s, s.(sq := s.sq + es), es);
      SendToIdle(s.(sq := s.sq + es), Saved, late);
      hide SendTo, ClearedIn, Idle;
    case BadFile =>
      OneCleared();
      OneMore(s, s.(sq := s.sq + [Other, Entry.Cleared]), [Other, Entry.Cleared]);
      SendToIdle(s.(sq := s.sq + [Other, Entry.Cleared]), Excuse, late);
      hide SendTo, ClearedIn, Idle;
    case Refused(at, len) =>
      SendToIdle(s, Excuse, late);
      RefuseIdle(NextSlot(s, late), at, len);
      hide NextSlot, Refuse, ClearedIn, Idle, RefusalFate;
    case Broken =>
      SendToIdle(s, Excuse, late);
      hide SendTo, ClearedIn, Idle;
  }

  lemma ReplyIdle(s: State, to: Req, f: seq<byte>, behind: seq<byte>, late: seq<byte>, opens: bool)
    requires Always(s) && Possible(s, BodyDone(to, f, behind, late, opens)) && s.requests != []
    ensures var e := BodyDone(to, f, behind, late, opens);
      Idle(Handle(s, e)) == Idle(s) + if Clears(s, e) then 1 else 0
  {
    var q, c := TakeBody(s, f + behind), ContentFor(f, opens);
    NoneCleared([ReceiveHeader]);
    OneMore(s, q, [ReceiveHeader]);
    assert |f| <= |q.rec| == |late| && Sane(ContentOf(f));
    hide PassOn, Idle, ClearedIn, RefusalFate, Always, Possible, IsFrame, NextSlot, ContentOf;
    PassOnIdle(q, c, late);
    if c.Refused? { CopyFate(q, f, c.place, c.length, late); }
  }

  /** A completion adds a cleared entry exactly when it is such a reply, and takes one away exactly when it is a cleared
      entry's own. */
  lemma HandleIdle(s: State, e: Event)
    requires Always(s) && Possible(s, e)
    ensures Idle(Handle(s, e)) == Idle(s) + (if Clears(s, e) then 1 else 0) - (if NoopDone(e) then 1 else 0)
  {
    match e
    case NewBatch =>
    case Failed(op, res) =>
      NoneCleared([Other, ReceiveHeader]);
      OneMore(s, s.(sq := s.sq + [Other, ReceiveHeader]), [Other, ReceiveHeader]);
    case Datagram(r, intake) =>
      SendToIdle(s, Excuse, s.rec);
      if intake.Sent? {
        var t := Handle(s, e);
        NoneCleared([t.sq[|s.sq|]]);
        OneMore(s, t, [t.sq[|s.sq|]]);
      }
      hide SendTo, ClearedIn;
    case SendDone(n) =>
    case HeaderDone(h) =>
      var t := Handle(s, e);
      if BodySpan(h, |s.rec|).Some? {
        NoneCleared([t.sq[|s.sq|]]);
        OneMore(s, t, [t.sq[|s.sq|]]);
      }
    case BodyDone(to, f, behind, late, opens) =>
      if s.requests != [] { ReplyIdle(s, to, f, behind, late, opens); }
  }

  // ---- what becomes of the entry ----

  /** The front tier of such a reply is told the exception's text. */
  lemma ClearsExcuses(s: State, to: Req, f: seq<byte>, behind: seq<byte>, late: seq<byte>, opens: bool)
    requires Always(s) && InStep(s) && Possible(s, BodyDone(to, f, behind, late, opens))
    requires Clears(s, BodyDone(to, f, behind, late, opens))
    ensures var t := Handle(s, BodyDone(to, f, behind, late, opens));
      && t.answers == s.answers + [Answered(to, to, Excuse)] && t.requests == s.requests[1..] && t.running
      && |t.rec| == |s.rec|
  {
    var e := BodyDone(to, f, behind, late, opens);
    HandleReply(s, e);
    ReplyAnswers(s, e);
    var q, c := TakeBody(s, f + behind), ContentFor(f, opens);
    hide Handle, ReplyCame, QueueIntact, RefusalFate, NextSlot, Possible, TakeBody, ContentOf, Last, Always, InStep;
    PassOnKeeps(q, c, late);
    PassOnBuffer(q, c, late);
    hide PassOn, RepliesOnly;
    if c.Refused? { CopyFate(q, f, c.place, c.length, late); }
    PassOnSays(q, c, late);
  }

  lemma PassOnBuffer(s: State, c: Content, late: seq<byte>)
    requires |late| == |s.rec|
    ensures |PassOn(s, c, late).rec| == |s.rec|
  {
    hide Receives, SendSizes, ClearedIn, RefusalFate;
  }

  /** Once the next batch has begun, a completion with result 0 can come in exactly when the reply was such a one; then
      everyone else waiting is turned away although the connection is up. */
  lemma ClearedDropsOthers(s: State, to: Req, f: seq<byte>, behind: seq<byte>, late: seq<byte>, opens: bool)
    requires Always(s) && InStep(s) && Possible(s, BodyDone(to, f, behind, late, opens)) && Idle(s) == 0
    ensures var e := BodyDone(to, f, behind, late, opens);
      var t := StartBatch(Handle(s, e));
      && (Possible(t, Failed(Recvmsg, 0)) <==> Clears(s, e))
      && (Clears(s, e) ==>
            var u := Handle(t, Failed(Recvmsg, 0));
            u.requests == [] && u.answers == s.answers + [Answered(to, to, Excuse)] + VanishedAll(s.requests[1..]))
  {
    var e := BodyDone(to, f, behind, late, opens);
    NotEmpty(s, to, f, behind, late, opens);
    HandleIdle(s, e);
    if Clears(s, e) { ClearsExcuses(s, to, f, behind, late, opens); }
    hide InStep, Always, Clears, Complete, KernelWrote, Receives, SendSizes;
  }

  // ---- runs ----

  function Clearings(s: State, es: seq<Event>): nat
    decreases |es|
  {
    if es == [] then 0 else (if Clears(s, es[0]) then 1 else 0) + Clearings(Handle(s, es[0]), es[1..])
  }

  /** How often the connection is given up. */
  function Logins(es: seq<Event>): nat
  {
    if es == [] then 0 else (if Relogs(es[0]) then 1 else 0) + Logins(es[1..])
  }

  function NoopsDone(es: seq<Event>): nat
  {
    if es == [] then 0 else (if NoopDone(es[0]) then 1 else 0) + NoopsDone(es[1..])
  }

  lemma {:induction false} QuietLogins(es: seq<Event>)
    requires Quiet(es)
    ensures Logins(es) == NoopsDone(es)
  {
    if es != [] {
      assert es[0] in es;
      QuietLogins(es[1..]);
    }
  }

  lemma {:induction false} RunIdle(s: State, es: seq<Event>)
    requires Always(s) && PossibleRun(s, es)
    ensures Idle(RunLoop(s, es)) + NoopsDone(es) == Idle(s) + Clearings(s, es)
    decreases |es|
  {
    if es != [] {
      hide Handle, Always, Possible, Clears, Idle, NoopDone;
      HandleAlways(s, es[0]);
      HandleIdle(s, es[0]);
      RunIdle(Handle(s, es[0]), es[1..]);
    }
  }

  /** Over every run in which no connection is lost, the connection is given up once for every reply that left an entry
      cleared, when that entry completes, and never otherwise. */
  lemma GivenUpExactly(rec: seq<byte>, es: seq<Event>)
    requires PossibleRun(Start(rec), es) && Quiet(es)
    ensures Logins(es) + Idle(RunLoop(Start(rec), es)) == Clearings(Start(rec), es)
  {
    StartHolds(rec);
    NoneCleared(Start(rec).sq);
    hide Idle, Always, InStep, Tally;
    QuietLogins(es);
    RunIdle(Start(rec), es);
    assert Idle(Start(rec)) == 0 by { StartIdle(rec); }
  }

  lemma StartIdle(rec: seq<byte>)
    ensures Idle(Start(rec)) == 0
  {
    NoneCleared(Start(rec).sq);
  }

  function Turned(answers: seq<Answer>): nat
  {
    if answers == [] then 0 else (if answers[0].Vanished? then 1 else 0) + Turned(answers[1..])
  }

  lemma {:induction false} TurnedJoin(a: seq<Answer>, b: seq<Answer>)
    ensures Turned(a + b) == Turned(a) + Turned(b)
  {
    if a == [] {
      assert a + b == b;
    } else {
      assert (a + b)[1..] == a[1..] + b;
      TurnedJoin(a[1..], b);
    }
  }

  lemma {:induction false} AllTurned(rs: seq<Req>)
    ensures Turned(VanishedAll(rs)) == |rs|
  {
    if rs != [] { AllTurned(rs[1..]); }
  }

  /** Giving up turns away everyone waiting, and nothing else turns anyone away. */
  lemma HandleTurned(s: State, e: Event)
    requires Always(s) && Possible(s, e)
    ensures Turned(Handle(s, e).answers) == Turned(s.answers) + if Relogs(e) then |s.requests| else 0
  {
    match e
    case Failed(op, res) =>
      AllTurned(s.requests);
      TurnedJoin(s.answers, VanishedAll(s.requests));
    case Datagram(r, intake) =>
      SendToKeeps(s, Excuse, s.rec);
      hide SendTo;
    case BodyDone(to, f, behind, late, opens) =>
      if s.requests != [] {
        var q := TakeBody(s, f + behind);
        AddedIntact(s, q);
        PassOnKeeps(q, ContentFor(f, opens), late);
        hide PassOn, ContentFor, Smashes, Receives, SendSizes, EntryIntact, KernelWrote, IsFrame;
        var t := PassOn(q, ContentFor(f, opens), late);
        if !t.smashed {
          var a := Leave(t, s.requests[0], to).answers[|s.answers|];
          TurnedJoin(s.answers, [a]);
          assert Turned([a]) == 0 + Turned([]);
        }
      }
    case NewBatch =>
    case SendDone(n) =>
    case HeaderDone(h) =>
  }

  lemma {:induction false} RunTurned(s: State, es: seq<Event>)
    requires Always(s) && PossibleRun(s, es) && Logins(es) == 0
    ensures Turned(RunLoop(s, es).answers) == Turned(s.answers)
    decreases |es|
  {
    if es != [] {
      hide Handle, Always, Possible, Turned;
      HandleAlways(s, es[0]);
      HandleTurned(s, es[0]);
      RunTurned(Handle(s, es[0]), es[1..]);
    }
  }

  /** Over every run in which no connection is lost and no reply leaves an entry cleared, nobody is turned away. */
  lemma NobodyTurnedAway(rec: seq<byte>, es: seq<Event>)
    requires PossibleRun(Start(rec), es) && Quiet(es) && Clearings(Start(rec), es) == 0
    ensures Turned(RunLoop(Start(rec), es).answers) == 0
  {
    GivenUpExactly(rec, es);
    StartHolds(rec);
    RunTurned(Start(rec), es);
  }

  /** Someone can be turned away from here on with no connection lost and no further such reply. */
  ghost predicate Threatened(s: State)
  {
    exists es :: PossibleRun(s, es) && Quiet(es) && Clearings(s, es) == 0
                 && Turned(RunLoop(s, es).answers) > Turned(s.answers)
  }

  lemma {:induction false} RunJoin(s: State, es: seq<Event>, e: Event)
    requires PossibleRun(s, es) && Possible(RunLoop(s, es), e)
    ensures PossibleRun(s, es + [e]) && RunLoop(s, es + [e]) == Handle(RunLoop(s, es), e)
    ensures Clearings(s, es + [e]) == Clearings(s, es) + if Clears(RunLoop(s, es), e) then 1 else 0
    decreases |es|
  {
    hide Possible, Handle, Clears;
    if es == [] {
      assert [] + [e] == [e] && [e][1..] == [];
    } else {
      assert (es + [e])[1..] == es[1..] + [e];
      RunJoin(Handle(s, es[0]), es[1..], e);
    }
  }

  /** One more request, and the cleared entry completes. */
  lemma OneMoreTurned(s: State) returns (es: seq<Event>)
    requires Always(s) && s.running && |s.rec| >= HEADER && Idle(s) > 0
    ensures PossibleRun(s, es) && Quiet(es) && Clearings(s, es) == 0
    ensures Turned(RunLoop(s, es).answers) > Turned(s.answers)
  {
    var a, b, c := Datagram(0, Sent([7])), NewBatch, Failed(Recvmsg, 0);
    var t := Handle(s, a);
    HandleAlways(s, a);
    HandleIdle(s, a);
    HandleTurned(s, a);
    var u := Handle(t, b);
    HandleAlways(t, b);
    HandleIdle(t, b);
    HandleTurned(t, b);
    assert Possible(u, c) && !Clears(s, a) && !Clears(t, b) && !Clears(u, c) && u.requests != [];
    HandleTurned(u, c);
    hide Possible, Handle, Clears, Idle, Always, Turned;
    assert RunLoop(s, []) == s && PossibleRun(s, []) && Clearings(s, []) == 0;
    assert [] + [a] == [a] && [a] + [b] == [a, b] && [a, b] + [c] == [a, b, c];
    RunJoin(s, [], a);
    RunJoin(s, [a], b);
    RunJoin(s, [a, b], c);
    es := [a, b, c];
  }

  /** Someone is threatened exactly while a cleared entry has not completed. */
  lemma ThreatenedExactly(s: State)
    requires Always(s) && s.running && |s.rec| >= HEADER
    ensures Threatened(s) <==> Idle(s) > 0
  {
    if Idle(s) > 0 {
      var es := OneMoreTurned(s);
    } else {
      forall es | PossibleRun(s, es) && Quiet(es) && Clearings(s, es) == 0
        ensures Turned(RunLoop(s, es).answers) == Turned(s.answers)
      {
        RunIdle(s, es);
        QuietLogins(es);
        RunTurned(s, es);
      }
    }
  }

  /** Over every run in which no connection is lost, up to where the connection is first given up: someone is about to
      be turned away if and only if a reply has left an entry cleared. */
  lemma TurnedAwayExactly(rec: seq<byte>, es: seq<Event>)
    requires PossibleRun(Start(rec), es) && Quiet(es) && Logins(es) == 0
    requires RunLoop(Start(rec), es).running && |RunLoop(Start(rec), es).rec| >= HEADER
    ensures Turned(RunLoop(Start(rec), es).answers) == 0
    ensures Threatened(RunLoop(Start(rec), es)) <==> Clearings(Start(rec), es) > 0
  {
    GivenUpExactly(rec, es);
    StartAlways(rec, es);
    ThreatenedExactly(RunLoop(Start(rec), es));
    StartHolds(rec);
    RunTurned(Start(rec), es);
  }

  /** A run in which no connection is lost and a request is turned away, for every such reply to the one before it. */
  lemma ClearedRun(rec: seq<byte>, f: seq<byte>, opens: bool) returns (s: State)
    requires 20 <= |rec| <= BUF_SIZE && IsFrame(4, f) && |f| <= |rec| && Sane(ContentOf(f))
    requires LeavesEntry(f, opens)
    ensures Reached(rec, s, true) && s.answers == [Answered(1, 1, Excuse), Vanished(2)] && s.requests == []
  {
    hide Reached, Always, InStep, LeavesEntry, ContentFor, ContentOf, IsFrame, RefusalFate, Sane;
    s := BodyIn(rec);
    s := Orderly1(rec, s, Datagram(2, Sent([8])));
    var behind := rec[|f|..];
    var e := BodyDone(1, f, behind, f + behind, opens);
    assert s.requests == [1, 2] && Possible(s, e) && Clears(s, e);
    HandleIdle(s, e);
    ClearsExcuses(s, 1, f, behind, f + behind, opens);
    hide Clears, Complete;
    s := Orderly1(rec, s, e);
    assert s.answers == [Answered(1, 1, Excuse)] && s.requests == [2];
    HandleIdle(s, NewBatch);
    s := Orderly1(rec, s, NewBatch);
    OneVanished(2);
    s := Step(rec, s, Failed(Recvmsg, 0), true);
  }

  lemma OneVanished(r: Req)
    ensures VanishedAll([r]) == [Vanished(r)]
  {
    assert [r][1..] == [];
  }
}
