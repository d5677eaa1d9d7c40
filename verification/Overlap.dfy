/** Packets the receiver's size test lets through although they cannot be decompressed where they are parked:
    real messages, and what happens to their packets. */
module Overlap {
  import opened Bytes
  import opened Tokens
  import opened ControlWord
  import opened HashTable
  import opened Matcher
  import opened Reader
  import opened Decompress
  import opened Packet
  import opened Stream
  import opened Compressed

  // ---- bytes that occur nowhere before ----

  /** Byte `s` of the window is like no byte a match for it could start at. */
  predicate NewByte(w: seq<byte>, s: nat)
    requires s < |w|
  {
    forall o :: 0 <= o < s ==> w[o] != w[s]
  }

  function Literals(s: seq<byte>): (toks: seq<Token>)
    ensures |toks| == |s| && AllLiteral(toks)
  {
    seq(|s|, i requires 0 <= i < |s| => Literal(s[i]))
  }

  lemma MatchStartsAlike(t: Table, w: seq<byte>, s: nat)
    requires s + 11 <= |w|
    ensures var b := FindBest(t, w, s); b.len > 0 ==> b.pos + 3 <= s && w[b.pos] == w[s]
  {
    hide Search, MatchLength;
  }

  lemma FreshIsLiteral(t: Table, w: seq<byte>, s: nat)
    requires s + 11 <= |w| && NewByte(w, s)
    ensures NextToken(t, w, s) == Literal(w[s])
  {
    MatchStartsAlike(t, w, s);
    hide FindBest;
  }

  /** Fresh bytes become literals as long as no group ends. */
  lemma {:induction false} FreshSteps(w: seq<byte>, start: nat, s: nat, t: Table, toks: seq<Token>, n: nat)
    returns (t': Table)
    requires start <= s && s + n + 10 <= |w| && forall p :: s <= p < s + n ==> NewByte(w, p)
    requires n == 0 || (toks == [] && n <= 31) || (0 < |toks| % 31 && |toks| % 31 + n <= 31)
    ensures Run(w, start, s, t, toks) == Run(w, start, s + n, t', toks + Literals(w[s..s + n]))
    decreases n
  {
    hide Run, InsertRange, NewByte, Literals;
    t' := t;
    if n == 0 {
      LiteralsGrow(toks, w, s, s);
    } else {
      FreshStep(w, start, s, t, toks);
      t' := FreshSteps(w, start, s + 1, InsertRange(t, w, s, s + 1), toks + [Literal(w[s])], n - 1);
      LiteralsGrow(toks, w, s, s + n);
    }
  }

  lemma LiteralsGrow(toks: seq<Token>, w: seq<byte>, s: nat, e: nat)
    requires s <= e <= |w|
    ensures toks + Literals(w[s..e]) ==
      if s == e then toks else toks + [Literal(w[s])] + Literals(w[s + 1..e])
  {
  }

  lemma FreshStep(w: seq<byte>, start: nat, s: nat, t: Table, toks: seq<Token>)
    requires start <= s && s + 11 <= |w| && NewByte(w, s) && (toks == [] || 0 < |toks| % 31)
    ensures Run(w, start, s, t, toks) == Run(w, start, s + 1, InsertRange(t, w, s, s + 1), toks + [Literal(w[s])])
  {
    FreshIsLiteral(t, w, s);
    hide NextToken, InsertRange, Emit, TooLong, NewByte;
  }

  lemma {:induction false} LiteralEmit(lits: seq<Token>, n: nat)
    requires AllLiteral(lits) && n <= 31
    ensures |Emit(lits, n)| == |lits| + 4 * WordsFor(|lits|, n)
    decreases |lits|, 31 - n == 31
  {
    if lits == [] {
    } else if n == 0 {
      WordsForNew(|lits|);
      LiteralEmit(lits, 31);
    } else {
      LiteralEmit(lits[1..], n - 1);
      assert WordsFor(|lits|, n) == WordsFor(|lits| - 1, n - 1);
    }
  }

  // ---- stored packets ----

  /** Messages of 42 to 61 bytes that are all different are stored: after 31 literals the test is past the middle. */
  lemma AllDifferentGivesUp(w: seq<byte>, t: Table)
    requires 42 <= |w| <= 61 && forall p :: 0 <= p < |w| ==> NewByte(w, p)
    ensures Run(w, 0, 0, t, []).GaveUp?
  {
    hide NextToken, InsertRange, NewByte, Emit;
    var t' := FreshSteps(w, 0, 0, t, [], 31);
    var toks := Literals(w[0..31]);
    assert [] + toks == toks;
    LiteralEmit(toks, 0);
    assert Stops(0, 31, |w|, toks);
  }

  function Counting(n: nat): (s: seq<byte>)
    requires n <= 256
    ensures |s| == n
  {
    seq(n, i requires 0 <= i < n => i as byte)
  }

  /** With 99960 bytes of history and a buffer of 100, the message 0, 1, .. 60 is such an input: it is stored,
      the size test lets its packet through, and its 61 bytes would be copied onto themselves. */
  lemma StoredInput(t: Table)
    ensures var c, msg := Sender(seq(99960, i => 0), t), Counting(61);
      && StartsOver(|c.stream|, |msg|) && Outcome(c, msg).GaveUp?
      && var p := PacketOf(c, msg, []); |p| == 64 && BodySpan(p, 100).Some? && !RoomInPlace(|c.stream|, p, 100)
  {
    hide Run, SizeCompressed, SizeDecompressed, Header, RoomInPlace;
    var c, msg := Sender(seq(99960, i => 0), t), Counting(61);
    AllDifferentGivesUp(msg, Reset(t));
    StoredOverlap(c, msg, 100);
  }

  // ---- compressed packets ----

  /** The race at the end of a message: when a group has just been used up and literals are left, the reader is
      behind the writer exactly when the packet ends too close behind the message for their control words. */
  lemma ReaderOutrun(src: nat, e: nat, lits: seq<Token>, dst: nat, end: nat)
    requires AllLiteral(lits) && src + |Emit(lits, 0)| == e && dst + |lits| == end
    ensures src < dst <==> e < end + 4 * ((|lits| + 30) / 31)
  {
    LiteralEmit(lits, 0);
  }

  /** 21 zeros, then the bytes 1 to 47. */
  function Sample(): (s: seq<byte>)
    ensures |s| == 68
  {
    seq(21, i => 0) + Counting(48)[1..]
  }

  lemma SampleBytes()
    ensures var w := Sample();
      && (forall i :: 0 <= i < 21 ==> w[i] == 0) && (forall i :: 21 <= i < 68 ==> w[i] == i - 20)
      && forall p :: 21 <= p < 68 ==> NewByte(w, p)
  {
  }

  function Zeros(k: nat): (toks: seq<Token>)
    ensures |toks| == k
  {
    if k == 0 then [] else Zeros(k - 1) + [Literal(0)]
  }

  function SampleStart(): (toks: seq<Token>)
    ensures |toks| == 4
  {
    Zeros(3) + [Match(3, 18)]
  }

  lemma FirstThree(t: Table, w: seq<byte>, s: nat)
    requires s < 3 && s + 11 <= |w|
    ensures NextToken(t, w, s) == Literal(w[s])
  {
    MatchStartsAlike(t, w, s);
    hide FindBest;
  }

  lemma EntriesNext(w: seq<byte>, b: nat)
    requires b + 3 <= |w| && HashAt(w, b) == HashAt(w, 0)
    ensures InBucket(Entries(w, 0, b + 1), HashAt(w, 0)) == InBucket(Entries(w, 0, b), HashAt(w, 0)) + [b]
  {
    hide HashAt;
    var log := Entries(w, 0, b + 1);
    assert log[..|log| - 1] == Entries(w, 0, b);
  }

  lemma ZeroLog(w: seq<byte>)
    requires |w| > 10 && forall i :: 0 <= i < 10 ==> w[i] == 0
    ensures HashAt(w, 3) == HashAt(w, 0) && Recent(Entries(w, 0, 3), HashAt(w, 0)) == [0, 1, 2]
  {
    hide HashBytes;
    EntriesNext(w, 0);
    EntriesNext(w, 1);
    EntriesNext(w, 2);
    hide Entries;
  }

  lemma ZeroRun()
    ensures MatchLength(Sample(), 0, 3, Cap(3, 68)) == 18
  {
    SampleBytes();
    assert Sample()[21] != Sample()[18];
  }

  lemma FirstCopies(w: seq<byte>, n: nat)
    requires |w| == 68 && (forall i :: 0 <= i < 10 ==> w[i] == 0) && MatchLength(w, 0, 3, Cap(3, 68)) == 18
    ensures Copies(w, 3, 0, n) <==> 3 <= n <= 18
  {
    CopiesExactly(w, 3, 0, n);
    hide MatchLength, Copies;
  }

  lemma OnlyTheFirst(w: seq<byte>, q: seq<nat>, r: Token)
    requires |w| == 68 && (forall i :: 0 <= i < 10 ==> w[i] == 0) && q == [0, 1, 2]
    requires MatchLength(w, 0, 3, Cap(3, 68)) == 18 && Chooses(w, 3, q, r)
    ensures r == Match(3, 18)
  {
    FirstCopies(w, 18);
    if r.Match? {
      assert Copies(w, 3, 3 - r.offset, r.len);
      FirstCopies(w, r.len);
    }
    assert q[0] in q;
    hide MatchLength, Copies;
  }

  /** The zeros from the fourth on are found at the first. */
  lemma ZerosMatch(t0: Table)
    ensures NextToken(Replay(t0, Entries(Sample(), 0, 3)), Sample(), 3) == Match(3, 18)
  {
    SampleBytes();
    ZeroRun();
    hide Recent, Entries, HashAt, MatchLength, NextToken, Replay, Sample, Chooses;
    ZeroLog(Sample());
    TokenChooses(Sample(), 3, t0, Entries(Sample(), 0, 3));
    OnlyTheFirst(Sample(), [0, 1, 2], NextToken(Replay(t0, Entries(Sample(), 0, 3)), Sample(), 3));
  }

  lemma StepLog(w: seq<byte>, t: Table, b: nat)
    requires b + 3 <= |w|
    ensures InsertRange(Replay(t, Entries(w, 0, b)), w, b, b + 1) == Replay(t, Entries(w, 0, b + 1))
  {
    hide Replay, InsertRange, Entries;
    RangeReplays(t, Entries(w, 0, b), w, b, b + 1);
    EntriesJoin(w, 0, b, b + 1);
  }

  lemma GoesOn(w: seq<byte>, start: nat, s: nat, t: Table, toks: seq<Token>)
    requires start <= s && s + 11 <= |w| && !Stops(start, s, |w|, toks)
    ensures var r := NextToken(t, w, s);
      Run(w, start, s, t, toks) == Run(w, start, s + Span(r), InsertRange(t, w, s, s + Span(r)), toks + [r])
  {
    hide NextToken, InsertRange, Stops;
  }

  lemma FirstStep(w: seq<byte>, s: nat, t: Table, toks: seq<Token>)
    requires |toks| == s < 3 && s + 11 <= |w|
    ensures Run(w, 0, s, Replay(t, Entries(w, 0, s)), toks)
            == Run(w, 0, s + 1, Replay(t, Entries(w, 0, s + 1)), toks + [Literal(w[s])])
  {
    FirstThree(Replay(t, Entries(w, 0, s)), w, s);
    StepLog(w, t, s);
    hide NextToken, Replay, InsertRange, Entries, TooLong, Emit, Run;
    GoesOn(w, 0, s, Replay(t, Entries(w, 0, s)), toks);
  }

  lemma NoZeros(w: seq<byte>, t: Table)
    requires |w| >= 2
    ensures Reset(t) == Replay(t, Entries(w, 0, 0)) && Zeros(0) == []
  {
    EmptyReplay(t);
  }

  lemma NextZero(k: nat)
    requires k > 0
    ensures Zeros(k) == Zeros(k - 1) + [Literal(0)]
  {
  }

  lemma {:induction false} ThreeZeros(w: seq<byte>, t: Table, k: nat)
    requires |w| >= 14 && w[0] == w[1] == w[2] == 0 && k <= 3
    ensures Run(w, 0, 0, Reset(t), []) == Run(w, 0, k, Replay(t, Entries(w, 0, k)), Zeros(k))
  {
    hide Replay, Entries, Run, Reset, Zeros;
    if k == 0 {
      NoZeros(w, t);
    } else {
      ThreeZeros(w, t, k - 1);
      FirstStep(w, k - 1, t, Zeros(k - 1));
      NextZero(k);
    }
  }

  lemma NotYet(start: nat, s: nat, end: nat, toks: seq<Token>)
    requires start <= s <= end && |toks| % 31 != 0
    ensures !Stops(start, s, end, toks)
  {
  }

  lemma StartOfRun(t: Table) returns (t': Table)
    ensures Run(Sample(), 0, 0, Reset(t), []) == Run(Sample(), 0, 21, t', SampleStart())
  {
    SampleBytes();
    hide Sample, Replay, Entries, InsertRange, Run, NextToken, Stops, Reset, Zeros;
    var w, t3 := Sample(), Replay(t, Entries(Sample(), 0, 3));
    ThreeZeros(w, t, 3);
    ZerosMatch(t);
    NotYet(0, 3, 68, Zeros(3));
    GoesOn(w, 0, 3, t3, Zeros(3));
    t' := InsertRange(t3, w, 3, 21);
  }

  lemma {:induction false} BodyJoin(a: seq<Token>, b: seq<Token>)
    ensures Body(a + b) == Body(a) + Body(b)
    decreases |b|
  {
    if b == [] {
      assert a + b == a;
    } else {
      assert a + b == (a + [b[0]]) + b[1..] && b == [b[0]] + b[1..];
      BodyJoin(a + [b[0]], b[1..]);
      BodyAppend(a, b[0]);
      Assoc(Body(a), EncToken(b[0]), Body(b[1..]));
    }
  }

  lemma {:induction false} LiteralSpans(lits: seq<Token>)
    requires AllLiteral(lits)
    ensures Spans(lits) == |lits|
  {
    if lits != [] { LiteralSpans(lits[1..]); }
  }

  /** The first 31 tokens, 36 bytes for 48. */
  function SampleGroup(): (toks: seq<Token>)
    ensures |toks| == 31
  {
    SampleStart() + Literals(Sample()[21..48])
  }

  lemma StartSize()
    ensures |Body(SampleStart())| == 5 && Spans(SampleStart()) == 21
  {
    BodyJoin(Zeros(3), [Match(3, 18)]);
    SpansConcat(Zeros(3), [Match(3, 18)]);
    BodyJoin(Zeros(2), [Literal(0)]);
    SpansConcat(Zeros(2), [Literal(0)]);
    BodyJoin(Zeros(1), [Literal(0)]);
    SpansConcat(Zeros(1), [Literal(0)]);
    assert |EncToken(Match(3, 18))| == 2;
  }

  lemma GroupSize()
    ensures |Emit(SampleGroup(), 0)| == 36 && Spans(SampleGroup()) == 48 && !Stops(0, 48, 68, SampleGroup())
  {
    StartSize();
    hide Emit, Body, Spans, FullWord, Sample, Le;
    var a, b := SampleStart(), Literals(Sample()[21..48]);
    EmitOneGroup(SampleGroup());
    BodyJoin(a, b);
    LiteralBody(b);
    SpansConcat(a, b);
    LiteralSpans(b);
  }

  /** The sample is compressed to that group and twenty literals in a second one. */
  lemma SampleRun(t: Table) returns (rest: seq<Token>)
    ensures var r := Run(Sample(), 0, 0, Reset(t), []); r.Packed? && r.toks == SampleGroup() + rest
    ensures |rest| == 20 && AllLiteral(rest)
  {
    var w, g := Sample(), SampleGroup();
    SampleBytes();
    GroupSize();
    hide Run, Emit, TooLong, NewByte, Sample, SampleStart, Reset, InsertRange, Stops, NextToken;
    var t1 := StartOfRun(t);
    var t2 := FreshSteps(w, 0, 21, t1, SampleStart(), 27);
    FreshIsLiteral(t2, w, 48);
    GoesOn(w, 0, 48, t2, g);
    var x := g + [Literal(w[48])];
    var t3 := FreshSteps(w, 0, 49, InsertRange(t2, w, 48, 49), x, 9);
    rest := SampleEnd(w, t3, g, [Literal(w[48])] + Literals(w[49..58]));
    Assoc(g, [Literal(w[48])], Literals(w[49..58]));
  }

  lemma SampleEnd(w: seq<byte>, t: Table, g: seq<Token>, b: seq<Token>) returns (rest: seq<Token>)
    requires |w| == 68 && |b| == 10 && AllLiteral(b)
    ensures var r := Run(w, 0, 58, t, g + b); r.Packed? && r.toks == g + rest
    ensures |rest| == 20 && AllLiteral(rest)
  {
    hide Run, Spans;
    RunTail(w, 0, 58, t, g + b);
    TailLiteral(w, 0, 58, t, g + b);
    var all := Run(w, 0, 58, t, g + b).toks;
    rest := b + all[|g + b|..];
    assert all == (g + b) + all[|g + b|..];
    Assoc(g, b, all[|g + b|..]);
  }

  lemma SamplePacket(c: Sender) returns (rest: seq<Token>)
    requires StartsOver(|c.stream|, 68)
    ensures var p := PacketOf(c, Sample(), []);
      && Outcome(c, Sample()).Packed? && PadSize(c, Sample()) == 0 && |p| == 63
      && BodyOf(c, Sample()) == Emit(SampleGroup(), 0) + Emit(rest, 0) && p[3..] == BodyOf(c, Sample())
    ensures |rest| == 20 && AllLiteral(rest) && Outcome(c, Sample()).toks == SampleGroup() + rest
  {
    hide Run, Emit, SampleGroup, Sample, Header;
    rest := SampleRun(c.table);
    EmitClosed(SampleGroup(), rest);
    GroupSize();
    LiteralEmit(rest, 0);
    assert Emit(SampleGroup() + rest, 0) + [] == Emit(SampleGroup() + rest, 0);
  }

  lemma MatchFallsBehind(m: Token, tail: seq<Token>)
    requires m == Match(3, 18) && tail != []
    ensures !InFront([m] + tail, 28, 12)
  {
    assert ([m] + tail)[1..] == tail;
    OneBody(m);
    hide EncToken;
  }

  /** In front of the match the reader is 12 bytes ahead; it reads two bytes for 18. */
  lemma SampleFallsBehind(rest: seq<Token>)
    requires rest != []
    ensures !InFront(SampleGroup() + rest, 0, 8)
  {
    var m, lits := Match(3, 18), Literals(Sample()[21..48]);
    var tail := lits + rest;
    hide Sample, Zeros, Literals;
    ZerosLiteral(3);
    MatchFallsBehind(m, tail);
    Regrouped(Zeros(3), [m], lits, rest);
    hide SampleGroup;
    if InFront(SampleGroup() + rest, 31, 12) { InFrontLiterals(Zeros(3), [m] + tail, 31, 12); }
  }

  lemma Regrouped(a: seq<Token>, b: seq<Token>, c: seq<Token>, d: seq<Token>)
    ensures a + b + c + d == a + (b + (c + d))
  {
  }

  lemma {:induction false} ZerosLiteral(k: nat)
    ensures AllLiteral(Zeros(k)) && Values(Zeros(k)) == seq(k, i => 0)
  {
    if k > 0 {
      ZerosLiteral(k - 1);
      ValuesJoin(Zeros(k - 1), [Literal(0)]);
      assert Values([Literal(0)]) == [0] + Values([]);
    }
  }

  lemma AllJoin(a: seq<Token>, b: seq<Token>)
    requires AllLiteral(a) && AllLiteral(b)
    ensures AllLiteral(a + b)
  {
    forall i | 0 <= i < |a + b|
      ensures (a + b)[i].Literal?
    {
      if i < |a| { assert a[i].Literal?; } else { assert b[i - |a|].Literal?; }
    }
  }

  lemma {:induction false} ValuesJoin(a: seq<Token>, b: seq<Token>)
    requires AllLiteral(a) && AllLiteral(b)
    ensures AllLiteral(a + b) && Values(a + b) == Values(a) + Values(b)
  {
    if a == [] {
      assert a + b == b;
    } else {
      assert (a + b)[1..] == a[1..] + b;
      ValuesJoin(a[1..], b);
      AllJoin(a, b);
      hide AllLiteral;
      Assoc([a[0].value], Values(a[1..]), Values(b));
    }
  }

  /** With a buffer of 68 bytes, just its own size, the sample's packet is let through too. */
  lemma SampleLetThrough(c: Sender)
    requires StartsOver(|c.stream|, 68)
    ensures var p := PacketOf(c, Sample(), []);
      && |p| == 63 && BodySpan(p, 68) == Some((14, 54)) && !RoomInPlace(|c.stream|, p, 68)
      && Acceptable(c.stream, p) && Decode(c.stream, p) == Sample()
  {
    hide Run, Emit, Outcome, PacketOf, SizeCompressed, SizeDecompressed, Header, Decode, Acceptable, Sample, PadSize,
        RoomInPlace, InFront, SampleGroup, BodyOf;
    var rest := SamplePacket(c);
    SampleFallsBehind(rest);
    PacketRoundTrip(c, Sample(), []);
    FitsInPlace(c, Sample(), [], 68);
  }

  // ---- what the decompressor does to it ----

  lemma ThreeLiterals(g: seq<Token>)
    requires |g| >= 4 && g[0].Literal? && g[1].Literal? && g[2].Literal?
    ensures FullWord(g) == 8 * Word(g[3..], 28)
  {
    assert g[1..][1..] == g[2..] && g[2..][1..] == g[3..];
    assert Word(g, 31) == 2 * Word(g[1..], 30);
    assert Word(g[1..], 30) == 2 * Word(g[2..], 29);
    assert Word(g[2..], 29) == 2 * Word(g[3..], 28);
  }

  lemma OneMatch(g: seq<Token>)
    requires g != [] && g[0].Match? && AllLiteral(g[1..])
    ensures Word(g, 28) == 1 + 2 * (16 * Pow2(23))
  {
    LiteralWord(g[1..], 27);
    Pow2Sum(4, 23);
    assert Pow2(4) == 16;
  }

  lemma EightTimes(w3: nat, w4: nat, q: nat)
    requires w3 == 1 + 2 * w4 && w4 == 16 * q
    ensures var w := 8 * w3;
      && w % 2 == 0 && BITLUT[w % 16] == 3 && Shr(w, 3) == w3 && w3 % 2 == 1 && BITLUT[w3 / 2 % 16] == 4
  {
    DivRem(8 * w3, 16, w4, 8);
    DivRem(w4, 16, q, 0);
    DivRem(w3, 2, w4, 1);
    hide Shr;
    Doubled(4 * w3, 2);
    Doubled(2 * w3, 1);
    Doubled(w3, 0);
    OneShift(w3, 0);
  }

  lemma Doubled(w: nat, k: nat)
    ensures 2 * w % 2 == 0 && Shr(2 * w, k + 1) == Shr(w, k)
  {
  }

  lemma SampleTokens()
    ensures var g := SampleGroup();
      g[0].Literal? && g[1].Literal? && g[2].Literal? && g[3].Match? && AllLiteral(g[3..][1..])
  {
    var lits := Literals(Sample()[21..48]);
    assert SampleGroup()[3..][1..] == lits;
    ZerosLiteral(3);
  }

  /** Three literals, a match, then literals: the flags of the sample's first group. */
  lemma SampleFlags()
    ensures var w := FullWord(SampleGroup());
      w % 2 == 0 && BITLUT[w % 16] == 3 && Shr(w, 3) % 2 == 1 && BITLUT[Shr(w, 3) / 2 % 16] == 4
  {
    hide SampleGroup, FullWord, Word, AllLiteral, Shr, BITLUT, Pow2;
    SampleTokens();
    var g := SampleGroup();
    ThreeLiterals(g);
    OneMatch(g[3..]);
    EightTimes(Word(g[3..], 28), 16 * Pow2(23), Pow2(23));
  }

  lemma StartBody()
    ensures Body(SampleStart()) == [0, 0, 0] + EncToken(Match(3, 18))
  {
    hide Body, EncToken, Zeros;
    BodyJoin(Zeros(3), [Match(3, 18)]);
    ZerosLiteral(3);
    LiteralBody(Zeros(3));
    OneBody(Match(3, 18));
    assert seq(3, i => 0) == [0, 0, 0];
  }

  lemma SampleLayout() returns (more: seq<byte>)
    ensures Emit(SampleGroup(), 0) == Le(FullWord(SampleGroup()), 4) + ([0, 0, 0] + (EncToken(Match(3, 18)) + more))
    ensures |more| == 27
  {
    hide Emit, Body, FullWord, Sample, SampleStart, Le, EncToken;
    var lits := Literals(Sample()[21..48]);
    EmitOneGroup(SampleGroup());
    BodyJoin(SampleStart(), lits);
    StartBody();
    LiteralBody(lits);
    more := Body(lits);
    Assoc([0, 0, 0], EncToken(Match(3, 18)), more);
  }

  /** How the sample's body starts: control word, three zeros, the match in two bytes. */
  lemma SampleStarts(tail: seq<byte>)
    ensures var b := Emit(SampleGroup(), 0) + tail;
      |b| >= 36 && Peek4(b) == FullWord(SampleGroup()) && b[4..7] == [0, 0, 0] && ReadMatch(Peek4(b[7..])) == (3, 18, 2)
  {
    hide Emit, FullWord, SampleGroup, Le, ReadMatch, EncToken, Peek4;
    var more := SampleLayout();
    OneBody(Match(3, 18));
    var word, code := Le(FullWord(SampleGroup()), 4), EncToken(Match(3, 18));
    var b := Emit(SampleGroup(), 0) + tail;
    Assoc(word, [0, 0, 0] + (code + more), tail);
    Assoc([0, 0, 0], code + more, tail);
    Assoc(code, more, tail);
    assert b == word + ([0, 0, 0] + (code + (more + tail)));
    PeekFullWord(SampleGroup(), [0, 0, 0] + (code + (more + tail)));
    assert b[7..] == code + (more + tail);
    ReadMatchInverts(3, 18, more + tail);
  }

  lemma OneBody(m: Token)
    ensures Body([m]) == EncToken(m) && |EncToken(Match(3, 18))| == 2
  {
    assert [m][1..] == [] && EncToken(m) + [] == EncToken(m);
  }

  lemma EvenBatch(cw: nat)
    requires cw % 2 == 0
    ensures 1 <= BITLUT[cw % 16] <= 4
  {
    BitlutIsTrailingZeros(cw);
  }

  /** The literal loop at the end, in one array. */
  method OnwardTail(a: array<byte>, src0: nat, dst0: nat, end: nat, cw0: nat) returns (done: bool)
    requires dst0 <= end <= a.Length
    modifies a
    ensures a[..dst0] == old(a[..dst0])
  {
    var src: nat, dst: nat, cw: nat := src0, dst0, cw0;
    while dst < end
      invariant dst0 <= dst <= end && a[..dst0] == old(a[..dst0])
    {
      if cw == 1 {
        src := src + 4;
        cw := 0x8000_0000;
      }
      if src >= a.Length { return false; }
      a[dst] := a[src];
      src, dst, cw := src + 1, dst + 1, cw / 2;
    }
    done := true;
  }

  /** The code's loop in one array from some point on, whatever is in memory. It gives up where the code would leave
      the array. What was written before stays. */
  method Onward(a: array<byte>, src0: nat, dst0: nat, end: nat, cw0: nat) returns (done: bool)
    requires dst0 <= end <= a.Length
    modifies a
    ensures a[..dst0] == old(a[..dst0])
  {
    hide CopyMatch, ReadMatch, Peek4, Shr;
    var src: nat, dst: nat, cw: nat := src0, dst0, cw0;
    while true
      invariant dst0 <= dst && a[..dst0] == old(a[..dst0])
      decreases a.Length - dst
    {
      if cw == 1 && src + 4 <= a.Length {
        cw := Peek4(a[src..]);
        src := src + 4;
      }
      if src + 4 > a.Length || dst + 4 > a.Length { return false; }
      ghost var before := a[..dst];
      assert before[..dst0] == old(a[..dst0]);
      if cw % 2 == 1 {
        var (offset, len, width) := ReadMatch(Peek4(a[src..]));
        if !(3 <= offset <= dst && 1 <= len && dst + len + 3 <= a.Length) { return false; }
        src, dst, cw := StoreMatch(a, src, a, dst, cw);
        CopyKeeps(before, offset, len);
        assert a[..dst0] == a[..dst][..dst0] == before[..dst0];
      } else if dst + 11 < end {
        EvenBatch(cw);
        var k;
        ghost var at := dst;
        src, dst, cw, k := StoreBatch(a, src, a, dst, cw);
        assert a[..dst0] == a[..at][..dst0] == before[..dst0];
      } else if dst <= end {
        done := OnwardTail(a, src, dst, end, cw);
        return;
      } else {
        return false;
      }
    }
  }

  lemma ZerosCopied(win: seq<byte>)
    requires win == [0, 0, 0]
    ensures var r := CopyMatch(win, 3, 18); |r| == 21 && forall i :: 0 <= i < 21 ==> r[i] == 0
  {
    CopyMatchUnique(win, 3, 18, seq(21, i => 0));
  }

  lemma SampleByte()
    ensures Sample()[21] == 1
  {
    SampleBytes();
  }

  /** The sample decompressed where it is parked: a batch for the three zeros, the match, which runs over the literals
      behind it, and a batch of what is left of them. The result's byte 21 is not the message's. */
  method SampleInPlace(a: array<byte>, ghost c: Sender) returns (done: bool)
    requires StartsOver(|c.stream|, 68) && a.Length == 68 && a[5..] == PacketOf(c, Sample(), [])
    modifies a
    ensures a[21] == 0 && Sample()[21] == 1
  {
    hide Run, Emit, Outcome, PacketOf, Sample, SampleGroup, BodyOf, FullWord, CopyMatch, ReadMatch, Peek4, Shr, BITLUT;
    SampleByte();
    ghost var rest := SamplePacket(c);
    SampleFlags();
    SampleStarts(Emit(rest, 0));
    ghost var body := a[8..];
    assert body == a[5..][3..] == Emit(SampleGroup(), 0) + Emit(rest, 0);
    var cw := Peek4(a[8..]);
    var src, dst, k := 12, 0, 0;
    assert a[12..15] == body[4..7] && cw % 2 == 0;
    src, dst, cw, k := StoreBatch(a, src, a, dst, cw);
    assert a[..3] == a[0..4][..3] == [0, 0, 0];
    assert a[15..] == a[4..][11..] == body[7..];
    ghost var three := a[..3];
    src, dst, cw := StoreMatch(a, src, a, dst, cw);
    ZerosCopied(three);
    ghost var zeros, lost := a[..21], a[17..21];
    assert lost[0] == zeros[17] == 0;
    src, dst, cw, k := StoreBatch(a, src, a, dst, cw);
    ghost var stored := a[21..25];
    assert a[21] == stored[0] == lost[0];
    ghost var before := a[..25];
    assert before[21] == 0;
    done := Onward(a, src, dst, 68, cw);
    ghost var after := a[..25];
    assert a[21] == after[21];
  }
}
