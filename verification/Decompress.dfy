/** The fast decompressor: wide overlapping copies, literals in batches of up to four and a separate
    loop for the last bytes. It computes what the reference decoder says, in place or not. */
module Decompress {
  import opened Bytes
  import opened Tokens
  import opened ControlWord
  import opened Reader

  /** Four-byte loads and stores that advance by three: right for every distance of at least three,
      and at most three bytes too far. */
  method MemcpyUp(a: array<byte>, dst: nat, src: nat, n: nat)
    requires src + 3 <= dst && n >= 1 && dst + n + 3 <= a.Length
    modifies a
    ensures a[..dst + n] == CopyMatch(old(a[..dst]), dst - src, n)
    ensures a[dst + n + 3..] == old(a[dst + n + 3..])
  {
    ghost var was, d := a[..], dst - src;
    var f := 0;
    while true
      invariant 0 <= f < n
      invariant a[..dst] == was[..dst] && a[dst + n + 3..] == was[dst + n + 3..]
      invariant forall j :: dst <= j < dst + f ==> a[j] == a[j - d]
      decreases n - f
    {
      a[dst + f], a[dst + f + 1], a[dst + f + 2], a[dst + f + 3] :=
        a[src + f], a[src + f + 1], a[src + f + 2], a[src + f + 3];
      f := f + 3;
      if f >= n { break; }
    }
    assert a[..dst + n][..dst] == was[..dst];
    CopyMatchUnique(was[..dst], d, n, a[..dst + n]);
  }

  // ---- batches of literals ----

  const BITLUT: seq<nat> := [4, 0, 1, 0, 2, 0, 1, 0, 3, 0, 1, 0, 2, 0, 1, 0]

  function TrailingZeros(w: nat, c: nat): (k: nat)
    ensures k <= c
  {
    if c == 0 || w % 2 == 1 then 0 else 1 + TrailingZeros(w / 2, c - 1)
  }

  function FirstOne(b0: nat, b1: nat, b2: nat, b3: nat): nat
  {
    if b0 == 1 then 0 else if b1 == 1 then 1 else if b2 == 1 then 2 else if b3 == 1 then 3 else 4
  }

  lemma TableOfBits(b0: nat, b1: nat, b2: nat, b3: nat)
    requires b0 <= 1 && b1 <= 1 && b2 <= 1 && b3 <= 1
    ensures BITLUT[b0 + 2 * b1 + 4 * b2 + 8 * b3] == FirstOne(b0, b1, b2, b3)
  {
  }

  lemma Nibble(w: nat, b0: nat, b1: nat, b2: nat, b3: nat, w4: nat)
    requires b0 <= 1 && b1 <= 1 && b2 <= 1 && b3 <= 1 && w == 16 * w4 + (b0 + 2 * b1 + 4 * b2 + 8 * b3)
    ensures w % 16 == b0 + 2 * b1 + 4 * b2 + 8 * b3
  {
    DivRem(w, 16, w4, b0 + 2 * b1 + 4 * b2 + 8 * b3);
  }

  lemma ZerosOfBits(w: nat, w1: nat, w2: nat, w3: nat)
    requires w1 == w / 2 && w2 == w1 / 2 && w3 == w2 / 2
    ensures TrailingZeros(w, 4) == FirstOne(w % 2, w1 % 2, w2 % 2, w3 % 2)
  {
    OneShift(w, 4);
    OneShift(w1, 3);
    OneShift(w2, 2);
    OneShift(w3, 1);
    hide TrailingZeros;
    OneShift(w3 / 2, 0);
  }

  lemma BitlutIsTrailingZeros(w: nat)
    ensures BITLUT[w % 16] == TrailingZeros(w, 4)
  {
    hide TrailingZeros, FirstOne, BITLUT;
    var w1 := w / 2;
    var w2 := w1 / 2;
    var w3 := w2 / 2;
    Nibble(w, w % 2, w1 % 2, w2 % 2, w3 % 2, w3 / 2);
    ZerosOfBits(w, w1, w2, w3);
    TableOfBits(w % 2, w1 % 2, w2 % 2, w3 % 2);
  }

  /** `w >> k`. */
  function Shr(w: nat, k: nat): nat { if k == 0 then w else Shr(w / 2, k - 1) }

  predicate AllLiteral(toks: seq<Token>) { forall i :: 0 <= i < |toks| ==> toks[i].Literal? }

  function Values(toks: seq<Token>): (s: seq<byte>)
    requires AllLiteral(toks)
    ensures |s| == |toks|
  {
    if toks == [] then [] else [toks[0].value] + Values(toks[1..])
  }

  lemma LiteralFirst(toks: seq<Token>, n: nat)
    requires toks != [] && Word(toks, n) % 2 == 0
    ensures n > 0 && toks[0].Literal? && Word(toks, n) / 2 == Word(toks[1..], n - 1)
  {
  }

  lemma OneShift(w: nat, c: nat)
    ensures c == 0 || w % 2 == 1 ==> TrailingZeros(w, c) == 0 && Shr(w, 0) == w
    ensures c > 0 && w % 2 == 0 ==>
      var k := TrailingZeros(w / 2, c - 1); TrailingZeros(w, c) == k + 1 && Shr(w, k + 1) == Shr(w / 2, k)
  {
  }

  lemma TakeOne(toks: seq<Token>, k: nat)
    requires k < |toks| && toks[0].Literal? && AllLiteral(toks[1..][..k])
    ensures AllLiteral(toks[..k + 1]) && toks[1..][k..] == toks[k + 1..]
  {
    var u := toks[..k + 1];
    forall i | 0 <= i < |u|
      ensures u[i].Literal?
    {
      if i > 0 { assert toks[1..][..k][i - 1].Literal?; }
    }
  }

  /** The zero flags below the first set flag or sentinel belong to literals that are really there. */
  lemma {:induction false} ZerosAreLiterals(toks: seq<Token>, n: nat, c: nat)
    requires c <= |toks|
    ensures var k := TrailingZeros(Word(toks, n), c);
            k <= n && AllLiteral(toks[..k]) && Shr(Word(toks, n), k) == Word(toks[k..], n - k)
    decreases c
  {
    hide Word, Shr, TrailingZeros;
    var w := Word(toks, n);
    OneShift(w, c);
    if c > 0 && w % 2 == 0 {
      LiteralFirst(toks, n);
      ZerosAreLiterals(toks[1..], n - 1, c - 1);
      TakeOne(toks, TrailingZeros(w / 2, c - 1));
    }
  }

  lemma {:induction false} LiteralBody(lits: seq<Token>)
    requires AllLiteral(lits)
    ensures Body(lits) == Values(lits)
  {
    if lits != [] { LiteralBody(lits[1..]); }
  }

  lemma {:induction false} LiteralsLegal(pos: nat, lits: seq<Token>, rest: seq<Token>, end: nat)
    requires AllLiteral(lits) && Legal(lits + rest, pos, end)
    ensures Legal(rest, pos + |lits|, end)
    decreases |lits|
  {
    if lits == [] {
      assert lits + rest == rest;
    } else {
      assert (lits + rest)[1..] == lits[1..] + rest;
      LiteralsLegal(pos + 1, lits[1..], rest, end);
    }
  }

  /** Literals expand to what is stored. */
  lemma {:induction false} LiteralsExpand(win: seq<byte>, lits: seq<Token>, rest: seq<Token>)
    requires AllLiteral(lits)
    ensures Expand(win, lits + rest) == Expand(win + Values(lits), rest)
    decreases |lits|
  {
    if lits == [] {
      assert win + [] == win && lits + rest == rest;
    } else {
      var t, r := lits[0], lits[1..];
      assert (lits + rest)[1..] == r + rest;
      LiteralsExpand(win + [t.value], r, rest);
      Assoc(win, [t.value], Values(r));
    }
  }

  // ---- what one pass stores, whatever is in memory ----

  /** A match: read where the source stands, copied behind the destination. */
  method StoreMatch(source: array<byte>, src0: nat, dest: array<byte>, dst0: nat, cw0: nat)
    returns (src: nat, dst: nat, cw: nat)
    requires src0 <= source.Length
    requires var (offset, len, width) := ReadMatch(Peek4(source[src0..]));
      3 <= offset <= dst0 && 1 <= len && dst0 + len + 3 <= dest.Length
    modifies dest
    ensures var (offset, len, width) := old(ReadMatch(Peek4(source[src0..])));
      && src == src0 + width && dst == dst0 + len && cw == cw0 / 2
      && dest[..dst] == CopyMatch(old(dest[..dst0]), offset, len) && dest[dst + 3..] == old(dest[dst + 3..])
  {
    hide ReadMatch, Peek4, CopyMatch;
    var (offset, len, width) := ReadMatch(Peek4(source[..][src0..]));
    assert source[..][src0..] == source[src0..];
    MemcpyUp(dest, dst0, dst0 - offset, len);
    src, dst, cw := src0 + width, dst0 + len, cw0 / 2;
  }

  /** A batch: four bytes are copied, as many count as the lookup table says. */
  method StoreBatch(source: array<byte>, src0: nat, dest: array<byte>, dst0: nat, cw0: nat)
    returns (src: nat, dst: nat, cw: nat, k: nat)
    requires src0 + 4 <= source.Length && dst0 + 4 <= dest.Length
    modifies dest
    ensures k == BITLUT[cw0 % 16] <= 4 && src == src0 + k && dst == dst0 + k && cw == Shr(cw0, k)
    ensures dest[..dst0] == old(dest[..dst0]) && dest[dst0..dst0 + 4] == old(source[src0..src0 + 4])
    ensures dest[dst0 + 4..] == old(dest[dst0 + 4..])
  {
    hide Shr;
    k := BITLUT[cw0 % 16];
    dest[dst0], dest[dst0 + 1], dest[dst0 + 2], dest[dst0 + 3] :=
      source[src0], source[src0 + 1], source[src0 + 2], source[src0 + 3];
    src, dst, cw := src0 + k, dst0 + k, Shr(cw0, k);
  }

  // ---- the reader's position in the packet ----

  /** `src` stands in front of the encoding of `toks`, which ends at `e`, with word `cw` in hand. */
  ghost predicate At(s: seq<byte>, src: nat, e: nat, cw: nat, toks: seq<Token>, n: nat)
  {
    n <= 31 && cw == Word(toks, n) && src + |Emit(toks, n)| == e <= |s| && s[src..e] == Emit(toks, n)
  }

  lemma AtWord(s: seq<byte>, src: nat, e: nat, toks: seq<Token>)
    requires toks != [] && At(s, src, e, 1, toks, 0)
    ensures Peek4(s[src..]) == FullWord(toks) && At(s, src + 4, e, FullWord(toks), toks, 31)
  {
    var w := Le(FullWord(toks), 4);
    assert s[src..] == s[src..e] + s[e..];
    Assoc(w, Emit(toks, 31), s[e..]);
    PeekFullWord(toks, Emit(toks, 31) + s[e..]);
    assert s[src + 4..e] == s[src..e][4..];
  }

  lemma AtMatch(s: seq<byte>, src: nat, e: nat, cw: nat, toks: seq<Token>, n: nat)
    requires toks != [] && toks[0].Match? && n > 0 && At(s, src, e, cw, toks, n)
    ensures cw % 2 == 1
    ensures var (offset, len, width) := ReadMatch(Peek4(s[src..]));
            toks[0] == Match(offset, len) && At(s, src + width, e, cw / 2, toks[1..], n - 1)
  {
    hide EncToken, ReadMatch, MatchWord, Peek4;
    var t, r := toks[0], toks[1..];
    var enc := EncToken(t);
    assert s[src..] == s[src..e] + s[e..];
    Assoc(enc, Emit(r, n - 1), s[e..]);
    ReadMatchInverts(t.offset, t.len, Emit(r, n - 1) + s[e..]);
    assert s[src + |enc|..e] == s[src..e][|enc|..];
  }

  lemma AtLiterals(s: seq<byte>, src: nat, e: nat, cw: nat, lits: seq<Token>, rest: seq<Token>, n: nat)
    requires |lits| <= n && AllLiteral(lits) && At(s, src, e, cw, lits + rest, n)
    requires Shr(cw, |lits|) == Word(rest, n - |lits|)
    ensures src + |lits| <= e && s[src..src + |lits|] == Values(lits)
    ensures At(s, src + |lits|, e, Shr(cw, |lits|), rest, n - |lits|)
  {
    var k := |lits|;
    EmitGroup(lits, rest, n);
    LiteralBody(lits);
    assert s[src..src + k] == s[src..e][..k];
    assert s[src + k..e] == s[src..e][k..];
  }

  lemma AtFrame(s: seq<byte>, s': seq<byte>, src: nat, e: nat, cw: nat, toks: seq<Token>, n: nat)
    requires At(s, src, e, cw, toks, n) && |s'| == |s| && s'[src..e] == s[src..e]
    ensures At(s', src, e, cw, toks, n)
  {
  }

  // ---- packet and message in one array ----

  /** At every boundary between two tokens the reader is at least three bytes in front of the writer: the overshoot of
      a copy does not reach unread bytes. `gap` is the distance where `toks` begin. */
  predicate InFront(toks: seq<Token>, n: nat, gap: int)
    requires n <= 31
    decreases |toks|, 31 - n == 31
  {
    if toks == [] then true
    else if n == 0 then InFront(toks, 31, gap + 4)
    else
      var g := gap + |EncToken(toks[0])| - Span(toks[0]);
      (toks[1..] == [] || g >= 3) && InFront(toks[1..], n - 1, g)
  }

  /** Literals do not change the distance. */
  lemma {:induction false} InFrontLiterals(lits: seq<Token>, rest: seq<Token>, n: nat, gap: int)
    requires 0 < |lits| <= n <= 31 && AllLiteral(lits) && InFront(lits + rest, n, gap)
    ensures InFront(rest, n - |lits|, gap) && (rest == [] || gap >= 3)
    decreases |lits|
  {
    assert (lits + rest)[1..] == lits[1..] + rest;
    if |lits| == 1 {
      assert lits[1..] + rest == rest;
    } else {
      InFrontLiterals(lits[1..], rest, n - 1, gap);
    }
  }

  lemma InFrontNext(toks: seq<Token>, n: nat, gap: int)
    requires toks != [] && 0 < n <= 31 && InFront(toks, n, gap)
    ensures var g := gap + |EncToken(toks[0])| - Span(toks[0]);
      InFront(toks[1..], n - 1, g) && (toks[1..] == [] || g >= 3)
  {
  }

  /** The race: with this much room behind the message, a write that ends three bytes past `dst`
      stays in front of every unread byte of the packet. */
  lemma WriteStaysBehind(src: nat, e: nat, toks: seq<Token>, n: nat, dst: nat, end: nat, size: nat)
    requires n <= 31 && src + |Emit(toks, n)| == e && Legal(toks, dst, end) && end < dst + size
    requires end + 3 + 4 * ((size + 29) / 31) <= e
    ensures dst + 3 <= src
  {
    EmitLength(toks, n);
    LegalSpans(toks, dst, end);
    assert WordsFor(|toks|, n) <= (size + 29) / 31;
  }

  /** So that much room is enough for any packet. */
  lemma {:induction false} SizeIsRoom(src: nat, e: nat, toks: seq<Token>, n: nat, dst: nat, end: nat, size: nat)
    requires n <= 31 && src + |Emit(toks, n)| == e && Legal(toks, dst, end) && end <= dst + size
    requires end + 3 + 4 * ((size + 29) / 31) <= e
    ensures InFront(toks, n, src - dst)
    decreases |toks|, 31 - n == 31
  {
    hide EncToken;
    if toks == [] {
    } else if n == 0 {
      SizeIsRoom(src + 4, e, toks, 31, dst, end, size);
    } else {
      var src', dst' := src + |EncToken(toks[0])|, dst + Span(toks[0]);
      WriteStaysBehind(src', e, toks[1..], n - 1, dst', end, size);
      SizeIsRoom(src', e, toks[1..], n - 1, dst', end, size);
    }
  }

  /** The other way round: where the reader is behind the writer, no memory holds both the message so far and the unread
      packet, unless the message repeats the packet's bytes there. */
  lemma BothInMemory(m: seq<byte>, msg: seq<byte>, src: nat, e: nat, dst: nat, toks: seq<Token>, n: nat)
    requires n <= 31 && src < dst <= |msg| && dst <= |m| && src + |Emit(toks, n)| == e <= |m|
    requires m[..dst] == msg[..dst] && m[src..e] == Emit(toks, n)
    ensures var k := Min(dst, e) - src; 0 <= k && msg[src..src + k] == Emit(toks, n)[..k]
  {
    var k := Min(dst, e) - src;
    assert msg[src..src + k] == m[..dst][src..src + k] == m[src..e][..k];
  }

  // ---- the loops ----

  /** What does not change while one body is read: where its tokens end in the source, where the message
      ends in the destination, the final window and whether both share an array. */
  datatype Plan = Plan(e: nat, end: nat, goal: seq<byte>, shared: bool)

  /** What the loops keep: reading on from `src` and expanding onto `d[..dst]` gives the goal. */
  ghost predicate OnTrack(p: Plan, s: seq<byte>, d: seq<byte>, src: nat, cw: nat, dst: nat, toks: seq<Token>, n: nat)
  {
    && At(s, src, p.e, cw, toks, n)
    && dst <= p.end <= |d| && Legal(toks, dst, p.end)
    && Expand(d[..dst], toks) == p.goal
    && (p.shared ==> s == d && InFront(toks, n, src - dst))
  }

  /** After a step that wrote no further than three bytes past `dst`, unread source bytes are untouched. */
  lemma Stays(p: Plan, s: seq<byte>, s': seq<byte>, d: seq<byte>, d': seq<byte>, src: nat, cw: nat, dst: nat,
              toks: seq<Token>, n: nat)
    requires At(s, src, p.e, cw, toks, n) && (p.shared ==> s == d)
    requires |d'| == |d| && s' == (if p.shared then d' else s)
    requires dst <= p.end <= |d| && Legal(toks, dst, p.end)
    requires p.shared ==> InFront(toks, n, src - dst) && (toks == [] || dst + 3 <= src)
    requires Expand(d'[..dst], toks) == p.goal
    requires forall j :: dst + 3 <= j < |d| ==> d'[j] == d[j]
    ensures OnTrack(p, s', d', src, cw, dst, toks, n)
  {
    assert s'[src..p.e] == s[src..p.e];
    AtFrame(s, s', src, p.e, cw, toks, n);
  }

  lemma OneLiteral(p: Plan, s: seq<byte>, d: seq<byte>, src: nat, cw: nat, dst: nat, toks: seq<Token>, n: nat)
    requires OnTrack(p, s, d, src, cw, dst, toks, n)
    requires toks != [] && toks[0].Literal? && n > 0
    ensures cw % 2 == 0 && src < p.e && dst < p.end
    ensures At(s, src + 1, p.e, cw / 2, toks[1..], n - 1)
    ensures Legal(toks[1..], dst + 1, p.end)
    ensures Expand(d[..dst] + [s[src]], toks[1..]) == p.goal
  {
    assert s[src] == s[src..p.e][0];
    assert s[src + 1..p.e] == s[src..p.e][1..];
  }

  lemma StepLiteral(p: Plan, s: seq<byte>, s': seq<byte>, d: seq<byte>, d': seq<byte>, src: nat, cw: nat,
                    dst: nat, toks: seq<Token>, n: nat)
    requires OnTrack(p, s, d, src, cw, dst, toks, n)
    requires toks != [] && toks[0].Literal? && n > 0
    requires dst < |d| && src < |s| && d' == d[dst := s[src]] && s' == (if p.shared then d' else s)
    ensures OnTrack(p, s', d', src + 1, cw / 2, dst + 1, toks[1..], n - 1)
  {
    hide Emit, Word, Expand, Legal;
    OneLiteral(p, s, d, src, cw, dst, toks, n);
    assert d'[..dst + 1] == d[..dst] + [s[src]];
    if p.shared {
      assert toks == toks[..1] + toks[1..];
      InFrontLiterals(toks[..1], toks[1..], n, src - dst);
    }
    Stays(p, s, s', d, d', src + 1, cw / 2, dst + 1, toks[1..], n - 1);
  }

  lemma StepMatch(p: Plan, s: seq<byte>, s': seq<byte>, d: seq<byte>, d': seq<byte>, src: nat, src': nat,
                  cw: nat, dst: nat, t: Token, toks: seq<Token>, n: nat)
    requires At(s, src', p.e, cw, toks, n) && (p.shared ==> s == d) && t.Match?
    requires dst + t.len <= p.end <= |d| && Legal(toks, dst + t.len, p.end)
    requires Expand(CopyMatch(d[..dst], t.offset, t.len), toks) == p.goal
    requires p.shared ==> InFront(toks, n, src' - (dst + t.len)) && (toks == [] || dst + t.len + 3 <= src')
    requires |d'| == |d| && s' == (if p.shared then d' else s) && dst + t.len + 3 <= |d|
    requires d'[..dst + t.len] == CopyMatch(d[..dst], t.offset, t.len)
    requires d'[dst + t.len + 3..] == d[dst + t.len + 3..]
    ensures OnTrack(p, s', d', src', cw, dst + t.len, toks, n)
  {
    hide Emit, Word, Expand, Legal;
    var o := dst + t.len + 3;
    assert forall j :: o <= j < |d| ==> d'[j] == d'[o..][j - o] && d[j] == d[o..][j - o];
    Stays(p, s, s', d, d', src', cw, dst + t.len, toks, n);
  }

  /** How many literals one pass takes: `k` flags are clear, and all `k` literals are there. */
  lemma BatchSize(toks: seq<Token>, n: nat, cw: nat)
    requires |toks| >= 4 && cw == Word(toks, n) && cw % 2 == 0
    ensures var k := BITLUT[cw % 16];
            1 <= k <= 4 && k <= n && AllLiteral(toks[..k]) && Shr(cw, k) == Word(toks[k..], n - k)
  {
    BitlutIsTrailingZeros(cw);
    ZerosAreLiterals(toks, n, 4);
  }

  lemma SomeLiterals(p: Plan, s: seq<byte>, d: seq<byte>, src: nat, cw: nat, dst: nat, toks: seq<Token>, n: nat,
                     lits: seq<Token>, rest: seq<Token>)
    requires OnTrack(p, s, d, src, cw, dst, toks, n) && toks == lits + rest
    requires |lits| <= n && AllLiteral(lits) && Shr(cw, |lits|) == Word(rest, n - |lits|)
    ensures n <= 31 && src + |lits| <= p.e && dst + |lits| <= p.end
    ensures At(s, src + |lits|, p.e, Shr(cw, |lits|), rest, n - |lits|)
    ensures Legal(rest, dst + |lits|, p.end)
    ensures Expand(d[..dst] + s[src..src + |lits|], rest) == p.goal
  {
    hide Emit, Word, Expand, Legal, InFront, Shr, Values, AllLiteral;
    AtLiterals(s, src, p.e, cw, lits, rest, n);
    LiteralsLegal(dst, lits, rest, p.end);
    LiteralsExpand(d[..dst], lits, rest);
    LegalSpans(rest, dst + |lits|, p.end);
  }

  lemma StepBatch(p: Plan, s: seq<byte>, s': seq<byte>, d: seq<byte>, d': seq<byte>, src: nat, cw: nat,
                  dst: nat, toks: seq<Token>, n: nat, lits: seq<Token>, rest: seq<Token>)
    requires OnTrack(p, s, d, src, cw, dst, toks, n) && toks == lits + rest
    requires 0 < |lits| <= n && AllLiteral(lits) && Shr(cw, |lits|) == Word(rest, n - |lits|)
    requires |d'| == |d| && src + |lits| <= |s| && s' == (if p.shared then d' else s)
    requires dst + |lits| <= |d| && d'[..dst + |lits|] == d[..dst] + s[src..src + |lits|]
    requires forall j :: dst + 4 <= j < |d| ==> d'[j] == d[j]
    ensures OnTrack(p, s', d', src + |lits|, Shr(cw, |lits|), dst + |lits|, rest, n - |lits|)
  {
    hide Emit, Word, Expand, Legal, Shr, Values, At;
    SomeLiterals(p, s, d, src, cw, dst, toks, n, lits, rest);
    if p.shared { InFrontLiterals(lits, rest, n, src - dst); }
    Stays(p, s, s', d, d', src + |lits|, Shr(cw, |lits|), dst + |lits|, rest, n - |lits|);
  }

  lemma StepWord(p: Plan, s: seq<byte>, d: seq<byte>, src: nat, dst: nat, toks: seq<Token>, n: nat)
    requires OnTrack(p, s, d, src, 1, dst, toks, n) && dst < p.end
    ensures src <= |s| && Peek4(s[src..]) == FullWord(toks)
    ensures OnTrack(p, s, d, src + 4, FullWord(toks), dst, toks, 31)
  {
    AtWord(s, src, p.e, toks);
  }

  lemma {:induction false} LiteralWord(toks: seq<Token>, n: nat)
    requires AllLiteral(toks)
    ensures Word(toks, n) == Pow2(n)
    ensures n == 31 ==> Word(toks, n) == 0x8000_0000
  {
    Pow2Values();
    if n > 0 { LiteralWord(ControlWord.Tail(toks), n - 1); }
  }

  /** The next token, seen from the control word. */
  lemma Next(p: Plan, s: seq<byte>, d: seq<byte>, src: nat, cw: nat, dst: nat, toks: seq<Token>, n: nat)
    requires OnTrack(p, s, d, src, cw, dst, toks, n) && dst < p.end
    ensures toks != [] && (cw == 1 <==> n == 0)
    ensures n > 0 ==> (cw % 2 == 1 <==> toks[0].Match?)
    ensures Legal(toks[1..], dst + Span(toks[0]), p.end)
  {
  }

  lemma Finished(p: Plan, s: seq<byte>, d: seq<byte>, src: nat, cw: nat, dst: nat, toks: seq<Token>, n: nat)
    requires OnTrack(p, s, d, src, cw, dst, toks, n) && dst == p.end
    ensures d[..dst] == p.goal
  {
    LegalSpans(toks, dst, p.end);
  }

  method Tail(source: array<byte>, src0: nat, dest: array<byte>, dst0: nat, end: nat, cw0: nat,
              ghost toks: seq<Token>, ghost n0: nat, ghost p: Plan)
    requires OnTrack(p, source[..], dest[..], src0, cw0, dst0, toks, n0)
    requires AllLiteral(toks) && end == p.end && p.shared == (source == dest)
    modifies dest
    ensures dest[..end] == p.goal && dest[end..] == old(dest[end..])
  {
    hide At, Emit, Legal, Expand, Word;
    var src: nat, dst: nat, cw: nat := src0, dst0, cw0;
    ghost var rest, n := toks, n0;
    while dst < end
      invariant OnTrack(p, source[..], dest[..], src, cw, dst, rest, n)
      invariant AllLiteral(rest)
      invariant dest[end..] == old(dest[end..])
    {
      Next(p, source[..], dest[..], src, cw, dst, rest, n);
      if cw == 1 {
        StepWord(p, source[..], dest[..], src, dst, rest, n);
        LiteralWord(rest, 31);
        src := src + 4;
        cw := 0x8000_0000;
        n := 31;
      }
      ghost var s, d := source[..], dest[..];
      OneLiteral(p, s, d, src, cw, dst, rest, n);
      dest[dst] := source[src];
      StepLiteral(p, s, source[..], d, dest[..], src, cw, dst, rest, n);
      dst := dst + 1;
      src := src + 1;
      cw := cw / 2;
      rest, n := rest[1..], n - 1;
    }
    Finished(p, source[..], dest[..], src, cw, dst, rest, n);
    assert dest[..][..dst] == dest[..end];
  }

  lemma MatchNext(p: Plan, s: seq<byte>, d: seq<byte>, src: nat, cw: nat, dst: nat, toks: seq<Token>, n: nat)
    requires OnTrack(p, s, d, src, cw, dst, toks, n) && toks != [] && toks[0].Match?
    ensures Legal(toks[1..], dst + toks[0].len, p.end) && dst + toks[0].len + 4 <= p.end && toks[0].offset <= dst
    ensures Expand(CopyMatch(d[..dst], toks[0].offset, toks[0].len), toks[1..]) == p.goal
  {
  }

  lemma MatchWidth(s: seq<byte>, src: nat, src': nat, e: nat, cw: nat, cw': nat, toks: seq<Token>, n: nat)
    requires toks != [] && n > 0 && At(s, src, e, cw, toks, n) && At(s, src', e, cw', toks[1..], n - 1)
    ensures src' == src + |EncToken(toks[0])|
  {
  }

  method TakeMatch(source: array<byte>, src0: nat, dest: array<byte>, dst0: nat, cw0: nat,
                   ghost toks: seq<Token>, ghost n: nat, ghost p: Plan)
    returns (src: nat, dst: nat, cw: nat)
    requires OnTrack(p, source[..], dest[..], src0, cw0, dst0, toks, n)
    requires toks != [] && n > 0 && toks[0].Match? && p.shared == (source == dest)
    modifies dest
    ensures OnTrack(p, source[..], dest[..], src, cw, dst, toks[1..], n - 1)
    ensures dst0 < dst < p.end && dest[p.end..] == old(dest[p.end..])
  {
    hide Emit, Word, Expand, Legal, InFront, EncToken, ReadMatch, Peek4, CopyMatch;
    ghost var s, d := source[..], dest[..];
    MatchNext(p, s, d, src0, cw0, dst0, toks, n);
    if p.shared { InFrontNext(toks, n, src0 - dst0); }
    AtMatch(s, src0, p.e, cw0, toks, n);
    assert source[..][src0..] == source[src0..];
    src, dst, cw := StoreMatch(source, src0, dest, dst0, cw0);
    MatchWidth(s, src0, src, p.e, cw0, cw, toks, n);
    assert d[..dst0] == old(dest[..dst0]);
    assert dest[..][..dst] == dest[..dst] && dest[..][dst + 3..] == dest[dst + 3..];
    StepMatch(p, s, source[..], d, dest[..], src0, src, cw, dst0, toks[0], toks[1..], n - 1);
    assert dest[p.end..] == dest[dst + 3..][p.end - (dst + 3)..];
  }

  lemma EnoughLeft(p: Plan, s: seq<byte>, d: seq<byte>, src: nat, cw: nat, dst: nat, toks: seq<Token>, n: nat)
    requires OnTrack(p, s, d, src, cw, dst, toks, n) && dst + 4 <= p.end
    ensures |toks| >= 4 && src + 4 <= |s| && cw == Word(toks, n) && n <= 31
  {
    LastFourAreLiteral(toks, dst, p.end);
    EmitLength(toks, n);
  }

  lemma BatchStored(s: seq<byte>, src: nat, d: seq<byte>, d': seq<byte>, dst: nat, k: nat)
    requires src + 4 <= |s| && dst + 4 <= |d| == |d'| && k <= 4
    requires d'[..dst] == d[..dst] && d'[dst..dst + 4] == s[src..src + 4] && d'[dst + 4..] == d[dst + 4..]
    ensures d'[..dst + k] == d[..dst] + s[src..src + k]
    ensures forall j :: dst + 4 <= j < |d| ==> d'[j] == d[j]
  {
    assert d'[..dst + k] == d'[..dst] + d'[dst..dst + 4][..k];
    assert s[src..src + 4][..k] == s[src..src + k];
    SameBehind(d, d', dst + 4);
  }

  lemma SameBehind(d: seq<byte>, d': seq<byte>, i: nat)
    requires i <= |d| == |d'| && d'[i..] == d[i..]
    ensures forall j :: i <= j < |d| ==> d'[j] == d[j]
  {
    forall j | i <= j < |d|
      ensures d'[j] == d[j]
    {
      assert d'[j] == d'[i..][j - i] && d[j] == d[i..][j - i];
    }
  }

  method TakeLiterals(source: array<byte>, src0: nat, dest: array<byte>, dst0: nat, cw0: nat,
                      ghost toks: seq<Token>, ghost n: nat, ghost p: Plan)
    returns (src: nat, dst: nat, cw: nat, k: nat)
    requires OnTrack(p, source[..], dest[..], src0, cw0, dst0, toks, n)
    requires cw0 % 2 == 0 && dst0 + 11 < p.end && p.shared == (source == dest)
    modifies dest
    ensures 1 <= k <= |toks| && k <= n && k <= 4 && dst == dst0 + k
    ensures OnTrack(p, source[..], dest[..], src, cw, dst, toks[k..], n - k)
    ensures dest[p.end..] == old(dest[p.end..])
  {
    hide At, Emit, Legal, Expand, Word, Shr;
    ghost var s, d := source[..], dest[..];
    EnoughLeft(p, s, d, src0, cw0, dst0, toks, n);
    BatchSize(toks, n, cw0);
    src, dst, cw, k := StoreBatch(source, src0, dest, dst0, cw0);
    BatchStored(s, src0, d, dest[..], dst0, k);
    assert toks == toks[..k] + toks[k..];
    StepBatch(p, s, source[..], d, dest[..], src0, cw0, dst0, toks, n, toks[..k], toks[k..]);
  }

  method Loop(source: array<byte>, src0: nat, dest: array<byte>, dst0: nat, end: nat,
              ghost toks: seq<Token>, ghost p: Plan)
    requires OnTrack(p, source[..], dest[..], src0, 1, dst0, toks, 0)
    requires dst0 < end == p.end && p.shared == (source == dest)
    modifies dest
    ensures dest[..end] == p.goal && dest[end..] == old(dest[end..])
  {
    hide At, Emit, Legal, Expand, Word;
    var src: nat, dst: nat, cw: nat := src0, dst0, 1;
    ghost var rest, n: nat := toks, 0;
    while true
      invariant OnTrack(p, source[..], dest[..], src, cw, dst, rest, n)
      invariant dst < end
      invariant dest[end..] == old(dest[end..])
      decreases |rest|
    {
      Next(p, source[..], dest[..], src, cw, dst, rest, n);
      if cw == 1 {
        StepWord(p, source[..], dest[..], src, dst, rest, n);
        cw := Peek4(source[..][src..]);
        src := src + 4;
        n := 31;
        Next(p, source[..], dest[..], src, cw, dst, rest, n);
      }
      if cw % 2 == 1 {
        src, dst, cw := TakeMatch(source, src, dest, dst, cw, rest, n, p);
        rest, n := rest[1..], n - 1;
      } else if dst + 11 < end {
        var k;
        src, dst, cw, k := TakeLiterals(source, src, dest, dst, cw, rest, n, p);
        rest, n := rest[k..], n - k;
      } else {
        TailIsLiteral(rest[1..], dst + 1, end);
        Tail(source, src, dest, dst, end, cw, rest, n, p);
        return;
      }
    }
  }

  lemma FrontOf(a: array<byte>, i: nat, j: nat, enc: seq<byte>)
    requires i <= j <= a.Length && enc <= a[i..j]
    ensures i + |enc| <= j && a[..][i..i + |enc|] == enc
  {
    assert a[..][i..i + |enc|] == a[i..j][..|enc|];
  }

  /** The decompressor proper: `dest[..dst0]` is the history, the body is `source[src0..srcEnd]`. */
  method DecompressCore(source: array<byte>, src0: nat, ghost srcEnd: nat, dest: array<byte>, dst0: nat, size: nat)
    requires 0 < size && src0 <= srcEnd <= source.Length && dst0 + size <= dest.Length
    requires WellFormed(source[src0..srcEnd], dst0, size)
    requires source == dest ==> InFront(Parse(source[src0..srcEnd], 1, size).value, 0, src0 - dst0)
    modifies dest
    ensures dest[..dst0 + size] == Meaning(old(source[src0..srcEnd]), old(dest[..dst0]), size)
    ensures dest[dst0 + size..] == old(dest[dst0 + size..])
  {
    ghost var body := source[src0..srcEnd];
    ghost var toks := Parse(body, 1, size).value;
    ghost var enc := Emit(toks, 0);
    ghost var p := Plan(src0 + |enc|, dst0 + size, Expand(dest[..dst0], toks), source == dest);
    FrontOf(source, src0, srcEnd, enc);
    assert dest[..][..dst0] == dest[..dst0];
    Loop(source, src0, dest, dst0, dst0 + size, toks, p);
  }
}
