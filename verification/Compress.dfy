/** The compressor as it runs: tables and output updated in place, proved to emit what `Matcher.Run` says. */
module Compress {
  import opened Bytes
  import opened Tokens
  import opened ControlWord
  import opened HashTable
  import opened Matcher

  class CompressState {
    const streamBuffer: array<byte>
    var streamCounter: nat
    const slots: array<nat>
    const counts: array<byte>

    constructor ()
      ensures Valid() && fresh(streamBuffer) && fresh(slots) && fresh(counts)
      ensures streamCounter == 0 && View().count == seq(4096, i => 0)
    {
      streamBuffer := new byte[STREAM](i => 0);
      streamCounter := 0;
      slots := new nat[65536](i => 0);
      counts := new byte[4096](i => 0);
    }

    ghost predicate Valid()
    {
      streamBuffer.Length == STREAM && slots.Length == 65536 && counts.Length == 4096 && counts != streamBuffer
    }

    ghost function View(): Table
      requires Valid()
      reads slots, counts
    {
      Table(slots[..], counts[..])
    }

    method ResetTable()
      requires Valid()
      modifies counts
      ensures View() == Reset(old(View()))
    {
      var i := 0;
      while i < 4096
        invariant 0 <= i <= 4096
        invariant forall j :: 0 <= j < i ==> counts[j] == 0
      {
        counts[i] := 0;
        i := i + 1;
      }
    }

    method InsertAt(win: array<byte>, p: nat, ghost w: seq<byte>)
      requires Valid() && win != counts && p + 3 <= |w| && w <= win[..]
      modifies slots, counts
      ensures View() == Insert(old(View()), w, p)
    {
      var h := HashBytes(win[p], win[p + 1], win[p + 2]);
      var c: nat := counts[h];
      slots[16 * h + c % 16] := p;
      counts[h] := (c + 1) % 256;
    }

    /** Goes on inserting after the first position of a match was entered. */
    method InsertFrom(win: array<byte>, ghost s: nat, a: nat, b: nat, ghost w: seq<byte>, ghost t: Table)
      requires Valid() && win != counts && s <= a <= b && b + 2 <= |w| && w <= win[..]
      requires View() == InsertRange(t, w, s, a)
      modifies slots, counts
      ensures View() == InsertRange(t, w, s, b)
    {
      hide Insert;
      var u := a;
      while u < b
        invariant a <= u <= b && w <= win[..]
        invariant View() == InsertRange(t, w, s, u)
      {
        InsertAt(win, u, w);
        u := u + 1;
      }
    }

    method ExtendMatch(win: array<byte>, o: nat, s: nat, m0: nat, cap: nat, ghost w: seq<byte>) returns (m: nat)
      requires o <= s && m0 <= cap && s + cap < |w| && w <= win[..]
      ensures m == Extend(w, o, s, m0, cap)
    {
      m := m0;
      while win[o + m] == win[s + m] && m < cap
        invariant m0 <= m <= cap && Extend(w, o, s, m0, cap) == Extend(w, o, s, m, cap)
      {
        m := m + 1;
      }
    }

    method FirstSlot(win: array<byte>, o: nat, s: nat, cap: nat, ghost w: seq<byte>) returns (len: nat)
      requires s + cap < |w| && 4 <= cap && w <= win[..]
      ensures var b := Improve(w, s, cap, Best(0, 0), o); len == b.len && (len > 0 ==> o == b.pos)
    {
      if o + 3 <= s && win[o] == win[s] && win[o + 1] == win[s + 1] && win[o + 2] == win[s + 2] {
        len := 3;
        if win[o + 3] == win[s + 3] {
          len := ExtendMatch(win, o, s, 4, cap, w);
        }
        assert len == MatchLength(w, o, s, cap);
      } else {
        len := 0;
      }
    }

    method LaterSlot(win: array<byte>, p: nat, s: nat, cap: nat, o: nat, len: nat, ghost w: seq<byte>, ghost b: Best)
      returns (o': nat, len': nat)
      requires p < s && s + cap < |w| && 3 <= cap && w <= win[..]
      requires len == b.len && (len > 0 ==> o == b.pos)
      ensures var r := Improve(w, s, cap, b, p); len' == r.len && (len' > 0 ==> o' == r.pos)
    {
      hide Found, Extend;
      o', len' := o, len;
      if win[p] == win[s] && win[p + 1] == win[s + 1] && win[p + 2] == win[s + 2] && p + 3 <= s {
        var m := ExtendMatch(win, p, s, 3, cap, w);
        if m > len || (m == len && p > o) {
          o', len' := p, m;
        }
      }
    }

    method FindMatch(win: array<byte>, s: nat, end: nat, ghost w: seq<byte>) returns (o: nat, len: nat)
      requires Valid() && s + 11 <= end == |w| && w <= win[..] && Before(View(), s)
      ensures len == FindBest(View(), w, s).len && (len > 0 ==> o == FindBest(View(), w, s).pos)
      ensures len > 0 ==>
        Copies(w, s, o, len) && (len == 255 || s + len + 4 == end || w[s + len] != w[o + len])
    {
      hide Improve, Found, Before, Copies, MatchLength, Extend, Same3;
      var cap := if end - 4 - s > 255 then 255 else end - 4 - s;
      var h := HashBytes(win[s], win[s + 1], win[s + 2]);
      var c: nat := counts[h];
      ghost var t := View();
      ghost var b := Best(0, 0);
      assert c > 0 ==> Slot(t, h, 0) == slots[16 * h];
      o, len := slots[16 * h], 0;
      if c > 0 {
        len := FirstSlot(win, o, s, cap, w);
        b := Improve(w, s, cap, b, o);
      }
      var k := 1;
      while k < POINTERS && c > k
        invariant 1 <= k <= 16 && (c <= k ==> k == 1 || k == c)
        invariant b == Search(t, w, s, cap, h, Min(c, k)) && len == b.len && (len > 0 ==> o == b.pos)
      {
        var p := slots[16 * h + k];
        assert p == Slot(t, h, k) && k < Trusted(t, h);
        TrustedBefore(t, h, k, s);
        o, len := LaterSlot(win, p, s, cap, o, len, w, b);
        b := Improve(w, s, cap, b, p);
        k := k + 1;
      }
      assert b == FindBest(t, w, s);
      hide FindBest, Search, Slot;
      if len > 0 { BestEnds(t, w, s); }
    }
  }

  lemma TrustedBefore(t: Table, h: nat, k: nat, s: nat)
    requires h < BUCKETS && k < Trusted(t, h) && Before(t, s)
    ensures Slot(t, h, k) < s
  {
  }

  // ---- the output: closed groups, a reserved control word, the open group ----

  ghost predicate Written(d: seq<byte>, d0: nat, cptr: nat, dst: nat, closed: seq<Token>, g: seq<Token>)
  {
    && |closed| % 31 == 0 && |g| <= 31
    && cptr == d0 + |Emit(closed, 0)| && dst == cptr + 4 + |Body(g)| && dst <= |d|
    && d[d0..cptr] == Emit(closed, 0) && d[cptr + 4..dst] == Body(g)
  }

  lemma PushToken(d: seq<byte>, d': seq<byte>, d0: nat, cptr: nat, dst: nat, closed: seq<Token>, g: seq<Token>,
      t: Token)
    requires Written(d, d0, cptr, dst, closed, g) && |g| < 31
    requires |d'| == |d| && d'[..dst] == d[..dst]
    requires dst + |EncToken(t)| <= |d| && d'[dst..dst + |EncToken(t)|] == EncToken(t)
    ensures Written(d', d0, cptr, dst + |EncToken(t)|, closed, g + [t])
  {
    hide Emit, Body, EncToken;
    BodyAppend(g, t);
    assert d'[d0..cptr] == d'[..dst][d0..cptr] && d[d0..cptr] == d[..dst][d0..cptr];
    assert d'[cptr + 4..dst] == d'[..dst][cptr + 4..] && d[cptr + 4..dst] == d[..dst][cptr + 4..];
    assert d'[cptr + 4..dst + |EncToken(t)|] == d'[cptr + 4..dst] + d'[dst..dst + |EncToken(t)|];
  }

  /** Filling in the reserved word closes the group. */
  lemma CloseGroup(d: seq<byte>, d': seq<byte>, d0: nat, cptr: nat, dst: nat, closed: seq<Token>, g: seq<Token>)
    requires Written(d, d0, cptr, dst, closed, g) && g != []
    requires |d'| == |d| && d'[..cptr] == d[..cptr] && d'[cptr + 4..] == d[cptr + 4..]
    requires d'[cptr..cptr + 4] == Le(FullWord(g), 4)
    ensures d'[d0..dst] == Emit(closed + g, 0)
  {
    hide Emit, Body, Le, FullWord;
    EmitClosed(closed, g);
    EmitOneGroup(g);
    assert d'[d0..cptr] == d'[..cptr][d0..] && d[d0..cptr] == d[..cptr][d0..];
    assert d'[cptr + 4..dst] == d'[cptr + 4..][..dst - (cptr + 4)]
        && d[cptr + 4..dst] == d[cptr + 4..][..dst - (cptr + 4)];
    assert d'[d0..dst] == d'[d0..cptr] + d'[cptr..cptr + 4] + d'[cptr + 4..dst];
    Assoc(Emit(closed, 0), Le(FullWord(g), 4), Body(g));
  }

  lemma OpenGroup(d: seq<byte>, d0: nat, dst: nat, toks: seq<Token>)
    requires |toks| % 31 == 0 && d0 <= dst && dst + 4 <= |d| && d[d0..dst] == Emit(toks, 0)
    ensures Written(d, d0, dst, dst + 4, toks, [])
  {
    hide Emit;
  }

  lemma LeFour(f: nat)
    ensures Le(f, 4) == [f % 256, f / 256 % 256, f / 65536 % 256, f / 16777216 % 256]
    ensures Le(f, 3) == [f % 256, f / 256 % 256, f / 65536 % 256]
    ensures Le(f, 2) == [f % 256, f / 256 % 256] && Le(f, 1) == [f % 256]
  {
    assert f / 256 / 256 == f / 65536 && f / 256 / 256 / 256 == f / 16777216;
    LeHead(f, 4);
    LeHead(f / 256, 3);
    LeHead(f / 256 / 256, 2);
    LeHead(f / 256 / 256 / 256, 1);
  }

  /** A store of `n` bytes; three bytes are stored as four, one too far. */
  method FastWrite(dest: array<byte>, at: nat, f: ui32, n: nat)
    requires 1 <= n <= 4 && at + (if n == 3 then 4 else n) <= dest.Length
    modifies dest
    ensures dest[..at] == old(dest[..at]) && dest[at..at + n] == Le(f, n)
    ensures var e := at + (if n == 3 then 4 else n); dest[e..] == old(dest[e..])
  {
    LeFour(f);
    hide Le;
    if n >= 3 {
      dest[at], dest[at + 1], dest[at + 2], dest[at + 3] := f % 256, f / 256 % 256, f / 65536 % 256, f / 16777216 % 256;
    } else if n == 2 {
      dest[at], dest[at + 1] := f % 256, f / 256 % 256;
    } else {
      dest[at] := f % 256;
    }
  }

  lemma LaterUnchanged(d: seq<byte>, d': seq<byte>, from: nat, to: nat)
    requires |d| == |d'| && from <= to <= |d| && d[from..] == d'[from..]
    ensures d[to..] == d'[to..]
  {
    assert d[to..] == d[from..][to - from..] && d'[to..] == d'[from..][to - from..];
  }

  lemma EarlierUnchanged(d: seq<byte>, d': seq<byte>, to: nat, from: nat)
    requires to <= from <= |d| && from <= |d'| && d[..from] == d'[..from]
    ensures d[..to] == d'[..to]
  {
    assert d[..to] == d[..from][..to] && d'[..to] == d'[..from][..to];
  }

  /** Writes a match in the shortest of its formats. */
  method WriteMatch(dest: array<byte>, dst: nat, offset: nat, len: nat) returns (n: nat)
    requires Encodable(offset, len) && dst + 4 <= dest.Length
    modifies dest
    ensures n == |EncToken(Match(offset, len))| && dest[dst..dst + n] == EncToken(Match(offset, len))
    ensures dest[..dst] == old(dest[..dst]) && dest[dst + 4..] == old(dest[dst + 4..])
  {
    hide Le;
    if len == 3 && offset <= 63 {
      FastWrite(dest, dst, offset * 4, 1);
      n := 1;
    } else if len == 3 && offset <= 16383 {
      FastWrite(dest, dst, offset * 4 + 1, 2);
      n := 2;
    } else if len <= 18 && offset <= 1023 {
      FastWrite(dest, dst, (len - 3) * 4 + offset * 64 + 2, 2);
      n := 2;
    } else if len <= 33 {
      FastWrite(dest, dst, (len - 2) * 4 + offset * 128 + 3, 3);
      n := 3;
    } else {
      FastWrite(dest, dst, (len - 3) * 128 + offset * 32768 + 3, 4);
      n := 4;
    }
    LaterUnchanged(dest[..], old(dest[..]), dst + (if n == 3 then 4 else n), dst + 4);
  }

  // ---- the loops ----

  /** What the loops keep about the output, `extra` being 4 once the literal-only loop has opened a group. */
  ghost predicate Going(d: seq<byte>, d0: nat, cptr: nat, dst: nat, cw: nat, closed: seq<Token>, g: seq<Token>,
                        done: nat, size: nat, extra: nat)
  {
    && Written(d, d0, cptr, dst, closed, g) && cw == Acc(g)
    && Spans(closed) + Spans(g) == done <= size
    && |Emit(closed, 0)| <= Spans(closed) + size / 8 + extra
    && d0 + size + size / 8 + 12 <= |d|
  }

  lemma {:induction false} BodyLength(g: seq<Token>)
    ensures |Body(g)| <= Spans(g)
  {
    if g != [] { BodyLength(g[1..]); }
  }

  lemma GoingRoom(d: seq<byte>, d0: nat, cptr: nat, dst: nat, cw: nat, closed: seq<Token>, g: seq<Token>,
                  done: nat, size: nat, extra: nat)
    requires Going(d, d0, cptr, dst, cw, closed, g, done, size, extra)
    ensures dst <= d0 + done + size / 8 + extra + 4 && done <= size && d0 + size + size / 8 + 12 <= |d|
    ensures (cw % 2 == 1 <==> |g| == 31) && |g| <= 31 && d0 <= cptr && cptr + 4 <= dst <= |d|
        && |closed + g| % 31 == |g| % 31 && cw == Acc(g)
    ensures |g| == 31 ==> dst - d0 == |Emit(closed + g, 0)|
  {
    hide Emit, Body, Spans, Acc;
    BodyLength(g);
    AccFull(g);
    if |g| == 31 { GroupLength(closed, g); }
  }

  lemma GroupLength(closed: seq<Token>, g: seq<Token>)
    requires |closed| % 31 == 0 && |g| == 31
    ensures |Emit(closed + g, 0)| == |Emit(closed, 0)| + 4 + |Body(g)|
  {
    hide Emit, Body;
    EmitClosed(closed, g);
    EmitOneGroup(g);
  }

  lemma GoingPush(d: seq<byte>, d': seq<byte>, d0: nat, cptr: nat, dst: nat, cw: nat, closed: seq<Token>,
                  g: seq<Token>, done: nat, size: nat, extra: nat, t: Token)
    requires Going(d, d0, cptr, dst, cw, closed, g, done, size, extra) && |g| < 31 && done + Span(t) <= size
    requires |d'| == |d| && d'[..dst] == d[..dst]
    requires dst + |EncToken(t)| <= |d| && d'[dst..dst + |EncToken(t)|] == EncToken(t)
    ensures Going(d', d0, cptr, dst + |EncToken(t)|, cw / 2 + Bit(t) * 0x8000_0000, closed, g + [t],
                  done + Span(t), size, extra)
  {
    hide Emit, Body, EncToken, Spans, Flags;
    PushToken(d, d', d0, cptr, dst, closed, g, t);
    AccPush(g, t);
    SpansPush(g, t);
  }

  lemma GroupDone(d: seq<byte>, d': seq<byte>, d0: nat, cptr: nat, dst: nat, cw: nat, closed: seq<Token>, g: seq<Token>,
                  done: nat, size: nat, extra: nat, extra': nat)
    requires Going(d, d0, cptr, dst, cw, closed, g, done, size, extra) && |g| == 31 && dst + 4 <= |d|
    requires |Emit(closed + g, 0)| <= done + size / 8 + extra'
    requires |d'| == |d| && d'[..cptr] == d[..cptr] && d'[cptr + 4..] == d[cptr + 4..]
    requires d'[cptr..cptr + 4] == Le(FullWord(g), 4)
    ensures Going(d', d0, dst, dst + 4, 0x8000_0000, closed + g, [], done, size, extra')
  {
    hide Emit, Body, Spans, Flags, FullWord, Le;
    GoingRoom(d, d0, cptr, dst, cw, closed, g, done, size, extra);
    CloseGroup(d, d', d0, cptr, dst, closed, g);
    OpenGroup(d', d0, dst, closed + g);
    SpansConcat(closed, g);
    AccStart();
    EmptySpans();
  }

  lemma FullWordIs(g: seq<Token>, cw: nat)
    requires |g| == 31 && cw == Acc(g)
    ensures cw / 2 + 0x8000_0000 == FullWord(g)
  {
    hide Flags, FullWord, Pow2;
    AccFull(g);
    AccToWord(g, 0);
  }

  lemma ArrayEnds(a: array<byte>, i: nat, j: nat)
    requires i <= a.Length && j <= a.Length
    ensures a[..i] == a[..][..i] && a[j..] == a[..][j..]
  {
  }

  /** A store seen on the whole array. */
  method StoreWord(dest: array<byte>, at: nat, f: ui32)
    requires at + 4 <= dest.Length
    modifies dest
    ensures var d, e := old(dest[..]), dest[..];
      e[..at] == d[..at] && e[at..at + 4] == Le(f, 4) && e[at + 4..] == d[at + 4..]
  {
    FastWrite(dest, at, f, 4);
    hide Le;
    ghost var d, e := old(dest[..]), dest[..];
    assert e[..at] == dest[..at] && d[..at] == old(dest[..at]);
    assert e[at + 4..] == dest[at + 4..] && d[at + 4..] == old(dest[at + 4..]);
    assert e[at..at + 4] == dest[at..at + 4];
  }

  /** A full control word goes out and the next one is reserved. */
  method NextGroup(dest: array<byte>, ghost d0: nat, cptr: nat, dst: nat, cw: nat, ghost closed: seq<Token>,
                   ghost g: seq<Token>, ghost done: nat, ghost size: nat, ghost extra: nat, ghost extra': nat)
    requires Going(dest[..], d0, cptr, dst, cw, closed, g, done, size, extra) && |g| == 31 && dst + 4 <= dest.Length
    requires |Emit(closed + g, 0)| <= done + size / 8 + extra'
    modifies dest
    ensures Going(dest[..], d0, dst, dst + 4, 0x8000_0000, closed + g, [], done, size, extra')
    ensures dest[..d0] == old(dest[..d0]) && dest[dst..] == old(dest[dst..])
  {
    hide *;
    ghost var d := dest[..];
    GoingRoom(d, d0, cptr, dst, cw, closed, g, done, size, extra);
    FullWordIs(g, cw);
    ArrayEnds(dest, d0, dst);
    StoreWord(dest, cptr, cw / 2 + 0x8000_0000);
    ghost var e := dest[..];
    GroupDone(d, e, d0, cptr, dst, cw, closed, g, done, size, extra, extra');
    LaterUnchanged(e, d, cptr + 4, dst);
    EarlierUnchanged(e, d, d0, cptr);
    ArrayEnds(dest, d0, dst);
  }

  lemma FirstInsert(t: Table, w: seq<byte>, s: nat)
    requires s + 3 <= |w|
    ensures InsertRange(t, w, s, s + 1) == Insert(t, w, s)
  {
    hide Insert;
  }

  /** Finds the token for position `s` and enters the positions it covers into the table. */
  method Choose(st: CompressState, win: array<byte>, ghost w: seq<byte>, s: nat, end: nat)
    returns (offset: nat, len: nat, ghost r: Token)
    requires st.Valid() && win != st.counts && s + 11 <= end == |w| && w <= win[..] && Before(st.View(), s)
    modifies st.slots, st.counts
    ensures r == NextToken(old(st.View()), w, s)
    ensures if len > 2 then r == Match(offset, len) else r == Literal(w[s])
    ensures st.View() == InsertRange(old(st.View()), w, s, s + Span(r)) && Before(st.View(), s + Span(r))
  {
    hide Search, Before, Found, Insert, InsertRange, Same3, MatchLength;
    ghost var t := st.View();
    r := NextToken(t, w, s);
    InsertRangeBefore(t, w, s, s + Span(r));
    var o;
    o, len := st.FindMatch(win, s, end, w);
    st.InsertAt(win, s, w);
    FirstInsert(t, w, s);
    if len > 2 && s - o < 131071 {
      offset := s - o;
      st.InsertFrom(win, s, s + 1, s + len, w, t);
    } else {
      offset, len := 0, 0;
    }
  }

  method WriteToken(dest: array<byte>, ghost d0: nat, ghost cptr: nat, dst0: nat, cw0: nat, ghost closed: seq<Token>,
                    ghost g: seq<Token>, ghost done: nat, ghost size: nat, offset: nat, len: nat, b: byte,
                        ghost r: Token)
    returns (dst: nat, cw: nat)
    requires Going(dest[..], d0, cptr, dst0, cw0, closed, g, done, size, 0) && |g| < 31 && done + Span(r) <= size
    requires if len > 2 then Encodable(offset, len) && r == Match(offset, len) else r == Literal(b)
    modifies dest
    ensures Going(dest[..], d0, cptr, dst, cw, closed, g + [r], done + Span(r), size, 0)
    ensures dest[..d0] == old(dest[..d0])
    ensures forall i :: d0 + size + size / 8 + 12 <= i < dest.Length ==> dest[i] == old(dest[i])
  {
    hide Emit, Body, Flags, Spans, Acc, MatchWord;
    ghost var d := dest[..];
    GoingRoom(d, d0, cptr, dst0, cw0, closed, g, done, size, 0);
    if len > 2 {
      var n := WriteMatch(dest, dst0, offset, len);
      assert dest[..][dst0..dst0 + n] == dest[dst0..dst0 + n];
      dst, cw := dst0 + n, cw0 / 2 + 0x8000_0000;
      assert forall i :: dst0 + 4 <= i < dest.Length ==> dest[i] == dest[dst0 + 4..][i - (dst0 + 4)];
    } else {
      dest[dst0] := b;
      dst, cw := dst0 + 1, cw0 / 2;
    }
    assert dest[..][..dst0] == d[..dst0];
    GoingPush(d, dest[..], d0, cptr, dst0, cw0, closed, g, done, size, 0, r);
    assert dest[..d0] == dest[..][..dst0][..d0];
  }

  lemma RunUnfolds(w: seq<byte>, start: nat, s: nat, t: Table, toks: seq<Token>)
    requires start <= s && s + 11 <= |w|
    ensures Run(w, start, s, t, toks) ==
            if Stops(start, s, |w|, toks) then GaveUp(t)
            else var r := NextToken(t, w, s);
                 Run(w, start, s + Span(r), InsertRange(t, w, s, s + Span(r)), toks + [r])
  {
    hide Stops, NextToken, InsertRange;
  }

  /** The loop tests the ratio exactly when the specification does, on the same numbers. */
  lemma AtBoundary(d: seq<byte>, d0: nat, cptr: nat, dst: nat, cw: nat, closed: seq<Token>, g: seq<Token>,
                   s: nat, start: nat, size: nat)
    requires start <= s <= start + size && (g == [] ==> closed == [])
    requires Going(d, d0, cptr, dst, cw, closed, g, s - start, size, 0)
    ensures d0 <= dst
    ensures Stops(start, s, start + size, closed + g) <==>
      cw % 2 == 1 && s - start > size / 2 && dst - d0 > s - start - (s - start) / 32
    ensures |g| == 31 && !Stops(start, s, start + size, closed + g) ==> |Emit(closed + g, 0)| <= s - start + size / 8
  {
    hide Emit, Body, Spans, Acc;
    GoingRoom(d, d0, cptr, dst, cw, closed, g, s - start, size, 0);
    if |g| == 31 {
      SpansConcat(closed, g);
      if !TooLong(dst - d0, s - start, size) {
        ClosePaced(closed + g, s - start, size);
        PacedBound(|Emit(closed + g, 0)|, s - start, size);
      }
    }
  }

  /** Positions that may start a match; stops early when the output is too long. */
  method MainLoop(st: CompressState, win: array<byte>, ghost w: seq<byte>, start: nat, end: nat,
                  dest: array<byte>, d0: nat)
    returns (tooLong: bool, s: nat, cptr: nat, dst: nat, cw: nat, ghost closed: seq<Token>, ghost g: seq<Token>)
    requires st.Valid() && dest != win && dest != st.counts && win != st.counts
    requires start < end == |w| && w <= win[..] && Before(st.View(), start)
    requires d0 + (end - start) + (end - start) / 8 + 12 <= dest.Length
    modifies dest, st.slots, st.counts
    ensures var r := Run(w, start, start, old(st.View()), []);
      if tooLong then r == GaveUp(st.View())
      else start <= s <= end < s + 11 && r == Run(w, start, s, st.View(), closed + g)
           && Going(dest[..], d0, cptr, dst, cw, closed, g, s - start, end - start, 0) && (g == [] ==> closed == [])
    ensures dest[..d0] == old(dest[..d0])
    ensures forall i :: d0 + (end - start) + (end - start) / 8 + 12 <= i < dest.Length ==> dest[i] == old(dest[i])
  {
    hide Emit, Body, Flags, Spans, Acc, Before, NextToken, InsertRange, Stops, Going, Run, TooLong;
    var size := end - start;
    tooLong, s, cptr, dst, cw := false, start, d0, d0 + 4, 0x8000_0000;
    closed, g := [], [];
    assert closed + g == [];
    StartGoing(dest[..], d0, size);
    while s + 11 <= end
      invariant start <= s <= end
      invariant Run(w, start, start, old(st.View()), []) == Run(w, start, s, st.View(), closed + g)
      invariant Before(st.View(), s)
      invariant Going(dest[..], d0, cptr, dst, cw, closed, g, s - start, size, 0)
      invariant g == [] ==> closed == []
      invariant dest[..d0] == old(dest[..d0])
      invariant forall i :: d0 + size + size / 8 + 12 <= i < dest.Length ==> dest[i] == old(dest[i])
    {
      GoingRoom(dest[..], d0, cptr, dst, cw, closed, g, s - start, size, 0);
      AtBoundary(dest[..], d0, cptr, dst, cw, closed, g, s, start, size);
      RunUnfolds(w, start, s, st.View(), closed + g);
      if cw % 2 == 1 {
        if s - start > size / 2 && dst - d0 > s - start - (s - start) / 32 {
          tooLong := true;
          return;
        }
        NextGroup(dest, d0, cptr, dst, cw, closed, g, s - start, size, 0, 0);
        cptr, dst, cw := dst, dst + 4, 0x8000_0000;
        closed, g := closed + g, [];
        assert closed + [] == closed;
      }
      Assoc(closed, g, [NextToken(st.View(), w, s)]);
      var offset, len;
      ghost var r;
      offset, len, r := Choose(st, win, w, s, end);
      dst, cw := WriteToken(dest, d0, cptr, dst, cw, closed, g, s - start, size, offset, len, win[s], r);
      s := s + (if len > 2 then len else 1);
      g := g + [r];
    }
  }

  lemma StartGoing(d: seq<byte>, d0: nat, size: nat)
    requires d0 + size + size / 8 + 12 <= |d|
    ensures Going(d, d0, d0, d0 + 4, 0x8000_0000, [], [], 0, size, 0)
  {
    AccStart();
    assert d[d0..d0] == [] && d[d0 + 4..d0 + 4] == [];
  }

  lemma NothingMore(d: seq<byte>, d0: nat, cptr: nat, dst: nat, cw: nat, closed: seq<Token>, g: seq<Token>,
                    done: nat, size: nat, extra: nat)
    requires Going(d, d0, cptr, dst, cw, closed, g, done, size, extra) && done > 0 && (g == [] ==> closed == [])
    ensures g != [] && cw == Acc(g)
  {
    hide Emit, Body, Spans, Acc;
    EmptySpans();
  }

  method WriteLiteral(dest: array<byte>, ghost d0: nat, ghost cptr: nat, dst: nat, ghost cw: nat,
                      ghost closed: seq<Token>, ghost g: seq<Token>, ghost done: nat, ghost size: nat, ghost extra: nat,
                      b: byte)
    requires Going(dest[..], d0, cptr, dst, cw, closed, g, done, size, extra) && |g| < 31 && done < size && extra <= 4
    modifies dest
    ensures Going(dest[..], d0, cptr, dst + 1, cw / 2, closed, g + [Literal(b)], done + 1, size, extra)
    ensures dest[..d0] == old(dest[..d0])
    ensures forall i :: d0 + size + size / 8 + 12 <= i < dest.Length ==> dest[i] == old(dest[i])
  {
    hide Emit, Body, Flags, Spans, Acc;
    GoingRoom(dest[..], d0, cptr, dst, cw, closed, g, done, size, extra);
    hide Going;
    ghost var d := dest[..];
    dest[dst] := b;
    assert dest[..][dst..dst + 1] == EncToken(Literal(b)) && dest[..][..dst] == d[..dst];
    GoingPush(d, dest[..], d0, cptr, dst, cw, closed, g, done, size, extra, Literal(b));
  }

  /** The last bytes, which are never part of a match. */
  method TailLoop(win: array<byte>, ghost w: seq<byte>, ghost start: nat, end: nat, ghost t: Table, dest: array<byte>,
                  ghost d0: nat, s0: nat, cptr0: nat, dst0: nat, cw0: nat, ghost closed0: seq<Token>,
                      ghost g0: seq<Token>)
    returns (cptr: nat, dst: nat, cw: nat, ghost closed: seq<Token>, ghost g: seq<Token>, ghost extra: nat)
    requires dest != win && w <= win[..] && start <= s0 <= end == |w| < s0 + 11
    requires Going(dest[..], d0, cptr0, dst0, cw0, closed0, g0, s0 - start, end - start, 0)
        && (g0 == [] ==> closed0 == [])
    modifies dest
    ensures Run(w, start, s0, t, closed0 + g0) == Packed(closed + g, t) && extra <= 4 && (g == [] ==> closed == [])
    ensures Going(dest[..], d0, cptr, dst, cw, closed, g, end - start, end - start, extra)
    ensures dest[..d0] == old(dest[..d0])
    ensures forall i :: d0 + (end - start) + (end - start) / 8 + 12 <= i < dest.Length ==> dest[i] == old(dest[i])
  {
    hide Emit, Body, Flags, Spans, Acc, Going;
    ghost var size := end - start;
    var s := s0;
    cptr, dst, cw := cptr0, dst0, cw0;
    closed, g, extra := closed0, g0, 0;
    GoingRoom(dest[..], d0, cptr, dst, cw, closed, g, s - start, size, extra);
    while s < end
      invariant s0 <= s <= end
      invariant Run(w, start, s0, t, closed0 + g0) == Run(w, start, s, t, closed + g)
      invariant Going(dest[..], d0, cptr, dst, cw, closed, g, s - start, size, extra)
      invariant (extra == 0 || (extra == 4 && |g| + (end - s) <= 10)) && (g == [] ==> closed == [])
      invariant dest[..d0] == old(dest[..d0])
      invariant forall i :: d0 + size + size / 8 + 12 <= i < dest.Length ==> dest[i] == old(dest[i])
    {
      GoingRoom(dest[..], d0, cptr, dst, cw, closed, g, s - start, size, extra);
      if cw % 2 == 1 {
        NextGroup(dest, d0, cptr, dst, cw, closed, g, s - start, size, extra, 4);
        cptr, dst, cw := dst, dst + 4, 0x8000_0000;
        closed, g, extra := closed + g, [], 4;
        assert closed + [] == closed;
        GoingRoom(dest[..], d0, cptr, dst, cw, closed, g, s - start, size, extra);
      }
      Assoc(closed, g, [Literal(win[s])]);
      WriteLiteral(dest, d0, cptr, dst, cw, closed, g, s - start, size, extra, win[s]);
      g := g + [Literal(win[s])];
      s := s + 1;
      dst := dst + 1;
      cw := cw / 2;
    }
  }

  /** Shifts the sentinel of a group that need not be full down to bit 0 and makes the word to write. */
  method ShiftOut(cw0: nat, ghost g: seq<Token>) returns (word: ui32)
    requires |g| <= 31 && cw0 == Acc(g)
    ensures word == FullWord(g)
  {
    hide Flags, FullWord;
    var cw := cw0;
    ghost var k: nat := 31 - |g|;
    AccShift(k, 1 + 2 * Flags(g));
    while cw % 2 != 1
      invariant k <= 31 - |g| && cw == Pow2(k) * (1 + 2 * Flags(g))
      invariant cw % 2 == (if k == 0 then 1 else 0)
      decreases k
    {
      AccShift(k, 1 + 2 * Flags(g));
      cw := cw / 2;
      k := k - 1;
      AccShift(k, 1 + 2 * Flags(g));
    }
    AccToWord(g, k);
    word := cw / 2 + 0x8000_0000;
  }

  method LastWord(dest: array<byte>, ghost d0: nat, cptr: nat, ghost dst: nat, cw0: nat, ghost closed: seq<Token>,
                  ghost g: seq<Token>, ghost size: nat, ghost extra: nat)
    requires Going(dest[..], d0, cptr, dst, cw0, closed, g, size, size, extra) && size > 0 && (g == [] ==> closed == [])
    modifies dest
    ensures d0 <= dst <= dest.Length && dest[d0..dst] == Emit(closed + g, 0)
    ensures dest[..d0] == old(dest[..d0]) && dest[dst..] == old(dest[dst..])
  {
    hide Emit, Body, Flags, Spans;
    ghost var d := dest[..];
    GoingRoom(d, d0, cptr, dst, cw0, closed, g, size, size, extra);
    NothingMore(d, d0, cptr, dst, cw0, closed, g, size, size, extra);
    var cw := ShiftOut(cw0, g);
    FastWrite(dest, cptr, cw, 4);
    assert dest[..][..cptr] == dest[..cptr] && dest[..][cptr + 4..] == dest[cptr + 4..];
    assert dest[..][cptr..cptr + 4] == dest[cptr..cptr + 4] && dest[..][d0..dst] == dest[d0..dst];
    CloseGroup(d, dest[..], d0, cptr, dst, closed, g);
    assert dest[dst..] == dest[cptr + 4..][dst - (cptr + 4)..] && dest[..d0] == dest[..cptr][..d0];
  }

  /** Compresses `win[start..end]`, whose history is `win[..start]`, to `dest[d0..]`. Zero means given up;
      otherwise the length, at least 9. Everything it writes stays within size + size/8 + 12 bytes. */
  method CompressCore(st: CompressState, win: array<byte>, start: nat, size: nat, dest: array<byte>, d0: nat)
    returns (r: nat)
    requires st.Valid() && dest != win && dest != st.counts && win != st.counts
    requires 0 < size && start + size <= win.Length && Before(st.View(), start)
    requires d0 + size + size / 8 + 12 <= dest.Length
    modifies dest, st.slots, st.counts
    ensures var w := old(win[..start + size]);
      match Run(w, start, start, old(st.View()), [])
      case GaveUp(t) => r == 0 && st.View() == t
      case Packed(toks, t) =>
        && st.View() == t && r == Max(9, |Emit(toks, 0)|)
        && d0 + |Emit(toks, 0)| <= dest.Length && dest[d0..d0 + |Emit(toks, 0)|] == Emit(toks, 0)
    ensures dest[..d0] == old(dest[..d0])
    ensures forall i :: d0 + size + size / 8 + 12 <= i < dest.Length ==> dest[i] == old(dest[i])
  {
    hide Emit, Body, Flags, Spans, Acc, Before, Run;
    var end := start + size;
    ghost var w := win[..end];
    var tooLong, s, cptr, dst, cw;
    ghost var closed, g, extra;
    tooLong, s, cptr, dst, cw, closed, g := MainLoop(st, win, w, start, end, dest, d0);
    if tooLong { return 0; }
    cptr, dst, cw, closed, g, extra := TailLoop(win, w, start, end, st.View(), dest, d0, s, cptr, dst, cw, closed, g);
    GoingRoom(dest[..], d0, cptr, dst, cw, closed, g, size, size, extra);
    ghost var d := dest[..];
    LastWord(dest, d0, cptr, dst, cw, closed, g, size, extra);
    assert forall i :: dst <= i < dest.Length ==> dest[i] == dest[dst..][i - dst] && d[i] == d[dst..][i - dst];
    r := Max(9, dst - d0);
  }
}
