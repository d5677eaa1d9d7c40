/** What the compressor decides: the search for a match, the tokens it emits and when it gives up. */
module Matcher {
  import opened Bytes
  import opened Tokens
  import opened ControlWord
  import opened HashTable

  // ---- one search ----

  predicate Same3(w: seq<byte>, o: nat, s: nat)
    requires o + 3 <= |w| && s + 3 <= |w|
  {
    w[o] == w[s] && w[o + 1] == w[s + 1] && w[o + 2] == w[s + 2]
  }

  /** Length of the common run of `w[o..]` and `w[s..]`, at least `m` and at most `cap`. */
  function Extend(w: seq<byte>, o: nat, s: nat, m: nat, cap: nat): (r: nat)
    requires o <= s && m <= cap && s + cap <= |w|
    ensures m <= r <= cap
    ensures forall j :: s + m <= j < s + r ==> w[j] == w[j - (s - o)]
    ensures r < cap ==> w[o + r] != w[s + r]
    decreases cap - m
  {
    if m < cap && w[o + m] == w[s + m] then Extend(w, o, s, m + 1, cap) else m
  }

  /** A slot is usable when it lies at least three back and its first three bytes agree. */
  predicate Usable(w: seq<byte>, o: nat, s: nat)
    requires s + 3 <= |w|
  {
    o + 3 <= s && Same3(w, o, s)
  }

  datatype Best = Best(pos: nat, len: nat)

  function MatchLength(w: seq<byte>, o: nat, s: nat, cap: nat): nat
    requires o <= s && 3 <= cap && s + cap <= |w|
  {
    Extend(w, o, s, 3, cap)
  }

  /** Longer wins; of equally long matches the nearer one wins. */
  predicate NoBetter(pos: nat, len: nat, b: Best)
  {
    len < b.len || (len == b.len && pos <= b.pos)
  }

  ghost predicate Found(w: seq<byte>, s: nat, cap: nat, b: Best)
    requires 3 <= cap && s + cap <= |w|
  {
    b.len == 0 || (3 <= b.len <= cap && b.pos + 3 <= s && Same3(w, b.pos, s) && b.len == MatchLength(w, b.pos, s, cap))
  }

  ghost function Improve(w: seq<byte>, s: nat, cap: nat, b: Best, o: nat): (r: Best)
    requires 3 <= cap && s + cap <= |w|
    ensures Found(w, s, cap, b) ==> Found(w, s, cap, r)
    ensures r == b || r.pos == o
  {
    if Usable(w, o, s) && !NoBetter(o, MatchLength(w, o, s, cap), b) then Best(o, MatchLength(w, o, s, cap)) else b
  }

  /** The best of the first `k` slots of a bucket. */
  ghost function Search(t: Table, w: seq<byte>, s: nat, cap: nat, h: nat, k: nat): (b: Best)
    requires h < BUCKETS && k <= POINTERS && 3 <= cap && s + cap <= |w|
    ensures Found(w, s, cap, b)
  {
    if k == 0 then Best(0, 0) else Improve(w, s, cap, Search(t, w, s, cap, h, k - 1), Slot(t, h, k - 1))
  }

  lemma NoBetterThan(w: seq<byte>, p: nat, s: nat, cap: nat, b: Best, b': Best, o: nat, last: bool)
    requires 3 <= cap && s + cap <= |w| && Usable(w, p, s)
    requires if last then p == o else b.len > 0 && NoBetter(p, MatchLength(w, p, s, cap), b)
    requires b' == Improve(w, s, cap, b, o)
    ensures b'.len > 0 && NoBetter(p, MatchLength(w, p, s, cap), b')
  {
  }

  /** The search finds a longest match among the slots it looks at, and of those the nearest. */
  lemma {:induction false} SearchIsBest(t: Table, w: seq<byte>, s: nat, cap: nat, h: nat, k: nat)
    requires h < BUCKETS && k <= POINTERS && 3 <= cap && s + cap <= |w|
    ensures var b := Search(t, w, s, cap, h, k);
      && (b.len > 0 ==> exists i :: 0 <= i < k && Slot(t, h, i) == b.pos)
      && forall i :: 0 <= i < k && Usable(w, Slot(t, h, i), s) ==>
           b.len > 0 && NoBetter(Slot(t, h, i), MatchLength(w, Slot(t, h, i), s, cap), b)
  {
    if k > 0 {
      hide MatchLength, Usable, NoBetter, Improve, Found, Slot;
      SearchIsBest(t, w, s, cap, h, k - 1);
      var b', b := Search(t, w, s, cap, h, k - 1), Search(t, w, s, cap, h, k);
      if b != b' { assert Slot(t, h, k - 1) == b.pos; }
      forall i | 0 <= i < k && Usable(w, Slot(t, h, i), s)
        ensures b.len > 0 && NoBetter(Slot(t, h, i), MatchLength(w, Slot(t, h, i), s, cap), b)
      {
        NoBetterThan(w, Slot(t, h, i), s, cap, b', b, Slot(t, h, k - 1), i == k - 1);
      }
    }
  }

  function Cap(s: nat, end: nat): nat
    requires s + 11 <= end
  {
    Min(255, end - 4 - s)
  }

  ghost function FindBest(t: Table, w: seq<byte>, s: nat): (b: Best)
    requires s + 11 <= |w|
    ensures b.len == 0 || (3 <= b.len <= 255 && s + b.len + 4 <= |w| && b.pos + 3 <= s && Same3(w, b.pos, s)
                           && b.len == MatchLength(w, b.pos, s, Cap(s, |w|)))
  {
    var h := HashAt(w, s);
    Search(t, w, s, Cap(s, |w|), h, Trusted(t, h))
  }

  /** The token for position `s`. A longest match too far back to encode is dropped for a literal. */
  ghost function NextToken(t: Table, w: seq<byte>, s: nat): (r: Token)
    requires s + 11 <= |w|
    ensures r.Match? ==> s + r.len + 4 <= |w|
    ensures s + Span(r) + 2 <= |w|
  {
    var b := FindBest(t, w, s);
    if b.len > 2 && s - b.pos < 131071 then Match(s - b.pos, b.len) else Literal(w[s])
  }

  lemma MatchCopies(w: seq<byte>, o: nat, s: nat, cap: nat)
    requires o + 3 <= s && 3 <= cap && s + cap <= |w| && Same3(w, o, s)
    ensures var len := MatchLength(w, o, s, cap);
            CopyMatch(w[..s], s - o, len) == w[..s + len]
  {
    var len := MatchLength(w, o, s, cap);
    var r := w[..s + len];
    assert forall j :: s <= j < |r| ==> r[j] == r[j - (s - o)];
    CopyMatchUnique(w[..s], s - o, len, r);
  }

  /** A token says what stands in the window. */
  lemma NextTokenExpands(t: Table, w: seq<byte>, s: nat)
    requires s + 11 <= |w|
    ensures var r := NextToken(t, w, s);
            LegalToken(r, s, |w|) && Apply(w[..s], r) == w[..s + Span(r)]
  {
    hide Search, CopyMatch, Extend;
    var r, b := NextToken(t, w, s), FindBest(t, w, s);
    if r.Match? {
      MatchCopies(w, b.pos, s, Cap(s, |w|));
    } else {
      assert w[..s] + [w[s]] == w[..s + 1];
    }
  }

  // ---- the whole run ----

  datatype Result = Packed(toks: seq<Token>, table: Table) | GaveUp(table: Table)

  /** The ratio test: past the middle, more written than consumed less a 32nd. */
  predicate TooLong(written: nat, done: nat, size: nat)
  {
    done > size / 2 && written > done - done / 32
  }

  ghost predicate Stops(start: nat, s: nat, end: nat, toks: seq<Token>)
    requires start <= s <= end
  {
    toks != [] && |toks| % 31 == 0 && TooLong(|Emit(toks, 0)|, s - start, end - start)
  }

  /** The run from position `s` on, with `toks` already emitted for `w[start..s]`. */
  ghost function Run(w: seq<byte>, start: nat, s: nat, t: Table, toks: seq<Token>): Result
    requires start <= s <= |w|
    decreases |w| - s
  {
    if s + 11 <= |w| then
      if Stops(start, s, |w|, toks) then GaveUp(t)
      else
        var r := NextToken(t, w, s);
        Run(w, start, s + Span(r), InsertRange(t, w, s, s + Span(r)), toks + [r])
    else if s < |w| then Run(w, start, s + 1, t, toks + [Literal(w[s])])
    else Packed(toks, t)
  }

  lemma SoundCons(w: seq<byte>, s: nat, r: Token, all: seq<Token>, i: nat)
    requires i < |all| && all[i] == r && s + Span(r) <= |w|
    requires LegalToken(r, s, |w|) && Apply(w[..s], r) == w[..s + Span(r)]
    requires Legal(all[i + 1..], s + Span(r), |w|) && Expand(w[..s + Span(r)], all[i + 1..]) == w
    ensures Legal(all[i..], s, |w|) && Expand(w[..s], all[i..]) == w
  {
    assert all[i..][0] == r && all[i..][1..] == all[i + 1..];
  }

  /** Whatever a run emits from `s` on is legal there and expands to the rest of the window. */
  lemma {:induction false} RunSound(w: seq<byte>, start: nat, s: nat, t: Table, toks: seq<Token>)
    requires start <= s <= |w| && Run(w, start, s, t, toks).Packed?
    ensures var all := Run(w, start, s, t, toks).toks;
            toks <= all && Legal(all[|toks|..], s, |w|) && Expand(w[..s], all[|toks|..]) == w
    decreases |w| - s
  {
    hide NextToken, InsertRange, Stops, LegalToken, Apply;
    var all := Run(w, start, s, t, toks).toks;
    if s + 11 <= |w| {
      var r := NextToken(t, w, s);
      NextTokenExpands(t, w, s);
      RunSound(w, start, s + Span(r), InsertRange(t, w, s, s + Span(r)), toks + [r]);
      SoundCons(w, s, r, all, |toks|);
    } else if s < |w| {
      var r := Literal(w[s]);
      RunSound(w, start, s + 1, t, toks + [r]);
      LiteralSound(w, s);
      SoundCons(w, s, r, all, |toks|);
    } else {
      assert w[..s] == w && all[|toks|..] == [];
    }
  }

  lemma LiteralSound(w: seq<byte>, s: nat)
    requires s < |w|
    ensures LegalToken(Literal(w[s]), s, |w|) && Apply(w[..s], Literal(w[s])) == w[..s + 1]
  {
  }

  /** A run keeps the table's positions in front of the window's end. */
  lemma {:induction false} RunBefore(w: seq<byte>, start: nat, s: nat, t: Table, toks: seq<Token>)
    requires start <= s <= |w| && Before(t, s)
    ensures Before(Run(w, start, s, t, toks).table, |w|)
    decreases |w| - s
  {
    hide NextToken, InsertRange, Stops;
    if s + 11 <= |w| && !Stops(start, s, |w|, toks) {
      var r := NextToken(t, w, s);
      InsertRangeBefore(t, w, s, s + Span(r));
      RunBefore(w, start, s + Span(r), InsertRange(t, w, s, s + Span(r)), toks + [r]);
    } else if |w| < s + 11 && s < |w| {
      RunBefore(w, start, s + 1, t, toks + [Literal(w[s])]);
    }
  }

  // ---- what is chosen, in terms of the insertions since the last reset ----

  /** The `n` bytes at `s` stand at `o` as well, at least three back, within the limits of a match: 3 to 255 bytes,
      and four left to the end. */
  ghost predicate Copies(w: seq<byte>, s: nat, o: nat, n: nat)
  {
    3 <= n <= 255 && o + 3 <= s && s + n + 4 <= |w| && w[o..o + n] == w[s..s + n]
  }

  /** Of all there is to copy from `q`, these are the most bytes, and of equally many the nearest. */
  ghost predicate Longest(w: seq<byte>, s: nat, q: seq<nat>, o: nat, n: nat)
  {
    && o in q && Copies(w, s, o, n)
    && forall p, m: nat :: p in q && Copies(w, s, p, m) ==> m < n || (m == n && p <= o)
  }

  /** The token for `s` is the longest and nearest copy from `q`; a literal when there is none or it is too far back. */
  ghost predicate Chooses(w: seq<byte>, s: nat, q: seq<nat>, r: Token)
    requires s < |w|
  {
    match r
    case Match(offset, len) => offset <= s && offset < 131071 && Longest(w, s, q, s - offset, len)
    case Literal(value) =>
      value == w[s] && ((forall p, n: nat :: p in q ==> !Copies(w, s, p, n))
                        || exists p, n: nat :: Longest(w, s, q, p, n) && s - p >= 131071)
  }

  lemma SameBytes(w: seq<byte>, s: nat, o: nat, n: nat)
    requires o <= s && s + n <= |w|
    ensures w[o..o + n] == w[s..s + n] <==> forall j :: s <= j < s + n ==> w[j] == w[j - (s - o)]
  {
    var x, y := w[o..o + n], w[s..s + n];
    if x == y {
      forall j | s <= j < s + n
        ensures w[j] == w[j - (s - o)]
      {
        assert x[j - s] == y[j - s];
      }
    }
    if forall j :: s <= j < s + n ==> w[j] == w[j - (s - o)] {
      forall i | 0 <= i < n
        ensures x[i] == y[i]
      {
        assert w[s + i] == w[s + i - (s - o)];
      }
    }
  }

  /** The common run is what agrees, up to the limit. */
  lemma RunOfEquals(w: seq<byte>, s: nat, o: nat, n: nat, cap: nat)
    requires o <= s && 3 <= n <= cap && s + cap <= |w|
    ensures (forall j :: s <= j < s + n ==> w[j] == w[j - (s - o)])
      <==> Same3(w, o, s) && n <= MatchLength(w, o, s, cap)
  {
    if forall j :: s <= j < s + n ==> w[j] == w[j - (s - o)] {
      assert w[s] == w[s - (s - o)] && w[s + 1] == w[s + 1 - (s - o)] && w[s + 2] == w[s + 2 - (s - o)];
    }
  }

  /** The search's own notions: a slot can be used for so many bytes exactly when that many can be copied. */
  lemma CopiesExactly(w: seq<byte>, s: nat, o: nat, n: nat)
    requires s + 11 <= |w|
    ensures Copies(w, s, o, n) <==> Usable(w, o, s) && 3 <= n <= MatchLength(w, o, s, Cap(s, |w|))
  {
    if o + 3 <= s && 3 <= n <= Cap(s, |w|) {
      SameBytes(w, s, o, n);
      RunOfEquals(w, s, o, n, Cap(s, |w|));
      hide Same3, Extend;
    } else if o + 3 <= s {
      hide Same3;
    }
  }

  lemma RunEnds(w: seq<byte>, s: nat, o: nat, len: nat)
    requires s + 11 <= |w| && o <= s && len == MatchLength(w, o, s, Cap(s, |w|))
    ensures len == 255 || s + len + 4 == |w| || (s + len < |w| && w[s + len] != w[o + len])
  {
    hide Extend;
  }

  /** What the search finds ends because it is as long as a match can be, or four bytes are left, or the next bytes
      differ. */
  lemma BestEnds(t: Table, w: seq<byte>, s: nat)
    requires s + 11 <= |w| && FindBest(t, w, s).len > 0
    ensures var b := FindBest(t, w, s);
      && Copies(w, s, b.pos, b.len)
      && (b.len == 255 || s + b.len + 4 == |w| || w[s + b.len] != w[b.pos + b.len])
  {
    hide Search, Copies, Extend, MatchLength, Same3;
    var b := FindBest(t, w, s);
    CopiesExactly(w, s, b.pos, b.len);
    RunEnds(w, s, b.pos, b.len);
  }

  /** So does every match that is emitted. */
  lemma MatchEnds(t: Table, w: seq<byte>, s: nat)
    requires s + 11 <= |w| && NextToken(t, w, s).Match?
    ensures var r := NextToken(t, w, s);
      && Copies(w, s, s - r.offset, r.len) && r.offset < 131071
      && (r.len == 255 || s + r.len + 4 == |w| || w[s + r.len] != w[s + r.len - r.offset])
  {
    hide Search, Copies, Extend, MatchLength, Same3;
    BestEnds(t, w, s);
    assert FindBest(t, w, s) == Best(s - NextToken(t, w, s).offset, NextToken(t, w, s).len);
    hide NextToken, FindBest;
  }

  lemma LongestOnce(w: seq<byte>, s: nat, q: seq<nat>, o: nat, n: nat, p: nat, m: nat)
    requires Longest(w, s, q, o, n) && Longest(w, s, q, p, m)
    ensures o == p && n == m
  {
    hide Copies;
  }

  /** The choice is unique. */
  lemma ChoosesOne(w: seq<byte>, s: nat, q: seq<nat>, r: Token, r': Token)
    requires s < |w| && Chooses(w, s, q, r) && Chooses(w, s, q, r')
    ensures r == r'
  {
    forall o: nat, n: nat, p: nat, m: nat | Longest(w, s, q, o, n) && Longest(w, s, q, p, m)
      ensures o == p && n == m
    {
      LongestOnce(w, s, q, o, n, p, m);
    }
    assert forall o: nat, n: nat :: Longest(w, s, q, o, n) ==> o in q && Copies(w, s, o, n);
    hide Longest, Copies;
  }

  lemma NoMoreThanBest(w: seq<byte>, s: nat, p: nat, m: nat, b: Best)
    requires s + 11 <= |w| && Copies(w, s, p, m)
    requires Usable(w, p, s) ==> NoBetter(p, MatchLength(w, p, s, Cap(s, |w|)), b)
    ensures m < b.len || (m == b.len && p <= b.pos)
  {
    CopiesExactly(w, s, p, m);
    hide Copies, MatchLength, Usable, Cap;
  }

  /** The search finds the longest and nearest copy from the recent insertions, or nothing when there is none. */
  lemma BestIsRecent(w: seq<byte>, s: nat, t0: Table, log: Log)
    requires s + 11 <= |w| && forall e <- log :: e.0 < BUCKETS
    ensures var q, b := Recent(log, HashAt(w, s)), FindBest(Replay(t0, log), w, s);
      if b.len > 0 then Longest(w, s, q, b.pos, b.len) else forall p, n: nat :: p in q ==> !Copies(w, s, p, n)
  {
    var t, h, cap := Replay(t0, log), HashAt(w, s), Cap(s, |w|);
    var q, n := Recent(log, h), Trusted(t, h);
    var b := FindBest(t, w, s);
    SearchIsBest(t, w, s, cap, h, n);
    if b.len > 0 { CopiesExactly(w, s, b.pos, b.len); }
    hide Search, MatchLength, NoBetter, Recent, Replay, HashAt, Trusted, Slot, Usable, Cap, Copies;
    forall p, m: nat | p in q && Copies(w, s, p, m)
      ensures b.len > 0 && (m < b.len || (m == b.len && p <= b.pos))
    {
      CopiesExactly(w, s, p, m);
      TrustedAreRecent(t0, log, h, p);
      NoMoreThanBest(w, s, p, m, b);
    }
    if b.len > 0 { TrustedAreRecent(t0, log, h, b.pos); }
  }

  lemma TokenChooses(w: seq<byte>, s: nat, t0: Table, log: Log)
    requires s + 11 <= |w| && forall e <- log :: e.0 < BUCKETS
    ensures Chooses(w, s, Recent(log, HashAt(w, s)), NextToken(Replay(t0, log), w, s))
  {
    BestIsRecent(w, s, t0, log);
    hide FindBest, MatchLength, Recent, Replay, HashAt, Longest, Copies;
  }

  /** Every token of a run, seen with the insertions at that point. */
  ghost predicate AllChosen(w: seq<byte>, s: nat, log: Log, toks: seq<Token>)
    decreases |toks|
  {
    if |w| < s + 11 then forall r <- toks :: r.Literal?
    else
      && toks != [] && s + Span(toks[0]) + 2 <= |w| && Chooses(w, s, Recent(log, HashAt(w, s)), toks[0])
      && AllChosen(w, s + Span(toks[0]), log + Entries(w, s, s + Span(toks[0])), toks[1..])
  }

  lemma ChosenCons(w: seq<byte>, s: nat, log: Log, r: Token, all: seq<Token>, i: nat)
    requires s + 11 <= |w| && i < |all| && all[i] == r && s + Span(r) + 2 <= |w|
    requires Chooses(w, s, Recent(log, HashAt(w, s)), r)
    requires AllChosen(w, s + Span(r), log + Entries(w, s, s + Span(r)), all[i + 1..])
    ensures AllChosen(w, s, log, all[i..])
  {
    hide Chooses, Entries, Recent, HashAt;
    assert all[i..][0] == r && all[i..][1..] == all[i + 1..];
  }

  /** All a run does to the table is to enter the positions it passes, in order, all of them up to less than 11 bytes
      from the end when it completes; and every match it emits is the longest among the most recent insertions under
      the same three bytes' hash, the nearest of equals. */
  lemma {:induction false} RunChooses(w: seq<byte>, start: nat, s: nat, t0: Table, log: Log, toks: seq<Token>)
    returns (e: nat)
    requires start <= s <= |w| && forall l <- log :: l.0 < BUCKETS
    ensures s <= e && (s < e ==> e + 2 <= |w|)
    ensures var r := Run(w, start, s, Replay(t0, log), toks);
      && r.table == Replay(t0, if s < e then log + Entries(w, s, e) else log)
      && (r.Packed? ==> |w| < e + 11 && toks <= r.toks && AllChosen(w, s, log, r.toks[|toks|..]))
    decreases |w| - s
  {
    hide NextToken, InsertRange, Stops, Replay, Chooses, Recent, Entries, HashAt;
    var t := Replay(t0, log);
    e := s;
    if s + 11 <= |w| {
      if !Stops(start, s, |w|, toks) {
        var r := NextToken(t, w, s);
        var u := s + Span(r);
        var more := Entries(w, s, u);
        TokenChooses(w, s, t0, log);
        RangeReplays(t0, log, w, s, u);
        e := RunChooses(w, start, u, t0, log + more, toks + [r]);
        var all := Run(w, start, s, t, toks);
        if u < e {
          EntriesJoin(w, s, u, e);
          Assoc(log, more, Entries(w, u, e));
        } else {
          e := u;
        }
        if all.Packed? { ChosenCons(w, s, log, r, all.toks, |toks|); }
      }
    } else {
      RunTail(w, start, s, t, toks);
      TailLiteral(w, start, s, t, toks);
    }
  }

  lemma {:induction false} EntriesJoin(w: seq<byte>, a: nat, b: nat, c: nat)
    requires a <= b <= c && c + 2 <= |w|
    ensures Entries(w, a, c) == Entries(w, a, b) + Entries(w, b, c)
    decreases c
  {
    hide HashAt, EntryOf;
    if b < c {
      EntriesJoin(w, a, b, c - 1);
      Assoc(Entries(w, a, b), Entries(w, b, c - 1), [(HashAt(w, c - 1), c - 1)]);
    } else {
      assert Entries(w, a, b) + [] == Entries(w, a, b);
    }
  }

  lemma {:induction false} TailLiteral(w: seq<byte>, start: nat, s: nat, t: Table, toks: seq<Token>)
    requires start <= s <= |w| < s + 11
    ensures Run(w, start, s, t, toks).Packed? && toks <= Run(w, start, s, t, toks).toks
    ensures forall r <- Run(w, start, s, t, toks).toks[|toks|..] :: r.Literal?
    decreases |w| - s
  {
    if s < |w| {
      var x := toks + [Literal(w[s])];
      TailLiteral(w, start, s + 1, t, x);
      var all := Run(w, start, s + 1, t, x).toks;
      assert all[|toks|..] == [all[|toks|]] + all[|x|..];
    }
  }

  // ---- when a run gives up ----

  /** The first tokens for `w[s..]`, each chosen among the insertions at its point, none too close to the end. */
  ghost predicate ChosenSoFar(w: seq<byte>, s: nat, log: Log, toks: seq<Token>)
    decreases |toks|
  {
    toks == [] ||
    (&& s + 11 <= |w| && s + Span(toks[0]) + 2 <= |w| && Chooses(w, s, Recent(log, HashAt(w, s)), toks[0])
     && ChosenSoFar(w, s + Span(toks[0]), log + Entries(w, s, s + Span(toks[0])), toks[1..]))
  }

  /** Closed groups past the middle of a message of `size` bytes, and at least 11 from its end, whose encoding saves
      less than a 32nd. */
  predicate Inflates(g: seq<Token>, size: nat)
  {
    && g != [] && |g| % 31 == 0 && size / 2 < Spans(g) <= size - 11
    && |Emit(g, 0)| + Spans(g) / 32 > Spans(g)
  }

  lemma SoFarCons(w: seq<byte>, s: nat, log: Log, r: Token, g: seq<Token>)
    requires s + 11 <= |w| && s + Span(r) + 2 <= |w| && Chooses(w, s, Recent(log, HashAt(w, s)), r)
    requires ChosenSoFar(w, s + Span(r), log + Entries(w, s, s + Span(r)), g)
    ensures ChosenSoFar(w, s, log, [r] + g)
  {
    hide Chooses, Entries, Recent, HashAt;
    assert ([r] + g)[1..] == g;
  }

  lemma StopsInflates(start: nat, s: nat, end: nat, toks: seq<Token>)
    requires start <= s && s + 11 <= end && Spans(toks) == s - start
    ensures Stops(start, s, end, toks) <==> Inflates(toks, end - start)
  {
    hide Emit, Spans;
  }

  /** A run that gives up has just closed such groups. */
  lemma {:induction false} RunGivesUp(w: seq<byte>, start: nat, s: nat, t0: Table, log: Log, toks: seq<Token>)
    returns (g: seq<Token>)
    requires start <= s <= |w| && Spans(toks) == s - start && forall l <- log :: l.0 < BUCKETS
    requires Run(w, start, s, Replay(t0, log), toks).GaveUp?
    ensures ChosenSoFar(w, s, log, g) && Inflates(toks + g, |w| - start)
    decreases |w| - s
  {
    hide NextToken, InsertRange, Stops, Replay, Chooses, Recent, Entries, HashAt, Inflates, Spans;
    var t := Replay(t0, log);
    g := [];
    if s + 11 <= |w| {
      StopsInflates(start, s, |w|, toks);
      if Stops(start, s, |w|, toks) {
        assert toks + [] == toks;
      } else {
        var r := NextToken(t, w, s);
        TokenChooses(w, s, t0, log);
        RangeReplays(t0, log, w, s, s + Span(r));
        SpansPush(toks, r);
        g := RunGivesUp(w, start, s + Span(r), t0, log + Entries(w, s, s + Span(r)), toks + [r]);
        SoFarCons(w, s, log, r, g);
        Assoc(toks, [r], g);
        g := [r] + g;
      }
    } else {
      TailLiteral(w, start, s, t, toks);
    }
  }

  lemma MoreSpans(toks: seq<Token>, all: seq<Token>, i: nat)
    requires toks <= all && |toks| <= i <= |all|
    ensures Spans(toks) <= Spans(all[..i])
  {
    assert all[..i] == toks + all[|toks|..i];
    SpansConcat(toks, all[|toks|..i]);
  }

  /** No closed groups of a completed run are such. */
  lemma {:induction false} RunPasses(w: seq<byte>, start: nat, s: nat, t: Table, toks: seq<Token>, i: nat)
    requires start <= s <= |w| && Spans(toks) == s - start && Run(w, start, s, t, toks).Packed?
    requires |toks| <= i <= |Run(w, start, s, t, toks).toks|
    ensures !Inflates(Run(w, start, s, t, toks).toks[..i], |w| - start)
    decreases |w| - s
  {
    hide NextToken, InsertRange, Stops, Inflates, Spans;
    RunSound(w, start, s, t, toks);
    var all := Run(w, start, s, t, toks).toks;
    if |w| < s + 11 {
      MoreSpans(toks, all, i);
      TooLate(all[..i], |w| - start);
    } else if i == |toks| {
      assert all[..i] == toks;
      StopsInflates(start, s, |w|, toks);
    } else {
      var r := NextToken(t, w, s);
      SpansPush(toks, r);
      RunPasses(w, start, s + Span(r), InsertRange(t, w, s, s + Span(r)), toks + [r], i);
    }
  }

  lemma TooLate(g: seq<Token>, size: nat)
    requires size < Spans(g) + 11
    ensures !Inflates(g, size)
  {
  }

  lemma SoFarHead(w: seq<byte>, s: nat, log: Log, g: seq<Token>)
    requires g != [] && ChosenSoFar(w, s, log, g)
    ensures s + 11 <= |w| && s + Span(g[0]) + 2 <= |w| && Chooses(w, s, Recent(log, HashAt(w, s)), g[0])
    ensures ChosenSoFar(w, s + Span(g[0]), log + Entries(w, s, s + Span(g[0])), g[1..])
  {
    hide Chooses, Entries, Recent, HashAt;
  }

  lemma AllHead(w: seq<byte>, s: nat, log: Log, toks: seq<Token>)
    requires s + 11 <= |w| && AllChosen(w, s, log, toks)
    ensures toks != [] && s + Span(toks[0]) + 2 <= |w| && Chooses(w, s, Recent(log, HashAt(w, s)), toks[0])
    ensures AllChosen(w, s + Span(toks[0]), log + Entries(w, s, s + Span(toks[0])), toks[1..])
  {
    hide Chooses, Entries, Recent, HashAt;
  }

  /** What is chosen so far is how any completed run starts. */
  lemma {:induction false} ChosenIsPrefix(w: seq<byte>, s: nat, log: Log, g: seq<Token>, toks: seq<Token>)
    requires ChosenSoFar(w, s, log, g) && AllChosen(w, s, log, toks)
    ensures g <= toks
    decreases |g|
  {
    hide ChosenSoFar, AllChosen, Chooses, Entries, Recent, HashAt;
    if g != [] {
      SoFarHead(w, s, log, g);
      AllHead(w, s, log, toks);
      ChoosesOne(w, s, Recent(log, HashAt(w, s)), g[0], toks[0]);
      ChosenIsPrefix(w, s + Span(g[0]), log + Entries(w, s, s + Span(g[0])), g[1..], toks[1..]);
      assert g == [g[0]] + g[1..] && toks == [toks[0]] + toks[1..];
    }
  }

  /** A run gives up exactly when the tokens chosen from the start of the message come to closed groups that are past
      the middle and save less than a 32nd. */
  lemma GivesUpExactly(w: seq<byte>, start: nat, t0: Table, log: Log)
    requires start <= |w| && forall l <- log :: l.0 < BUCKETS
    ensures Run(w, start, start, Replay(t0, log), []).GaveUp?
      <==> exists g :: ChosenSoFar(w, start, log, g) && Inflates(g, |w| - start)
  {
    hide Run, Replay, Chooses, Inflates, AllChosen, ChosenSoFar;
    var r := Run(w, start, start, Replay(t0, log), []);
    EmptySpans();
    if r.GaveUp? {
      var g := RunGivesUp(w, start, start, t0, log, []);
      assert [] + g == g;
    } else {
      var e := RunChooses(w, start, start, t0, log, []);
      assert r.toks[0..] == r.toks;
      forall g | ChosenSoFar(w, start, log, g)
        ensures !Inflates(g, |w| - start)
      {
        ChosenIsPrefix(w, start, log, g, r.toks);
        RunPasses(w, start, start, Replay(t0, log), [], |g|);
        assert r.toks[..|g|] == g;
      }
    }
  }

  // ---- how much is written ----

  /** Closed groups stand for `done` bytes in `written` bytes: no longer than those, or the run is still in
      the first half and pays four bytes per 31 tokens. */
  predicate Paced(written: nat, done: nat, size: nat)
  {
    written <= done || (done <= size / 2 && written <= done + 4 * (done / 31))
  }

  lemma PacedBound(written: nat, done: nat, size: nat)
    requires Paced(written, done, size)
    ensures written <= done + size / 8
  {
    var q := done / 31;
    assert done >= 31 * q;
    if done <= size / 2 { assert size >= 62 * q; }
  }

  /** Passing the ratio test at a group's end keeps the pace. */
  lemma ClosePaced(toks: seq<Token>, done: nat, size: nat)
    requires |toks| % 31 == 0 && done == Spans(toks) && !TooLong(|Emit(toks, 0)|, done, size)
    ensures Paced(|Emit(toks, 0)|, done, size)
  {
    if done <= size / 2 {
      EmitLength(toks, 0);
      SpansAtLeast(toks);
      assert WordsFor(|toks|, 0) == |toks| / 31;
      assert |toks| / 31 <= done / 31;
    }
  }

  lemma {:induction false} SpansAtLeast(toks: seq<Token>)
    ensures |toks| <= Spans(toks)
  {
    if toks != [] { SpansAtLeast(toks[1..]); }
  }

  lemma {:induction false} SpansConcat(a: seq<Token>, b: seq<Token>)
    ensures Spans(a + b) == Spans(a) + Spans(b)
  {
    if a == [] {
      assert a + b == b;
    } else {
      assert (a + b)[1..] == a[1..] + b;
      SpansConcat(a[1..], b);
    }
  }

  lemma {:induction false} SpansAtMost(toks: seq<Token>)
    ensures Spans(toks) <= 255 * |toks|
  {
    if toks != [] { SpansAtMost(toks[1..]); }
  }

  lemma {:induction false} RunTail(w: seq<byte>, start: nat, s: nat, t: Table, toks: seq<Token>)
    requires start <= s <= |w| < s + 11
    ensures var r := Run(w, start, s, t, toks);
            r.Packed? && r.table == t && toks <= r.toks && |r.toks| == |toks| + |w| - s
            && Spans(r.toks) == Spans(toks) + |w| - s
    decreases |w| - s
  {
    if s < |w| {
      RunTail(w, start, s + 1, t, toks + [Literal(w[s])]);
      SpansConcat(toks, [Literal(w[s])]);
    }
  }

  /** What follows closed groups costs at most its own bytes and control words. */
  lemma SplitLength(all: seq<Token>, closed: seq<Token>, rest: seq<Token>)
    requires |closed| % 31 == 0 && closed <= all && rest == all[|closed|..]
    ensures Spans(closed) <= Spans(all)
    ensures |Emit(all, 0)| <= |Emit(closed, 0)| + (Spans(all) - Spans(closed)) + 4 * WordsFor(|rest|, 0)
  {
    hide Emit, Spans, WordsFor;
    assert all == closed + rest;
    EmitClosed(closed, rest);
    EmitLength(rest, 0);
    SpansConcat(closed, rest);
  }

  /** The last closed group kept the pace; at most 41 tokens follow it. */
  lemma LastGroups(all: seq<Token>, closed: seq<Token>, g: seq<Token>, size: nat, tail: nat)
    requires |closed| % 31 == 0 && |g| <= 31 && tail <= 10
    requires closed + g <= all && |all| == |closed| + |g| + tail && Spans(all) == size
    requires Spans(all) == Spans(closed) + Spans(g) + tail && Paced(|Emit(closed, 0)|, Spans(closed), size)
    ensures |Emit(all, 0)| <= size + size / 8 + 8
    ensures |Emit(all, 0)| <= size + 8 || size <= 15830
  {
    hide Emit, Spans, WordsFor, Paced;
    var rest := AfterClosed(all, closed, g);
    SplitLength(all, closed, rest);
    SpansAtMost(g);
    PaceAtEnd(|Emit(closed, 0)|, Spans(closed), Spans(g), size, |rest|);
  }

  lemma AfterClosed(all: seq<Token>, closed: seq<Token>, g: seq<Token>) returns (rest: seq<Token>)
    requires closed + g <= all
    ensures closed <= all && rest == all[|closed|..] && |rest| == |all| - |closed|
  {
    assert closed == (closed + g)[..|closed|];
    rest := all[|closed|..];
  }

  lemma PaceAtEnd(written: nat, done: nat, open: nat, size: nat, count: nat)
    requires Paced(written, done, size) && count <= 41 && open <= 7905 && size <= done + open + 10 && done <= size
    ensures written + (size - done) + 4 * WordsFor(count, 0) <= size + size / 8 + 8
    ensures written + (size - done) + 4 * WordsFor(count, 0) <= size + 8 || size <= 15830
  {
    PacedBound(written, done, size);
  }

  lemma RunStep(w: seq<byte>, start: nat, s: nat, t: Table, toks: seq<Token>) returns (r: Token, t': Table)
    requires start <= s && s + 11 <= |w| && Run(w, start, s, t, toks).Packed?
    ensures s + Span(r) <= |w| && Run(w, start, s, t, toks) == Run(w, start, s + Span(r), t', toks + [r])
    ensures toks == [] || |toks| % 31 != 0 || !TooLong(|Emit(toks, 0)|, s - start, |w| - start)
  {
    hide NextToken, InsertRange, Emit, TooLong, Span;
    r := NextToken(t, w, s);
    t' := InsertRange(t, w, s, s + Span(r));
  }

  lemma SpansPush(toks: seq<Token>, r: Token)
    ensures Spans(toks + [r]) == Spans(toks) + Span(r)
  {
    SpansConcat(toks, [r]);
  }

  /** The length of a whole encoding: never more than an eighth plus 8 over the message, and beyond 15830
      bytes, where the ratio test must have been passed late, at most 8 over it. `closed` are the closed
      groups so far, `g` is the open one. */
  lemma {:induction false} RunLength(w: seq<byte>, start: nat, s: nat, t: Table, closed: seq<Token>, g: seq<Token>)
    requires start <= s <= |w| && Run(w, start, s, t, closed + g).Packed?
    requires |closed| % 31 == 0 && |g| <= 31 && (g == [] ==> closed == [])
    requires Spans(closed) + Spans(g) == s - start && Paced(|Emit(closed, 0)|, Spans(closed), |w| - start)
    ensures var n, size := |Emit(Run(w, start, s, t, closed + g).toks, 0)|, |w| - start;
            n <= size + size / 8 + 8 && (n <= size + 8 || size <= 15830)
    decreases |w| - s
  {
    hide Emit, Run, Spans, Paced;
    var toks, size := closed + g, |w| - start;
    SpansConcat(closed, g);
    if |w| < s + 11 {
      RunTail(w, start, s, t, toks);
      LastGroups(Run(w, start, s, t, toks).toks, closed, g, size, |w| - s);
    } else {
      var r, t' := RunStep(w, start, s, t, toks);
      if |g| == 31 {
        ClosePaced(toks, s - start, size);
        SpansPush([], r);
        EmptySpans();
        assert [] + [r] == [r];
        RunLength(w, start, s + Span(r), t', toks, [r]);
      } else {
        SpansPush(g, r);
        Assoc(closed, g, [r]);
        RunLength(w, start, s + Span(r), t', closed, g + [r]);
      }
    }
  }

  lemma EmptySpans()
    ensures Spans([]) == 0
  {
  }
}
