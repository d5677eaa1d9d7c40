/** The reference decoder: one token at a time, no batching, no overlapping wide copies. */
module Reader {
  import opened Bytes
  import opened Tokens
  import opened ControlWord

  function Prepend(t: Token, r: Option<seq<Token>>): Option<seq<Token>>
  {
    if r.None? then None else Some([t] + r.value)
  }

  /** Tokens read from `p` until they stand for `rem` bytes, `cw` being the control word in hand. */
  function Parse(p: seq<byte>, cw: nat, rem: nat): Option<seq<Token>>
    decreases rem, 1
  {
    if rem == 0 then Some([])
    else if cw != 1 then ParseToken(p, cw, rem)
    else if |p| < 4 then None
    else ParseToken(p[4..], Peek4(p), rem)
  }

  function ParseToken(p: seq<byte>, cw: nat, rem: nat): Option<seq<Token>>
    requires rem > 0
    decreases rem, 0
  {
    if p == [] then None
    else if cw % 2 == 0 then Prepend(Literal(p[0]), Parse(p[1..], cw / 2, rem - 1))
    else
      var (offset, len, width) := ReadMatch(Peek4(p));
      if width > |p| || len > rem || !Encodable(offset, len) then None
      else Prepend(Match(offset, len), Parse(p[width..], cw / 2, rem - len))
  }

  lemma PeekFullWord(toks: seq<Token>, rest: seq<byte>)
    ensures Peek4(Le(FullWord(toks), 4) + rest) == FullWord(toks)
  {
    assert Pow256(4) == 0x1_0000_0000;
    var q := PeekOfLe(FullWord(toks), 4, rest, 4);
  }

  lemma ParseOneToken(t: Token, q: seq<byte>, cw: nat, rem: nat)
    requires cw % 2 == Bit(t) && 0 < Span(t) <= rem
    ensures ParseToken(EncToken(t) + q, cw, rem) == Prepend(t, Parse(q, cw / 2, rem - Span(t)))
  {
    var e := EncToken(t);
    assert (e + q)[|e|..] == q;
    if t.Match? { ReadMatchInverts(t.offset, t.len, q); }
  }

  lemma ParseOneWord(toks: seq<Token>, q: seq<byte>, rem: nat)
    requires rem > 0
    ensures Parse(Le(FullWord(toks), 4) + q, 1, rem) == ParseToken(q, FullWord(toks), rem)
  {
    PeekFullWord(toks, q);
    assert (Le(FullWord(toks), 4) + q)[4..] == q;
  }

  lemma ParseWordStep(toks: seq<Token>, pad: seq<byte>)
    requires toks != [] && Parse(Emit(toks, 31) + pad, Word(toks, 31), Spans(toks)) == Some(toks)
    ensures Parse(Emit(toks, 0) + pad, 1, Spans(toks)) == Some(toks)
  {
    var q := Emit(toks, 31) + pad;
    assert Parse(q, FullWord(toks), Spans(toks)) == ParseToken(q, FullWord(toks), Spans(toks));
    ParseOneWord(toks, q, Spans(toks));
    hide Le, FullWord, Parse, ParseToken;
    Assoc(Le(FullWord(toks), 4), Emit(toks, 31), pad);
  }

  lemma WordStep(toks: seq<Token>, n: nat)
    requires 0 < n <= 31 && toks != []
    ensures Word(toks, n) != 1 && Word(toks, n) % 2 == Bit(toks[0]) && Word(toks, n) / 2 == Word(toks[1..], n - 1)
  {
  }

  lemma ParseTokenStep(toks: seq<Token>, t: Token, r: seq<Token>, n: nat, pad: seq<byte>)
    requires 0 < n <= 31 && toks == [t] + r
    requires Parse(Emit(r, n - 1) + pad, Word(r, n - 1), Spans(r)) == Some(r)
    ensures Parse(Emit(toks, n) + pad, Word(toks, n), Spans(toks)) == Some(toks)
  {
    assert toks[1..] == r && toks[0] == t;
    WordStep(toks, n);
    ParseOneToken(t, Emit(r, n - 1) + pad, Word(toks, n), Spans(toks));
    hide EncToken, ParseToken, Word;
    Assoc(EncToken(t), Emit(r, n - 1), pad);
  }

  /** Reading undoes writing, whatever follows the written bytes. */
  lemma {:induction false} ParseEmit(toks: seq<Token>, n: nat, pad: seq<byte>)
    requires n <= 31
    ensures Parse(Emit(toks, n) + pad, Word(toks, n), Spans(toks)) == Some(toks)
    decreases |toks|, 31 - n == 31
  {
    if toks == [] {
    } else if n == 0 {
      ParseEmit(toks, 31, pad);
      ParseWordStep(toks, pad);
    } else {
      ParseEmit(toks[1..], n - 1, pad);
      assert toks == [toks[0]] + toks[1..];
      ParseTokenStep(toks, toks[0], toks[1..], n, pad);
    }
  }

  /** A packet body as the compressor writes it: the encoding of tokens that are legal for a message of
      `size` bytes behind `hist` bytes of history, padded by at most four bytes. */
  predicate WellFormed(body: seq<byte>, hist: nat, size: nat)
  {
    var r := Parse(body, 1, size);
    r.Some? && Legal(r.value, hist, hist + size) && Emit(r.value, 0) <= body && |body| <= |Emit(r.value, 0)| + 4
  }

  /** What a body says, by the reference decoder: the window with the message behind it. */
  function Meaning(body: seq<byte>, win: seq<byte>, size: nat): seq<byte>
  {
    var r := Parse(body, 1, size);
    if r.None? then [] else Expand(win, r.value)
  }

  lemma EmitIsWellFormed(toks: seq<Token>, pad: seq<byte>, hist: nat, size: nat)
    requires Legal(toks, hist, hist + size) && |pad| <= 4
    ensures WellFormed(Emit(toks, 0) + pad, hist, size)
    ensures Parse(Emit(toks, 0) + pad, 1, size) == Some(toks)
  {
    LegalSpans(toks, hist, hist + size);
    ParseEmit(toks, 0, pad);
  }
}
