/** Control words: one flag bit per token, 31 to a word, with a sentinel bit above the last slot.
    `n` is always the number of slots a word still has to serve. */
module ControlWord {
  import opened Bytes
  import opened Tokens

  function Bit(t: Token): nat { if t.Match? then 1 else 0 }

  function Tail(toks: seq<Token>): seq<Token> { if toks == [] then [] else toks[1..] }

  /** The control word a reader holds while `n` slots are left and `toks` are the tokens to come. */
  function Word(toks: seq<Token>, n: nat): (w: nat)
    ensures w >= 1 && (w == 1 <==> n == 0)
  {
    if n == 0 then 1
    else (if toks == [] then 0 else Bit(toks[0])) + 2 * Word(Tail(toks), n - 1)
  }

  lemma {:induction false} WordBound(toks: seq<Token>, n: nat)
    ensures Word(toks, n) < Pow2(n + 1)
  {
    if n > 0 { WordBound(Tail(toks), n - 1); }
  }

  function FullWord(toks: seq<Token>): ui32
  {
    WordBound(toks, 31);
    Pow2Values();
    Word(toks, 31)
  }

  /** Bit `k` of a full word is the flag of token `k`, set for a match; bit 31 is always set. */
  lemma BitIsToken(toks: seq<Token>, k: nat)
    requires k < 31
    ensures Pow2(k) > 0 && (FullWord(toks) / Pow2(k) % 2 == 1 <==> k < |toks| && toks[k].Match?)
    ensures FullWord(toks) / 0x8000_0000 == 1
  {
    BitOfWord(toks, 31, k);
    SentinelOfWord(toks, 31);
    Pow2Values();
    hide Pow2, Word;
  }

  lemma WordHalf(toks: seq<Token>, n: nat)
    requires n > 0
    ensures Word(toks, n) / 2 == Word(Tail(toks), n - 1)
    ensures Word(toks, n) % 2 == if toks == [] then 0 else Bit(toks[0])
  {
    DivRem(Word(toks, n), 2, Word(Tail(toks), n - 1), if toks == [] then 0 else Bit(toks[0]));
  }

  lemma {:induction false} BitOfWord(toks: seq<Token>, n: nat, k: nat)
    requires k < n
    ensures Pow2(k) > 0 && (Word(toks, n) / Pow2(k) % 2 == 1 <==> k < |toks| && toks[k].Match?)
  {
    WordHalf(toks, n);
    hide Word;
    if k > 0 {
      NextBit(Word(toks, n), k);
      BitOfWord(Tail(toks), n - 1, k - 1);
      hide Pow2;
    }
  }

  lemma {:induction false} SentinelOfWord(toks: seq<Token>, n: nat)
    ensures Pow2(n) > 0 && Word(toks, n) / Pow2(n) == 1
  {
    if n > 0 {
      WordHalf(toks, n);
      NextBit(Word(toks, n), n);
      SentinelOfWord(Tail(toks), n - 1);
    }
  }

  /** The bytes a stream of tokens is written as when `n` slots of the current word are left:
      a word of four bytes in front of every 31 tokens. */
  function Emit(toks: seq<Token>, n: nat): seq<byte>
    requires n <= 31
    decreases |toks|, 31 - n == 31
  {
    if toks == [] then []
    else if n == 0 then Le(FullWord(toks), 4) + Emit(toks, 31)
    else EncToken(toks[0]) + Emit(toks[1..], n - 1)
  }

  // ---- the writer: groups of at most 31 tokens ----

  function Body(toks: seq<Token>): seq<byte>
  {
    if toks == [] then [] else EncToken(toks[0]) + Body(toks[1..])
  }

  lemma {:induction false} BodyAppend(toks: seq<Token>, t: Token)
    ensures Body(toks + [t]) == Body(toks) + EncToken(t)
  {
    if toks == [] {
      assert Body([t]) == EncToken(t) + Body([]);
    } else {
      assert (toks + [t])[1..] == toks[1..] + [t];
      BodyAppend(toks[1..], t);
    }
  }

  lemma EmitCons(toks: seq<Token>, t: Token, rest: seq<Token>, n: nat)
    requires toks == [t] + rest && 0 < n <= 31
    ensures Emit(toks, n) == EncToken(t) + Emit(rest, n - 1)
  {
    assert toks[1..] == rest;
  }

  /** A group fits the slots left, so its bytes come first and the rest follows. */
  lemma {:induction false} EmitGroup(g: seq<Token>, rest: seq<Token>, n: nat)
    requires |g| <= n <= 31
    ensures Emit(g + rest, n) == Body(g) + Emit(rest, n - |g|)
  {
    if g == [] {
      assert g + rest == rest;
    } else {
      var t, r := g[0], g[1..];
      EmitGroup(r, rest, n - 1);
      assert g == [t] + r;
      Assoc([t], r, rest);
      EmitCons(g + rest, t, r + rest, n);
      Assoc(EncToken(t), Body(r), Emit(rest, n - |g|));
    }
  }

  /** A full word only looks at its own 31 tokens. */
  lemma {:induction false} WordIgnoresRest(g: seq<Token>, rest: seq<Token>, n: nat)
    requires |g| == n
    ensures Word(g + rest, n) == Word(g, n)
  {
    if n > 0 {
      assert Tail(g + rest) == Tail(g) + rest;
      WordIgnoresRest(Tail(g), rest, n - 1);
    }
  }

  lemma EmitFirstGroup(g: seq<Token>, rest: seq<Token>)
    requires |g| == 31
    ensures Emit(g + rest, 0) == Le(FullWord(g), 4) + Body(g) + Emit(rest, 0)
  {
    EmitGroup(g, rest, 31);
    WordIgnoresRest(g, rest, 31);
  }

  lemma EmitClosedStep(g: seq<Token>, r: seq<Token>, b: seq<Token>)
    requires |g| == 31 && Emit(r + b, 0) == Emit(r, 0) + Emit(b, 0)
    ensures Emit(g + r + b, 0) == Emit(g + r, 0) + Emit(b, 0)
  {
    Assoc(g, r, b);
    EmitFirstGroup(g, r);
    EmitFirstGroup(g, r + b);
    Assoc(Le(FullWord(g), 4) + Body(g), Emit(r, 0), Emit(b, 0));
  }

  /** Closed groups of 31 can be written before anything is known about the tokens after them. */
  lemma {:induction false} EmitClosed(a: seq<Token>, b: seq<Token>)
    requires |a| % 31 == 0
    ensures Emit(a + b, 0) == Emit(a, 0) + Emit(b, 0)
    decreases |a|
  {
    if a == [] {
      assert a + b == b;
    } else {
      EmitClosed(a[31..], b);
      EmitClosedStep(a[..31], a[31..], b);
      assert a == a[..31] + a[31..];
    }
  }

  lemma EmitOneGroup(g: seq<Token>)
    requires 0 < |g| <= 31
    ensures Emit(g, 0) == Le(FullWord(g), 4) + Body(g)
  {
    assert g + [] == g;
    EmitGroup(g, [], 31);
  }

  // ---- the writer's accumulator ----

  /** The flags of a group as a number, first token lowest. */
  function Flags(g: seq<Token>): nat
  {
    if g == [] then 0 else Bit(g[0]) + 2 * Flags(g[1..])
  }

  lemma {:induction false} FlagsAppend(g: seq<Token>, t: Token)
    ensures Flags(g + [t]) == Flags(g) + Bit(t) * Pow2(|g|)
  {
    if g == [] {
      assert Flags([t]) == Bit(t) + 2 * Flags([]);
    } else {
      assert (g + [t])[1..] == g[1..] + [t];
      FlagsAppend(g[1..], t);
    }
  }

  lemma {:induction false} WordFlags(g: seq<Token>, n: nat)
    requires |g| <= n
    ensures Word(g, n) == Flags(g) + Pow2(n)
  {
    if n > 0 { WordFlags(Tail(g), n - 1); }
  }

  /** The accumulator after the tokens of `g` have been shifted in from the top: a sentinel walks
      down one bit per token and reaches bit 0 when the group is full. */
  function Acc(g: seq<Token>): nat
    requires |g| <= 31
  {
    Pow2(31 - |g|) * (1 + 2 * Flags(g))
  }

  lemma AccStart()
    ensures Acc([]) == 0x8000_0000
  {
    Pow2Values();
  }

  lemma AccShift(k: nat, odd: nat)
    requires odd % 2 == 1
    ensures Pow2(k) * odd % 2 == (if k == 0 then 1 else 0)
    ensures k > 0 ==> Pow2(k) * odd / 2 == Pow2(k - 1) * odd
  {
    if k > 0 { assert Pow2(k) * odd == 2 * (Pow2(k - 1) * odd); }
  }

  lemma AccFull(g: seq<Token>)
    requires |g| <= 31
    ensures Acc(g) % 2 == 1 <==> |g| == 31
  {
    AccShift(31 - |g|, 1 + 2 * Flags(g));
  }

  lemma TopFlag(a: nat, f: nat, p: nat)
    requires a * p == 0x4000_0000
    ensures a * (1 + 2 * (f + p)) == a * (1 + 2 * f) + 0x8000_0000
  {
    Distribute(a, 1 + 2 * f, 2 * p);
  }

  lemma Complement(n: nat)
    requires n <= 30
    ensures Pow2(30 - n) * Pow2(n) == 0x4000_0000
  {
    Pow2Sum(30 - n, n);
    Pow2Values();
  }

  lemma ShiftIn(k: nat, f: nat, p: nat, b: nat)
    requires b <= 1 && Pow2(k) * p == 0x4000_0000
    ensures Pow2(k) * (1 + 2 * (f + b * p)) == Pow2(k + 1) * (1 + 2 * f) / 2 + b * 0x8000_0000
  {
    AccShift(k + 1, 1 + 2 * f);
    hide Pow2;
    if b == 1 {
      TopFlag(Pow2(k), f, p);
    } else {
      assert f + b * p == f;
    }
  }

  lemma AccPush(g: seq<Token>, t: Token)
    requires |g| < 31
    ensures Acc(g + [t]) == Acc(g) / 2 + Bit(t) * 0x8000_0000
  {
    FlagsAppend(g, t);
    hide Flags, Pow2;
    Complement(|g|);
    ShiftIn(30 - |g|, Flags(g), Pow2(|g|), Bit(t));
  }

  /** Shifting the sentinel out and setting bit 31 turns the accumulator into the word to write. */
  lemma AccToWord(g: seq<Token>, k: nat)
    requires k <= 31 - |g|
    requires Pow2(k) * (1 + 2 * Flags(g)) % 2 == 1
    ensures Pow2(k) * (1 + 2 * Flags(g)) / 2 + 0x8000_0000 == FullWord(g)
  {
    hide Pow2, Flags, Word;
    AccShift(k, 1 + 2 * Flags(g));
    ShiftedOut(1 + 2 * Flags(g));
    WordFlags(g, 31);
    Pow2Values();
  }

  lemma ShiftedOut(x: nat)
    ensures Pow2(0) * x == x
  {
  }

  // ---- sizes ----

  /** Control words still to be written before `count` more tokens when `n` slots are left. */
  function WordsFor(count: nat, n: nat): nat
  {
    if count <= n then 0 else (count - n + 30) / 31
  }

  lemma WordsForNew(count: nat)
    requires count > 0
    ensures WordsFor(count, 0) == 1 + WordsFor(count, 31)
  {
    DivRem(count + 30, 31, 1 + (count - 1) / 31, (count - 1) % 31);
  }

  /** No token is longer than what it stands for; the words cost four bytes per 31 tokens. */
  lemma {:induction false} EmitLength(toks: seq<Token>, n: nat)
    requires n <= 31
    ensures |toks| <= |Emit(toks, n)| <= Spans(toks) + 4 * WordsFor(|toks|, n)
    decreases |toks|, 31 - n == 31
  {
    if toks == [] {
    } else if n == 0 {
      WordsForNew(|toks|);
      EmitLength(toks, 31);
    } else {
      EmitLength(toks[1..], n - 1);
      assert WordsFor(|toks|, n) == WordsFor(|toks| - 1, n - 1);
    }
  }
}
