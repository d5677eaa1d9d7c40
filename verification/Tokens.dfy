/** The token stream both ends of the codec agree on: what a token means and how it is written. */
module Tokens {
  import opened Bytes

  datatype RawToken = Literal(value: byte) | Match(offset: nat, len: nat)

  /** Tokens the five match formats can carry. */
  type Token = t: RawToken | t.Match? ==> 3 <= t.offset < 131071 && 3 <= t.len <= 255
    witness Literal(0)

  /** Number of message bytes a token stands for. */
  function Span(t: Token): nat { if t.Literal? then 1 else t.len }

  function Spans(toks: seq<Token>): nat
  {
    if toks == [] then 0 else Span(toks[0]) + Spans(toks[1..])
  }

  // ---- meaning ----

  /** The byte `offset` back from the end of the window. */
  function Back(win: seq<byte>, offset: nat): byte
  {
    if 1 <= offset <= |win| then win[|win| - offset] else 0
  }

  /** One-byte-at-a-time copy of `len` bytes from `offset` back, the source running into its own output. */
  function CopyMatch(win: seq<byte>, offset: nat, len: nat): (r: seq<byte>)
    ensures |r| == |win| + len
    decreases len
  {
    if len == 0 then win else CopyMatch(win + [Back(win, offset)], offset, len - 1)
  }

  /** The copy is the only sequence that continues `win` with period `offset`. */
  lemma {:induction false} CopyMatchUnique(win: seq<byte>, offset: nat, len: nat, r: seq<byte>)
    requires 1 <= offset <= |win|
    requires |r| == |win| + len && win <= r
    requires forall j :: |win| <= j < |r| ==> r[j] == r[j - offset]
    ensures r == CopyMatch(win, offset, len)
    decreases len
  {
    if len > 0 {
      var w := win + [Back(win, offset)];
      assert r[|win|] == r[|win| - offset];
      assert w <= r;
      CopyMatchUnique(w, offset, len - 1, r);
    }
  }

  /** A token that may stand at window position `pos` of a message ending at `end`: a match reaches
      back no further than the window, starts no later than 11 bytes before the end and leaves the
      last 4 bytes to literals. */
  predicate LegalToken(t: Token, pos: nat, end: nat)
  {
    match t
    case Literal(_) => pos < end
    case Match(offset, len) => offset <= pos && pos + 11 <= end && pos + len + 4 <= end
  }

  predicate Legal(toks: seq<Token>, pos: nat, end: nat)
  {
    if toks == [] then pos == end
    else LegalToken(toks[0], pos, end) && Legal(toks[1..], pos + Span(toks[0]), end)
  }

  function Apply(win: seq<byte>, t: Token): (r: seq<byte>)
    ensures |r| == |win| + Span(t)
  {
    match t
    case Literal(b) => win + [b]
    case Match(offset, len) => CopyMatch(win, offset, len)
  }

  /** The window after all tokens have been expanded onto it. */
  function Expand(win: seq<byte>, toks: seq<Token>): (r: seq<byte>)
    ensures |r| == |win| + Spans(toks)
    decreases |toks|
  {
    if toks == [] then win else Expand(Apply(win, toks[0]), toks[1..])
  }

  lemma {:induction false} CopyKeeps(win: seq<byte>, offset: nat, len: nat)
    ensures win <= CopyMatch(win, offset, len)
    decreases len
  {
    if len > 0 { CopyKeeps(win + [Back(win, offset)], offset, len - 1); }
  }

  /** Expansion only appends. */
  lemma {:induction false} ExpandKeeps(win: seq<byte>, toks: seq<Token>)
    ensures win <= Expand(win, toks)
    decreases |toks|
  {
    if toks != [] {
      if toks[0].Match? { CopyKeeps(win, toks[0].offset, toks[0].len); }
      assert win <= Apply(win, toks[0]);
      ExpandKeeps(Apply(win, toks[0]), toks[1..]);
    }
  }

  lemma {:induction false} LegalSpans(toks: seq<Token>, pos: nat, end: nat)
    requires Legal(toks, pos, end)
    ensures pos + Spans(toks) == end && |toks| <= Spans(toks)
    decreases |toks|
  {
    if toks != [] { LegalSpans(toks[1..], pos + Span(toks[0]), end); }
  }

  /** Less than 11 bytes before the end only literals are left. */
  lemma {:induction false} TailIsLiteral(toks: seq<Token>, pos: nat, end: nat)
    requires Legal(toks, pos, end) && end < pos + 11
    ensures forall i :: 0 <= i < |toks| ==> toks[i].Literal?
    ensures |toks| == end - pos
    decreases |toks|
  {
    if toks != [] { TailIsLiteral(toks[1..], pos + 1, end); }
  }

  /** However the tokens are chosen, the last four bytes are written as literals. */
  lemma {:induction false} LastFourAreLiteral(toks: seq<Token>, pos: nat, end: nat)
    requires Legal(toks, pos, end)
    ensures Min(4, end - pos) <= |toks|
    ensures forall i :: |toks| - Min(4, end - pos) <= i < |toks| ==> toks[i].Literal?
    decreases |toks|
  {
    if end < pos + 11 {
      TailIsLiteral(toks, pos, end);
    } else {
      LastFourAreLiteral(toks[1..], pos + Span(toks[0]), end);
    }
  }

  // ---- encoding of one token ----

  predicate Encodable(offset: nat, len: nat)
  {
    3 <= offset < 131071 && 3 <= len <= 255
  }

  /** Width in bytes and value of a match word; the fields do not overlap, so OR is written as +. */
  function MatchWord(offset: nat, len: nat): (r: (nat, ui32))
    requires Encodable(offset, len)
    ensures 1 <= r.0 <= 4 && r.0 <= len
  {
    if len == 3 && offset <= 63 then (1, offset * 4)
    else if len == 3 && offset <= 16383 then (2, offset * 4 + 1)
    else if len <= 18 && offset <= 1023 then (2, (len - 3) * 4 + offset * 64 + 2)
    else if len <= 33 then (3, (len - 2) * 4 + offset * 128 + 3)
    else (4, (len - 3) * 128 + offset * 32768 + 3)
  }

  /** The reader's side: offset, length and width of the match at the start of a loaded word. */
  function ReadMatch(fetch: ui32): (r: (nat, nat, nat))
    ensures 1 <= r.2 <= 4 && r.1 >= 2
  {
    if fetch % 4 == 0 then (fetch % 256 / 4, 3, 1)
    else if fetch / 2 % 2 == 0 then (fetch % 65536 / 4, 3, 2)
    else if fetch % 2 == 0 then (fetch % 65536 / 64, fetch / 4 % 16 + 3, 2)
    else if fetch % 128 != 3 then (fetch / 128 % 131072, fetch / 4 % 32 + 2, 3)
    else (fetch / 32768, fetch / 128 % 256 + 3, 4)
  }

  function EncToken(t: Token): (s: seq<byte>)
    ensures 1 <= |s| <= 4 && |s| <= Span(t)
  {
    match t
    case Literal(b) => [b]
    case Match(offset, len) => var (n, f) := MatchWord(offset, len); Le(f, n)
  }

  // One lemma per format: `x` stands for whatever the load picked up behind the match word.
  lemma ReadFormat1(offset: nat, x: nat)
    requires 3 <= offset <= 63 && offset * 4 + 256 * x < 0x1_0000_0000
    ensures ReadMatch(offset * 4 + 256 * x) == (offset, 3, 1)
  {
    var f := offset * 4 + 256 * x;
    DivRem(f, 4, offset + 64 * x, 0);
    DivRem(f, 256, x, offset * 4);
  }

  lemma ReadFormat2(offset: nat, x: nat)
    requires 3 <= offset <= 16383 && offset * 4 + 1 + 65536 * x < 0x1_0000_0000
    ensures ReadMatch(offset * 4 + 1 + 65536 * x) == (offset, 3, 2)
  {
    var f := offset * 4 + 1 + 65536 * x;
    DivRem(f, 4, offset + 16384 * x, 1);
    DivRem(f, 2, offset * 2 + 32768 * x, 1);
    DivRem(f / 2, 2, offset + 16384 * x, 0);
    DivRem(f, 65536, x, offset * 4 + 1);
  }

  lemma ReadFormat3(offset: nat, len: nat, x: nat)
    requires 3 <= offset <= 1023 && 3 <= len <= 18
    requires (len - 3) * 4 + offset * 64 + 2 + 65536 * x < 0x1_0000_0000
    ensures ReadMatch((len - 3) * 4 + offset * 64 + 2 + 65536 * x) == (offset, len, 2)
  {
    var f, l := (len - 3) * 4 + offset * 64 + 2 + 65536 * x, len - 3;
    DivRem(f, 4, l + offset * 16 + 16384 * x, 2);
    DivRem(f, 2, l * 2 + offset * 32 + 1 + 32768 * x, 0);
    DivRem(f / 2, 2, l + offset * 16 + 16384 * x, 1);
    DivRem(f, 65536, x, l * 4 + offset * 64 + 2);
    DivRem(l * 4 + offset * 64 + 2, 64, offset, l * 4 + 2);
    DivRem(f / 4, 16, offset + 1024 * x, l);
  }

  lemma ReadFormat4(offset: nat, len: nat, x: nat)
    requires 3 <= offset < 131071 && 3 <= len <= 33
    requires (len - 2) * 4 + offset * 128 + 3 + 16777216 * x < 0x1_0000_0000
    ensures ReadMatch((len - 2) * 4 + offset * 128 + 3 + 16777216 * x) == (offset, len, 3)
  {
    var f, l := (len - 2) * 4 + offset * 128 + 3 + 16777216 * x, len - 2;
    DivRem(f, 4, l + offset * 32 + 4194304 * x, 3);
    DivRem(f, 2, l * 2 + offset * 64 + 1 + 8388608 * x, 1);
    DivRem(f / 2, 2, l + offset * 32 + 4194304 * x, 1);
    DivRem(f, 128, offset + 131072 * x, l * 4 + 3);
    DivRem(f / 128, 131072, x, offset);
    DivRem(f / 4, 32, offset + 131072 * x, l);
  }

  lemma ReadFormat5(offset: nat, len: nat)
    requires 3 <= offset < 131071 && 33 < len <= 255
    ensures ReadMatch((len - 3) * 128 + offset * 32768 + 3) == (offset, len, 4)
  {
    var f, l := (len - 3) * 128 + offset * 32768 + 3, len - 3;
    DivRem(f, 4, l * 32 + offset * 8192, 3);
    DivRem(f, 2, l * 64 + offset * 16384 + 1, 1);
    DivRem(f / 2, 2, l * 32 + offset * 8192, 1);
    DivRem(f, 128, l + offset * 256, 3);
    DivRem(f, 32768, offset, l * 128 + 3);
    DivRem(f / 128, 256, offset, l);
  }

  lemma PeekMatch(offset: nat, len: nat, rest: seq<byte>) returns (x: nat)
    requires Encodable(offset, len)
    ensures var (n, f) := MatchWord(offset, len);
            var fetch := Peek4(Le(f, n) + rest);
            && (n == 1 ==> fetch == f + 256 * x) && (n == 2 ==> fetch == f + 65536 * x)
            && (n == 3 ==> fetch == f + 16777216 * x) && (n == 4 ==> fetch == f)
  {
    var (n, f) := MatchWord(offset, len);
    assert Pow256(1) == 256 && Pow256(2) == 65536 && Pow256(3) == 16777216;
    x := PeekOfLe(f, n, rest, 4);
  }

  /** All five formats read back, whatever bytes follow the match word. */
  lemma ReadMatchInverts(offset: nat, len: nat, rest: seq<byte>)
    requires Encodable(offset, len)
    ensures var e := EncToken(Match(offset, len)); ReadMatch(Peek4(e + rest)) == (offset, len, |e|)
  {
    var n := MatchWord(offset, len).0;
    var x := PeekMatch(offset, len, rest);
    if n == 1 {
      ReadFormat1(offset, x);
    } else if len == 3 && offset <= 16383 {
      ReadFormat2(offset, x);
    } else if n == 2 {
      ReadFormat3(offset, len, x);
    } else if n == 3 {
      ReadFormat4(offset, len, x);
    } else {
      ReadFormat5(offset, len);
    }
  }

  // ---- which format is written ----

  /** The tag in the low bits of a match word. */
  lemma TagOfWord(offset: nat, len: nat)
    requires Encodable(offset, len)
    ensures var (n, g) := MatchWord(offset, len);
      && (n == 1 ==> g % 4 == 0) && (n == 2 && len == 3 && offset <= 16383 ==> g % 4 == 1)
      && (n == 2 && !(len == 3 && offset <= 16383) ==> g % 4 == 2)
  {
    var (n, g) := MatchWord(offset, len);
    if n == 1 {
      DivRem(g, 4, offset, 0);
    } else if len == 3 && offset <= 16383 {
      DivRem(g, 4, offset, 1);
    } else if n == 2 {
      DivRem(g, 4, len - 3 + offset * 16, 2);
    }
  }

  /** What each width and tag can carry. */
  lemma ReaderLimits(f: ui32)
    ensures var (offset, len, width) := ReadMatch(f);
      && (width == 1 ==> f % 4 == 0 && offset <= 63 && len == 3)
      && (width == 2 && f % 4 == 1 ==> offset <= 16383 && len == 3)
      && (width == 2 && f % 4 != 1 ==> f % 4 == 2 && offset <= 1023 && len <= 18)
      && (width == 3 ==> f % 4 == 3 && len <= 33) && (width == 4 ==> f % 4 == 3)
  {
    var q, r := f / 4, f % 4;
    if r >= 2 {
      DivRem(f, 2, 2 * q + 1, r - 2);
      DivRem(f / 2, 2, q, 1);
    } else {
      DivRem(f, 2, 2 * q, r);
      DivRem(f / 2, 2, q, 0);
    }
  }

  /** Of all match words a reader takes for this offset and length, the one written is the shortest, and of equally
      short ones the one with the lowest tag. */
  lemma ShortestFormat(offset: nat, len: nat, f: ui32)
    requires Encodable(offset, len) && ReadMatch(f).0 == offset && ReadMatch(f).1 == len
    ensures var (n, g) := MatchWord(offset, len);
      n < ReadMatch(f).2 || (n == ReadMatch(f).2 && g % 4 <= f % 4)
  {
    ReaderLimits(f);
    TagOfWord(offset, len);
    hide ReadMatch;
  }

  /** The formats byte by byte. */
  lemma MatchBytes(offset: nat, len: nat)
    requires Encodable(offset, len)
    ensures EncToken(Match(offset, len)) ==
      if len == 3 && offset < 64 then [4 * offset]
      else if len == 3 && offset < 16384 then [offset % 64 * 4 + 1, offset / 64]
      else if len < 19 && offset < 1024 then [offset % 4 * 64 + (len - 3) * 4 + 2, offset / 4]
      else if len < 34 then [offset % 2 * 128 + (len - 2) * 4 + 3, offset / 2 % 256, offset / 512]
      else [(len - 3) % 2 * 128 + 3, offset % 2 * 128 + (len - 3) / 2, offset / 2 % 256, offset / 512]
  {
    hide Le;
    var low, high := offset % 2, offset / 2;
    if len == 3 && offset < 64 {
      BytesOfWord(4 * offset, 0, 0, 0);
    } else if len == 3 && offset < 16384 {
      BytesOfWord(offset % 64 * 4 + 1, offset / 64, 0, 0);
    } else if len < 19 && offset < 1024 {
      BytesOfWord(offset % 4 * 64 + (len - 3) * 4 + 2, offset / 4, 0, 0);
    } else {
      DivRem(offset, 512, high / 256, 2 * (high % 256) + low);
      assert offset == low + 2 * (high % 256) + 512 * (high / 256);
      if len < 34 {
        BytesOfWord(low * 128 + (len - 2) * 4 + 3, high % 256, high / 256, 0);
      } else {
        BytesOfWord((len - 3) % 2 * 128 + 3, low * 128 + (len - 3) / 2, high % 256, high / 256);
      }
    }
  }

  lemma BytesOfWord(a: byte, b: byte, c: byte, d: byte)
    ensures Le(a, 1) == [a] && Le(a + 256 * b, 2) == [a, b] && Le(a + 256 * b + 65536 * c, 3) == [a, b, c]
    ensures Le(a + 256 * b + 65536 * c + 16777216 * d, 4) == [a, b, c, d]
  {
    OneOfLe(d);
    OneOfLe(a);
    OneOfLe(b);
    OneOfLe(c);
    hide Le;
    LowByte(a, b, 1);
    LowByte(b, c, 1);
    LowByte(a, b + 256 * c, 2);
    LowByte(c, d, 1);
    LowByte(b, c + 256 * d, 2);
    LowByte(a, b + 256 * c + 65536 * d, 3);
  }

  lemma OneOfLe(a: byte)
    ensures Le(a, 1) == [a]
  {
    LeHead(a, 1);
  }

  lemma LowByte(low: byte, high: nat, n: nat)
    ensures Le(low + 256 * high, n + 1) == [low] + Le(high, n)
  {
    DivRem(low + 256 * high, 256, high, low);
    LeHead(low + 256 * high, n + 1);
  }
}
