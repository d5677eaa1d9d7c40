/** Bytes, little-endian words and the few sequence facts the other modules share. */
module Bytes {
  type byte = x: int | 0 <= x < 0x100
  type ui32 = x: int | 0 <= x < 0x1_0000_0000

  /** Size of the history each end keeps across messages. */
  const STREAM: nat := 100000

  datatype Option<+T> = None | Some(value: T)

  function Max(a: int, b: int): int { if a < b then b else a }

  function Min(a: int, b: int): int { if a < b then a else b }

  function Pow2(k: nat): nat { if k == 0 then 1 else 2 * Pow2(k - 1) }

  lemma {:induction false} Pow2Positive(k: nat)
    ensures Pow2(k) >= 1
  {
    if k > 0 { Pow2Positive(k - 1); }
  }

  lemma {:induction false} Pow2Sum(a: nat, b: nat)
    ensures Pow2(a) * Pow2(b) == Pow2(a + b)
  {
    if a > 0 { Pow2Sum(a - 1, b); }
  }

  lemma Assoc<T>(a: seq<T>, b: seq<T>, c: seq<T>)
    ensures (a + b) + c == a + (b + c)
  {
  }

  lemma Distribute(a: int, b: int, c: int)
    ensures a * (b + c) == a * b + a * c
  {
  }

  lemma Pow2Values()
    ensures Pow2(30) == 0x4000_0000 && Pow2(31) == 0x8000_0000 && Pow2(32) == 0x1_0000_0000
  {
    Pow2Sum(5, 5);
    Pow2Sum(10, 10);
    Pow2Sum(10, 20);
  }

  /** Quotient and remainder are unique. */
  lemma DivRem(x: nat, d: nat, q: nat, r: nat)
    requires d > 0 && r < d && x == d * q + r
    ensures x / d == q && x % d == r
  {
    var e := x / d - q;
    assert d * e == r - x % d;
    assert e >= 1 ==> d * e >= d;
    assert e <= -1 ==> d * e <= d * -1;
  }

  lemma Mixed(d: nat, e: nat, p: nat, t: nat, r: nat)
    requires r < d && t < e
    ensures d * (e * p + t) + r == (d * e) * p + (d * t + r) && d * t + r < d * e
  {
    Distribute(d, e * p, t);
    assert d * (e * p) == (d * e) * p;
    Distribute(d, t, 1);
    assert d * (t + 1) <= d * e;
  }

  lemma QuotRem(x: nat, d: nat) returns (q: nat, r: nat)
    requires d > 0
    ensures x == d * q + r && r < d && q == x / d
  {
    q, r := x / d, x % d;
  }

  lemma DivMixed(x: nat, d: nat, e: nat, p: nat, t: nat, r: nat)
    requires x == d * (e * p + t) + r && r < d && t < e
    ensures d * e > 0 && x / (d * e) == p
  {
    Mixed(d, e, p, t, r);
    DivRem(x, d * e, p, d * t + r);
  }

  lemma DivDiv(x: nat, d: nat, e: nat)
    requires d > 0 && e > 0
    ensures d * e > 0 && x / d / e == x / (d * e)
  {
    var q, r := QuotRem(x, d);
    var p, t := QuotRem(q, e);
    DivMixed(x, d, e, p, t, r);
  }

  /** A higher bit is a bit of the half. */
  lemma NextBit(x: nat, k: nat)
    requires k > 0
    ensures Pow2(k) > 0 && Pow2(k - 1) > 0 && x / Pow2(k) == x / 2 / Pow2(k - 1)
  {
    Pow2Positive(k);
    Pow2Positive(k - 1);
    DivDiv(x, 2, Pow2(k - 1));
  }

  /** The low `n` bytes of `f`, least significant first: what a store of `n` bytes leaves in memory. */
  function Le(f: nat, n: nat): (s: seq<byte>)
    ensures |s| == n
  {
    if n == 0 then [] else [f % 256] + Le(f / 256, n - 1)
  }

  /** The value of a byte string read least significant byte first. */
  function FromLe(s: seq<byte>): nat
  {
    if s == [] then 0 else s[0] + 256 * FromLe(s[1..])
  }

  /** Byte `i` of `s`, or 0 past its end: the extra bytes a four-byte load may pick up. */
  function ByteAt(s: seq<byte>, i: nat): int { if i < |s| then s[i] else 0 }

  /** The word a load of `n` bytes at the start of `s` yields. */
  function Peek(s: seq<byte>, n: nat): nat
  {
    if n == 0 then 0 else ByteAt(s, 0) + 256 * Peek(if s == [] then [] else s[1..], n - 1)
  }

  function Pow256(n: nat): nat { if n == 0 then 1 else 256 * Pow256(n - 1) }

  lemma {:induction false} PeekBound(s: seq<byte>, n: nat)
    ensures Peek(s, n) < Pow256(n)
  {
    if n > 0 { PeekBound(if s == [] then [] else s[1..], n - 1); }
  }

  function Peek4(s: seq<byte>): (f: ui32)
  {
    PeekBound(s, 4);
    Peek(s, 4)
  }

  lemma LeHead(f: nat, n: nat)
    requires n > 0
    ensures Le(f, n)[0] == f % 256 && Le(f, n)[1..] == Le(f / 256, n - 1)
  {
  }

  lemma OnceMore(p: nat, q: nat)
    ensures 256 * (p * q) == (256 * p) * q
  {
  }

  /** Loading more bytes than were stored yields the stored value plus a multiple of its range. */
  lemma {:induction false} PeekOfLe(f: nat, n: nat, rest: seq<byte>, m: nat) returns (q: nat)
    requires n <= m && f < Pow256(n)
    ensures Peek(Le(f, n) + rest, m) == f + Pow256(n) * q
    ensures m == n ==> q == 0
  {
    var s := Le(f, n) + rest;
    if n == 0 {
      q := Peek(rest, m);
      assert s == rest;
    } else {
      LeHead(f, n);
      q := PeekOfLe(f / 256, n - 1, rest, m - 1);
      assert s[1..] == Le(f / 256, n - 1) + rest;
      assert Peek(s, m) == f % 256 + 256 * Peek(s[1..], m - 1);
      OnceMore(Pow256(n - 1), q);
    }
  }
}
