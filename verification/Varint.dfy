/** The variable-length integers: base 128 with a continuation bit, each further byte standing for one more
    than it says, so that no value has two encodings. */
module Varint {
  import opened Bytes

  const TWO32: nat := 0x1_0000_0000

  type int32 = x: int | -0x8000_0000 <= x < 0x8000_0000

  function ToUnsigned(v: int32): ui32 { if v < 0 then v + TWO32 else v }

  function ToSigned(u: ui32): int32 { if u >= 0x8000_0000 then u - TWO32 else u }

  function Encode(n: nat): (s: seq<byte>)
    ensures |s| >= 1
  {
    if n < 128 then [n] else [n % 128 + 128] + Encode(n / 128 - 1)
  }

  lemma EncodeStep(n: nat)
    ensures Encode(n) == if n / 128 == 0 then [n % 128] else [n % 128 + 128] + Encode(n / 128 - 1)
  {
  }

  /** Value and length of the encoding at the start of `s`; None when `s` ends inside it. */
  function Decode(s: seq<byte>): (r: Option<(nat, nat)>)
    ensures r.Some? ==> 1 <= r.value.1 <= |s|
  {
    if s == [] then None
    else if s[0] < 128 then Some((s[0], 1))
    else
      var r := Decode(s[1..]);
      if r.None? then None else Some((s[0] - 128 + 128 * (r.value.0 + 1), r.value.1 + 1))
  }

  /** Decoding undoes encoding and leaves the bytes behind it alone. */
  lemma {:induction false} DecodeEncode(n: nat, rest: seq<byte>)
    ensures Decode(Encode(n) + rest) == Some((n, |Encode(n)|))
    decreases n
  {
    if n >= 128 {
      DecodeEncode(n / 128 - 1, rest);
      assert (Encode(n) + rest)[1..] == Encode(n / 128 - 1) + rest;
    }
  }

  /** Encoding undoes decoding: whatever bytes decode to a value are its only encoding. */
  lemma {:induction false} EncodeDecode(s: seq<byte>)
    requires Decode(s).Some?
    ensures Encode(Decode(s).value.0) == s[..Decode(s).value.1]
  {
    if s[0] >= 128 {
      EncodeDecode(s[1..]);
      var (m, k) := Decode(s[1..]).value;
      var n := s[0] - 128 + 128 * (m + 1);
      DivRem(n, 128, m + 1, s[0] - 128);
      assert s[..k + 1] == [s[0]] + s[1..][..k];
    }
  }

  lemma {:induction false} LengthMonotone(a: nat, b: nat)
    requires a <= b
    ensures |Encode(a)| <= |Encode(b)|
    decreases a
  {
    if a >= 128 { LengthMonotone(a / 128 - 1, b / 128 - 1); }
  }

  /** Largest value plus one that `k` bytes can carry. */
  function Range(k: nat): nat { if k == 0 then 0 else 128 * (Range(k - 1) + 1) }

  lemma {:induction false} LengthBound(n: nat, k: nat)
    requires n < Range(k)
    ensures |Encode(n)| <= k
    decreases k
  {
    if n >= 128 { LengthBound(n / 128 - 1, k - 1); }
  }

  lemma FiveBytes(u: ui32)
    ensures |Encode(u)| <= 5
  {
    assert Range(1) == 128 && Range(2) == 16512 && Range(3) == 2113664 && Range(4) == 270549120;
    LengthBound(u, 5);
  }

  /** Every 32-bit value, negative ones as their unsigned image, comes back. */
  lemma Int32RoundTrip(v: int32, rest: seq<byte>)
    ensures var s := Encode(ToUnsigned(v));
      |s| <= 5 && Decode(s + rest).Some? && Decode(s + rest).value.1 == |s|
      && Decode(s + rest).value.0 < TWO32 && ToSigned(Decode(s + rest).value.0) == v
  {
    DecodeEncode(ToUnsigned(v), rest);
    FiveBytes(ToUnsigned(v));
  }

  // ---- the reader's 32-bit arithmetic ----

  lemma ModShift(x: nat, k: nat)
    ensures (x + TWO32 * k) % TWO32 == x % TWO32
  {
    DivRem(x + TWO32 * k, TWO32, x / TWO32 + k, x % TWO32);
  }

  /** Wrapping sums and products are the unbounded ones modulo 2^32. */
  lemma WrapLinear(v: nat, c: nat, s: nat)
    ensures (v % TWO32 + c * (s % TWO32)) % TWO32 == (v + c * s) % TWO32
  {
    var k, q := v / TWO32 + c * (s / TWO32), s / TWO32;
    assert s == TWO32 * q + s % TWO32;
    Distribute(c, TWO32 * q, s % TWO32);
    assert c * (TWO32 * q) == TWO32 * (c * q);
    ModShift(v % TWO32 + c * (s % TWO32), k);
  }

  /** What a reader has after some bytes: `value` and `shift` wrap, `v` and `s` are what they stand for. */
  ghost predicate Reading(all: seq<byte>, i: nat, value: ui32, shift: ui32, v: nat, s: nat)
  {
    && i <= |all| && value == v % TWO32 && shift == s % TWO32
    && (Decode(all).Some? <==> Decode(all[i..]).Some?)
    && (Decode(all).Some? ==> Decode(all).value == (v + s * Decode(all[i..]).value.0, i + Decode(all[i..]).value.1))
  }

  /** `value += c * shift` in 32 bits. */
  function Add(value: ui32, shift: ui32, c: nat): ui32 { (value + c * shift) % TWO32 }

  /** `shift <<= 7` in 32 bits. */
  function ShiftOn(shift: ui32): ui32 { shift * 128 % TWO32 }

  /** What a continued byte with payload `c` adds at scale `s`, the one for having been continued included. */
  ghost function Grow(v: nat, s: nat, c: nat): nat { v + c * s + 128 * s }

  lemma AddWraps(value: ui32, shift: ui32, v: nat, s: nat, c: nat)
    requires value == v % TWO32 && shift == s % TWO32
    ensures Add(value, shift, c) == (v + c * s) % TWO32 && ShiftOn(shift) == 128 * s % TWO32
  {
    WrapLinear(v, c, s);
    WrapLinear(0, 128, s);
  }

  lemma ReadOnWraps(value: ui32, shift: ui32, v: nat, s: nat, c: nat)
    requires value == v % TWO32 && shift == s % TWO32
    ensures ShiftOn(shift) == 128 * s % TWO32
    ensures Add(Add(value, shift, c), ShiftOn(shift), 1) == Grow(v, s, c) % TWO32
  {
    hide Add, ShiftOn;
    AddWraps(value, shift, v, s, c);
    AddWraps(Add(value, shift, c), ShiftOn(shift), v + c * s, 128 * s, 1);
  }

  lemma ReadOnValue(v: nat, s: nat, c: nat, m: nat)
    ensures v + s * (c + 128 * (m + 1)) == Grow(v, s, c) + 128 * s * m
  {
    Distribute(s, c, 128 * (m + 1));
    assert s * (128 * (m + 1)) == 128 * s + 128 * s * m;
  }

  lemma DecodeOn(all: seq<byte>, i: nat)
    requires i < |all| && all[i] >= 128
    ensures var r, q := Decode(all[i..]), Decode(all[i + 1..]);
      && (r.Some? <==> q.Some?)
      && (q.Some? ==> r.value == (all[i] - 128 + 128 * (q.value.0 + 1), q.value.1 + 1))
  {
    assert all[i..][1..] == all[i + 1..];
  }

  lemma ReadOn(all: seq<byte>, i: nat, value: ui32, shift: ui32, v: nat, s: nat)
    requires Reading(all, i, value, shift, v, s) && i < |all| && all[i] >= 128
    ensures var c, shift' := all[i] - 128, ShiftOn(shift);
      Reading(all, i + 1, Add(Add(value, shift, c), shift', 1), shift', Grow(v, s, c), 128 * s)
  {
    hide Decode, Add, ShiftOn, Grow;
    var c := all[i] - 128;
    ReadOnWraps(value, shift, v, s, c);
    DecodeOn(all, i);
    if Decode(all[i + 1..]).Some? { ReadOnValue(v, s, c, Decode(all[i + 1..]).value.0); }
  }

  lemma NothingLeft(all: seq<byte>, i: nat, value: ui32, shift: ui32, v: nat, s: nat)
    requires Reading(all, i, value, shift, v, s) && i == |all|
    ensures Decode(all).None?
  {
  }

  lemma ReadLast(all: seq<byte>, i: nat, value: ui32, shift: ui32, v: nat, s: nat)
    requires Reading(all, i, value, shift, v, s) && i < |all| && all[i] < 128
    ensures Decode(all).Some? && Decode(all).value.1 == i + 1
    ensures Add(value, shift, all[i]) == Decode(all).value.0 % TWO32
  {
    WrapLinear(v, all[i], s);
  }

  /** The reader stands at byte `i`: all before it were continued, and value and shift are what the code has by then. */
  ghost predicate Underway(all: seq<byte>, i: nat, value: ui32, shift: ui32)
  {
    exists v: nat, s: nat :: Reading(all, i, value, shift, v, s)
  }

  lemma UnderwayStart(all: seq<byte>)
    ensures Underway(all, 0, 0, 1)
  {
    assert all[0..] == all;
    assert Reading(all, 0, 0, 1, 0, 1);
  }

  lemma UnderwayOn(all: seq<byte>, i: nat, value: ui32, shift: ui32)
    requires Underway(all, i, value, shift) && i < |all| && all[i] >= 128
    ensures Underway(all, i + 1, Add(Add(value, shift, all[i] - 128), ShiftOn(shift), 1), ShiftOn(shift))
  {
    hide Reading, Add, ShiftOn, Grow;
    var v: nat, s: nat :| Reading(all, i, value, shift, v, s);
    ReadOn(all, i, value, shift, v, s);
  }

  lemma UnderwayEnds(all: seq<byte>, i: nat, value: ui32, shift: ui32)
    requires Underway(all, i, value, shift)
    ensures i == |all| ==> Decode(all).None?
    ensures i < |all| && all[i] < 128 ==>
      Decode(all).Some? && Decode(all).value.1 == i + 1 && Add(value, shift, all[i]) == Decode(all).value.0 % TWO32
  {
    hide Decode, Add, Reading;
    var v: nat, s: nat :| Reading(all, i, value, shift, v, s);
    if i == |all| {
      NothingLeft(all, i, value, shift, v, s);
    } else if i < |all| && all[i] < 128 {
      ReadLast(all, i, value, shift, v, s);
    }
  }
}
