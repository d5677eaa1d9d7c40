/** The table of earlier positions: 4096 buckets of 16 slots, with 8-bit insertion counters that wrap. */
module HashTable {
  import opened Bytes

  const BUCKETS: nat := 4096
  const POINTERS: nat := 16

  /** Bucket `h`, slot `k` is `slot[16 * h + k]`. */
  datatype RawTable = Table(slot: seq<nat>, count: seq<byte>)

  ghost predicate Sized(t: RawTable) { |t.slot| == 65536 && |t.count| == 4096 }

  type Table = t: RawTable | Sized(t) ghost witness Table(seq(65536, i => 0), seq(4096, i => 0))

  /** Bits 0..11 of the three bytes at `p`, XORed with bits 12..23. */
  function HashAt(w: seq<byte>, p: nat): (h: nat)
    requires p + 3 <= |w|
    ensures h < BUCKETS
  {
    HashBytes(w[p], w[p + 1], w[p + 2])
  }

  function HashBytes(b0: byte, b1: byte, b2: byte): (h: nat)
    ensures h < BUCKETS
  {
    var f := b0 + 256 * b1 + 65536 * b2;
    assert Pow2(12) == BUCKETS;
    Xor(f / 4096, f, 12)
  }

  /** The low `n` bits of `a ^ b`. */
  function Xor(a: nat, b: nat, n: nat): (x: nat)
    ensures x < Pow2(n)
  {
    if n == 0 then 0 else (if a % 2 == b % 2 then 0 else 1) + 2 * Xor(a / 2, b / 2, n - 1)
  }

  lemma {:induction false} BitOfXor(a: nat, b: nat, n: nat, k: nat)
    requires k < n
    ensures Pow2(k) > 0 && (Xor(a, b, n) / Pow2(k) % 2 == 1 <==> a / Pow2(k) % 2 != b / Pow2(k) % 2)
  {
    var low, high := if a % 2 == b % 2 then 0 else 1, Xor(a / 2, b / 2, n - 1);
    DivRem(low + 2 * high, 2, high, low);
    if k > 0 {
      NextBit(a, k);
      NextBit(b, k);
      NextBit(low + 2 * high, k);
      BitOfXor(a / 2, b / 2, n - 1, k - 1);
    }
  }

  /** Bit `k` of the bucket is bit `k` of the three bytes' little-endian value XORed with bit `k + 12`. */
  lemma HashBits(b0: byte, b1: byte, b2: byte, k: nat)
    requires k < 12
    ensures HashBytes(b0, b1, b2) < 4096 && Pow2(k) > 0 && Pow2(k + 12) > 0
    ensures var f := b0 + 256 * b1 + 65536 * b2;
      HashBytes(b0, b1, b2) / Pow2(k) % 2 == 1 <==> f / Pow2(k) % 2 != f / Pow2(k + 12) % 2
  {
    var f := b0 + 256 * b1 + 65536 * b2;
    BitOfXor(f / 4096, f, 12, k);
    Pow2Positive(k + 12);
    assert 4096 * Pow2(k) == Pow2(k + 12) by { assert Pow2(12) == 4096; Pow2Sum(12, k); }
    DivDiv(f, 4096, Pow2(k));
    hide Xor, Pow2;
  }

  ghost function Slot(t: Table, h: nat, k: nat): nat
    requires h < BUCKETS && k < POINTERS
  {
    t.slot[16 * h + k]
  }

  /** How many slots of a bucket the search may look at. */
  ghost function Trusted(t: Table, h: nat): nat
    requires h < BUCKETS
  {
    Min(t.count[h], POINTERS)
  }

  ghost function Put(t: Table, h: nat, p: nat): Table
    requires h < BUCKETS
  {
    var c: nat := t.count[h];
    Table(t.slot[16 * h + c % 16 := p], t.count[h := (c + 1) % 256])
  }

  ghost function Reset(t: Table): Table
  {
    Table(t.slot, seq(4096, i => 0))
  }

  ghost function Insert(t: Table, w: seq<byte>, p: nat): Table
    requires p + 3 <= |w|
  {
    Put(t, HashAt(w, p), p)
  }

  ghost function InsertRange(t: Table, w: seq<byte>, a: nat, b: nat): Table
    requires a <= b && b + 2 <= |w|
    decreases b
  {
    if a == b then t else Insert(InsertRange(t, w, a, b - 1), w, b - 1)
  }

  /** Every slot the search may look at holds a position before `s`. */
  ghost predicate Before(t: Table, s: nat)
  {
    forall h, k :: 0 <= h < BUCKETS && 0 <= k < Trusted(t, h) ==> Slot(t, h, k) < s
  }

  lemma PutSlots(t: Table, h: nat, p: nat, g: nat, k: nat)
    requires h < BUCKETS && g < BUCKETS && k < POINTERS
    ensures Slot(Put(t, h, p), g, k) == if g == h && k == t.count[h] % 16 then p else Slot(t, g, k)
  {
    if g != h { assert 16 * g + k != 16 * h + t.count[h] % 16; }
  }

  /** An insertion trusts at most the slot it fills in addition. */
  lemma PutTrusts(t: Table, h: nat, p: nat, g: nat, k: nat)
    requires h < BUCKETS && g < BUCKETS && k < Trusted(Put(t, h, p), g)
    ensures k < Trusted(t, g) || (g == h && k == t.count[h] % 16)
  {
  }

  lemma InsertBefore(t: Table, w: seq<byte>, p: nat)
    requires p + 3 <= |w| && Before(t, p)
    ensures Before(Insert(t, w, p), p + 1)
  {
    hide HashBytes, Put;
    var h := HashAt(w, p);
    var t' := Insert(t, w, p);
    forall g, k | 0 <= g < BUCKETS && 0 <= k < Trusted(t', g)
      ensures Slot(t', g, k) < p + 1
    {
      PutTrusts(t, h, p, g, k);
      PutSlots(t, h, p, g, k);
      if k < Trusted(t, g) { assert Slot(t, g, k) < p; }
    }
  }

  lemma {:induction false} InsertRangeBefore(t: Table, w: seq<byte>, a: nat, b: nat)
    requires a <= b && b + 2 <= |w| && Before(t, a)
    ensures Before(InsertRange(t, w, a, b), b)
    decreases b
  {
    if a < b {
      InsertRangeBefore(t, w, a, b - 1);
      InsertBefore(InsertRange(t, w, a, b - 1), w, b - 1);
    }
  }

  // ---- what the trusted slots hold, over any history of insertions ----

  /** The insertions since a reset, oldest first: bucket and position. */
  type Log = seq<(nat, nat)>

  ghost function Replay(t: Table, log: Log): Table
    requires forall e <- log :: e.0 < BUCKETS
  {
    if log == [] then Reset(t)
    else Put(Replay(t, log[..|log| - 1]), log[|log| - 1].0, log[|log| - 1].1)
  }

  /** The positions a log puts into bucket `h`, oldest first. */
  ghost function InBucket(log: Log, h: nat): seq<nat>
  {
    if log == [] then []
    else
      var q, e := InBucket(log[..|log| - 1], h), log[|log| - 1];
      if e.0 == h then q + [e.1] else q
  }

  /** After any number of insertions, wrapped counters included, the trusted slots of a bucket hold exactly
      the most recent positions put there: entry `j` of the last min(count, 16) sits in slot j mod 16. */
  ghost predicate MostRecent(t: Table, log: Log, h: nat)
    requires h < BUCKETS
  {
    var q := InBucket(log, h);
    && t.count[h] == |q| % 256
    && forall j :: 0 <= j < |q| && |q| - 16 <= j ==> Slot(t, h, j % 16) == q[j]
  }

  lemma NearbyDiffer(j: nat, n: nat)
    requires n < j + 16 && j < n
    ensures j % 16 != n % 16
  {
  }

  lemma CounterWraps(n: nat)
    ensures n % 256 % 16 == n % 16 && (n % 256 + 1) % 256 == (n + 1) % 256
  {
    DivRem(n, 16, 16 * (n / 256) + n % 256 / 16, n % 256 % 16);
    if n % 256 == 255 { DivRem(n + 1, 256, n / 256 + 1, 0); } else { DivRem(n + 1, 256, n / 256, n % 256 + 1); }
  }

  lemma {:induction false} SlotsAreMostRecent(t: Table, log: Log, h: nat)
    requires h < BUCKETS && forall e <- log :: e.0 < BUCKETS
    ensures MostRecent(Replay(t, log), log, h)
  {
    if log != [] {
      var init, e := log[..|log| - 1], log[|log| - 1];
      SlotsAreMostRecent(t, init, h);
      PutMostRecent(Replay(t, init), init, log, e, h);
    }
  }

  lemma PutMostRecent(r: Table, init: Log, log: Log, e: (nat, nat), h: nat)
    requires h < BUCKETS && e.0 < BUCKETS && log == init + [e] && MostRecent(r, init, h)
    ensures MostRecent(Put(r, e.0, e.1), log, h)
  {
    assert log[..|log| - 1] == init;
    var q, q' := InBucket(init, h), InBucket(log, h);
    CounterWraps(|q|);
    forall j | 0 <= j < |q'| && |q'| - 16 <= j
      ensures Slot(Put(r, e.0, e.1), h, j % 16) == q'[j]
    {
      PutSlots(r, e.0, e.1, h, j % 16);
      if j < |q| && e.0 == h { NearbyDiffer(j, |q|); }
    }
  }

  /** The search never sees a stale slot: what trusted slot `k` holds is one of the last insertions into the
      bucket, as many of them as slots are trusted. */
  lemma TrustedSlots(t: Table, log: Log, h: nat, k: nat) returns (j: nat)
    requires h < BUCKETS && forall e <- log :: e.0 < BUCKETS
    requires k < Trusted(Replay(t, log), h)
    ensures j % 16 == k
    ensures var q := InBucket(log, h);
            |q| - Trusted(Replay(t, log), h) <= j < |q| && Slot(Replay(t, log), h, k) == q[j]
  {
    SlotsAreMostRecent(t, log, h);
    var n := |InBucket(log, h)|;
    if n % 256 < 16 {
      j := n - n % 256 + k;
      DivRem(j, 16, 16 * (n / 256), k);
    } else {
      j := n - 1 - (n - 1 - k) % 16;
      DivRem(j, 16, (n - 1 - k) / 16, k);
    }
  }

  /** The most recent insertions into a bucket, as many as its counter says: all of the last sixteen, or fewer
      when it has just wrapped. */
  ghost function Recent(log: Log, h: nat): seq<nat>
  {
    var q := InBucket(log, h);
    q[|q| - Min(|q| % 256, POINTERS)..]
  }

  lemma RecentSlot(n: nat, j: nat)
    requires n - Min(n % 256, 16) <= j < n
    ensures j % 16 < Min(n % 256, 16)
  {
    if n % 256 < 16 { DivRem(j, 16, 16 * (n / 256), j - (n - n % 256)); }
  }

  lemma SlotIsRecent(t: Table, log: Log, h: nat, k: nat)
    requires h < BUCKETS && (forall e <- log :: e.0 < BUCKETS) && k < Trusted(Replay(t, log), h)
    ensures Slot(Replay(t, log), h, k) in Recent(log, h)
  {
    var q, r := InBucket(log, h), Replay(t, log);
    SlotsAreMostRecent(t, log, h);
    var j := TrustedSlots(t, log, h, k);
    hide InBucket, Replay, Slot;
    InTail(q, Trusted(r, h), j);
  }

  lemma InTail(q: seq<nat>, n: nat, j: nat)
    requires n <= |q| && |q| - n <= j < |q|
    ensures q[j] in q[|q| - n..]
  {
    assert q[|q| - n..][j - (|q| - n)] == q[j];
  }

  lemma RecentIsInSlot(t: Table, log: Log, h: nat, i: nat) returns (k: nat)
    requires h < BUCKETS && (forall e <- log :: e.0 < BUCKETS) && i < |Recent(log, h)|
    ensures k < Trusted(Replay(t, log), h) && Slot(Replay(t, log), h, k) == Recent(log, h)[i]
  {
    var q := InBucket(log, h);
    SlotsAreMostRecent(t, log, h);
    hide InBucket, Replay, Slot;
    var j := |q| - |Recent(log, h)| + i;
    RecentSlot(|q|, j);
    k := j % 16;
  }

  /** The slots the search looks at hold exactly the recent insertions. */
  lemma TrustedAreRecent(t: Table, log: Log, h: nat, p: nat)
    requires h < BUCKETS && forall e <- log :: e.0 < BUCKETS
    ensures p in Recent(log, h) <==>
      exists k :: 0 <= k < Trusted(Replay(t, log), h) && Slot(Replay(t, log), h, k) == p
  {
    hide Recent, Replay, Slot;
    forall k | 0 <= k < Trusted(Replay(t, log), h) && Slot(Replay(t, log), h, k) == p
      ensures p in Recent(log, h)
    {
      SlotIsRecent(t, log, h, k);
    }
    if p in Recent(log, h) {
      var i :| 0 <= i < |Recent(log, h)| && Recent(log, h)[i] == p;
      var k := RecentIsInSlot(t, log, h, i);
    }
  }

  /** The insertions of positions `a` to `b`. */
  ghost function Entries(w: seq<byte>, a: nat, b: nat): (log: Log)
    requires a <= b && b + 2 <= |w|
    ensures forall e <- log :: e.0 < BUCKETS && EntryOf(e, w)
    decreases b
  {
    if a == b then [] else Entries(w, a, b - 1) + [(HashAt(w, b - 1), b - 1)]
  }

  /** A position of `w` under the bucket of its three bytes. */
  predicate EntryOf(e: (nat, nat), w: seq<byte>)
  {
    e.1 + 3 <= |w| && e.0 == HashAt(w, e.1)
  }

  /** Every position from `a` to `b`, in order, under the bucket of its three bytes. */
  lemma {:induction false} EntriesAt(w: seq<byte>, a: nat, b: nat, i: nat)
    requires a <= i < b && b + 2 <= |w|
    ensures |Entries(w, a, b)| == b - a && Entries(w, a, b)[i - a] == (HashBytes(w[i], w[i + 1], w[i + 2]), i)
    decreases b
  {
    hide EntryOf, HashBytes;
    if a + 1 < b { EntriesAt(w, a, b - 1, if i < b - 1 then i else a); }
  }

  lemma ReplayPut(t: Table, log: Log, e: (nat, nat))
    requires e.0 < BUCKETS && forall l <- log :: l.0 < BUCKETS
    ensures Replay(t, log + [e]) == Put(Replay(t, log), e.0, e.1)
  {
    assert (log + [e])[..|log|] == log;
  }

  lemma {:induction false} RangeReplays(t0: Table, log: Log, w: seq<byte>, a: nat, b: nat)
    requires a <= b && b + 2 <= |w| && forall e <- log :: e.0 < BUCKETS
    ensures InsertRange(Replay(t0, log), w, a, b) == Replay(t0, log + Entries(w, a, b))
    decreases b
  {
    hide Replay, Put, HashAt, EntryOf;
    if a == b {
      assert log + [] == log;
    } else {
      RangeReplays(t0, log, w, a, b - 1);
      var e := (HashAt(w, b - 1), b - 1);
      ReplayPut(t0, log + Entries(w, a, b - 1), e);
      Assoc(log, Entries(w, a, b - 1), [e]);
    }
  }
}
