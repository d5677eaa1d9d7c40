/** The submission and completion rings: circular queues over 32-bit counters that wrap, shared with the
    kernel. Each is proved to be a FIFO queue over unbounded counters. */
module Rings {
  import opened Bytes

  const WRAP: nat := 0x1_0000_0000

  // ---- counters ----

  lemma MulAssoc(a: int, b: int, c: int)
    ensures a * (b * c) == (a * b) * c
  {
  }

  lemma DivModParts(x: nat, d: nat)
    requires d > 0
    ensures x == d * (x / d) + x % d
  {
  }

  lemma Regroup(x: nat, e: nat, m: nat, q: nat, r: nat, b: nat, c: nat)
    requires x == (e * m) * q + r && r == e * b + c
    ensures x == e * (m * q + b) + c
  {
    MulAssoc(e, m, q);
    Distribute(e, m * q, b);
  }

  lemma ModOfMod(x: nat, e: nat, m: nat, n: nat)
    requires e > 0 && n > 0 && e * m == n
    ensures x % n % e == x % e
  {
    var r := x % n;
    DivModParts(x, n);
    DivModParts(r, e);
    Regroup(x, e, m, x / n, r, r / e, r % e);
    DivRem(x, e, m * (x / n) + r / e, r % e);
  }

  /** A power of two up to 2^32 divides the counters' range, so wrapping does not disturb slot numbers. */
  lemma SlotOfWrapped(x: nat, k: nat)
    requires k <= 32
    ensures Pow2(k) > 0 && x % WRAP % Pow2(k) == x % Pow2(k)
  {
    Pow2Positive(k);
    Pow2Positive(32 - k);
    Pow2Sum(k, 32 - k);
    Pow2Values();
    ModOfMod(x, Pow2(k), Pow2(32 - k), WRAP);
  }

  /** The wrapped difference of two counters is their true distance while that fits 32 bits. */
  lemma WrappedDistance(h: nat, t: nat)
    requires h <= t < h + WRAP
    ensures (t % WRAP - h % WRAP) % WRAP == t - h
  {
    var d := t / WRAP - h / WRAP;
    assert t % WRAP - h % WRAP == t - h - WRAP * d;
    assert d == 0 || d == 1;
  }

  lemma WrappedNext(x: nat, n: nat)
    ensures (x % WRAP + n) % WRAP == (x + n) % WRAP
  {
    var y := x % WRAP + n;
    DivRem(x + n, WRAP, x / WRAP + y / WRAP, y % WRAP);
  }

  lemma WrappedSame(a: nat, b: nat)
    requires a <= b < a + WRAP && Wrap(a) == Wrap(b)
    ensures a == b
  {
    WrappedDistance(a, b);
  }

  lemma SameSlot(i: nat, j: nat, e: nat)
    requires i <= j < i + e && i % e == j % e
    ensures i == j
  {
    var d := j / e - i / e;
    assert e * d == j - i;
    assert d >= 1 ==> e * d >= e;
    assert d <= 0 ==> e * d <= 0;
  }

  /** Positions less than a ring apart lie in different slots. */
  lemma SlotsDiffer(i: nat, j: nat, e: nat)
    requires i < j < i + e
    ensures i % e != j % e
  {
    if i % e == j % e { SameSlot(i, j, e); }
  }

  function SlotAt(p: nat, entries: nat): (s: nat)
    requires entries > 0
    ensures s < entries
  {
    p % entries
  }

  /** The entries at positions `h..t` of a ring, oldest first. */
  ghost function Between(ring: seq<nat>, h: nat, t: nat): (q: seq<nat>)
    requires |ring| > 0 && h <= t
    ensures |q| == t - h
  {
    seq(t - h, i requires 0 <= i < t - h => ring[SlotAt(h + i, |ring|)])
  }

  lemma BetweenDrop(ring: seq<nat>, h: nat, t: nat, n: nat)
    requires |ring| > 0 && h + n <= t
    ensures Between(ring, h, t)[n..] == Between(ring, h + n, t)
    ensures Between(ring, h, t)[..n] == Between(ring, h, h + n)
  {
    forall i | 0 <= i < t - (h + n)
      ensures Between(ring, h, t)[n..][i] == Between(ring, h + n, t)[i]
    {
      assert (h + n) + i == h + (n + i);
    }
  }

  lemma BetweenPush(ring: seq<nat>, h: nat, t: nat, v: nat)
    requires |ring| > 0 && h <= t < h + |ring|
    ensures Between(ring[SlotAt(t, |ring|) := v], h, t + 1) == Between(ring, h, t) + [v]
  {
    forall j | h <= j < t
      ensures SlotAt(j, |ring|) != SlotAt(t, |ring|)
    {
      SlotsDiffer(j, t, |ring|);
    }
    hide SlotAt;
  }

  lemma BetweenFirst(ring: seq<nat>, h: nat, t: nat)
    requires |ring| > 0 && h < t
    ensures Between(ring, h, t)[0] == ring[SlotAt(h, |ring|)]
  {
  }

  lemma EntryAt(ring: seq<nat>, h: nat, t: nat, p: nat, k: nat)
    requires 0 < |ring| == Pow2(k) && k <= 32 && h <= p < t
    ensures Between(ring, h, t)[p - h] == ring[SlotAt(Wrap(p), |ring|)]
  {
    SlotOfWrapped(p, k);
    BetweenDrop(ring, h, t, p - h);
    BetweenFirst(ring, p, t);
    assert Between(ring, h, t)[p - h..][0] == Between(ring, h, t)[p - h];
  }

  function Wrap(x: nat): ui32 { x % WRAP }

  /** Counter arithmetic in 32 bits. */
  function Plus(h: ui32, n: nat): ui32 { (h + n) % WRAP }

  lemma PlusWrap(x: nat, n: nat)
    ensures Plus(Wrap(x), n) == Wrap(x + n)
  {
    WrappedNext(x, n);
  }

  function Minus(t: ui32, h: ui32): ui32 { (t - h) % WRAP }

  lemma MinusWrap(h: nat, t: nat)
    requires h <= t < h + WRAP
    ensures Minus(Wrap(t), Wrap(h)) == t - h
  {
    WrappedDistance(h, t);
  }

  /** The slot `n` places after a 32-bit counter. */
  function Place(h: ui32, n: nat, entries: nat): nat
    requires entries > 0
  {
    (h + n) % 0x1_0000_0000 % entries
  }

  lemma SlotOfCounter(x: nat, h: ui32, n: nat, entries: nat)
    requires entries > 0 && h == Wrap(x)
    ensures SlotAt(Wrap(x + n), entries) == Place(h, n, entries) && SlotAt(h, entries) == h % entries
  {
    PlusWrap(x, n);
  }

  lemma SlotWrap(x: nat, entries: nat, k: nat)
    requires k <= 32 && 0 < entries == Pow2(k)
    ensures SlotAt(Wrap(x), entries) == SlotAt(x, entries)
  {
    SlotOfWrapped(x, k);
  }

  lemma SlotsApart(h: nat, t: nat, entries: nat)
    requires h <= t < h + entries
    ensures forall i :: h <= i < t ==> SlotAt(i, entries) != SlotAt(t, entries)
  {
    forall i | h <= i < t
      ensures SlotAt(i, entries) != SlotAt(t, entries)
    {
      SlotsDiffer(i, t, entries);
    }
  }

  // ---- submission ----

  class SubmissionQueue {
    const sqes: array<nat>
    const k: nat
    var khead: ui32
    var sqeTail: ui32
    ghost var head: nat
    ghost var tail: nat
    ghost var handed: seq<nat>
    ghost var taken: seq<nat>

    /** The 32-bit counters are the unbounded ones, wrapped; at most a ring full lies between them. */
    ghost predicate Valid()
      reads this
    {
      && k <= 31 && 0 < sqes.Length == Pow2(k) < WRAP && khead == Wrap(head) && sqeTail == Wrap(tail)
      && head <= tail <= head + sqes.Length
    }

    /** Entries handed out and not yet consumed by the kernel, oldest first. */
    ghost function Pending(): seq<nat>
      requires Valid()
      reads this, sqes
    {
      Between(sqes[..], head, tail)
    }

    /** Over any interleaving: every entry handed out was taken once, as it was filled in and in order, or waits. */
    ghost predicate Exact()
      requires Valid()
      reads this, sqes
    {
      handed == taken + Pending()
    }

    constructor (k: nat, entries: nat, start: nat)
      requires k <= 31 && 0 < entries == Pow2(k) < WRAP
      ensures Valid() && Exact() && Pending() == []
    {
      this.k := k;
      sqes := new nat[entries](i => 0);
      handed, taken := [], [];
      khead, sqeTail, head, tail := start % WRAP, start % WRAP, start, start;
    }

    /** The slot for the next entry, cleared, or None when all are waiting. It is never a waiting entry's. */
    method GetSqe() returns (slot: Option<nat>)
      requires Valid() && Exact()
      modifies `sqeTail, `tail, `handed, sqes
      ensures Valid() && Exact() && (slot == None <==> |old(Pending())| == sqes.Length)
      ensures slot == None ==> Pending() == old(Pending()) && tail == old(tail)
      ensures slot.Some? ==> tail == old(tail) + 1 && slot.value == SlotAt(old(tail), sqes.Length)
      ensures slot.Some? ==> slot.value == old(sqeTail) % sqes.Length && sqes[slot.value] == 0
      ensures slot.Some? ==> Pending() == old(Pending()) + [0] && handed == old(handed) + [0]
      ensures slot.Some? ==> forall i :: head <= i < old(tail) ==> SlotAt(i, sqes.Length) != slot.value
    {
      hide Between, Pow2, SlotAt, Plus, Minus, Wrap;
      MinusWrap(head, tail);
      if Minus(sqeTail, khead) >= sqes.Length { return None; }
      SlotWrap(tail, sqes.Length, k);
      SlotOfCounter(tail, sqeTail, 0, sqes.Length);
      PlusWrap(tail, 1);
      SlotsApart(head, tail, sqes.Length);
      var at := SlotAt(sqeTail, sqes.Length);
      ghost var was := sqes[..];
      sqeTail := Plus(sqeTail, 1);
      tail := tail + 1;
      sqes[at] := 0;
      slot := Some(at);
      BetweenPush(was, head, old(tail), 0);
      assert sqes[..] == was[at := 0];
      Assoc(taken, old(Pending()), [0]);
      handed := handed + [0];
    }

    /** Fills in the entry handed out last; the others keep what they hold. */
    method Fill(slot: nat, v: nat)
      requires Valid() && Exact() && head < tail && slot == SlotAt(tail - 1, sqes.Length)
      modifies `handed, sqes
      ensures Valid() && Exact() && Pending() == old(Pending())[..|old(Pending())| - 1] + [v]
      ensures handed == old(handed)[..|old(handed)| - 1] + [v]
    {
      hide Between, SlotAt;
      ghost var was := sqes[..];
      BetweenDrop(was, head, tail, tail - 1 - head);
      BetweenPush(was, head, tail - 1, v);
      sqes[slot] := v;
      assert sqes[..] == was[slot := v];
      Assoc(taken, old(Pending())[..|old(Pending())| - 1], [v]);
      handed := handed[..|handed| - 1] + [v];
    }

    /** The kernel takes the `n` oldest entries. */
    method Consume(n: nat) returns (es: seq<nat>)
      requires Valid() && Exact() && n <= |Pending()|
      modifies `khead, `head, `taken
      ensures Valid() && Exact() && es == old(Pending())[..n] && Pending() == old(Pending())[n..]
      ensures taken == old(taken) + es
    {
      hide Between, Pow2, SlotAt, Plus, Wrap;
      ghost var q, ring := Pending(), sqes[..];
      es := [];
      while |es| < n
        invariant |es| <= n && khead == Wrap(head) && head == old(head) + |es|
        invariant es == q[..|es|]
        modifies `khead, `head
      {
        EntryAt(ring, old(head), tail, head, k);
        PlusWrap(head, 1);
        es := es + [sqes[SlotAt(khead, sqes.Length)]];
        khead := Plus(khead, 1);
        head := head + 1;
      }
      BetweenDrop(ring, old(head), tail, n);
      Assoc(taken, es, q[n..]);
      assert es + q[n..] == q;
      taken := taken + es;
    }
  }

  // ---- completion ----

  class CompletionQueue {
    const cqes: array<nat>
    const k: nat
    var khead: ui32
    var ktail: ui32
    ghost var head: nat
    ghost var tail: nat
    ghost var posted: seq<nat>
    ghost var consumed: seq<nat>

    ghost predicate Valid()
      reads this
    {
      && k <= 31 && 0 < cqes.Length == Pow2(k) < WRAP && khead == Wrap(head) && ktail == Wrap(tail)
      && head <= tail <= head + cqes.Length
    }

    /** Completions posted and not yet consumed, oldest first. */
    ghost function Waiting(): seq<nat>
      requires Valid()
      reads this, cqes
    {
      Between(cqes[..], head, tail)
    }

    /** Over any interleaving: every completion posted was consumed once, in order, or still waits. */
    ghost predicate Exact()
      requires Valid()
      reads this, cqes
    {
      posted == consumed + Waiting()
    }

    constructor (k: nat, entries: nat, start: nat)
      requires k <= 31 && 0 < entries == Pow2(k) < WRAP
      ensures Valid() && Exact() && Waiting() == []
    {
      this.k := k;
      cqes := new nat[entries](i => 0);
      posted, consumed := [], [];
      khead, ktail, head, tail := start % WRAP, start % WRAP, start, start;
    }

    /** The kernel posts a completion; it does so only while there is room. */
    method Post(c: nat)
      requires Valid() && Exact() && |Waiting()| < cqes.Length
      modifies `ktail, `tail, `posted, cqes
      ensures Valid() && Exact() && Waiting() == old(Waiting()) + [c] && posted == old(posted) + [c]
    {
      hide Between;
      SlotOfWrapped(tail, k);
      WrappedNext(tail, 1);
      ghost var was := cqes[..];
      BetweenPush(was, head, tail, c);
      cqes[ktail % cqes.Length] := c;
      ktail := (ktail + 1) % WRAP;
      tail := tail + 1;
      assert cqes[..] == was[SlotAt(old(tail), cqes.Length) := c];
      posted := posted + [c];
    }

    method Ready() returns (n: nat)
      requires Valid()
      ensures n == |Waiting()|
    {
      WrappedDistance(head, tail);
      n := (ktail - khead) % WRAP;
    }

    /** Fills `slots` with the places of the oldest completions, as many as are ready and asked for. */
    method PeekBatch(slots: array<nat>, count0: nat) returns (count: nat)
      requires Valid() && slots != cqes && count0 <= slots.Length
      modifies slots
      ensures Valid() && Waiting() == old(Waiting()) && count == Min(|Waiting()|, count0)
      ensures forall i :: 0 <= i < count ==> slots[i] < cqes.Length && cqes[slots[i]] == Waiting()[i]
      ensures forall i :: 0 <= i < count ==> slots[i] == Place(khead, i, cqes.Length)
    {
      var ready := Ready();
      count := if ready < count0 then ready else count0;
      FillSlots(slots, count);
      hide Between, SlotAt, Wrap, Place;
      forall i | 0 <= i < count
        ensures slots[i] == Place(khead, i, cqes.Length)
      {
        SlotOfCounter(head, khead, i, cqes.Length);
      }
    }

    method FillSlots(slots: array<nat>, count: nat)
      requires Valid() && slots != cqes && count <= slots.Length && count <= |Waiting()|
      modifies slots
      ensures Valid() && Waiting() == old(Waiting())
      ensures forall i :: 0 <= i < count ==> slots[i] < cqes.Length && cqes[slots[i]] == Waiting()[i]
      ensures forall i :: 0 <= i < count ==> slots[i] == SlotAt(Wrap(head + i), cqes.Length)
    {
      hide Between, Pow2, SlotAt, Plus, Wrap;
      var h: ui32, out: nat := khead, 0;
      var last := Plus(h, count);
      PlusWrap(head, count);
      while h != last
        invariant out <= count && h == Wrap(head + out)
        invariant forall i :: 0 <= i < out ==> slots[i] == SlotAt(Wrap(head + i), cqes.Length)
        decreases count - out
      {
        assert out != count;
        PlusWrap(head + out, 1);
        slots[out] := SlotAt(h, cqes.Length);
        h := Plus(h, 1);
        out := out + 1;
      }
      WrappedSame(head + out, head + count);
      forall i | 0 <= i < count
        ensures slots[i] < cqes.Length && cqes[slots[i]] == Waiting()[i]
      {
        EntryAt(cqes[..], head, tail, head + i, k);
      }
    }

    /** Gives `n` consumed completions back to the kernel. */
    method Advance(n: nat)
      requires Valid() && Exact() && n <= |Waiting()|
      modifies `khead, `head, `consumed
      ensures Valid() && Exact() && Waiting() == old(Waiting())[n..]
      ensures consumed == old(consumed) + old(Waiting())[..n]
    {
      hide Between;
      WrappedNext(head, n);
      BetweenDrop(cqes[..], head, tail, n);
      consumed := consumed + Waiting()[..n];
      khead := (khead + n) % WRAP;
      head := head + n;
    }
  }

  // ---- memory layout ----

  function RoundUp(x: nat, page: nat): nat
    requires page > 0
  {
    (x + page - 1) / page * page
  }

  /** What the setup asks for with 512 entries: submission entries on whole pages, then ring header and
      completions, all rounded up. */
  function MemUsed(page: nat): nat
    requires page > 0
  {
    RoundUp(64 + RoundUp(512 * 64, page) + 2 * 512 * 16, page)
  }

  function Chunk3(page: nat): nat
    requires page > 0
  {
    RoundUp(512 * (64 + 2 * 16) + page, page)
  }

  lemma RoundUpExact(q: nat, page: nat)
    requires page > 0
    ensures RoundUp(page * q, page) == page * q
  {
    DivRem(page * q + page - 1, page, q, page - 1);
  }

  lemma Cancel(p: nat, a: nat, q: nat)
    requires p > 0 && p * a < p * q + p
    ensures a <= q && p * a <= p * q
  {
    assert a > q ==> p * a >= p * (q + 1);
  }

  /** Rounding up yields the least multiple that is not below. */
  lemma RoundUpLeast(x: nat, page: nat, q: nat)
    requires page > 0 && x <= page * q
    ensures x <= RoundUp(x, page) <= page * q
  {
    Cancel(page, (x + page - 1) / page, q);
  }

  lemma RoundUpMonotone(x: nat, y: nat, page: nat)
    requires page > 0 && x <= y
    ensures RoundUp(x, page) <= RoundUp(y, page)
  {
    var q := (y + page - 1) / page;
    assert y <= page * q;
    RoundUpLeast(x, page, q);
  }

  lemma {:induction false} Pow2Monotone(a: nat, b: nat)
    requires a <= b
    ensures Pow2(a) <= Pow2(b)
  {
    if a < b {
      Pow2Monotone(a, b - 1);
      Pow2Positive(b - 1);
    }
  }

  lemma TinyPages(p: nat, m: nat)
    requires p > 0 && p * m == 64
    ensures MemUsed(p) == 49216 && Chunk3(p) == 49152 + p
  {
    hide RoundUp;
    MulAssoc(p, m, 512);
    RoundUpExact(m * 512, p);
    MulAssoc(p, m, 769);
    RoundUpExact(m * 769, p);
    MulAssoc(p, m, 768);
    Distribute(p, m * 768, 1);
    RoundUpExact(m * 768 + 1, p);
  }

  /** The submission entries take whole pages: 32768 bytes, or one page when that is larger. */
  lemma EntriesMemory(k: nat)
    ensures var p := Pow2(k); 0 < p && RoundUp(32768, p) <= 32768 + (if k <= 15 then 0 else p - 32768)
  {
    var p := Pow2(k);
    Pow2Positive(k);
    assert Pow2(15) == 32768 by { Pow2Sum(5, 5); Pow2Sum(10, 5); }
    if k <= 15 {
      Pow2Sum(k, 15 - k);
      RoundUpExact(Pow2(15 - k), p);
    } else {
      Pow2Monotone(15, k);
      RoundUpLeast(32768, p, 1);
    }
  }

  /** The memory reserved for the rings suffices exactly for pages of at least 64 bytes. */
  lemma RingMemoryFits(k: nat)
    ensures Pow2(k) > 0 && (MemUsed(Pow2(k)) <= Chunk3(Pow2(k)) <==> Pow2(k) >= 64)
  {
    var p := Pow2(k);
    if k <= 5 {
      Pow2Positive(k);
      Pow2Sum(k, 6 - k);
      Pow2Monotone(k, 5);
      assert Pow2(5) == 32 && Pow2(6) == 64;
      TinyPages(p, Pow2(6 - k));
      hide MemUsed, Chunk3;
    } else {
      assert p >= 64 by { Pow2Monotone(6, k); assert Pow2(6) == 64; }
      EntriesMemory(k);
      hide RoundUp;
      RoundUpMonotone(64 + RoundUp(512 * 64, p) + 2 * 512 * 16, 512 * (64 + 2 * 16) + p, p);
    }
  }
}
