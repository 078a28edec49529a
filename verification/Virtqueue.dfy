/** One split virtqueue shared by driver and device: two rings addressed by
    free-running 16-bit indices. `Vq` is the memory both sides see; `Owners` is who
    holds which buffer. The invariant ties the two together across index wrap. */
module Virtqueue {
  datatype Vq = Vq(
    avail: seq<nat>,   // avail ring entries
    availIdx: nat,     // the driver's private copy of its index
    shared: nat,       // avail->idx, what the device sees
    used: seq<nat>,    // used ring entries
    usedIdx: nat,      // used->idx, written by the device
    lastUsed: nat,     // the driver's position in the used ring
    devIdx: nat,       // the device's position in the avail ring
    held: set<nat>)    // buffers the device is working on

  /** `posted` is published and not yet read by the device, `done` is completed and
      not yet collected by the driver; the counters are exact, never wrapped. */
  datatype Owners = Owners(posted: seq<nat>, done: seq<nat>, taken: nat, collected: nat)

  // ------------------------------------------------------------- atomic steps

  /** Ring access at a free-running position. */
  function At(ring: seq<nat>, pos: nat): nat
    requires |ring| > 0
  {
    ring[pos % |ring|]
  }

  function Put(ring: seq<nat>, pos: nat, id: nat): (r: seq<nat>)
    requires |ring| > 0
    ensures |r| == |ring|
  {
    ring[pos % |ring| := id]
  }

  function Create(size: nat): Vq {
    Vq(seq(size, _ => 0), 0, 0, seq(size, _ => 0), 0, 0, 0, {})
  }

  /** Driver: write the next avail entry (not yet visible). */
  function Offer(q: Vq, id: nat): Vq
    requires |q.avail| > 0
  {
    q.(avail := Put(q.avail, q.availIdx, id))
  }

  /** Driver: advance the index and publish it. */
  function Publish(q: Vq): Vq {
    q.(availIdx := (q.availIdx + 1) % 0x1_0000, shared := (q.availIdx + 1) % 0x1_0000)
  }

  /** Device: the next published buffer. */
  function Next(q: Vq): nat
    requires |q.avail| > 0
  {
    At(q.avail, q.devIdx)
  }

  function Take(q: Vq): Vq
    requires |q.avail| > 0
  {
    q.(devIdx := (q.devIdx + 1) % 0x1_0000, held := q.held + {Next(q)})
  }

  /** Device: return a buffer it holds, in any order. */
  function Complete(q: Vq, id: nat): Vq
    requires |q.used| > 0
  {
    q.(used := Put(q.used, q.usedIdx, id), usedIdx := (q.usedIdx + 1) % 0x1_0000, held := q.held - {id})
  }

  /** Driver: the test of its polling loops, on the 16-bit indices alone. */
  predicate HasUsed(q: Vq) {
    q.lastUsed != q.usedIdx
  }

  function Oldest(q: Vq): nat
    requires |q.used| > 0
  {
    At(q.used, q.lastUsed)
  }

  function Collect(q: Vq): Vq {
    q.(lastUsed := (q.lastUsed + 1) % 0x1_0000)
  }

  // ---------------------------------------------------------------- invariant

  /** Entry i of `items` sits at position `start + i` of the ring. */
  ghost predicate RingHolds(ring: seq<nat>, start: nat, items: seq<nat>) {
    && 0 < |ring| && |items| <= |ring|
    && forall i {:trigger items[i]} :: 0 <= i < |items| ==> At(ring, start + i) == items[i]
  }

  ghost predicate Distinct(s: seq<nat>) {
    forall i, j :: 0 <= i < j < |s| ==> s[i] != s[j]
  }

  /** Nobody else owns a buffer that the device or a ring owns. */
  ghost predicate Disjoint(q: Vq, o: Owners, n: nat) {
    && Distinct(o.posted) && Distinct(o.done)
    && (forall id :: id in o.posted ==> id < n && id !in o.done && id !in q.held)
    && (forall id :: id in o.done ==> id < n && id !in q.held)
    && (forall id :: id in q.held ==> id < n)
  }

  ghost predicate Indices(q: Vq, o: Owners) {
    && q.availIdx == q.shared == (o.taken + |o.posted|) % 0x1_0000
    && q.devIdx == o.taken % 0x1_0000
    && q.usedIdx == (o.collected + |o.done|) % 0x1_0000
    && q.lastUsed == o.collected % 0x1_0000
  }

  ghost predicate Divides(size: nat, whole: nat) {
    0 < size && whole % size == 0
  }

  /** `n` buffers circulate in a queue of at least `n` entries. */
  ghost predicate Inv(q: Vq, o: Owners, n: nat) {
    && |q.avail| == |q.used| && n <= |q.avail| && Divides(|q.avail|, 0x1_0000) && n < 0x1_0000
    && Indices(q, o)
    && Disjoint(q, o, n)
    && RingHolds(q.avail, o.taken, o.posted)
    && RingHolds(q.used, o.collected, o.done)
  }

  ghost predicate Free(q: Vq, o: Owners, id: nat) {
    id !in o.posted && id !in o.done && id !in q.held
  }

  // --------------------------------------------------------------- arithmetic

  lemma ModAdd(x: int, k: int, q: int)
    requires q > 0
    ensures (x + k * q) % q == x % q
  {
    var d, r := x / q, x % q;
    assert x + k * q == (d + k) * q + r;
    ModUnique(x + k * q, d + k, r, q);
  }

  lemma ModUnique(x: int, d: int, r: int, q: int)
    requires q > 0 && 0 <= r < q && x == d * q + r
    ensures x % q == r
  {
    SmallMultiple(d - x / q, q, x % q - r);
  }

  /** The only multiple of `q` strictly between `-q` and `q` is zero. */
  lemma SmallMultiple(k: int, q: int, x: int)
    requires -q < x < q && k * q == x
    ensures x == 0
  {
  }

  /** A 16-bit index selects the same entry as the exact counter. */
  lemma WrappedIndex(ring: seq<nat>, x: nat)
    requires Divides(|ring|, 0x1_0000)
    ensures At(ring, x % 0x1_0000) == At(ring, x)
    ensures forall id :: Put(ring, x % 0x1_0000, id) == Put(ring, x, id)
  {
    var size := |ring|;
    var m := 0x1_0000 / size;
    assert m * size == 0x1_0000;
    var k := x / 0x1_0000;
    assert x == x % 0x1_0000 + (k * m) * size;
    ModAdd(x % 0x1_0000, k * m, size);
  }

  /** Positions less than one lap apart are different entries. */
  lemma LapDistinct(a: nat, b: nat, size: nat)
    requires a < b < a + size
    ensures a % size != b % size
  {
    if a % size == b % size {
      SmallMultiple(b / size - a / size, size, b - a);
    }
  }

  /** Distinct numbers below `n` are at most `n` many. */
  lemma {:induction false} Pigeonhole(s: seq<nat>, n: nat)
    requires Distinct(s) && forall x :: x in s ==> x < n
    ensures |s| <= n
  {
    SetOfDistinct(s);
    BoundedSet(Elements(s), n);
  }

  ghost function Elements(s: seq<nat>): set<nat> {
    set x | x in s
  }

  lemma {:induction false} SetOfDistinct(s: seq<nat>)
    requires Distinct(s)
    ensures |Elements(s)| == |s|
  {
    if s == [] {
    } else {
      var init := s[..|s| - 1];
      SetOfDistinct(init);
      assert s == init + [s[|s| - 1]];
      assert Elements(s) == Elements(init) + {s[|s| - 1]};
    }
  }

  lemma {:induction false} BoundedSet(s: set<nat>, n: nat)
    requires forall x :: x in s ==> x < n
    ensures |s| <= n
  {
    if n > 0 {
      BoundedSet(s - {n - 1}, n - 1);
    } else {
      assert s == {};
    }
  }

  lemma DropFirst(s: seq<nat>)
    requires s != [] && Distinct(s)
    ensures Distinct(s[1..]) && s[0] !in s[1..]
    ensures forall x :: x in s <==> x == s[0] || x in s[1..]
  {
  }

  // ------------------------------------------------------------- ring lemmas

  lemma RingPush(ring: seq<nat>, start: nat, items: seq<nat>, id: nat)
    requires RingHolds(ring, start, items) && |items| < |ring|
    ensures RingHolds(Put(ring, start + |items|, id), start, items)
    ensures RingHolds(Put(ring, start + |items|, id), start, items + [id])
  {
    forall i | 0 <= i < |items| ensures At(Put(ring, start + |items|, id), start + i) == items[i] {
      LapDistinct(start + i, start + |items|, |ring|);
    }
  }

  lemma RingPop(ring: seq<nat>, start: nat, items: seq<nat>)
    requires RingHolds(ring, start, items) && items != []
    ensures At(ring, start) == items[0]
    ensures RingHolds(ring, start + 1, items[1..])
  {
  }

  // ------------------------------------------------------- steps keep the tie

  lemma CreateKeeps(size: nat, n: nat)
    requires Divides(size, 0x1_0000) && n <= size && n < 0x1_0000
    ensures Inv(Create(size), Owners([], [], 0, 0), n)
  {
  }

  /** There is room for one more published entry while some buffer is free. */
  lemma RoomFor(s: seq<nat>, id: nat, n: nat)
    requires Distinct(s) && id < n && id !in s && forall x :: x in s ==> x < n
    ensures |s| < n
  {
    Pigeonhole(s + [id], n);
  }

  /** Writing the next entry disturbs no entry the device has yet to read. */
  lemma OfferKeeps(q: Vq, o: Owners, n: nat, id: nat)
    requires Inv(q, o, n) && id < n && Free(q, o, id)
    ensures Inv(Offer(q, id), o, n)
    ensures RingHolds(Offer(q, id).avail, o.taken, o.posted + [id])
  {
    hide Divides, At, Put;
    RoomFor(o.posted, id, n);
    WrappedIndex(q.avail, o.taken + |o.posted|);
    RingPush(q.avail, o.taken, o.posted, id);
  }

  lemma PublishKeeps(q: Vq, o: Owners, n: nat, id: nat)
    requires Inv(q, o, n) && id < n && Free(q, o, id)
    requires RingHolds(q.avail, o.taken, o.posted + [id])
    ensures Inv(Publish(q), o.(posted := o.posted + [id]), n)
  {
    hide RingHolds;
  }

  /** The device sees work exactly when something is posted, and reads it in order. */
  lemma TakeKeeps(q: Vq, o: Owners, n: nat)
    requires Inv(q, o, n)
    ensures q.devIdx != q.shared <==> o.posted != []
    ensures o.posted != [] ==>
      Next(q) == o.posted[0] && Inv(Take(q), o.(posted := o.posted[1..], taken := o.taken + 1), n)
  {
    hide Divides, At, Put;
    Pigeonhole(o.posted, n);
    WrappedIndex(q.avail, o.taken);
    if o.posted != [] {
      RingPop(q.avail, o.taken, o.posted);
      TakeDisjoint(q, o, n);
      hide RingHolds, Disjoint;
    }
  }

  lemma TakeDisjoint(q: Vq, o: Owners, n: nat)
    requires Disjoint(q, o, n) && o.posted != [] && |q.avail| > 0 && Next(q) == o.posted[0]
    ensures Disjoint(Take(q), o.(posted := o.posted[1..], taken := o.taken + 1), n)
  {
    hide At;
    DropFirst(o.posted);
  }

  lemma CollectDisjoint(q: Vq, o: Owners, n: nat)
    requires Disjoint(q, o, n) && o.done != []
    ensures Disjoint(Collect(q), o.(done := o.done[1..], collected := o.collected + 1), n)
  {
    DropFirst(o.done);
  }

  lemma CompleteKeeps(q: Vq, o: Owners, n: nat, id: nat)
    requires Inv(q, o, n) && id in q.held
    ensures Inv(Complete(q, id), o.(done := o.done + [id]), n)
  {
    hide Divides, At, Put;
    RoomFor(o.done, id, n);
    WrappedIndex(q.used, o.collected + |o.done|);
    RingPush(q.used, o.collected, o.done, id);
    hide RingHolds;
  }

  /** The driver's 16-bit comparison is exact, and it collects completions in order. */
  lemma CollectKeeps(q: Vq, o: Owners, n: nat)
    requires Inv(q, o, n)
    ensures HasUsed(q) <==> o.done != []
    ensures o.done != [] ==>
      Oldest(q) == o.done[0] && Inv(Collect(q), o.(done := o.done[1..], collected := o.collected + 1), n)
  {
    hide Divides, At, Put, RingHolds, Disjoint;
    DoneFits(q, o, n);
    WrappedIndex(q.used, o.collected);
    if o.done != [] {
      RingFirst(q.used, o.collected, o.done);
      RingPop(q.used, o.collected, o.done);
      CollectDisjoint(q, o, n);
    }
  }

  lemma DoneFits(q: Vq, o: Owners, n: nat)
    requires Disjoint(q, o, n)
    ensures |o.done| <= n
  {
    Pigeonhole(o.done, n);
  }

  lemma RingFirst(ring: seq<nat>, start: nat, items: seq<nat>)
    requires RingHolds(ring, start, items) && items != []
    ensures |ring| > 0 && At(ring, start) == items[0]
  {
    hide At;
    assert At(ring, start + 0) == items[0];
  }
}
