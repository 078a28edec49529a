/** The transmit path of virtio-net: the driver interleaved, step by step, with a
    conforming device.

    Driver steps follow the C code in program order (`Pc` is the driver's position
    between them), and the device may run between any two of them. Filling a buffer with
    its descriptor and busy flag is one step: the device does not look at a buffer that
    is not published. */
module VirtioNet {
  import opened Words
  import opened Virtqueue

  const TXBUFS: nat := 16
  const RXBUFS: nat := 32
  const BUFSZ: nat := 2048
  const MAX_FRAME: nat := 1514

  /** The length of the virtio-net header: 10 (legacy) or 12 (modern). */
  type HeaderLen = n: nat | n == 10 || n == 12 witness 10

  /** Between two memory updates the driver may have one buffer in hand. */
  datatype Pc = Idle | InHand(slot: nat) | Offered(slot: nat)

  function Overlay(was: seq<byte>, data: seq<byte>): (r: seq<byte>)
    requires |data| <= |was|
    ensures |r| == |was| && r[..|data|] == data
  {
    data + was[|data|..]
  }

  // ============================================================== transmission

  datatype Tx = Tx(q: Vq, busy: seq<bool>, bufs: seq<seq<byte>>, lens: seq<nat>, pc: Pc, hdr: HeaderLen)

  datatype TxStep =
    | Reclaim                   // driver: one turn of the v_reclaim loop
    | Fill(frame: seq<byte>)    // driver: v_send picks a slot, writes buffer and descriptor
    | OfferSlot                 // driver: v_send writes the avail entry
    | PublishSlot               // driver: v_send advances avail->idx
    | Take                      // device: reads the next avail entry
    | Transmit(id: nat)         // device: sends a buffer it holds and completes it

  function FirstFree(busy: seq<bool>): (k: nat)
    ensures k <= |busy| && (k < |busy| ==> !busy[k]) && forall i :: 0 <= i < k ==> busy[i]
    decreases busy
  {
    if busy == [] || !busy[0] then 0 else 1 + FirstFree(busy[1..])
  }

  /** The bytes the device reads for buffer `id`: as many as its descriptor says. */
  function Packet(s: Tx, id: nat): seq<byte>
    requires id < |s.bufs| && id < |s.lens| && s.lens[id] <= |s.bufs[id]|
  {
    s.bufs[id][..s.lens[id]]
  }

  ghost predicate TxShape(s: Tx) {
    && |s.busy| == |s.bufs| == |s.lens| == TXBUFS
    && (forall i :: 0 <= i < TXBUFS ==> |s.bufs[i]| == BUFSZ)
    && (forall i :: 0 <= i < TXBUFS ==> s.lens[i] <= BUFSZ)
    && |s.q.avail| == |s.q.used| > 0
    && (!s.pc.Idle? ==> s.pc.slot < TXBUFS)
    && (forall id :: id in s.q.held ==> id < TXBUFS)
  }

  ghost predicate TxEnabled(s: Tx, e: TxStep) {
    match e
    case Reclaim => s.pc.Idle? && HasUsed(s.q)
    case Fill(frame) => s.pc.Idle? && FirstFree(s.busy) < |s.busy| && |frame| <= MAX_FRAME
    case OfferSlot => s.pc.InHand?
    case PublishSlot => s.pc.Offered?
    case Take => s.q.devIdx != s.q.shared
    case Transmit(id) => id in s.q.held
  }

  function WireBytes(hdr: HeaderLen, frame: seq<byte>): (r: seq<byte>)
    ensures |r| == hdr + |frame| && r[hdr..] == frame && forall i :: 0 <= i < hdr ==> r[i] == 0
  {
    seq(hdr, _ => 0 as byte) + frame
  }

  function TxNext(s: Tx, e: TxStep): Tx
    requires TxShape(s) && TxEnabled(s, e)
  {
    match e
    case Reclaim =>
      var id := Oldest(s.q);
      s.(q := Collect(s.q), busy := if id < TXBUFS then s.busy[id := false] else s.busy)
    case Fill(frame) =>
      var slot := FirstFree(s.busy);
      var bytes := WireBytes(s.hdr, frame);
      s.(bufs := s.bufs[slot := Overlay(s.bufs[slot], bytes)], lens := s.lens[slot := |bytes|],
         busy := s.busy[slot := true], pc := InHand(slot))
    case OfferSlot => s.(q := Offer(s.q, s.pc.slot), pc := Offered(s.pc.slot))
    case PublishSlot => s.(q := Publish(s.q), pc := Idle)
    case Take => s.(q := Virtqueue.Take(s.q))
    case Transmit(id) => s.(q := Complete(s.q, id))
  }

  /** `sent` is what v_send accepted and published, `wire` what the device emitted. */
  datatype TxLog = TxLog(o: Owners, current: seq<byte>, sent: seq<seq<byte>>, wire: seq<seq<byte>>)

  ghost function TxTrack(s: Tx, h: TxLog, e: TxStep): TxLog
    requires TxShape(s) && TxEnabled(s, e)
  {
    match e
    case Reclaim => h.(o := h.o.(done := if h.o.done == [] then [] else h.o.done[1..], collected := h.o.collected + 1))
    case Fill(frame) => h.(current := WireBytes(s.hdr, frame))
    case OfferSlot => h
    case PublishSlot => h.(o := h.o.(posted := h.o.posted + [s.pc.slot]), sent := h.sent + [h.current])
    case Take => h.(o := h.o.(posted := if h.o.posted == [] then [] else h.o.posted[1..], taken := h.o.taken + 1))
    case Transmit(id) => h.(o := h.o.(done := h.o.done + [id]), wire := h.wire + [Packet(s, id)])
  }

  /** Published and not yet completed: the device may still read these bytes. */
  ghost predicate InFlight(q: Vq, o: Owners, id: nat) {
    id in o.posted || id in q.held
  }

  /** The packets in flight among the first `n` buffers. */
  ghost function Live(s: Tx, o: Owners, n: nat): multiset<seq<byte>>
    requires TxShape(s) && n <= TXBUFS
  {
    if n == 0 then multiset{}
    else Live(s, o, n - 1) + if InFlight(s.q, o, n - 1) then multiset{Packet(s, n - 1)} else multiset{}
  }

  ghost predicate TxInv(s: Tx, h: TxLog) {
    && TxShape(s)
    && Virtqueue.Inv(s.q, h.o, TXBUFS)
    && (forall id :: 0 <= id < TXBUFS ==>
          (s.busy[id] <==> !Free(s.q, h.o, id) || (!s.pc.Idle? && s.pc.slot == id)))
    && (!s.pc.Idle? ==> Free(s.q, h.o, s.pc.slot) && Packet(s, s.pc.slot) == h.current)
    && (s.pc.Offered? ==> RingHolds(s.q.avail, h.o.taken, h.o.posted + [s.pc.slot]))
    && multiset(h.sent) == multiset(h.wire) + Live(s, h.o, TXBUFS)
  }

  lemma {:induction false} LiveSame(s: Tx, o: Owners, s': Tx, o': Owners, n: nat)
    requires TxShape(s) && TxShape(s') && n <= TXBUFS
    requires forall id :: 0 <= id < n ==> (InFlight(s.q, o, id) <==> InFlight(s'.q, o', id))
    requires forall id :: 0 <= id < n && InFlight(s.q, o, id) ==> Packet(s, id) == Packet(s', id)
    ensures Live(s, o, n) == Live(s', o', n)
  {
    if n == 0 {
    } else {
      LiveSame(s, o, s', o', n - 1);
    }
  }

  lemma LiveOne(s: Tx, o: Owners, n: nat)
    requires TxShape(s) && 0 < n <= TXBUFS
    ensures Live(s, o, n) == Live(s, o, n - 1) + if InFlight(s.q, o, n - 1) then multiset{Packet(s, n - 1)} else multiset{}
  {
  }

  lemma {:induction false} LiveAdd(s: Tx, o: Owners, s': Tx, o': Owners, n: nat, x: nat)
    requires TxShape(s) && TxShape(s') && x < n <= TXBUFS
    requires !InFlight(s.q, o, x) && InFlight(s'.q, o', x)
    requires forall id :: 0 <= id < n && id != x ==> (InFlight(s.q, o, id) <==> InFlight(s'.q, o', id))
    requires forall id :: 0 <= id < n && InFlight(s.q, o, id) ==> Packet(s, id) == Packet(s', id)
    ensures Live(s', o', n) == Live(s, o, n) + multiset{Packet(s', x)}
  {
    hide InFlight, Packet, Live;
    LiveOne(s, o, n);
    LiveOne(s', o', n);
    if x == n - 1 {
      LiveSame(s, o, s', o', n - 1);
    } else {
      LiveAdd(s, o, s', o', n - 1, x);
    }
  }

  lemma ReclaimStep(s: Tx, h: TxLog)
    requires TxInv(s, h) && TxEnabled(s, Reclaim)
    ensures TxInv(TxNext(s, Reclaim), TxTrack(s, h, Reclaim))
  {
    hide RingHolds, Divides, At, Put, Live;
    CollectKeeps(s.q, h.o, TXBUFS);
    DropFirst(h.o.done);
    LiveSame(s, h.o, TxNext(s, Reclaim), TxTrack(s, h, Reclaim).o, TXBUFS);
  }

  /** The slot v_send rewrites is never in flight, nor waiting to be reclaimed. */
  lemma FillStep(s: Tx, h: TxLog, frame: seq<byte>)
    requires TxInv(s, h) && TxEnabled(s, Fill(frame))
    ensures Free(s.q, h.o, FirstFree(s.busy))
    ensures TxInv(TxNext(s, Fill(frame)), TxTrack(s, h, Fill(frame)))
  {
    hide RingHolds, Divides, At, Put, Live;
    LiveSame(s, h.o, TxNext(s, Fill(frame)), h.o, TXBUFS);
  }

  lemma OfferStep(s: Tx, h: TxLog)
    requires TxInv(s, h) && TxEnabled(s, OfferSlot)
    ensures TxInv(TxNext(s, OfferSlot), h)
  {
    OfferKeeps(s.q, h.o, TXBUFS, s.pc.slot);
    hide RingHolds, Divides, At, Put, Live;
    LiveSame(s, h.o, TxNext(s, OfferSlot), h.o, TXBUFS);
  }

  lemma PublishStep(s: Tx, h: TxLog)
    requires TxInv(s, h) && TxEnabled(s, PublishSlot)
    ensures TxInv(TxNext(s, PublishSlot), TxTrack(s, h, PublishSlot))
  {
    hide RingHolds, Divides, At, Put, Live;
    PublishKeeps(s.q, h.o, TXBUFS, s.pc.slot);
    var o' := TxTrack(s, h, PublishSlot).o;
    LiveAdd(s, h.o, TxNext(s, PublishSlot), o', TXBUFS, s.pc.slot);
  }

  lemma TakeStep(s: Tx, h: TxLog)
    requires TxInv(s, h) && TxEnabled(s, Take)
    ensures TxInv(TxNext(s, Take), TxTrack(s, h, Take))
  {
    hide RingHolds, Divides, At, Put, Live;
    TakeKeeps(s.q, h.o, TXBUFS);
    DropFirst(h.o.posted);
    if s.pc.Offered? {
      var ahead := h.o.posted + [s.pc.slot];
      RingPop(s.q.avail, h.o.taken, ahead);
      assert ahead[1..] == h.o.posted[1..] + [s.pc.slot];
    }
    LiveSame(s, h.o, TxNext(s, Take), TxTrack(s, h, Take).o, TXBUFS);
  }

  lemma TransmitStep(s: Tx, h: TxLog, id: nat)
    requires TxInv(s, h) && TxEnabled(s, Transmit(id))
    ensures TxInv(TxNext(s, Transmit(id)), TxTrack(s, h, Transmit(id)))
  {
    hide RingHolds, Divides, At, Put, Live;
    CompleteKeeps(s.q, h.o, TXBUFS, id);
    LiveAdd(TxNext(s, Transmit(id)), TxTrack(s, h, Transmit(id)).o, s, h.o, TXBUFS, id);
  }

  lemma TxStepKeeps(s: Tx, h: TxLog, e: TxStep)
    requires TxInv(s, h) && TxEnabled(s, e)
    ensures TxInv(TxNext(s, e), TxTrack(s, h, e))
  {
    hide TxInv;
    match e
    case Reclaim => ReclaimStep(s, h);
    case Fill(frame) => FillStep(s, h, frame);
    case OfferSlot => OfferStep(s, h);
    case PublishSlot => PublishStep(s, h);
    case Take => TakeStep(s, h);
    case Transmit(id) => TransmitStep(s, h, id);
  }

  function TxStart(size: nat, hdr: HeaderLen): Tx {
    Tx(Create(size), seq(TXBUFS, _ => false), seq(TXBUFS, _ => seq(BUFSZ, _ => 0 as byte)),
       seq(TXBUFS, _ => 0), Idle, hdr)
  }

  const NO_TX: TxLog := TxLog(Owners([], [], 0, 0), [], [], [])

  /** `steps` is one interleaving of driver and device from `s`, ending in `(t, h')`. */
  ghost predicate TxRun(s: Tx, h: TxLog, steps: seq<TxStep>, t: Tx, h': TxLog)
    decreases steps
  {
    if steps == [] then t == s && h' == h
    else TxShape(s) && TxEnabled(s, steps[0]) &&
         TxRun(TxNext(s, steps[0]), TxTrack(s, h, steps[0]), steps[1..], t, h')
  }

  lemma {:induction false} TxRunKeeps(s: Tx, h: TxLog, steps: seq<TxStep>, t: Tx, h': TxLog)
    requires TxInv(s, h) && TxRun(s, h, steps, t, h')
    ensures TxInv(t, h')
    decreases steps
  {
    hide TxInv;
    if steps == [] {
    } else {
      TxStepKeeps(s, h, steps[0]);
      TxRunKeeps(TxNext(s, steps[0]), TxTrack(s, h, steps[0]), steps[1..], t, h');
    }
  }

  lemma TxStartInv(size: nat, hdr: HeaderLen)
    requires Divides(size, 0x1_0000) && TXBUFS <= size
    ensures TxInv(TxStart(size, hdr), NO_TX)
  {
    CreateKeeps(size, TXBUFS);
    hide Divides, Virtqueue.Inv;
    NoneLive(TxStart(size, hdr), NO_TX.o, TXBUFS);
  }

  lemma {:induction false} NoneLive(s: Tx, o: Owners, n: nat)
    requires TxShape(s) && n <= TXBUFS && s.q.held == {} && o.posted == []
    ensures Live(s, o, n) == multiset{}
  {
    if n == 0 {
    } else {
      NoneLive(s, o, n - 1);
    }
  }

  /** Transmit safety in every interleaving, for queues of at least 16 entries:
      each published packet is on the wire at most once and unaltered (what was sent
      is exactly what the device emitted plus what is still in flight), the slot the
      driver would fill next belongs to nobody, the entries the device has yet to
      read are intact, and the driver's next completion is the oldest one. */
  lemma TransmitSafety(size: nat, hdr: HeaderLen, steps: seq<TxStep>, t: Tx, h: TxLog)
    requires Divides(size, 0x1_0000) && TXBUFS <= size
    requires TxRun(TxStart(size, hdr), NO_TX, steps, t, h)
    ensures TxShape(t)
    ensures multiset(h.sent) == multiset(h.wire) + Live(t, h.o, TXBUFS)
    ensures FirstFree(t.busy) < TXBUFS && t.pc.Idle? ==> Free(t.q, h.o, FirstFree(t.busy))
    ensures RingHolds(t.q.avail, h.o.taken, h.o.posted)
    ensures HasUsed(t.q) <==> h.o.done != []
    ensures h.o.done != [] ==> Oldest(t.q) == h.o.done[0]
  {
    TxStartInv(size, hdr);
    TxRunKeeps(TxStart(size, hdr), NO_TX, steps, t, h);
    hide RingHolds, Divides, At, Put, Live;
    CollectKeeps(t.q, h.o, TXBUFS);
  }

  /** The frames handed to v_send along a run. */
  function Given(steps: seq<TxStep>): seq<seq<byte>> {
    if steps == [] then [] else (if steps[0].Fill? then [steps[0].frame] else []) + Given(steps[1..])
  }

  /** A packet on the wire: an all-zero virtio header of 10 or 12 bytes, then the frame. */
  ghost predicate Wraps(packet: seq<byte>, hdr: nat, frame: seq<byte>) {
    |packet| == hdr + |frame| && packet[hdr..] == frame && forall i :: 0 <= i < hdr ==> packet[i] == 0
  }

  /** What was accepted before a moment and what is in the driver's hand then. */
  ghost function Accepted(s: Tx, h: TxLog): seq<seq<byte>> {
    h.sent + if s.pc.Idle? then [] else [h.current]
  }

  ghost predicate AllWrap(packets: seq<seq<byte>>, hdr: nat, frames: seq<seq<byte>>) {
    |packets| == |frames| && forall i :: 0 <= i < |packets| ==> Wraps(packets[i], hdr, frames[i])
  }

  lemma {:induction false} AcceptedGrows(s: Tx, h: TxLog, steps: seq<TxStep>, t: Tx, h': TxLog, before: seq<seq<byte>>)
    requires TxRun(s, h, steps, t, h') && AllWrap(Accepted(s, h), s.hdr, before)
    ensures t.hdr == s.hdr && AllWrap(Accepted(t, h'), s.hdr, before + Given(steps))
    decreases steps
  {
    hide TxShape, TxNext, TxTrack, TxEnabled, Accepted, AllWrap;
    if steps == [] {
      assert before + Given(steps) == before;
    } else {
      var e := steps[0];
      var s1, h1 := TxNext(s, e), TxTrack(s, h, e);
      var now := before + if e.Fill? then [e.frame] else [];
      AcceptedStep(s, h, e, before);
      assert before + Given(steps) == now + Given(steps[1..]);
      AcceptedGrows(s1, h1, steps[1..], t, h', now);
    }
  }

  lemma AcceptedStep(s: Tx, h: TxLog, e: TxStep, before: seq<seq<byte>>)
    requires TxShape(s) && TxEnabled(s, e) && AllWrap(Accepted(s, h), s.hdr, before)
    ensures var s1, h1 := TxNext(s, e), TxTrack(s, h, e);
      s1.hdr == s.hdr && AllWrap(Accepted(s1, h1), s.hdr, before + if e.Fill? then [e.frame] else [])
  {
    hide At, Put;
  }

  /** The packets published are the frames given to v_send, in order, each behind its
      header; at most the last frame is still in the driver's hand. */
  lemma SentIsGiven(size: nat, hdr: HeaderLen, steps: seq<TxStep>, t: Tx, h: TxLog)
    requires size > 0 && TxRun(TxStart(size, hdr), NO_TX, steps, t, h)
    ensures |h.sent| <= |Given(steps)| <= |h.sent| + 1 && (t.pc.Idle? ==> |h.sent| == |Given(steps)|)
    ensures forall i :: 0 <= i < |h.sent| ==> Wraps(h.sent[i], hdr, Given(steps)[i])
  {
    var none: seq<seq<byte>> := [];
    AcceptedGrows(TxStart(size, hdr), NO_TX, steps, t, h, none);
    assert none + Given(steps) == Given(steps);
    hide Wraps, TxRun;
    forall i | 0 <= i < |h.sent| ensures Wraps(h.sent[i], hdr, Given(steps)[i]) {
      assert Accepted(t, h)[i] == h.sent[i];
    }
  }

  // ------------------------------------------ the queue size is a real condition

  /** The state after `k` sends that no device has looked at. */
  ghost predicate Flooded(s: Tx, size: nat, k: nat) {
    && TxShape(s) && s.pc.Idle? && |s.q.avail| == size && k <= size
    && s.q.availIdx == s.q.shared == k && s.q.devIdx == 0
    && (forall i :: 0 <= i < TXBUFS ==> s.busy[i] == (i < k))
    && (forall i :: 0 <= i < k ==> s.q.avail[i] == i)
  }

  lemma {:induction false} Flood(s: Tx, h: TxLog, size: nat, k: nat) returns (steps: seq<TxStep>, t: Tx, h': TxLog)
    requires 0 < size < TXBUFS && Flooded(s, size, k) && h.o.taken == 0
    requires |h.o.posted| == k && (k > 0 ==> h.o.posted[0] == 0)
    ensures TxRun(s, h, steps, t, h') && Flooded(t, size, size)
    ensures h'.o.taken == 0 && |h'.o.posted| == size && h'.o.posted[0] == 0
    decreases size - k
  {
    if k == size {
      steps, t, h' := [], s, h;
    } else {
      var s3, h3 := FloodOnce(s, h, size, k);
      hide TxNext, TxTrack, Flooded;
      var rest;
      rest, t, h' := Flood(s3, h3, size, k + 1);
      steps := SEND + rest;
      TxRunConcat(s, h, SEND, s3, h3, rest, t, h');
    }
  }

  const SEND: seq<TxStep> := [Fill([]), OfferSlot, PublishSlot]

  lemma FloodOnce(s: Tx, h: TxLog, size: nat, k: nat) returns (t: Tx, h': TxLog)
    requires k < size < TXBUFS && Flooded(s, size, k) && h.o.taken == 0
    requires |h.o.posted| == k && (k > 0 ==> h.o.posted[0] == 0)
    ensures TxRun(s, h, SEND, t, h') && Flooded(t, size, k + 1)
    ensures h'.o.taken == 0 && |h'.o.posted| == k + 1 && h'.o.posted[0] == 0
  {
    hide Put;
    FirstFreeIs(s.busy, k);
    PutSmall(s.q.avail, k, k);
    var s1 := TxNext(s, Fill([]));
    var h1 := TxTrack(s, h, Fill([]));
    var s2 := TxNext(s1, OfferSlot);
    t, h' := TxNext(s2, PublishSlot), TxTrack(s2, h1, PublishSlot);
    assert SEND[1..] == [OfferSlot, PublishSlot];
    assert SEND[1..][1..] == [PublishSlot];
    assert TxRun(s2, h1, [PublishSlot], t, h');
    assert TxRun(s1, h1, [OfferSlot, PublishSlot], t, h');
  }

  lemma PutSmall(ring: seq<nat>, k: nat, id: nat)
    requires k < |ring|
    ensures Put(ring, k, id) == ring[k := id]
  {
  }

  lemma FirstFreeIs(busy: seq<bool>, k: nat)
    requires k < |busy| && !busy[k] && forall i :: 0 <= i < k ==> busy[i]
    ensures FirstFree(busy) == k
  {
  }

  /** With fewer than 16 entries the protection is lost: some interleaving (one more
      send than the queue has entries) overwrites the oldest entry before the device
      has read it, so the device is handed a buffer that was never its turn. */
  lemma SmallQueueOverwritten(size: nat, hdr: HeaderLen) returns (steps: seq<TxStep>, t: Tx, h: TxLog)
    requires 0 < size < TXBUFS
    ensures TxRun(TxStart(size, hdr), NO_TX, steps, t, h)
    ensures TxEnabled(t, Take) && h.o.posted != [] && |t.q.avail| > 0 && Virtqueue.Next(t.q) != h.o.posted[0]
  {
    var s0 := TxStart(size, hdr);
    var first, s, h0 := Flood(s0, NO_TX, size, 0);
    FirstFreeIs(s.busy, size);
    assert size % size == 0;
    var s1 := TxNext(s, Fill([]));
    var h1 := TxTrack(s, h0, Fill([]));
    t, h := TxNext(s1, OfferSlot), TxTrack(s1, h1, OfferSlot);
    steps := first + [Fill([]), OfferSlot];
    assert [Fill([]), OfferSlot][1..] == [OfferSlot];
    assert TxRun(s, h0, [Fill([]), OfferSlot], t, h);
    TxRunConcat(s0, NO_TX, first, s, h0, [Fill([]), OfferSlot], t, h);
  }

  lemma {:induction false} TxRunConcat(s: Tx, h: TxLog, xs: seq<TxStep>, m: Tx, hm: TxLog, ys: seq<TxStep>, t: Tx, ht: TxLog)
    requires TxRun(s, h, xs, m, hm) && TxRun(m, hm, ys, t, ht)
    ensures TxRun(s, h, xs + ys, t, ht)
    decreases xs
  {
    hide TxShape, TxNext, TxTrack, TxEnabled;
    if xs == [] {
      assert xs + ys == ys;
    } else {
      assert (xs + ys)[1..] == xs[1..] + ys;
      TxRunConcat(TxNext(s, xs[0]), TxTrack(s, h, xs[0]), xs[1..], m, hm, ys, t, ht);
    }
  }
}
