/** The receive path of virtio-net: every buffer circulates between the avail ring,
    the device, the used ring and the driver, and frames come out in order. */
module VirtioRx {
  import opened Words
  import opened Virtqueue
  import opened VirtioNet

  /** `usedLens` is the length half of the used ring; `cap` is the caller's buffer. */
  datatype Rx = Rx(q: Vq, usedLens: seq<nat>, bufs: seq<seq<byte>>, pc: Pc, hdr: HeaderLen, cap: nat)

  datatype RxStep =
    | Gather                              // driver: one turn of the v_recv loop
    | OfferBack                           // driver: v_post_rx writes the avail entry
    | PublishBack                         // driver: v_post_rx advances avail->idx
    | Claim                               // device: claims the next posted buffer
    | Deposit(id: nat, packet: seq<byte>) // device: fills a buffer it holds and completes it

  ghost predicate RxShape(s: Rx) {
    && |s.bufs| <= RXBUFS && (forall i :: 0 <= i < |s.bufs| ==> |s.bufs[i]| == BUFSZ)
    && |s.q.avail| == |s.q.used| == |s.usedLens| > 0
    && (!s.pc.Idle? ==> s.pc.slot < |s.bufs|)
    && (forall id :: id in s.q.held ==> id < |s.bufs|)
  }

  ghost predicate RxEnabled(s: Rx, e: RxStep) {
    match e
    case Gather => s.pc.Idle? && HasUsed(s.q)
    case OfferBack => s.pc.InHand?
    case PublishBack => s.pc.Offered?
    case Claim => s.q.devIdx != s.q.shared
    case Deposit(id, packet) => id in s.q.held && |packet| <= BUFSZ
  }

  /** A packet longer than an Ethernet header that fits the caller's buffer. */
  predicate Good(hdr: nat, cap: nat, len: nat) {
    len > hdr + 14 && len - hdr <= cap
  }

  function RxNext(s: Rx, e: RxStep): Rx
    requires RxShape(s) && RxEnabled(s, e)
  {
    match e
    case Gather =>
      var id := Oldest(s.q);
      s.(q := Collect(s.q), pc := if id < |s.bufs| then InHand(id) else Idle)
    case OfferBack => s.(q := Offer(s.q, s.pc.slot), pc := Offered(s.pc.slot))
    case PublishBack => s.(q := Publish(s.q), pc := Idle)
    case Claim => s.(q := Virtqueue.Take(s.q))
    case Deposit(id, packet) =>
      s.(q := Complete(s.q, id), bufs := s.bufs[id := Overlay(s.bufs[id], packet)],
         usedLens := Put(s.usedLens, s.q.usedIdx, |packet|))
  }

  /** What one turn of v_recv hands to the stack: nothing, or one frame. */
  function Handed(s: Rx): seq<seq<byte>>
    requires RxShape(s)
  {
    var id, len := Oldest(s.q), At(s.usedLens, s.q.lastUsed);
    if id < |s.bufs| && Good(s.hdr, s.cap, len) && len <= BUFSZ then [s.bufs[id][s.hdr..len]] else []
  }

  /** `arrived` is everything the device deposited, `handed` what the stack was given. */
  datatype RxLog = RxLog(o: Owners, arrived: seq<seq<byte>>, handed: seq<seq<byte>>)

  ghost function RxTrack(s: Rx, h: RxLog, e: RxStep): RxLog
    requires RxShape(s) && RxEnabled(s, e)
  {
    match e
    case Gather =>
      h.(o := h.o.(done := if h.o.done == [] then [] else h.o.done[1..], collected := h.o.collected + 1),
         handed := h.handed + Handed(s))
    case OfferBack => h
    case PublishBack => h.(o := h.o.(posted := h.o.posted + [s.pc.slot]))
    case Claim => h.(o := h.o.(posted := if h.o.posted == [] then [] else h.o.posted[1..], taken := h.o.taken + 1))
    case Deposit(id, packet) => h.(o := h.o.(done := h.o.done + [id]), arrived := h.arrived + [packet])
  }

  /** The frames among `packets` that v_recv accepts, in order, headers removed. */
  function Frames(hdr: nat, cap: nat, packets: seq<seq<byte>>): seq<seq<byte>> {
    if packets == [] then []
    else
      var n := |packets| - 1;
      var p := packets[n];
      Frames(hdr, cap, packets[..n]) + if Good(hdr, cap, |p|) then [p[hdr..]] else []
  }

  ghost function Lengths(packets: seq<seq<byte>>): (r: seq<nat>)
    ensures |r| == |packets| && forall i :: 0 <= i < |r| ==> r[i] == |packets[i]|
  {
    if packets == [] then [] else Lengths(packets[..|packets| - 1]) + [|packets[|packets| - 1]|]
  }

  /** Every completed and uncollected buffer still holds the packet deposited in it. */
  ghost predicate Intact(bufs: seq<seq<byte>>, done: seq<nat>, waiting: seq<seq<byte>>) {
    && |waiting| == |done|
    && forall i :: 0 <= i < |done| ==> done[i] < |bufs| && waiting[i] <= bufs[done[i]]
  }

  ghost predicate Content(bufs: seq<seq<byte>>, usedLens: seq<nat>, hdr: nat, cap: nat, done: seq<nat>, collected: nat,
                          arrived: seq<seq<byte>>, handed: seq<seq<byte>>)
  {
    && collected <= |arrived|
    && Intact(bufs, done, arrived[collected..])
    && RingHolds(usedLens, collected, Lengths(arrived[collected..]))
    && handed == Frames(hdr, cap, arrived[..collected])
  }

  /** Every buffer outside the queue is the one in the driver's hand. */
  ghost predicate HandOnly(s: Rx, o: Owners) {
    && (forall id :: 0 <= id < |s.bufs| ==>
          (id in o.posted || id in o.done || id in s.q.held <==> s.pc.Idle? || s.pc.slot != id))
    && (s.pc.Offered? ==> RingHolds(s.q.avail, o.taken, o.posted + [s.pc.slot]))
  }

  ghost predicate RxInv(s: Rx, h: RxLog) {
    && RxShape(s)
    && Virtqueue.Inv(s.q, h.o, |s.bufs|)
    && HandOnly(s, h.o)
    && Content(s.bufs, s.usedLens, s.hdr, s.cap, h.o.done, h.o.collected, h.arrived, h.handed)
  }

  lemma PrefixSlice(p: seq<byte>, b: seq<byte>, from: nat)
    requires p <= b && from <= |p|
    ensures b[from..|p|] == p[from..]
  {
  }

  lemma IntactDeposit(bufs: seq<seq<byte>>, done: seq<nat>, waiting: seq<seq<byte>>, id: nat, packet: seq<byte>)
    requires Intact(bufs, done, waiting) && id < |bufs| && id !in done && |packet| <= |bufs[id]|
    ensures Intact(bufs[id := Overlay(bufs[id], packet)], done + [id], waiting + [packet])
  {
  }

  /** Collecting one completion: the length and the bytes read are those deposited. */
  lemma GatherContent(s: Rx, h: RxLog)
    requires RxInv(s, h) && h.o.done != [] && Oldest(s.q) == h.o.done[0]
    ensures h.o.collected < |h.arrived|
    ensures Handed(s) == Frames(s.hdr, s.cap, [h.arrived[h.o.collected]])
    ensures Content(s.bufs, s.usedLens, s.hdr, s.cap, h.o.done[1..], h.o.collected + 1, h.arrived, h.handed + Handed(s))
  {
    hide RxInv, RingHolds, Frames, Handed, At, Virtqueue.Inv;
    GatherFacts(s, h);
    var c := h.o.collected;
    HandedIs(s, h.arrived[c]);
    FramesStep(s.hdr, s.cap, h.arrived, c);
    RingPop(s.usedLens, c, Lengths(h.arrived[c..]));
    assert h.arrived[c + 1..] == h.arrived[c..][1..];
    assert Lengths(h.arrived[c..])[1..] == Lengths(h.arrived[c + 1..]);
  }

  lemma GatherFacts(s: Rx, h: RxLog)
    requires RxInv(s, h) && h.o.done != [] && Oldest(s.q) == h.o.done[0]
    ensures Content(s.bufs, s.usedLens, s.hdr, s.cap, h.o.done, h.o.collected, h.arrived, h.handed)
    ensures RxShape(s) && h.o.collected < |h.arrived|
    ensures var p := h.arrived[h.o.collected];
      Oldest(s.q) < |s.bufs| && p <= s.bufs[Oldest(s.q)] && At(s.usedLens, s.q.lastUsed) == |p|
  {
    hide Divides, At, Put, HandOnly, Disjoint, Frames;
    var c := h.o.collected;
    WrappedIndex(s.usedLens, c);
    assert h.arrived[c..][0] == h.arrived[c];
    assert Lengths(h.arrived[c..])[0] == |h.arrived[c]|;
  }

  lemma HandedIs(s: Rx, p: seq<byte>)
    requires RxShape(s) && Oldest(s.q) < |s.bufs| && At(s.usedLens, s.q.lastUsed) == |p| && p <= s.bufs[Oldest(s.q)]
    ensures Handed(s) == if Good(s.hdr, s.cap, |p|) then [p[s.hdr..]] else []
  {
    hide At;
    if Good(s.hdr, s.cap, |p|) { PrefixSlice(p, s.bufs[Oldest(s.q)], s.hdr); }
  }

  lemma FramesStep(hdr: nat, cap: nat, arrived: seq<seq<byte>>, c: nat)
    requires c < |arrived|
    ensures Frames(hdr, cap, [arrived[c]]) == if Good(hdr, cap, |arrived[c]|) then [arrived[c][hdr..]] else []
    ensures Frames(hdr, cap, arrived[..c + 1]) == Frames(hdr, cap, arrived[..c]) + Frames(hdr, cap, [arrived[c]])
  {
    assert Frames(hdr, cap, [arrived[c]][..0]) == [];
    assert arrived[..c + 1][..c] == arrived[..c];
  }

  lemma GatherStep(s: Rx, h: RxLog)
    requires RxInv(s, h) && RxEnabled(s, Gather)
    ensures RxInv(RxNext(s, Gather), RxTrack(s, h, Gather))
  {
    hide RingHolds, Divides, At, Put, Content;
    CollectKeeps(s.q, h.o, |s.bufs|);
    DropFirst(h.o.done);
    GatherContent(s, h);
  }

  lemma OfferBackStep(s: Rx, h: RxLog)
    requires RxInv(s, h) && RxEnabled(s, OfferBack)
    ensures RxInv(RxNext(s, OfferBack), h)
  {
    OfferKeeps(s.q, h.o, |s.bufs|, s.pc.slot);
    hide RingHolds, Divides, At, Put, Content, Virtqueue.Inv;
  }

  lemma PublishBackStep(s: Rx, h: RxLog)
    requires RxInv(s, h) && RxEnabled(s, PublishBack)
    ensures RxInv(RxNext(s, PublishBack), RxTrack(s, h, PublishBack))
  {
    hide RingHolds, Divides, At, Put, Content, Virtqueue.Inv;
    PublishKeeps(s.q, h.o, |s.bufs|, s.pc.slot);
  }

  lemma ClaimStep(s: Rx, h: RxLog)
    requires RxInv(s, h) && RxEnabled(s, Claim)
    ensures RxInv(RxNext(s, Claim), RxTrack(s, h, Claim))
  {
    hide RingHolds, Divides, At, Put, Content;
    TakeKeeps(s.q, h.o, |s.bufs|);
    DropFirst(h.o.posted);
    if s.pc.Offered? {
      var ahead := h.o.posted + [s.pc.slot];
      RingPop(s.q.avail, h.o.taken, ahead);
      assert ahead[1..] == h.o.posted[1..] + [s.pc.slot];
    }
  }

  /** The device writes only a buffer it holds, so no waiting packet is disturbed. */
  lemma DepositContent(bufs: seq<seq<byte>>, usedLens: seq<nat>, hdr: nat, cap: nat, done: seq<nat>, collected: nat,
                       arrived: seq<seq<byte>>, handed: seq<seq<byte>>, id: nat, packet: seq<byte>)
    requires Content(bufs, usedLens, hdr, cap, done, collected, arrived, handed)
    requires id < |bufs| && id !in done && |packet| <= |bufs[id]| && |done| < |usedLens|
    ensures Content(bufs[id := Overlay(bufs[id], packet)], Put(usedLens, collected + |done|, |packet|), hdr, cap,
                    done + [id], collected, arrived + [packet], handed)
  {
    var waiting := arrived[collected..];
    IntactDeposit(bufs, done, waiting, id, packet);
    RingPush(usedLens, collected, Lengths(waiting), |packet|);
    hide RingHolds, Put, Intact, Overlay, Frames;
    assert (arrived + [packet])[collected..] == waiting + [packet];
    assert (waiting + [packet])[..|waiting|] == waiting;
    assert (arrived + [packet])[..collected] == arrived[..collected];
  }

  lemma DepositStep(s: Rx, h: RxLog, id: nat, packet: seq<byte>)
    requires RxInv(s, h) && RxEnabled(s, Deposit(id, packet))
    ensures RxInv(RxNext(s, Deposit(id, packet)), RxTrack(s, h, Deposit(id, packet)))
  {
    hide RingHolds, Divides, At, Put, Content, Overlay;
    RoomFor(h.o.done, id, |s.bufs|);
    WrappedIndex(s.usedLens, h.o.collected + |h.o.done|);
    DepositContent(s.bufs, s.usedLens, s.hdr, s.cap, h.o.done, h.o.collected, h.arrived, h.handed, id, packet);
    CompleteKeeps(s.q, h.o, |s.bufs|, id);
  }

  lemma RxStepKeeps(s: Rx, h: RxLog, e: RxStep)
    requires RxInv(s, h) && RxEnabled(s, e)
    ensures RxInv(RxNext(s, e), RxTrack(s, h, e))
    ensures var t := RxNext(s, e); |t.bufs| == |s.bufs| && t.hdr == s.hdr && t.cap == s.cap
  {
    assert RxShape(s);
    hide RxInv;
    match e
    case Gather => GatherStep(s, h);
    case OfferBack => OfferBackStep(s, h);
    case PublishBack => PublishBackStep(s, h);
    case Claim => ClaimStep(s, h);
    case Deposit(id, packet) => DepositStep(s, h, id, packet);
  }

  // ------------------------------------------------------------------- set-up

  /** The posting loop of the initialisation: buffers 0 .. k-1. */
  function PostAll(size: nat, k: nat): (q: Vq)
    requires 0 < size
    ensures |q.avail| == |q.used| == size
  {
    if k == 0 then Create(size) else Publish(Offer(PostAll(size, k - 1), k - 1))
  }

  ghost function FirstIds(k: nat): seq<nat> {
    seq(k, i => i)
  }

  lemma {:induction false} PostAllInv(size: nat, k: nat, n: nat)
    requires Divides(size, 0x1_0000) && k <= n <= size && n < 0x1_0000
    ensures Virtqueue.Inv(PostAll(size, k), Owners(FirstIds(k), [], 0, 0), n)
    ensures PostAll(size, k).held == {}
  {
    if k == 0 {
      CreateKeeps(size, n);
    } else {
      PostAllInv(size, k - 1, n);
      var q, o := PostAll(size, k - 1), Owners(FirstIds(k - 1), [], 0, 0);
      OfferKeeps(q, o, n, k - 1);
      PublishKeeps(Offer(q, k - 1), o, n, k - 1);
      assert FirstIds(k) == FirstIds(k - 1) + [k - 1];
    }
  }

  function Buffers(size: nat): nat {
    if size < RXBUFS then size else RXBUFS
  }

  function RxStart(size: nat, hdr: HeaderLen, cap: nat): Rx
    requires 0 < size
  {
    Rx(PostAll(size, Buffers(size)), seq(size, _ => 0), seq(Buffers(size), _ => seq(BUFSZ, _ => 0 as byte)), Idle, hdr, cap)
  }

  ghost function RxFresh(size: nat): RxLog {
    RxLog(Owners(FirstIds(Buffers(size)), [], 0, 0), [], [])
  }

  lemma RxStartInv(size: nat, hdr: HeaderLen, cap: nat)
    requires Divides(size, 0x1_0000)
    ensures RxInv(RxStart(size, hdr, cap), RxFresh(size))
  {
    var n := Buffers(size);
    PostAllInv(size, n, n);
    hide Divides, PostAll, Virtqueue.Inv, At;
    var none: seq<seq<byte>> := [];
    assert none[0..] == none[..0] == [];
    forall id | 0 <= id < n ensures id in FirstIds(n) {
      assert FirstIds(n)[id] == id;
    }
  }

  // ----------------------------------------------------------------- theorems

  ghost predicate RxRun(s: Rx, h: RxLog, steps: seq<RxStep>, t: Rx, h': RxLog)
    decreases steps
  {
    if steps == [] then t == s && h' == h
    else RxShape(s) && RxEnabled(s, steps[0]) &&
         RxRun(RxNext(s, steps[0]), RxTrack(s, h, steps[0]), steps[1..], t, h')
  }

  lemma {:induction false} RxRunKeeps(s: Rx, h: RxLog, steps: seq<RxStep>, t: Rx, h': RxLog)
    requires RxInv(s, h) && RxRun(s, h, steps, t, h')
    ensures RxInv(t, h') && |t.bufs| == |s.bufs| && t.hdr == s.hdr && t.cap == s.cap
    decreases steps
  {
    if steps == [] {
    } else {
      RxStepKeeps(s, h, steps[0]);
      hide RxInv, RxTrack, RxNext, RxEnabled, RxShape;
      RxRunKeeps(RxNext(s, steps[0]), RxTrack(s, h, steps[0]), steps[1..], t, h');
    }
  }

  /** Who owns a receive buffer. */
  ghost function OwnersOf(s: Rx, h: RxLog, id: nat): nat {
    (if id in h.o.posted then 1 else 0) + (if id in s.q.held then 1 else 0) +
    (if id in h.o.done then 1 else 0) + (if !s.pc.Idle? && s.pc.slot == id then 1 else 0)
  }

  /** Receive safety in every interleaving: each buffer has exactly one owner, and
      the frames handed to the stack are the acceptable ones of the completions
      collected so far, each once, in completion order and unaltered. */
  lemma ReceiveSafety(size: nat, hdr: HeaderLen, cap: nat, steps: seq<RxStep>, t: Rx, h: RxLog)
    requires Divides(size, 0x1_0000)
    requires RxRun(RxStart(size, hdr, cap), RxFresh(size), steps, t, h)
    ensures forall id :: 0 <= id < Buffers(size) ==> OwnersOf(t, h, id) == 1
    ensures h.o.collected <= |h.arrived|
    ensures h.handed == Frames(hdr, cap, h.arrived[..h.o.collected])
    ensures HasUsed(t.q) <==> h.o.collected < |h.arrived|
  {
    RxStartInv(size, hdr, cap);
    RxRunKeeps(RxStart(size, hdr, cap), RxFresh(size), steps, t, h);
    hide Divides, RingHolds, RxRun, PostAll, Frames, At, Put;
    CollectKeeps(t.q, h.o, |t.bufs|);
  }

  /** The frames of the packets that carry one: more than the 14 bytes of an Ethernet
      header behind the virtio header, and not more than the caller asked for. */
  function Wanted(hdr: nat, cap: nat, packets: seq<seq<byte>>): seq<seq<byte>> {
    if packets == [] then []
    else (if 14 < |packets[0]| - hdr <= cap then [packets[0][hdr..]] else []) + Wanted(hdr, cap, packets[1..])
  }

  lemma {:induction false} FramesWanted(hdr: nat, cap: nat, packets: seq<seq<byte>>)
    ensures Frames(hdr, cap, packets) == Wanted(hdr, cap, packets)
    decreases |packets|
  {
    if packets == [] {
    } else {
      var n := |packets| - 1;
      FramesWanted(hdr, cap, packets[..n]);
      assert packets == packets[..n] + [packets[n]];
      WantedSnoc(hdr, cap, packets[..n], packets[n]);
    }
  }

  lemma {:induction false} WantedSnoc(hdr: nat, cap: nat, packets: seq<seq<byte>>, p: seq<byte>)
    ensures Wanted(hdr, cap, packets + [p]) == Wanted(hdr, cap, packets) + if 14 < |p| - hdr <= cap then [p[hdr..]] else []
    decreases packets
  {
    if packets == [] {
      assert packets + [p] == [p] && [p][1..] == [];
    } else {
      assert (packets + [p])[1..] == packets[1..] + [p];
      WantedSnoc(hdr, cap, packets[1..], p);
    }
  }

  lemma {:induction false} WantedAll(hdr: nat, cap: nat, packets: seq<seq<byte>>)
    requires forall i :: 0 <= i < |packets| ==> 14 < |packets[i]| - hdr <= cap
    ensures |Wanted(hdr, cap, packets)| == |packets|
    ensures forall i :: 0 <= i < |packets| ==> Wanted(hdr, cap, packets)[i] == packets[i][hdr..]
    decreases packets
  {
    if packets == [] {
    } else {
      WantedAll(hdr, cap, packets[1..]);
    }
  }

  /** Delivery in every interleaving: the stack was handed exactly the frames of the packets
      collected so far that carry one, in order. When all of them do, that is every frame. */
  lemma Delivery(size: nat, hdr: HeaderLen, cap: nat, steps: seq<RxStep>, t: Rx, h: RxLog)
    requires Divides(size, 0x1_0000)
    requires RxRun(RxStart(size, hdr, cap), RxFresh(size), steps, t, h)
    ensures h.o.collected <= |h.arrived| && h.handed == Wanted(hdr, cap, h.arrived[..h.o.collected])
    ensures (forall i :: 0 <= i < h.o.collected ==> 14 < |h.arrived[i]| - hdr <= cap) ==>
      |h.handed| == h.o.collected && forall i :: 0 <= i < h.o.collected ==> h.handed[i] == h.arrived[i][hdr..]
  {
    ReceiveSafety(size, hdr, cap, steps, t, h);
    var packets := h.arrived[..h.o.collected];
    FramesWanted(hdr, cap, packets);
    hide Frames, Wanted, RxRun, Divides;
    if forall i :: 0 <= i < h.o.collected ==> 14 < |h.arrived[i]| - hdr <= cap {
      assert forall i :: 0 <= i < |packets| ==> packets[i] == h.arrived[i];
      WantedAll(hdr, cap, packets);
    }
  }
}
