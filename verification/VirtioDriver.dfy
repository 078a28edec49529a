/** The driver's own calls, `v_reclaim`, `v_send` and `v_recv`, as methods on its state.
    Each call is a path of the driver steps of `VirtioNet` and `VirtioRx`, so the
    safety theorems over all interleavings speak about it. */
module VirtioDriver {
  import opened Words
  import opened Virtqueue
  import opened VirtioNet
  import opened VirtioRx

  /** `steps` leads from `s` to `t`. */
  ghost predicate TxPath(s: Tx, steps: seq<TxStep>, t: Tx)
    decreases steps
  {
    if steps == [] then t == s
    else TxShape(s) && TxEnabled(s, steps[0]) && TxPath(TxNext(s, steps[0]), steps[1..], t)
  }

  lemma {:induction false} TxPathMore(s: Tx, steps: seq<TxStep>, t: Tx, e: TxStep)
    requires TxPath(s, steps, t) && TxShape(t) && TxEnabled(t, e)
    ensures TxPath(s, steps + [e], TxNext(t, e))
    decreases steps
  {
    hide TxShape, TxEnabled, TxNext;
    if steps == [] {
      var one := [e];
      assert steps + one == one && one[1..] == [];
      assert TxPath(TxNext(t, e), [], TxNext(t, e));
    } else {
      TxPathMore(TxNext(s, steps[0]), steps[1..], t, e);
      assert (steps + [e])[1..] == steps[1..] + [e];
    }
  }

  /** A path is a run, whatever the history before it. */
  lemma {:induction false} TxPathRuns(s: Tx, h: TxLog, steps: seq<TxStep>, t: Tx) returns (h': TxLog)
    requires TxPath(s, steps, t)
    ensures TxRun(s, h, steps, t, h')
    decreases steps
  {
    hide TxShape, TxEnabled, TxNext, TxTrack;
    if steps == [] {
      h' := h;
    } else {
      h' := TxPathRuns(TxNext(s, steps[0]), TxTrack(s, h, steps[0]), steps[1..], t);
    }
  }

  class Transmitter {
    var q: Vq
    var busy: seq<bool>
    var bufs: seq<seq<byte>>
    var lens: seq<nat>
    const hdr: HeaderLen

    /** Between two calls the driver has no buffer in hand. */
    ghost function View(): Tx
      reads this
    {
      Tx(q, busy, bufs, lens, Idle, hdr)
    }

    constructor (size: nat, hdr: HeaderLen)
      requires size > 0
      ensures View() == TxStart(size, hdr)
    {
      q := Create(size);
      busy := seq(TXBUFS, _ => false);
      bufs := seq(TXBUFS, _ => seq(BUFSZ, _ => 0 as byte));
      lens := seq(TXBUFS, _ => 0);
      this.hdr := hdr;
    }

    /** `v_reclaim`, with the device at rest: everything completed so far is collected. */
    method Reclaim() returns (ghost steps: seq<TxStep>)
      requires TxShape(View()) && q.usedIdx < 0x1_0000 && q.lastUsed < 0x1_0000
      modifies this`q, this`busy
      ensures TxShape(View()) && !HasUsed(q) && q == old(q).(lastUsed := q.lastUsed) && q.lastUsed < 0x1_0000
      ensures TxPath(old(View()), steps, View()) && forall i :: 0 <= i < |steps| ==> steps[i] == TxStep.Reclaim
    {
      hide TxPath;
      steps := [];
      assert TxPath(old(View()), steps, View()) by { TxPathStart(View()); }
      while q.lastUsed != q.usedIdx
        invariant TxShape(View()) && q == old(q).(lastUsed := q.lastUsed) && q.usedIdx < 0x1_0000 && q.lastUsed < 0x1_0000
        invariant TxPath(old(View()), steps, View())
        invariant forall i :: 0 <= i < |steps| ==> steps[i] == TxStep.Reclaim
        decreases (q.usedIdx - q.lastUsed) % 0x1_0000
      {
        TxPathMore(old(View()), steps, View(), TxStep.Reclaim);
        steps := steps + [TxStep.Reclaim];
        OneCloser(q.usedIdx, q.lastUsed);
        var id := At(q.used, q.lastUsed);
        if id < TXBUFS { busy := busy[id := false]; }
        q := q.(lastUsed := (q.lastUsed + 1) % 0x1_0000);
      }
    }

    method FreeSlot() returns (slot: int)
      requires |busy| == TXBUFS
      ensures slot == if FirstFree(busy) < TXBUFS then FirstFree(busy) else -1
    {
      slot := -1;
      for i := 0 to TXBUFS
        invariant slot == -1 && FirstFree(busy) >= i
      {
        if !busy[i] { return i; }
      }
    }

    /** `v_send`, as far as it goes without the device: -1 for a frame that is too long or
        when every buffer is still busy, otherwise the frame is published. */
    method Send(frame: seq<byte>) returns (rc: int, ghost steps: seq<TxStep>)
      requires TxShape(View()) && q.usedIdx < 0x1_0000 && q.lastUsed < 0x1_0000
      modifies this
      ensures TxShape(View()) && TxPath(old(View()), steps, View()) && (rc == 0 || rc == -1)
      ensures |frame| > 1514 ==> rc == -1 && View() == old(View())
      ensures rc == 0 ==> PublishedLast(View(), old(q.availIdx), frame)
      ensures rc == -1 && |frame| <= 1514 ==> forall i :: 0 <= i < TXBUFS ==> busy[i]
      ensures rc == 0 ==>
        var n := |steps| - 3;
        n >= 0 && steps[n..] == [Fill(frame), OfferSlot, PublishSlot] && forall i :: 0 <= i < n ==> steps[i] == TxStep.Reclaim
    {
      hide TxPath;
      if |frame| > MAX_FRAME {
        TxPathStart(View());
        return -1, [];
      }
      steps := Reclaim();
      var slot := FreeSlot();
      if slot < 0 { return -1, steps; }
      steps := SendFrom(slot, frame, old(View()), steps);
      return 0, steps;
    }

    /** Filling the slot, offering it and publishing it. */
    method SendFrom(slot: nat, frame: seq<byte>, ghost start: Tx, ghost reclaimed: seq<TxStep>) returns (ghost steps: seq<TxStep>)
      requires TxShape(View()) && slot == FirstFree(busy) < TXBUFS && |frame| <= MAX_FRAME && TxPath(start, reclaimed, View())
      modifies this
      ensures TxShape(View()) && TxPath(start, steps, View()) && steps == reclaimed + [Fill(frame), OfferSlot, PublishSlot]
      ensures PublishedLast(View(), old(q.availIdx), frame)
    {
      hide TxPath;
      ghost var s0 := View();
      ghost var s1 := TxNext(s0, Fill(frame));
      ghost var s2 := TxNext(s1, OfferSlot);
      ShapeKept(s0, frame);
      TxPathMore(start, reclaimed, s0, Fill(frame));
      TxPathMore(start, reclaimed + [Fill(frame)], s1, OfferSlot);
      TxPathMore(start, reclaimed + [Fill(frame)] + [OfferSlot], s2, PublishSlot);
      SendLands(s0, frame);
      steps := reclaimed + [Fill(frame)] + [OfferSlot] + [PublishSlot];
      assert steps == reclaimed + [Fill(frame), OfferSlot, PublishSlot];
      bufs := bufs[slot := Overlay(bufs[slot], seq(hdr, _ => 0 as byte) + frame)];
      lens := lens[slot := hdr + |frame|];
      busy := busy[slot := true];
      q := q.(avail := Put(q.avail, q.availIdx, slot));
      q := q.(availIdx := (q.availIdx + 1) % 0x1_0000);
      q := q.(shared := q.availIdx);
    }
  }

  lemma SendLands(s: Tx, frame: seq<byte>)
    requires TxShape(s) && TxEnabled(s, Fill(frame))
    ensures var s3 := TxNext(TxNext(TxNext(s, Fill(frame)), OfferSlot), PublishSlot);
      TxShape(s3) && PublishedLast(s3, s.q.availIdx, frame)
  {
  }

  /** The entry published last, at ring position `at`, leads to a buffer that holds `frame`. */
  ghost predicate PublishedLast(s: Tx, at: nat, frame: seq<byte>)
    requires TxShape(s)
  {
    var slot := At(s.q.avail, at);
    && s.q.shared == (at + 1) % 0x1_0000
    && slot < TXBUFS && s.busy[slot] && Wraps(Packet(s, slot), s.hdr, frame)
  }

  lemma TxPathStart(s: Tx)
    ensures TxPath(s, [], s)
  {
  }

  lemma OneCloser(end: nat, at: nat)
    requires end < 0x1_0000 && at < 0x1_0000 && end != at
    ensures 0 <= (end - (at + 1) % 0x1_0000) % 0x1_0000 < (end - at) % 0x1_0000
  {
  }

  lemma ShapeKept(s: Tx, frame: seq<byte>)
    requires TxShape(s) && TxEnabled(s, Fill(frame))
    ensures var s1 := TxNext(s, Fill(frame)); TxShape(s1) && TxShape(TxNext(s1, OfferSlot)) && TxShape(TxNext(TxNext(s1, OfferSlot), PublishSlot))
  {
  }

  // ------------------------------------------------------------------ reception

  ghost predicate RxPath(s: Rx, steps: seq<RxStep>, t: Rx)
    decreases steps
  {
    if steps == [] then t == s
    else RxShape(s) && RxEnabled(s, steps[0]) && RxPath(RxNext(s, steps[0]), steps[1..], t)
  }

  lemma {:induction false} RxPathMore(s: Rx, steps: seq<RxStep>, t: Rx, e: RxStep)
    requires RxPath(s, steps, t) && RxShape(t) && RxEnabled(t, e)
    ensures RxPath(s, steps + [e], RxNext(t, e))
    decreases steps
  {
    hide RxShape, RxEnabled, RxNext;
    if steps == [] {
      var one := [e];
      assert steps + one == one && one[1..] == [];
      assert RxPath(RxNext(t, e), [], RxNext(t, e));
    } else {
      RxPathMore(RxNext(s, steps[0]), steps[1..], t, e);
      assert (steps + [e])[1..] == steps[1..] + [e];
    }
  }

  /** A path is a run, whatever the history before it. */
  lemma {:induction false} RxPathRuns(s: Rx, h: RxLog, steps: seq<RxStep>, t: Rx) returns (h': RxLog)
    requires RxPath(s, steps, t)
    ensures RxRun(s, h, steps, t, h')
    decreases steps
  {
    hide RxShape, RxEnabled, RxNext, RxTrack;
    if steps == [] {
      h' := h;
    } else {
      h' := RxPathRuns(RxNext(s, steps[0]), RxTrack(s, h, steps[0]), steps[1..], t);
    }
  }

  /** The frames handed out along a path. */
  ghost function HandedAlong(s: Rx, steps: seq<RxStep>): seq<seq<byte>>
    decreases steps
  {
    if steps == [] || !RxShape(s) || !RxEnabled(s, steps[0]) then []
    else (if steps[0].Gather? then Handed(s) else []) + HandedAlong(RxNext(s, steps[0]), steps[1..])
  }

  lemma {:induction false} HandedMore(s: Rx, steps: seq<RxStep>, t: Rx, e: RxStep)
    requires RxPath(s, steps, t) && RxShape(t) && RxEnabled(t, e)
    ensures HandedAlong(s, steps + [e]) == HandedAlong(s, steps) + if e.Gather? then Handed(t) else []
    decreases steps
  {
    hide RxShape, RxEnabled, RxNext, Handed;
    if steps == [] {
      var one := [e];
      assert steps + one == one && one[1..] == [];
    } else {
      HandedMore(RxNext(s, steps[0]), steps[1..], t, e);
      assert (steps + [e])[1..] == steps[1..] + [e];
    }
  }

  /** The completion waiting longest carries a frame the caller can take. */
  ghost predicate HoldsFrame(s: Rx)
    requires RxShape(s)
  {
    Oldest(s.q) < |s.bufs| && 14 < At(s.usedLens, s.q.lastUsed) - s.hdr <= s.cap
  }

  class Receiver {
    var q: Vq
    var usedLens: seq<nat>
    const bufs: seq<seq<byte>>
    const hdr: HeaderLen

    ghost function View(cap: nat): Rx
      reads this
    {
      Rx(q, usedLens, bufs, Idle, hdr, cap)
    }

    /** The driver's memory at some moment of a run. */
    constructor (s: Rx)
      requires s.pc.Idle?
      ensures View(s.cap) == s
    {
      q, usedLens, bufs, hdr := s.q, s.usedLens, s.bufs, s.hdr;
    }

    /** `v_recv` into a buffer of `cap` bytes, with the device at rest: it collects
        completions, reposting each buffer, until one is a frame that fits. */
    method Receive(cap: nat) returns (n: nat, frame: seq<byte>, ghost steps: seq<RxStep>)
      requires RxShape(View(cap)) && q.usedIdx < 0x1_0000 && q.lastUsed < 0x1_0000
      requires forall i :: 0 <= i < |usedLens| ==> usedLens[i] <= BUFSZ
      modifies this`q
      ensures RxShape(View(cap)) && RxPath(old(View(cap)), steps, View(cap)) && n == |frame|
      ensures HandedAlong(old(View(cap)), steps) == if n > 0 then [frame] else []
      ensures n == 0 ==> !HasUsed(q)
      ensures n > 0 ==> 14 < n <= cap
      ensures old(HasUsed(q)) && old(HoldsFrame(View(cap))) ==>
        n == old(At(usedLens, q.lastUsed)) - hdr && frame == bufs[old(Oldest(q))][hdr..hdr + n]
    {
      hide RxPath, HandedAlong;
      steps, n, frame := [], 0, [];
      assert RxPath(old(View(cap)), steps, View(cap)) && HandedAlong(old(View(cap)), steps) == [] by { RxPathStart(View(cap)); }
      while q.lastUsed != q.usedIdx
        invariant RxShape(View(cap)) && q.usedIdx == old(q.usedIdx) && q.lastUsed < 0x1_0000 && n == 0 && frame == []
        invariant RxPath(old(View(cap)), steps, View(cap)) && HandedAlong(old(View(cap)), steps) == []
        invariant if steps == [] then q == old(q) else !(old(HasUsed(q)) && old(HoldsFrame(View(cap))))
        decreases (q.usedIdx - q.lastUsed) % 0x1_0000
      {
        OneCloser(q.usedIdx, q.lastUsed);
        n, frame, steps := Turn(cap, old(View(cap)), steps);
        if n > 0 { return; }
      }
    }

    /** One turn of the loop. */
    method Turn(cap: nat, ghost s0: Rx, ghost steps0: seq<RxStep>) returns (n: nat, frame: seq<byte>, ghost steps: seq<RxStep>)
      requires RxShape(View(cap)) && q.lastUsed != q.usedIdx
      requires forall i :: 0 <= i < |usedLens| ==> usedLens[i] <= BUFSZ
      requires RxPath(s0, steps0, View(cap)) && HandedAlong(s0, steps0) == []
      modifies this`q
      ensures RxShape(View(cap)) && q.usedIdx == old(q.usedIdx) && q.lastUsed == (old(q.lastUsed) + 1) % 0x1_0000
      ensures RxPath(s0, steps, View(cap)) && n == |frame| && steps != []
      ensures HandedAlong(s0, steps) == if n > 0 then [frame] else []
      ensures n > 0 <==> old(HoldsFrame(View(cap)))
      ensures n > 0 ==> 14 < n <= cap && n == old(At(usedLens, q.lastUsed)) - hdr && frame == bufs[old(Oldest(q))][hdr..hdr + n]
    {
      hide RxPath, HandedAlong;
      n, frame := 0, [];
      var id, len := At(q.used, q.lastUsed), At(usedLens, q.lastUsed);
      var good := id < |bufs| && len > hdr + 14 && len - hdr <= cap;
      if good { frame := bufs[id][hdr..len]; }
      HandedMore(s0, steps0, View(cap), Gather);
      RxPathMore(s0, steps0, View(cap), Gather);
      steps := steps0 + [Gather];
      assert HandedAlong(s0, steps) == if good then [frame] else [];
      q := q.(lastUsed := (q.lastUsed + 1) % 0x1_0000);
      if id < |bufs| {
        steps := PostBack(id, cap, s0, steps);
      }
      if good { n := |frame|; }
    }

    /** `v_post_rx` of the buffer in hand. */
    method PostBack(id: nat, cap: nat, ghost s0: Rx, ghost steps0: seq<RxStep>) returns (ghost steps: seq<RxStep>)
      requires id < |bufs| && RxShape(View(cap)) && RxPath(s0, steps0, View(cap).(pc := InHand(id)))
      modifies this`q
      ensures RxShape(View(cap)) && q.usedIdx == old(q.usedIdx) && q.lastUsed == old(q.lastUsed)
      ensures RxPath(s0, steps, View(cap)) && HandedAlong(s0, steps) == HandedAlong(s0, steps0) && steps != []
    {
      hide RxPath, HandedAlong, At;
      ghost var s1 := View(cap).(pc := InHand(id));
      ghost var s2 := RxNext(s1, OfferBack);
      HandedMore(s0, steps0, s1, OfferBack);
      RxPathMore(s0, steps0, s1, OfferBack);
      HandedMore(s0, steps0 + [OfferBack], s2, PublishBack);
      RxPathMore(s0, steps0 + [OfferBack], s2, PublishBack);
      steps := steps0 + [OfferBack] + [PublishBack];
      q := q.(avail := Put(q.avail, q.availIdx, id));
      q := q.(availIdx := (q.availIdx + 1) % 0x1_0000);
      q := q.(shared := q.availIdx);
    }
  }

  lemma RxPathStart(s: Rx)
    ensures RxPath(s, [], s) && HandedAlong(s, []) == []
  {
  }
}
