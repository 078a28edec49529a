/** Runs of the TCP receiver against a network that drops, duplicates, reorders
    and re-slices the segments of one peer stream. */
module TcpRuns {
  import opened Words
  import opened Tcp

  datatype Event =
    | Arrives(seg: Segment)
    | Reads(cap: nat)
    | Transmits(n: nat)
    | Closes

  /** The connection together with everything the application was given so far. */
  datatype World = World(conn: Conn, returned: seq<byte>)

  function Start(iss: u32): World {
    World(Conn(SynSent, iss, Wrap32(iss + 1), 0, false, false, []), [])
  }

  function Step(w: World, e: Event): (r: World)
    requires |w.conn.pending| <= RING
    ensures |r.conn.pending| <= RING
  {
    match e
    case Arrives(seg) => w.(conn := Arrive(w.conn, seg).0)
    case Reads(cap) =>
      World(Read(w.conn, cap), w.returned + w.conn.pending[..Min(cap, |w.conn.pending|)])
    case Transmits(n) => w.(conn := w.conn.(sndNxt := Wrap32(w.conn.sndNxt + n)))
    case Closes => w.(conn := w.conn.(state := Closed))
  }

  function Run(w: World, events: seq<Event>): (r: World)
    requires |w.conn.pending| <= RING
    ensures |r.conn.pending| <= RING
  {
    if events == [] then w else Step(Run(w, events[..|events| - 1]), events[|events| - 1])
  }

  /** The acknowledgements that a step puts on the wire. */
  function Emitted(w: World, e: Event): seq<Advert>
    requires |w.conn.pending| <= RING
  {
    match e
    case Arrives(seg) => if Arrive(w.conn, seg).1 then [AdvertOf(Step(w, e).conn)] else []
    case Reads(cap) => if ReopensWindow(w.conn, cap) then [AdvertOf(Step(w, e).conn)] else []
    case _ => []
  }

  // ------------------------------------------------------------- the network

  /** A slice of the stream at `off`; a FIN stands right after the last byte. */
  ghost predicate SliceAt(stream: seq<byte>, irs: u32, seg: Segment, off: nat) {
    && seg.seqNo == Wrap32(irs + 1 + off)
    && (off + |seg.data| <= |stream| || (off == |stream| + 1 && seg.data == []))
    && (seg.data != [] ==> seg.data == stream[off..off + |seg.data|])
    && (seg.fin ==> off + |seg.data| == |stream|)
  }

  /** What the peer can have sent: any reset, a SYN without payload, or any
      re-slicing of the stream. */
  ghost predicate FromPeer(stream: seq<byte>, irs: u32, seg: Segment) {
    || seg.rst
    || (seg.syn && seg.seqNo == irs && seg.data == [] && !seg.fin)
    || (!seg.syn && exists off: nat :: SliceAt(stream, irs, seg, off))
  }

  ghost predicate Network(stream: seq<byte>, irs: u32, events: seq<Event>) {
    forall i :: 0 <= i < |events| && events[i].Arrives? ==> FromPeer(stream, irs, events[i].seg)
  }

  // --------------------------------------------------------------- invariant

  /** Bytes accepted so far, read or not. */
  ghost function Accepted(w: World): seq<byte> {
    w.returned + w.conn.pending
  }

  /** Sequence space consumed past the SYN. */
  ghost function Consumed(w: World): nat {
    |Accepted(w)| + if w.conn.fin then 1 else 0
  }

  ghost predicate Inv(stream: seq<byte>, irs: u32, w: World) {
    && |w.conn.pending| <= RING
    && Accepted(w) <= stream
    && (w.conn.fin ==> Accepted(w) == stream)
    && (w.conn.state == SynSent ==> Accepted(w) == [] && !w.conn.fin)
    && (w.conn.state in {Estab, CloseWait} ==> w.conn.rcvNxt == Wrap32(irs + 1 + Consumed(w)))
  }

  /** Where a slice at `off` stands relative to a receiver that consumed `k`. */
  lemma SliceCases(stream: seq<byte>, irs: u32, seg: Segment, off: nat, k: nat, rcvNxt: u32)
    requires |stream| < HALF32 && SliceAt(stream, irs, seg, off) && k <= |stream| + 1
    requires rcvNxt == Wrap32(irs + 1 + k)
    ensures seg.seqNo == rcvNxt <==> off == k
    ensures Overlaps(rcvNxt, seg) <==> off < k < off + |seg.data| && k - off < HALF32
    ensures Overlaps(rcvNxt, seg) ==> Wrap32(rcvNxt - seg.seqNo) == k - off
    ensures Wrap32(seg.seqNo + |seg.data|) == rcvNxt <==> off + |seg.data| == k
  {
    hide Wrap32, Signed32;
    var d := |seg.data|;
    var end := Wrap32(irs + 1 + off + d);
    WrapDifference(irs + 1 + k, irs + 1 + off);
    WrapDifference(irs + 1 + off + d, irs + 1 + k);
    WrapSum(irs + 1 + off, d);
    WrapSum(irs + 1 + off, d - rcvNxt);
    WrapSum(irs + 1 + off + d, 0 - rcvNxt);
    SignedSign(k - off);
    SignedSign(off + d - k);
    WrapZero(rcvNxt, seg.seqNo);
    WrapZero(end, rcvNxt);
  }

  /** An in-order slice delivers exactly the next bytes of the stream. */
  lemma TakenIsNext(stream: seq<byte>, irs: u32, w: World, seg: Segment, off: nat)
    requires |stream| < HALF32 && Inv(stream, irs, w) && w.conn.state in {Estab, CloseWait}
    requires SliceAt(stream, irs, seg, off)
    ensures var k, t := |Accepted(w)|, Taken(w.conn.rcvNxt, |w.conn.pending|, seg);
      && k + |t| <= |stream| && t == stream[k..k + |t|]
      && (t != [] ==> !w.conn.fin)
      && (off + |seg.data| <= k ==> t == [])
      && (off <= k < off + |seg.data| ==> |t| == Min(off + |seg.data| - k, RING - |w.conn.pending|))
  {
    var k := |Accepted(w)|;
    SliceCases(stream, irs, seg, off, Consumed(w), w.conn.rcvNxt);
    var n := Min(|InOrder(w.conn.rcvNxt, seg)|, RING - |w.conn.pending|);
    hide Wrap32, Signed32, Overlaps;
    if seg.data != [] {
      TakenCases(w.conn.rcvNxt, |w.conn.pending|, seg);
    } else {
      NoPayload(w.conn.rcvNxt, |w.conn.pending|, seg);
    }
  }

  lemma ArrivalPreserves(stream: seq<byte>, irs: u32, w: World, seg: Segment)
    requires |stream| < HALF32 && Inv(stream, irs, w) && FromPeer(stream, irs, seg)
    ensures Inv(stream, irs, Step(w, Arrives(seg)))
  {
    if w.conn.state in {Estab, CloseWait} && !seg.rst {
      if seg.syn {
        NoPayload(w.conn.rcvNxt, |w.conn.pending|, seg);
        hide Wrap32, Signed32, Overlaps, Taken, FinSurvives;
        assert Accepted(Step(w, Arrives(seg))) == Accepted(w);
      } else {
        var off: nat :| SliceAt(stream, irs, seg, off);
        SlicePreserves(stream, irs, w, seg, off);
      }
    }
  }

  lemma AcceptedGrows(w: World, seg: Segment)
    requires |w.conn.pending| <= RING && w.conn.state in {Estab, CloseWait} && !seg.rst
    ensures Accepted(Step(w, Arrives(seg))) == Accepted(w) + Taken(w.conn.rcvNxt, |w.conn.pending|, seg)
  {
  }

  /** The FIN is taken only when every byte before it has been. */
  lemma FinOnlyAtEnd(stream: seq<byte>, irs: u32, w: World, seg: Segment, off: nat)
    requires |stream| < HALF32 && Inv(stream, irs, w) && w.conn.state in {Estab, CloseWait} && !seg.rst
    requires SliceAt(stream, irs, seg, off)
    ensures var t := Taken(w.conn.rcvNxt, |w.conn.pending|, seg);
      seg.fin && Wrap32(seg.seqNo + |seg.data|) == Wrap32(w.conn.rcvNxt + |t|) ==>
      !w.conn.fin && |Accepted(w)| + |t| == |stream|
  {
    var t := Taken(w.conn.rcvNxt, |w.conn.pending|, seg);
    TakenIsNext(stream, irs, w, seg, off);
    hide Wrap32, Signed32, Overlaps, Taken, InOrder;
    var k := Consumed(w) + |t|;
    WrapSum(irs + 1 + Consumed(w), |t|);
    SliceCases(stream, irs, seg, off, k, Wrap32(irs + 1 + k));
  }

  lemma SlicePreserves(stream: seq<byte>, irs: u32, w: World, seg: Segment, off: nat)
    requires |stream| < HALF32 && Inv(stream, irs, w) && w.conn.state in {Estab, CloseWait} && !seg.rst
    requires SliceAt(stream, irs, seg, off)
    ensures Inv(stream, irs, Step(w, Arrives(seg)))
  {
    hide Wrap32, Signed32, Overlaps, Taken, InOrder, SliceAt, Acknowledge;
    var t := Taken(w.conn.rcvNxt, |w.conn.pending|, seg);
    TakenIsNext(stream, irs, w, seg, off);
    WrapSum(irs + 1 + Consumed(w), |t|);
    WrapSum(irs + 1 + Consumed(w) + |t|, 1);
    AcceptedGrows(w, seg);
    FinOnlyAtEnd(stream, irs, w, seg, off);
  }

  lemma StepPreserves(stream: seq<byte>, irs: u32, w: World, e: Event)
    requires |stream| < HALF32 && Inv(stream, irs, w)
    requires e.Arrives? ==> FromPeer(stream, irs, e.seg)
    ensures Inv(stream, irs, Step(w, e))
  {
    match e
    case Arrives(seg) => ArrivalPreserves(stream, irs, w, seg);
    case Reads(cap) => assert Accepted(Step(w, e)) == Accepted(w);
    case _ =>
  }

  // ---------------------------------------------------------------- theorems

  lemma {:induction false} RunInv(stream: seq<byte>, irs: u32, iss: u32, events: seq<Event>)
    requires |stream| < HALF32 && Network(stream, irs, events)
    ensures Inv(stream, irs, Run(Start(iss), events))
  {
    if events == [] {
    } else {
      var n := |events| - 1;
      RunInv(stream, irs, iss, events[..n]);
      StepPreserves(stream, irs, Run(Start(iss), events[..n]), events[n]);
    }
  }

  /** The receive position is the count of the bytes accepted, and of the FIN. */
  ghost predicate Positioned(irs: u32, w: World) {
    w.conn.rcvNxt == Wrap32(irs + 1 + |w.returned| + |w.conn.pending| + if w.conn.fin then 1 else 0)
  }

  /** Once established, the position stays right, also after a reset or a close. */
  lemma {:induction false} PositionKept(stream: seq<byte>, irs: u32, iss: u32, events: seq<Event>, i: nat)
    requires |stream| < HALF32 && Network(stream, irs, events) && i <= |events|
    requires Run(Start(iss), events[..i]).conn.state in {Estab, CloseWait}
    ensures Positioned(irs, Run(Start(iss), events)) && Run(Start(iss), events).conn.state != SynSent
  {
    hide Run, Step, Inv, Positioned, Network;
    if i == |events| {
      assert events[..i] == events;
      RunInv(stream, irs, iss, events);
      PositionFromInv(stream, irs, Run(Start(iss), events));
    } else {
      var n := |events| - 1;
      assert Network(stream, irs, events[..n]) by { NetworkPrefix(stream, irs, events, n); }
      assert events[..n][..i] == events[..i];
      PositionKept(stream, irs, iss, events[..n], i);
      RunLast(Start(iss), events);
      PositionStep(irs, Run(Start(iss), events[..n]), events[n]);
      RunInv(stream, irs, iss, events);
      PositionFromInv(stream, irs, Run(Start(iss), events));
    }
  }

  lemma NetworkPrefix(stream: seq<byte>, irs: u32, events: seq<Event>, n: nat)
    requires Network(stream, irs, events) && n <= |events|
    ensures Network(stream, irs, events[..n])
  {
  }

  lemma RunLast(w: World, events: seq<Event>)
    requires |w.conn.pending| <= RING && events != []
    ensures Run(w, events) == Step(Run(w, events[..|events| - 1]), events[|events| - 1])
  {
  }

  lemma PositionFromInv(stream: seq<byte>, irs: u32, w: World)
    requires Inv(stream, irs, w)
    ensures w.conn.state in {Estab, CloseWait} ==> Positioned(irs, w)
  {
  }

  lemma PositionStep(irs: u32, w: World, e: Event)
    requires |w.conn.pending| <= RING && Positioned(irs, w) && w.conn.state != SynSent
    ensures Step(w, e).conn.state != SynSent
    ensures Step(w, e).conn.state == Closed ==> Positioned(irs, Step(w, e))
  {
    hide Wrap32, Taken, FinSurvives;
    if e.Reads? {
      assert |Accepted(Step(w, e))| == |Accepted(w)|;
    }
  }

  /** Stream safety: whatever the network does, the bytes returned followed by the
      bytes in the ring are a prefix of the peer's stream, the acknowledged position
      is exactly their count from the moment the connection was established, and a read
      that reports the end of the stream has already returned all of it. */
  lemma StreamSafety(stream: seq<byte>, irs: u32, iss: u32, events: seq<Event>, cap: nat)
    requires |stream| < HALF32 && Network(stream, irs, events)
    ensures var w := Run(Start(iss), events);
      && w.returned + w.conn.pending <= stream
      && (cap > 0 && ReadCode(w.conn, cap) == 0 ==> w.returned == stream)
    ensures forall i :: 0 <= i <= |events| && Run(Start(iss), events[..i]).conn.state in {Estab, CloseWait} ==>
      Positioned(irs, Run(Start(iss), events))
  {
    RunInv(stream, irs, iss, events);
    hide Run, Positioned;
    forall i | 0 <= i <= |events| && Run(Start(iss), events[..i]).conn.state in {Estab, CloseWait}
      ensures Positioned(irs, Run(Start(iss), events))
    {
      PositionKept(stream, irs, iss, events, i);
    }
  }

  /** The right edge of the advertised window, counted from the first stream byte. */
  ghost function Edge(w: World): nat
    requires |w.conn.pending| <= RING
  {
    Consumed(w) + WindowOf(|w.conn.pending|)
  }

  /** Every acknowledgement names the receive position and the edge of `w`. */
  ghost predicate CarryEdge(adverts: seq<Advert>, w: World)
    requires |w.conn.pending| <= RING
  {
    forall a :: a in adverts ==> a == Advert(w.conn.rcvNxt, Edge(w) - Consumed(w))
  }

  lemma EdgeStep(w: World, e: Event)
    requires |w.conn.pending| <= RING
    ensures Edge(w) <= Edge(Step(w, e))
    ensures CarryEdge(Emitted(w, e), Step(w, e))
  {
  }

  /** The edge never moves left, and every acknowledgement on the wire carries the
      edge of the state that sent it. */
  lemma {:induction false} EdgeNeverRetreats(w: World, before: seq<Event>, after: seq<Event>)
    requires |w.conn.pending| <= RING
    ensures Edge(Run(w, before)) <= Edge(Run(w, before + after))
    ensures after != [] ==>
      CarryEdge(Emitted(Run(w, before + after[..|after| - 1]), after[|after| - 1]), Run(w, before + after))
  {
    if after == [] {
      assert before + after == before;
    } else {
      var n := |after| - 1;
      EdgeNeverRetreats(w, before, after[..n]);
      assert (before + after)[..|before + after| - 1] == before + after[..n];
      EdgeStep(Run(w, before + after[..n]), after[n]);
    }
  }

  /** A sender that stays inside a window it was shown at any earlier time never
      loses in-order payload for lack of room: the whole slice is accepted. */
  lemma NoLossInsideWindow(stream: seq<byte>, irs: u32, iss: u32, before: seq<Event>, after: seq<Event>,
                           seg: Segment, off: nat)
    requires |stream| < HALF32 && Network(stream, irs, before + after)
    requires !seg.rst && SliceAt(stream, irs, seg, off)
    requires var w := Run(Start(iss), before + after);
      && w.conn.state in {Estab, CloseWait}
      && off <= |Accepted(w)| <= off + |seg.data| <= Edge(Run(Start(iss), before))
    ensures var w := Run(Start(iss), before + after);
      |Accepted(Step(w, Arrives(seg)))| == off + |seg.data|
  {
    var w := Run(Start(iss), before + after);
    RunInv(stream, irs, iss, before + after);
    EdgeNeverRetreats(Start(iss), before, after);
    TakenIsNext(stream, irs, w, seg, off);
    AcceptedGrows(w, seg);
    hide Wrap32, Signed32, Overlaps, Taken, FinSurvives, Step, Run, SliceAt, Inv;
  }

  /** How many bytes a repeated SYN with payload adds behind the `k` accepted ones. */
  function SynTakes(k: nat, pending: nat, data: nat): nat
    requires pending <= RING
  {
    if data <= k + 1 then 0 else Min(data - k - 1, RING - pending)
  }

  /** The source reads a payload as starting at the SYN's own sequence number, so a
      repeated SYN that carries the stream from its start makes it skip one byte. */
  lemma SynPayloadTaken(stream: seq<byte>, irs: u32, w: World, seg: Segment)
    requires |stream| < HALF32 && Inv(stream, irs, w) && w.conn.state in {Estab, CloseWait}
    requires !seg.rst && !seg.fin && seg.seqNo == irs && seg.data <= stream
    ensures var k := |Accepted(w)|;
      var n := SynTakes(k, |w.conn.pending|, |seg.data|);
      Taken(w.conn.rcvNxt, |w.conn.pending|, seg) == if n == 0 then [] else stream[k + 1..k + 1 + n]
  {
    hide Wrap32, Signed32;
    var k, d := Consumed(w), |seg.data|;
    WrapSelf(irs);
    WrapDifference(irs + 1 + k, irs);
    WrapDifference(irs + d, irs + 1 + k);
    WrapSum(irs + d, 0 - w.conn.rcvNxt);
    WrapZero(w.conn.rcvNxt, irs);
    if d == 0 {
      NoPayload(w.conn.rcvNxt, |w.conn.pending|, seg);
    } else {
      SignedSign(d - k - 1);
      WrapSelf(k + 1);
      if k < HALF32 { SignedSign(k + 1); }
      TakenCases(w.conn.rcvNxt, |w.conn.pending|, seg);
    }
  }

  /** Why `FromPeer` gives a SYN no payload, exactly: one that carries stream bytes keeps the
      invariant if and only if it adds nothing, or the bytes it adds happen to equal the
      ones it should have added. */
  lemma SynPayloadExact(stream: seq<byte>, irs: u32, w: World, seg: Segment)
    requires |stream| < HALF32 && Inv(stream, irs, w) && w.conn.state in {Estab, CloseWait}
    requires !seg.rst && !seg.fin && seg.seqNo == irs && seg.data <= stream
    ensures var k := |Accepted(w)|;
      var n := SynTakes(k, |w.conn.pending|, |seg.data|);
      Inv(stream, irs, Step(w, Arrives(seg))) <==> n == 0 || stream[k + 1..k + 1 + n] == stream[k..k + n]
  {
    hide Wrap32, Signed32, Overlaps, Taken, InOrder, Acknowledge;
    var k := |Accepted(w)|;
    var n := SynTakes(k, |w.conn.pending|, |seg.data|);
    SynPayloadTaken(stream, irs, w, seg);
    AcceptedGrows(w, seg);
    NoPayload(w.conn.rcvNxt, |w.conn.pending|, seg);
    var t := Taken(w.conn.rcvNxt, |w.conn.pending|, seg);
    WrapSum(irs + 1 + Consumed(w), |t|);
    var accepted := Accepted(Step(w, Arrives(seg)));
    assert accepted[k..] == t;
    if n > 0 {
      assert accepted <= stream <==> accepted[..k] == stream[..k] && accepted[k..] == stream[k..k + n];
    }
  }

  /** And it happens: from the start of any connection whose peer's first two bytes differ,
      two segments are enough to make the receiver accept what is no prefix of the stream. */
  lemma SynPayloadReached(stream: seq<byte>, irs: u32, iss: u32)
    requires 2 <= |stream| < HALF32 && stream[0] != stream[1]
    ensures var hello := Segment(irs, Wrap32(iss + 1), true, true, false, false, []);
      var again := hello.(data := stream[..2]);
      var w := Run(Start(iss), [Arrives(hello), Arrives(again)]);
      !(w.returned + w.conn.pending <= stream)
  {
    var hello := Segment(irs, Wrap32(iss + 1), true, true, false, false, []);
    var again := hello.(data := stream[..2]);
    var w1 := Step(Start(iss), Arrives(hello));
    var both := [Arrives(hello), Arrives(again)];
    assert both[..1] == [Arrives(hello)] && both[..1][..0] == [];
    assert Run(Start(iss), both[..1]) == Step(Run(Start(iss), both[..1][..0]), both[..1][0]);
    assert Run(Start(iss), both) == Step(w1, Arrives(again));
    assert Inv(stream, irs, w1) && Accepted(w1) == [];
    hide Run, Wrap32;
    SynPayloadTaken(stream, irs, w1, again);
    AcceptedGrows(w1, again);
    assert Accepted(Step(w1, Arrives(again)))[0] == stream[1];
  }

  // -------------------------------------------------- whole calls of tcp_recv

  function ArrivalEvents(segs: seq<Segment>): (r: seq<Event>)
    ensures |r| == |segs|
  {
    if segs == [] then [] else ArrivalEvents(segs[..|segs| - 1]) + [Arrives(segs[|segs| - 1])]
  }

  /** The steps that one call of `tcp_recv` performs. */
  function CallEvents(c: Conn, cap: nat, polls: seq<seq<Segment>>): seq<Event>
    requires |c.pending| <= RING
    decreases polls
  {
    if polls == [] then []
    else
      var c1 := ArriveAll(c, polls[0]);
      ArrivalEvents(polls[0]) +
      if ReadCode(c1, cap) == -1 then CallEvents(c1, cap, polls[1..]) else [Reads(cap)]
  }

  lemma {:induction false} RunConcat(w: World, xs: seq<Event>, ys: seq<Event>)
    requires |w.conn.pending| <= RING
    ensures Run(w, xs + ys) == Run(Run(w, xs), ys)
  {
    hide Step;
    if ys == [] {
      assert xs + ys == xs;
    } else {
      assert (xs + ys)[..|xs + ys| - 1] == xs + ys[..|ys| - 1];
      RunConcat(w, xs, ys[..|ys| - 1]);
    }
  }

  lemma {:induction false} ArrivalsAreRun(w: World, segs: seq<Segment>)
    requires |w.conn.pending| <= RING
    ensures Run(w, ArrivalEvents(segs)) == w.(conn := ArriveAll(w.conn, segs))
  {
    hide Arrive;
    if segs == [] {
    } else {
      var init := segs[..|segs| - 1];
      ArrivalsAreRun(w, init);
      assert ArrivalEvents(segs)[..|segs| - 1] == ArrivalEvents(init);
    }
  }

  lemma {:induction false} CallIsRun(w: World, cap: nat, polls: seq<seq<Segment>>)
    requires |w.conn.pending| <= RING
    ensures var r := ReadAfter(w.conn, cap, polls);
      Run(w, CallEvents(w.conn, cap, polls)) == World(r.conn, w.returned + r.data)
    decreases polls
  {
    hide Arrive, AdvertsOf, ReopensWindow, ArriveAll, ArrivalEvents, AdvertOf;
    if polls == [] {
    } else {
      var arrivals := ArrivalEvents(polls[0]);
      var c1 := ArriveAll(w.conn, polls[0]);
      ArrivalsAreRun(w, polls[0]);
      if ReadCode(c1, cap) == -1 {
        RunConcat(w, arrivals, CallEvents(c1, cap, polls[1..]));
        CallIsRun(w.(conn := c1), cap, polls[1..]);
      } else {
        RunConcat(w, arrivals, [Reads(cap)]);
        assert [Reads(cap)][..0] == [];
      }
    }
  }

  lemma {:induction false} CallFromPeer(stream: seq<byte>, irs: u32, c: Conn, cap: nat, polls: seq<seq<Segment>>)
    requires |c.pending| <= RING
    requires forall k, i :: 0 <= k < |polls| && 0 <= i < |polls[k]| ==> FromPeer(stream, irs, polls[k][i])
    ensures Network(stream, irs, CallEvents(c, cap, polls))
    decreases polls
  {
    if polls == [] {
    } else {
      ArrivalsFromPeer(stream, irs, polls[0]);
      CallFromPeer(stream, irs, ArriveAll(c, polls[0]), cap, polls[1..]);
    }
  }

  lemma {:induction false} ArrivalsFromPeer(stream: seq<byte>, irs: u32, segs: seq<Segment>)
    requires forall i :: 0 <= i < |segs| ==> FromPeer(stream, irs, segs[i])
    ensures Network(stream, irs, ArrivalEvents(segs))
  {
    if segs == [] {
    } else {
      ArrivalsFromPeer(stream, irs, segs[..|segs| - 1]);
    }
  }

  /** After any run, one more call of `tcp_recv` returns the next bytes of the
      stream, and 0 (for a non-empty buffer) only when all of it was returned. */
  lemma RecvReturnsStream(stream: seq<byte>, irs: u32, iss: u32, events: seq<Event>, cap: nat, polls: seq<seq<Segment>>)
    requires |stream| < HALF32 && Network(stream, irs, events)
    requires forall k, i :: 0 <= k < |polls| && 0 <= i < |polls[k]| ==> FromPeer(stream, irs, polls[k][i])
    ensures var w := Run(Start(iss), events);
      var r := ReadAfter(w.conn, cap, polls);
      && w.returned + r.data <= stream
      && (r.code == 0 && cap > 0 ==> w.returned == stream)
  {
    var w := Run(Start(iss), events);
    var call := CallEvents(w.conn, cap, polls);
    CallIsRun(w, cap, polls);
    CallFromPeer(stream, irs, w.conn, cap, polls);
    RunConcat(Start(iss), events, call);
    RunInv(stream, irs, iss, events + call);
    EndMeansFin(w.conn, cap, polls);
    hide Run, CallEvents, ReadAfter, Network;
    var r := ReadAfter(w.conn, cap, polls);
    assert w.returned + r.data <= w.returned + r.data + r.conn.pending;
  }

  lemma {:induction false} EndMeansFin(c: Conn, cap: nat, polls: seq<seq<Segment>>)
    requires |c.pending| <= RING
    ensures var r := ReadAfter(c, cap, polls);
      r.code == 0 && cap > 0 ==> r.conn.fin && r.conn.pending == [] && r.data == []
    decreases polls
  {
    if polls == [] {
    } else {
      EndMeansFin(ArriveAll(c, polls[0]), cap, polls[1..]);
    }
  }

  /** Send space that is not acknowledged yet. */
  function Outstanding(c: Conn): u32 {
    Wrap32(c.sndNxt - c.sndUna)
  }

  /** Whatever acknowledgement number arrives, old, repeated or out of range, the
      unacknowledged space never grows, and it shrinks only to a number inside it. */
  lemma AckOnlyAdvances(c: Conn, seg: Segment)
    requires |c.pending| <= RING && c.state in {Estab, CloseWait} && Outstanding(c) < HALF32
    ensures var c' := Arrive(c, seg).0;
      && c'.sndNxt == c.sndNxt && Outstanding(c') <= Outstanding(c)
      && (c'.sndUna == c.sndUna || (seg.ack && c'.sndUna == seg.ackNo))
  {
    hide Taken, FinSurvives, Overlaps, InOrder;
    var a, b := seg.ackNo - c.sndUna, seg.ackNo - c.sndNxt;
    WrapCases(a);
    WrapCases(b);
    WrapCases(c.sndNxt - c.sndUna);
  }

  lemma WrapCases(x: int)
    requires -MOD32 < x < MOD32
    ensures Wrap32(x) == if x >= 0 then x else x + MOD32
  {
  }
}
