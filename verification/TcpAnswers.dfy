/** How the receiver answers each kind of segment and read, stated on the stream, the
    sequence numbers and the wire rather than on the machine of `Tcp`. */
module TcpAnswers {
  import opened Words
  import opened Tcp
  import opened TcpRuns

  // ------------------------------------------------------------------- the FIN

  /** When a FIN that follows the slice at `off` is taken by a receiver of `k` bytes with
      `room` in its ring: it comes alone and everything before it has arrived, or the slice
      brings something new and all of the rest fits. */
  predicate FinFits(total: nat, off: nat, data: nat, k: nat, room: nat) {
    (data == 0 && k == total) || (off <= k < total && total - k <= room)
  }

  lemma FinExact(stream: seq<byte>, irs: u32, w: World, seg: Segment, off: nat)
    requires |stream| < HALF32 && Inv(stream, irs, w) && w.conn.state in {Estab, CloseWait} && !w.conn.fin
    requires !seg.rst && seg.fin && SliceAt(stream, irs, seg, off)
    ensures Arrive(w.conn, seg).0.fin <==> FinFits(|stream|, off, |seg.data|, |Accepted(w)|, RING - |w.conn.pending|)
  {
    FinAtEnd(stream, irs, w, seg, off);
    TakenCount(stream, irs, w, seg, off);
    SurvivesExact(stream, irs, w, seg, off);
    hide Wrap32, Arrive, Taken, FinSurvives, Accepted;
    FinCounted(|stream|, off, |seg.data|, |Accepted(w)|, |Taken(w.conn.rcvNxt, |w.conn.pending|, seg)|, RING - |w.conn.pending|,
      FinSurvives(w.conn.rcvNxt, |w.conn.pending|, seg));
  }

  lemma FinCounted(total: nat, off: nat, data: nat, k: nat, n: nat, room: nat, survives: bool)
    requires off + data == total && k + n <= total && (data == 0 || total <= k ==> n == 0)
    requires off <= k < total ==> n == Min(total - k, room)
    requires survives <==> data == 0 || (off <= k < total && total - k <= room)
    ensures survives && total == k + n <==> FinFits(total, off, data, k, room)
  {
  }

  /** How many bytes a slice brings. */
  lemma TakenCount(stream: seq<byte>, irs: u32, w: World, seg: Segment, off: nat)
    requires |stream| < HALF32 && Inv(stream, irs, w) && w.conn.state in {Estab, CloseWait}
    requires SliceAt(stream, irs, seg, off)
    ensures var k, n := |Accepted(w)|, |Taken(w.conn.rcvNxt, |w.conn.pending|, seg)|;
      && k + n <= |stream|
      && (|seg.data| == 0 || off + |seg.data| <= k ==> n == 0)
      && (off <= k < off + |seg.data| ==> n == Min(off + |seg.data| - k, RING - |w.conn.pending|))
  {
    TakenIsNext(stream, irs, w, seg, off);
    NoPayload(w.conn.rcvNxt, |w.conn.pending|, seg);
    hide Inv, Taken, Accepted;
  }

  /** A FIN that survives counts when the receiver is then at the end of its data. */
  lemma FinAtEnd(stream: seq<byte>, irs: u32, w: World, seg: Segment, off: nat)
    requires |stream| < HALF32 && Inv(stream, irs, w) && w.conn.state in {Estab, CloseWait} && !w.conn.fin
    requires !seg.rst && SliceAt(stream, irs, seg, off)
    ensures var t := Taken(w.conn.rcvNxt, |w.conn.pending|, seg);
      Arrive(w.conn, seg).0.fin <==> FinSurvives(w.conn.rcvNxt, |w.conn.pending|, seg) && off + |seg.data| == |Accepted(w)| + |t|
  {
    var k, n := |Accepted(w)|, |Taken(w.conn.rcvNxt, |w.conn.pending|, seg)|;
    TakenCount(stream, irs, w, seg, off);
    ReceivePosition(stream, irs, w);
    hide Inv, Accepted, Wrap32, Signed32, Overlaps, Taken, FinSurvives, Acknowledge;
    WrapSum(irs + 1 + k, n);
    SliceCases(stream, irs, seg, off, k + n, Wrap32(irs + 1 + (k + n)));
  }

  lemma ReceivePosition(stream: seq<byte>, irs: u32, w: World)
    requires Inv(stream, irs, w) && w.conn.state in {Estab, CloseWait} && !w.conn.fin
    ensures w.conn.rcvNxt == Wrap32(irs + 1 + |Accepted(w)|)
  {
  }

  lemma SurvivesExact(stream: seq<byte>, irs: u32, w: World, seg: Segment, off: nat)
    requires |stream| < HALF32 && Inv(stream, irs, w) && w.conn.state in {Estab, CloseWait} && !w.conn.fin
    requires !seg.rst && seg.fin && SliceAt(stream, irs, seg, off)
    ensures var k := |Accepted(w)|;
      FinSurvives(w.conn.rcvNxt, |w.conn.pending|, seg) <==>
        |seg.data| == 0 || (off <= k < off + |seg.data| && off + |seg.data| - k <= RING - |w.conn.pending|)
  {
    SliceCases(stream, irs, seg, off, |Accepted(w)|, w.conn.rcvNxt);
    NoPayload(w.conn.rcvNxt, |w.conn.pending|, seg);
    if |seg.data| > 0 { TakenCases(w.conn.rcvNxt, |w.conn.pending|, seg); }
    hide Wrap32, Signed32, Overlaps, Taken, InOrder, FinSurvives, Arrive;
  }

  /** A taken FIN ends the stream: all of it is accepted, the receiver moves on to
      CLOSE-WAIT, counts the FIN and answers it, and once the ring is drained reads report
      the end. */
  lemma FinEnds(stream: seq<byte>, irs: u32, w: World, seg: Segment, off: nat)
    requires |stream| < HALF32 && Inv(stream, irs, w) && w.conn.state in {Estab, CloseWait} && !w.conn.fin
    requires !seg.rst && seg.fin && SliceAt(stream, irs, seg, off)
    requires FinFits(|stream|, off, |seg.data|, |Accepted(w)|, RING - |w.conn.pending|)
    ensures var w' := Step(w, Arrives(seg));
      && w'.conn.fin && w'.conn.state == CloseWait && Accepted(w') == stream
      && w'.conn.rcvNxt == Wrap32(irs + 2 + |stream|)
      && Emitted(w, Arrives(seg)) == [Advert(Wrap32(irs + 2 + |stream|), Min(65535, RING - |w'.conn.pending|))]
      && forall cap, cap' :: cap' > 0 && cap >= |w'.conn.pending| ==> ReadCode(Read(w'.conn, cap), cap') == 0
  {
    FinExact(stream, irs, w, seg, off);
    SlicePreserves(stream, irs, w, seg, off);
    AcceptedGrows(w, seg);
    hide Wrap32, Signed32, Overlaps, Taken, InOrder, FinSurvives, Acknowledge;
  }

  /** After any run of the network the FIN behaves so. */
  lemma FinAfterRun(stream: seq<byte>, irs: u32, iss: u32, events: seq<Event>, seg: Segment, off: nat)
    requires |stream| < HALF32 && Network(stream, irs, events) && !seg.rst && seg.fin && SliceAt(stream, irs, seg, off)
    requires var c := Run(Start(iss), events).conn; c.state in {Estab, CloseWait} && !c.fin
    ensures var w := Run(Start(iss), events);
      var w' := Step(w, Arrives(seg));
      && (w'.conn.fin <==> FinFits(|stream|, off, |seg.data|, |Accepted(w)|, RING - |w.conn.pending|))
      && (w'.conn.fin ==> w'.conn.state == CloseWait && Accepted(w') == stream && w'.conn.rcvNxt == Wrap32(irs + 2 + |stream|) && |Emitted(w, Arrives(seg))| == 1)
  {
    var w := Run(Start(iss), events);
    RunInv(stream, irs, iss, events);
    FinExact(stream, irs, w, seg, off);
    hide Run, Emitted, Inv, Taken, FinSurvives, Acknowledge, Wrap32;
    if FinFits(|stream|, off, |seg.data|, |Accepted(w)|, RING - |w.conn.pending|) { FinEnds(stream, irs, w, seg, off); }
  }

  /** A FIN that comes again together with data already accepted is not taken, although
      nothing before it is missing; the receiver waits for it to come alone. */
  lemma OldDataHidesFin(stream: seq<byte>, irs: u32, w: World, seg: Segment, off: nat)
    requires |stream| < HALF32 && Inv(stream, irs, w) && w.conn.state in {Estab, CloseWait} && !w.conn.fin
    requires !seg.rst && seg.fin && SliceAt(stream, irs, seg, off) && Accepted(w) == stream && seg.data != []
    ensures !Arrive(w.conn, seg).0.fin && Wrap32(seg.seqNo + |seg.data|) == w.conn.rcvNxt
  {
    FinExact(stream, irs, w, seg, off);
    SliceCases(stream, irs, seg, off, |stream|, w.conn.rcvNxt);
  }

  // ------------------------------------------------------------ other segments

  /** Every segment with payload is answered, in order or not. */
  lemma PayloadAnswered(w: World, seg: Segment)
    requires |w.conn.pending| <= RING && w.conn.state in {Estab, CloseWait} && !seg.rst && seg.data != []
    ensures var c := Step(w, Arrives(seg)).conn;
      Emitted(w, Arrives(seg)) == [Advert(c.rcvNxt, Min(65535, RING - |c.pending|))]
  {
  }

  /** An acknowledgement number counts exactly when it lies in the space outstanding. */
  lemma AckExact(c: Conn, seg: Segment)
    requires |c.pending| <= RING && c.state in {Estab, CloseWait} && !seg.rst && Outstanding(c) < HALF32
    ensures var step := Wrap32(seg.ackNo - c.sndUna);
      Arrive(c, seg).0.sndUna == if seg.ack && 0 < step <= Outstanding(c) then seg.ackNo else c.sndUna
  {
    hide Taken, FinSurvives, Overlaps, InOrder;
    WrapCases(seg.ackNo - c.sndUna);
    WrapCases(seg.ackNo - c.sndNxt);
    WrapCases(c.sndNxt - c.sndUna);
  }

  /** The handshake: the matching SYN+ACK, and nothing else, establishes the connection. */
  lemma HandshakeExact(c: Conn, seg: Segment)
    requires |c.pending| <= RING && c.state == SynSent
    ensures var r := Arrive(c, seg);
      && (r.0.state == Estab <==> !seg.rst && seg.syn && seg.ack && seg.ackNo == c.sndNxt)
      && (r.0.state == Estab ==> r.1 && r.0.rcvNxt == Wrap32(seg.seqNo + 1) && r.0.sndUna == c.sndNxt && r.0.pending == c.pending)
      && (r.0.state != Estab && !seg.rst ==> r == (c, false))
  {
  }

  /** A reset closes the connection at once; what is in the ring can still be read, and
      then reads report the reset, unless a FIN was taken before. */
  lemma ResetReported(c: Conn, seg: Segment, cap: nat, cap': nat)
    requires |c.pending| <= RING && c.state != Closed && seg.rst && cap >= |c.pending|
    ensures var r := Arrive(c, seg);
      && r.0.state == Closed && r.0.pending == c.pending && !r.1
      && ReadCode(Read(r.0, cap), cap') == if c.fin then 0 else -2
  {
  }

  // --------------------------------------------------------------------- reads

  /** A read takes what there is, up to what was asked for, oldest first. */
  lemma ReadTakes(c: Conn, cap: nat)
    requires c.pending != []
    ensures var n := ReadCode(c, cap);
      && 0 <= n <= |c.pending| && n <= cap && (n == cap || n == |c.pending|)
      && Read(c, cap).pending == c.pending[n..]
  {
  }

  /** A read that opens the window from less than two full segments to at least that
      many tells the sender so. */
  lemma WindowReopened(w: World, cap: nat)
    requires |w.conn.pending| <= RING
    ensures var c := Step(w, Reads(cap)).conn;
      Emitted(w, Reads(cap)) ==
        if RING - |w.conn.pending| < 2920 <= RING - |c.pending| && w.conn.state != Closed then [Advert(c.rcvNxt, Min(65535, RING - |c.pending|))] else []
  {
  }
}
