/** The receive side of the TCP client: sequence arithmetic, the receive ring
    and the acknowledgements it advertises.

    The class `Socket` follows the global connection record of the C source and
    is proved equal, call by call, to the value-level machine `Arrive`/`Read`.
    The run theorems (a prefix of the peer's stream, no early end of file, a
    window edge that never retreats) are then about every run of that machine. */
module Tcp {
  import opened Words

  const RING: nat := 0x10_0000
  const MAX_WINDOW: nat := 65535
  const WINDOW_UPDATE: nat := 2920

  datatype State = Closed | SynSent | Estab | CloseWait

  /** One arriving segment; a payload always fits an IPv4 packet. */
  datatype RawSegment = Segment(seqNo: u32, ackNo: u32, syn: bool, ack: bool, fin: bool, rst: bool, data: seq<byte>)
  type Segment = s: RawSegment | |s.data| <= 65495 witness Segment(0, 0, false, false, false, false, [])

  /** The acknowledgement and window fields of a segment handed to the wire. */
  datatype Advert = Advert(ackNo: u32, window: nat)

  datatype Conn = Conn(state: State, sndUna: u32, sndNxt: u32, rcvNxt: u32, fin: bool, rst: bool, pending: seq<byte>)

  // ---------------------------------------------------------------- machine

  function WindowOf(pending: nat): nat
    requires pending <= RING
  {
    Min(MAX_WINDOW, RING - pending)
  }

  function AdvertOf(c: Conn): Advert
    requires |c.pending| <= RING
  {
    Advert(c.rcvNxt, WindowOf(|c.pending|))
  }

  /** The part of a payload at or past `rcvNxt`, when that part is in order. */
  function InOrder(rcvNxt: u32, seg: Segment): seq<byte> {
    if seg.seqNo == rcvNxt then seg.data
    else if Overlaps(rcvNxt, seg) then OverlapSkip(rcvNxt, seg); seg.data[Wrap32(rcvNxt - seg.seqNo)..]
    else []
  }

  /** The "partial retransmit" test of the source, on signed 32-bit differences. */
  predicate Overlaps(rcvNxt: u32, seg: Segment) {
    && Signed32(Wrap32(rcvNxt - seg.seqNo)) > 0
    && Signed32(Wrap32(seg.seqNo + |seg.data| - rcvNxt)) > 0
  }

  lemma OverlapSkip(rcvNxt: u32, seg: Segment)
    requires Overlaps(rcvNxt, seg)
    ensures Wrap32(rcvNxt - seg.seqNo) <= |seg.data|
  {
  }

  /** The payload bytes that enter the ring: in order and as many as fit. */
  function Taken(rcvNxt: u32, pending: nat, seg: Segment): seq<byte>
    requires pending <= RING
  {
    InOrder(rcvNxt, seg)[..Min(|InOrder(rcvNxt, seg)|, RING - pending)]
  }

  /** A FIN counts only when nothing before it in the segment was dropped. */
  predicate FinSurvives(rcvNxt: u32, pending: nat, seg: Segment)
    requires pending <= RING
  {
    && seg.fin
    && (|seg.data| == 0 || seg.seqNo == rcvNxt || Overlaps(rcvNxt, seg))
    && |Taken(rcvNxt, pending, seg)| == |InOrder(rcvNxt, seg)|
  }

  /** `Taken` and `FinSurvives` by the three branches of the source. */
  lemma TakenCases(rcvNxt: u32, pending: nat, seg: Segment)
    requires pending <= RING && |seg.data| > 0
    ensures seg.seqNo == rcvNxt ==>
      var n := Min(|seg.data|, RING - pending);
      Taken(rcvNxt, pending, seg) == seg.data[0..n] && FinSurvives(rcvNxt, pending, seg) == (seg.fin && n == |seg.data|)
    ensures seg.seqNo != rcvNxt && Overlaps(rcvNxt, seg) ==>
      var skip := Wrap32(rcvNxt - seg.seqNo);
      && skip <= |seg.data|
      && var n := Min(|seg.data| - skip, RING - pending);
      && Taken(rcvNxt, pending, seg) == seg.data[skip..skip + n]
      && FinSurvives(rcvNxt, pending, seg) == (seg.fin && n == |seg.data| - skip)
    ensures seg.seqNo != rcvNxt && !Overlaps(rcvNxt, seg) ==>
      Taken(rcvNxt, pending, seg) == [] && !FinSurvives(rcvNxt, pending, seg) && Wrap32(rcvNxt + 0) == rcvNxt
  {
    if seg.seqNo != rcvNxt && Overlaps(rcvNxt, seg) {
      OverlapSkip(rcvNxt, seg);
      hide Wrap32;
    }
  }

  lemma NoPayload(rcvNxt: u32, pending: nat, seg: Segment)
    requires pending <= RING
    ensures |seg.data| == 0 ==>
      Taken(rcvNxt, pending, seg) == [] && Wrap32(rcvNxt + 0) == rcvNxt && FinSurvives(rcvNxt, pending, seg) == seg.fin
  {
  }

  function Acknowledge(c: Conn, seg: Segment): u32 {
    if seg.ack && Signed32(Wrap32(seg.ackNo - c.sndUna)) > 0 && Signed32(Wrap32(seg.ackNo - c.sndNxt)) <= 0
    then seg.ackNo else c.sndUna
  }

  /** The effect of one segment: the new connection and whether it is acknowledged. */
  function Arrive(c: Conn, seg: Segment): (Conn, bool)
    requires |c.pending| <= RING
  {
    if c.state == Closed then (c, false)
    else if seg.rst then (c.(rst := true, state := Closed), false)
    else if c.state == SynSent then
      if seg.syn && seg.ack && seg.ackNo == c.sndNxt
      then (c.(rcvNxt := Wrap32(seg.seqNo + 1), sndUna := seg.ackNo, state := Estab), true)
      else (c, false)
    else ArriveEstablished(c, seg)
  }

  function ArriveEstablished(c: Conn, seg: Segment): (Conn, bool)
    requires |c.pending| <= RING
  {
    var taken := Taken(c.rcvNxt, |c.pending|, seg);
    var rcvNxt := Wrap32(c.rcvNxt + |taken|);
    var atFin := FinSurvives(c.rcvNxt, |c.pending|, seg) && Wrap32(seg.seqNo + |seg.data|) == rcvNxt;
    (c.(sndUna := Acknowledge(c, seg),
        pending := c.pending + taken,
        rcvNxt := if atFin then Wrap32(rcvNxt + 1) else rcvNxt,
        fin := c.fin || atFin,
        state := if atFin && c.state == Estab then CloseWait else c.state),
     |seg.data| > 0 || atFin)
  }

  /** Acknowledgement and data do not get in each other's way. */
  lemma AckApart(c: Conn, seg: Segment)
    requires |c.pending| <= RING
    ensures var acked := c.(sndUna := Acknowledge(c, seg));
      && ArriveEstablished(acked, seg).0.(sndUna := acked.sndUna) == ArriveEstablished(c, seg).0
      && ArriveEstablished(acked, seg).1 == ArriveEstablished(c, seg).1
  {
    hide Wrap32, Signed32, Taken, FinSurvives, Acknowledge;
  }

  /** What one pass of the receive loop returns: a byte count, 0 for a clean end,
      -2 for a reset and -1 when the caller has to wait (or times out). */
  function ReadCode(c: Conn, cap: nat): int {
    if |c.pending| > 0 then Min(cap, |c.pending|)
    else if c.fin then 0
    else if c.rst then -2
    else -1
  }

  function Read(c: Conn, cap: nat): Conn {
    c.(pending := c.pending[Min(cap, |c.pending|)..])
  }

  /** Draining sends a window update when it reopens a window below two segments. */
  predicate ReopensWindow(c: Conn, cap: nat) {
    && |c.pending| > 0
    && RING - |c.pending| < WINDOW_UPDATE
    && RING - |Read(c, cap).pending| >= WINDOW_UPDATE
    && c.state != Closed
  }

  // ------------------------------------------------------------ ring storage

  function Slot(i: nat): nat
    requires i < 2 * RING
  {
    if i < RING then i else i - RING
  }

  function Next(i: nat): nat
    requires i < RING
  {
    (i + 1) % 0x10_0000
  }

  /** Byte k of `s` sits k places after `tail`, wrapping at the end of the ring. */
  ghost predicate Holds(ring: array<byte>, tail: nat, s: seq<byte>)
    requires ring.Length == RING && tail < RING && |s| <= RING
    reads ring
  {
    forall k :: 0 <= k < |s| ==> ring[Slot(tail + k)] == s[k]
  }

  // ------------------------------------------------------- imperative socket

  class Socket {
    var state: State
    var sndUna: u32
    var sndNxt: u32
    var rcvNxt: u32
    var fin: bool
    var rst: bool
    const ring: array<byte>
    var rhead: nat
    var rtail: nat
    var rcount: nat
    /** Acknowledgements transmitted so far. */
    var sent: seq<Advert>

    /** The unread bytes, oldest first. */
    ghost var pending: seq<byte>

    ghost predicate Valid()
      reads this, ring
    {
      && ring.Length == RING
      && rhead < RING && rtail < RING && rcount <= RING
      && rhead == Slot(rtail + rcount)
      && rcount == |pending|
      && Holds(ring, rtail, pending)
    }

    ghost function View(): (c: Conn)
      requires Valid()
      reads this, ring
      ensures |c.pending| <= RING
    {
      Conn(state, sndUna, sndNxt, rcvNxt, fin, rst, pending)
    }

    /** `tcp_connect` up to its first transmission. */
    constructor (iss: u32)
      ensures Valid() && fresh(ring)
      ensures View() == Conn(SynSent, iss, Wrap32(iss + 1), 0, false, false, [])
      ensures sent == []
    {
      state, sndUna, sndNxt, rcvNxt, fin, rst := SynSent, iss, Wrap32(iss + 1), 0, false, false;
      ring := new byte[RING];
      rhead, rtail, rcount, sent, pending := 0, 0, 0, [], [];
    }

    /** `tcp_tx` of an empty acknowledgement: the two fields the peer acts on. */
    method SendAck()
      requires Valid()
      modifies this`sent
      ensures Valid() && View() == old(View())
      ensures sent == old(sent) + [AdvertOf(View())]
    {
      var window := if RING - rcount > MAX_WINDOW then MAX_WINDOW else RING - rcount;
      sent := sent + [Advert(rcvNxt, window)];
    }

    /** The copy loop of the two in-order branches of `tcp_in`. */
    method Append(d: seq<byte>, skip: nat, n: nat)
      requires Valid() && rcount + n <= RING && skip + n <= |d|
      modifies this`rhead, this`rcount, this`pending, ring
      ensures Valid() && rcount == old(rcount) + n
      ensures pending == old(pending) + d[skip..skip + n]
    {
      hide Slot, Holds;
      for i := 0 to n
        modifies this`rhead, this`pending, ring
        invariant pending == old(pending) + d[skip..skip + i]
        invariant rhead < RING && rhead == Slot(rtail + |pending|)
        invariant Holds(ring, rtail, pending)
      {
        PutByte(d[skip + i]);
      }
      rcount := rcount + n;
    }

    method PutByte(b: byte)
      requires ring.Length == RING && rtail < RING && |pending| < RING
      requires rhead < RING && rhead == Slot(rtail + |pending|) && Holds(ring, rtail, pending)
      modifies this`rhead, this`pending, ring
      ensures pending == old(pending) + [b] && rhead < RING && rhead == Slot(rtail + |pending|) && Holds(ring, rtail, pending)
    {
      ring[rhead] := b;
      rhead := Next(rhead);
      pending := pending + [b];
    }

    /** The payload part of `tcp_in`; returns whether the FIN flag survives. */
    method InputPayload(seg: Segment) returns (finFlag: bool)
      requires Valid() && |seg.data| > 0
      modifies this`rcvNxt, this`rhead, this`rcount, this`pending, ring
      ensures Valid()
      ensures pending == old(pending) + Taken(old(rcvNxt), old(rcount), seg)
      ensures rcvNxt == Wrap32(old(rcvNxt) + |Taken(old(rcvNxt), old(rcount), seg)|)
      ensures finFlag == FinSurvives(old(rcvNxt), old(rcount), seg)
    {
      hide Wrap32, Signed32, Holds, Slot, Overlaps, InOrder, Taken, FinSurvives;
      TakenCases(rcvNxt, rcount, seg);
      finFlag := seg.fin;
      var dlen := |seg.data|;
      var room := RING - rcount;
      var skip, n := 0, 0;
      if seg.seqNo == rcvNxt {
        n := if dlen < room then dlen else room;
        if n < dlen { finFlag := false; }
      } else if Overlaps(rcvNxt, seg) {
        skip := Wrap32(rcvNxt - seg.seqNo);
        n := if dlen - skip < room then dlen - skip else room;
        if n < dlen - skip { finFlag := false; }
      } else {
        finFlag := false;
      }
      Append(seg.data, skip, n);
      rcvNxt := Wrap32(rcvNxt + n);
    }

    /** `tcp_in` after the header checks. */
    method Input(seg: Segment)
      requires Valid()
      modifies this, ring
      ensures Valid()
      ensures View() == Arrive(old(View()), seg).0
      ensures sent == old(sent) + (if Arrive(old(View()), seg).1 then [AdvertOf(View())] else [])
    {
      if state == Closed { return; }
      if seg.rst { rst := true; state := Closed; return; }
      if state == SynSent {
        if seg.syn && seg.ack && seg.ackNo == sndNxt {
          rcvNxt := Wrap32(seg.seqNo + 1);
          sndUna := seg.ackNo;
          state := Estab;
          SendAck();
        }
        return;
      }
      InputEstablished(seg);
    }

    method InputEstablished(seg: Segment)
      requires Valid() && state in {Estab, CloseWait}
      modifies this, ring
      ensures Valid()
      ensures View() == ArriveEstablished(old(View()), seg).0
      ensures sent == old(sent) + (if ArriveEstablished(old(View()), seg).1 then [AdvertOf(View())] else [])
    {
      hide Valid, View, ArriveEstablished, Acknowledge, AdvertOf;
      AckApart(View(), seg);
      AcceptAck(seg);
      var needAck := InputData(seg);
      if needAck { SendAck(); }
    }

    method AcceptAck(seg: Segment)
      requires Valid()
      modifies this`sndUna
      ensures Valid() && View() == old(View()).(sndUna := Acknowledge(old(View()), seg))
    {
      hide Wrap32, Signed32, Holds, Slot;
      if seg.ack && Signed32(Wrap32(seg.ackNo - sndUna)) > 0 && Signed32(Wrap32(seg.ackNo - sndNxt)) <= 0 {
        sndUna := seg.ackNo;
      }
    }

    /** Payload and FIN; returns whether they must be acknowledged. */
    method InputData(seg: Segment) returns (needAck: bool)
      requires Valid() && state in {Estab, CloseWait}
      modifies this`rcvNxt, this`rhead, this`rcount, this`pending, this`fin, this`state, ring
      ensures Valid()
      ensures View() == ArriveEstablished(old(View()), seg).0.(sndUna := old(View()).sndUna) && sent == old(sent)
      ensures needAck == ArriveEstablished(old(View()), seg).1
    {
      hide Wrap32, Signed32, Taken, FinSurvives, Holds, Slot, Acknowledge;
      NoPayload(rcvNxt, rcount, seg);
      var finFlag := seg.fin;
      needAck := false;
      if |seg.data| > 0 {
        finFlag := InputPayload(seg);
        needAck := true;
      }
      if finFlag && Wrap32(seg.seqNo + |seg.data|) == rcvNxt {
        InputFin();
        needAck := true;
      }
    }

    method InputFin()
      modifies this`rcvNxt, this`fin, this`state
      ensures rcvNxt == Wrap32(old(rcvNxt) + 1) && fin
      ensures state == if old(state) == Estab then CloseWait else old(state)
    {
      rcvNxt := Wrap32(rcvNxt + 1);
      fin := true;
      if state == Estab { state := CloseWait; }
    }

    /** The drain loop of `tcp_recv` into the caller's buffer. */
    method Drain(buf: array<byte>, cap: nat) returns (n: nat)
      requires Valid() && cap <= buf.Length && buf != ring
      modifies this`rtail, this`rcount, this`pending, buf
      ensures Valid()
      ensures n == Min(cap, |old(pending)|)
      ensures buf[..n] == old(pending)[..n]
      ensures buf[n..] == old(buf[n..])
      ensures pending == old(pending)[n..]
    {
      n := 0;
      ghost var p := pending;
      while n < cap && rcount > 0
        invariant n <= cap && Valid() && n + rcount == old(rcount)
        invariant pending == p[n..]
        invariant buf[..n] == p[..n]
        invariant buf[n..] == old(buf[..])[n..]
      {
        buf[n] := TakeByte();
        n := n + 1;
      }
    }

    method TakeByte() returns (b: byte)
      requires Valid() && rcount > 0
      modifies this`rtail, this`rcount, this`pending
      ensures Valid() && rcount == old(rcount) - 1
      ensures [b] + pending == old(pending)
    {
      b := ring[rtail];
      pending := pending[1..];
      rtail := Next(rtail);
      rcount := rcount - 1;
    }

    /** One poll of the network: every waiting segment goes through `tcp_in`. */
    method Poll(segs: seq<Segment>)
      requires Valid()
      modifies this, ring
      ensures Valid()
      ensures View() == ArriveAll(old(View()), segs)
      ensures sent == old(sent) + AdvertsOf(old(View()), segs)
    {
      for j := 0 to |segs|
        invariant Valid()
        invariant View() == ArriveAll(old(View()), segs[..j])
        invariant sent == old(sent) + AdvertsOf(old(View()), segs[..j])
      {
        hide Arrive, Holds;
        assert segs[..j + 1][..j] == segs[..j];
        Input(segs[j]);
      }
      assert segs[..|segs|] == segs;
    }

    /** The part of the `tcp_recv` loop body after the poll. */
    method TryRead(buf: array<byte>, cap: nat) returns (code: int)
      requires Valid() && cap <= buf.Length && buf != ring
      modifies this`rtail, this`rcount, this`pending, this`sent, buf
      ensures Valid()
      ensures code == ReadCode(old(View()), cap)
      ensures View() == Read(old(View()), cap)
      ensures code > 0 ==> code <= cap && code <= |old(View()).pending| && buf[..code] == old(View()).pending[..code]
      ensures sent == old(sent) + (if ReopensWindow(old(View()), cap) then [AdvertOf(View())] else [])
    {
      hide Holds;
      if rcount > 0 {
        var before := RING - rcount;
        var n := Drain(buf, cap);
        if before < WINDOW_UPDATE && RING - rcount >= WINDOW_UPDATE && state != Closed {
          SendAck();
        }
        return n;
      }
      if fin { return 0; }
      if rst { return -2; }
      return -1;
    }

    /** `tcp_recv`: `polls[k]` is what the k-th poll of the network delivers before
        the deadline. */
    method Receive(buf: array<byte>, cap: nat, polls: seq<seq<Segment>>) returns (code: int)
      requires Valid() && cap <= buf.Length && buf != ring
      modifies this, ring, buf
      ensures Valid()
      ensures var r := ReadAfter(old(View()), cap, polls);
        && code == r.code
        && View() == r.conn
        && sent == old(sent) + r.adverts
        && (code > 0 ==> code <= cap && buf[..code] == r.data)
    {
      hide Arrive, ReopensWindow, WindowOf, AdvertsOf, AdvertOf, ArriveAll, ReadAfter, ReadCode, Read, Valid, View;
      ghost var all := ReadAfter(View(), cap, polls);
      assert polls[0..] == polls;
      var k := 0;
      while k < |polls|
        invariant k <= |polls| && Valid()
        invariant all == ReadAfter(View(), cap, polls[k..]).(adverts := all.adverts)
        invariant old(sent) + all.adverts == sent + ReadAfter(View(), cap, polls[k..]).adverts
      {
        ReadAfterStep(View(), cap, polls[k..], sent);
        assert polls[k..][1..] == polls[k + 1..];
        Poll(polls[k]);
        code := TryRead(buf, cap);
        if code != -1 { return; }
        k := k + 1;
      }
      ReadAfterNothing(View(), cap, polls[k..]);
      return -1;
    }
  }

  lemma ReadAfterNothing(c: Conn, cap: nat, polls: seq<seq<Segment>>)
    requires |c.pending| <= RING && polls == []
    ensures ReadAfter(c, cap, polls) == ReadResult(c, -1, [], [])
  {
  }

  /** One turn of the polling loop, with `sent` acknowledgements already out. */
  lemma ReadAfterStep(c: Conn, cap: nat, polls: seq<seq<Segment>>, sent: seq<Advert>)
    requires |c.pending| <= RING && polls != []
    ensures var c1, adverts := ArriveAll(c, polls[0]), AdvertsOf(c, polls[0]);
      var r := ReadAfter(c, cap, polls);
      if ReadCode(c1, cap) == -1 then
        && Read(c1, cap) == c1 && !ReopensWindow(c1, cap)
        && r == ReadAfter(c1, cap, polls[1..]).(adverts := r.adverts)
        && sent + r.adverts == sent + adverts + ReadAfter(c1, cap, polls[1..]).adverts
      else
        && r.conn == Read(c1, cap) && r.code == ReadCode(c1, cap)
        && (r.code > 0 ==> r.code <= cap && r.code <= |c1.pending| && r.data == c1.pending[..r.code])
        && sent + r.adverts == sent + adverts + (if ReopensWindow(c1, cap) then [AdvertOf(r.conn)] else [])
  {
    hide ArriveAll, AdvertsOf, AdvertOf, ReopensWindow, WindowOf, ReadAfter, ReadCode;
    var c1, adverts := ArriveAll(c, polls[0]), AdvertsOf(c, polls[0]);
    WaitingChangesNothing(c1, cap);
    ReadAfterCases(c, cap, polls);
    if ReadCode(c1, cap) == -1 {
      AdvertsBehind(sent, adverts, ReadAfter(c1, cap, polls[1..]).adverts);
    } else {
      AdvertsBehind(sent, adverts, if ReopensWindow(c1, cap) then [AdvertOf(Read(c1, cap))] else []);
    }
  }

  lemma AdvertsBehind(a: seq<Advert>, b: seq<Advert>, c: seq<Advert>)
    ensures a + (b + c) == a + b + c
  {
  }

  lemma ReadAfterCases(c: Conn, cap: nat, polls: seq<seq<Segment>>)
    requires |c.pending| <= RING && polls != []
    ensures var c1, adverts := ArriveAll(c, polls[0]), AdvertsOf(c, polls[0]);
      var r := ReadAfter(c, cap, polls);
      if ReadCode(c1, cap) == -1 then
        var rest := ReadAfter(c1, cap, polls[1..]);
        r == rest.(adverts := adverts + rest.adverts)
      else
        && r.conn == Read(c1, cap) && r.code == ReadCode(c1, cap)
        && (r.code > 0 ==> r.code <= cap && r.code <= |c1.pending| && r.data == c1.pending[..r.code])
        && r.adverts == adverts + if ReopensWindow(c1, cap) then [AdvertOf(r.conn)] else []
  {
    hide ArriveAll, AdvertsOf, AdvertOf, ReopensWindow, WindowOf;
  }

  datatype ReadResult = ReadResult(conn: Conn, code: int, data: seq<byte>, adverts: seq<Advert>)

  /** Poll, then read; repeat while there is nothing to return. */
  function ReadAfter(c: Conn, cap: nat, polls: seq<seq<Segment>>): ReadResult
    requires |c.pending| <= RING
    decreases polls
  {
    if polls == [] then ReadResult(c, -1, [], [])
    else
      var c1 := ArriveAll(c, polls[0]);
      var adverts := AdvertsOf(c, polls[0]);
      var code := ReadCode(c1, cap);
      if code == -1 then
        var r := ReadAfter(c1, cap, polls[1..]);
        r.(adverts := adverts + r.adverts)
      else
        var c2 := Read(c1, cap);
        ReadResult(c2, code, if code > 0 then c1.pending[..code] else [],
                   adverts + if ReopensWindow(c1, cap) then [AdvertOf(c2)] else [])
  }

  lemma WaitingChangesNothing(c: Conn, cap: nat)
    ensures ReadCode(c, cap) == -1 ==> Read(c, cap) == c && !ReopensWindow(c, cap)
  {
  }

  function ArriveAll(c: Conn, segs: seq<Segment>): (r: Conn)
    requires |c.pending| <= RING
    ensures |r.pending| <= RING
  {
    if segs == [] then c else Arrive(ArriveAll(c, segs[..|segs| - 1]), segs[|segs| - 1]).0
  }

  /** The acknowledgements sent while `segs` arrive. */
  function AdvertsOf(c: Conn, segs: seq<Segment>): seq<Advert>
    requires |c.pending| <= RING
  {
    if segs == [] then []
    else
      var init := segs[..|segs| - 1];
      var r := Arrive(ArriveAll(c, init), segs[|segs| - 1]);
      AdvertsOf(c, init) + if r.1 then [AdvertOf(r.0)] else []
  }
}
