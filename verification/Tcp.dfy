/** The TCP client's receive machine: whatever the network loses, repeats or
    reorders, the buffer holds a prefix of the peer's stream
    (src/kernel/net/net_tcp.c; sections 3.4 and 3.10.7.4 of RFC 9293). */
module Tcp {

  const SEQ: nat := 0x1_0000_0000

  type Byte = b: int | 0 <= b < 256

  datatype Flags = Flags(fin: bool, syn: bool, rst: bool, ack: bool)

  datatype Segment = Segment(sequence: nat, ackNumber: nat, flags: Flags, payload: seq<Byte>)

  /** A segment the client sends. */
  datatype Sent = Sent(flags: Flags, sequence: nat, ackNumber: nat)

  const ACK: Flags := Flags(false, false, false, true)

  /** tcp_segment_advance */
  function SegmentAdvance(flags: Flags, payloadLength: nat): nat
  {
    (payloadLength % SEQ + (if flags.syn then 1 else 0) + (if flags.fin then 1 else 0)) % SEQ
  }

  /** 32-bit sequence arithmetic. */
  function Plus(sequence: nat, n: nat): nat
  {
    (sequence + n) % SEQ
  }

  /** tcp_send_reset_for_segment: what answers a segment for no connection. */
  datatype Reset = Silent | Answer(sent: Sent)

  function ResetFor(s: Segment): Reset
  {
    if s.flags.rst then Silent
    else if s.flags.ack then Answer(Sent(Flags(false, false, true, false), s.ackNumber, 0))
    else Answer(Sent(Flags(false, false, true, true), 0, (s.sequence + SegmentAdvance(s.flags, |s.payload|)) % SEQ))
  }

  /** Everything but a reset is answered; the answer is a reset, which is never
      answered in turn. It stands where the peer expects the next segment, or
      acknowledges exactly the sequence space of the one it refuses. */
  lemma ResetEndsIt(s: Segment, payload: seq<Byte>)
    requires s.sequence < SEQ && |s.payload| < SEQ - 2
    ensures ResetFor(s).Silent? <==> s.flags.rst
    ensures ResetFor(s).Answer? ==>
              var reset := ResetFor(s).sent;
              && ResetFor(Segment(reset.sequence, reset.ackNumber, reset.flags, payload)).Silent?
              && (reset.flags.ack <==> !s.flags.ack)
              && (s.flags.ack ==> reset.sequence == s.ackNumber)
              && (!s.flags.ack ==>
                    (reset.ackNumber - s.sequence) % SEQ
                    == |s.payload| + (if s.flags.syn then 1 else 0) + (if s.flags.fin then 1 else 0))
  {
    var n := |s.payload| + (if s.flags.syn then 1 else 0) + (if s.flags.fin then 1 else 0);
    assert SegmentAdvance(s.flags, |s.payload|) == n;
    assert ((s.sequence + n) % SEQ - s.sequence) % SEQ == n;
  }

  class Client {
    var active: bool
    var configured: bool
    var established: bool
    var finished: bool
    var reset: bool
    var truncated: bool
    var sndNxt: nat
    var rcvNxt: nat
    const rxBuffer: array<Byte>
    var rxLength: nat
    var sent: seq<Sent>

    constructor (capacity: nat, sndNxt: nat, configured: bool)
      requires sndNxt < SEQ
      ensures active && !established && !finished && !reset && !truncated && rxLength == 0 && sent == []
      ensures fresh(rxBuffer) && rxBuffer.Length == capacity && this.sndNxt == sndNxt && this.configured == configured
    {
      active, this.configured, established, finished, reset, truncated := true, configured, false, false, false, false;
      this.sndNxt, rcvNxt, rxLength := sndNxt, 0, 0;
      rxBuffer := new Byte[capacity](_ => 0);
      sent := [];
    }

    /** tcp_client_send_segment, on a network that takes every frame. */
    method SendSegment(flags: Flags, payloadLength: nat) returns (ok: bool)
      modifies this`sndNxt, this`sent
      ensures ok == (active && configured)
      ensures !ok ==> sent == old(sent) && sndNxt == old(sndNxt)
      ensures ok ==> sent == old(sent) + [Sent(flags, old(sndNxt), if flags.ack then rcvNxt else 0)]
      ensures ok ==> sndNxt == (old(sndNxt) + SegmentAdvance(flags, payloadLength)) % SEQ
    {
      if !active || !configured { return false; }
      sent := sent + [Sent(flags, sndNxt, if flags.ack then rcvNxt else 0)];
      sndNxt := (sndNxt + SegmentAdvance(flags, payloadLength)) % SEQ;
      return true;
    }

    /** tcp_client_handle_segment, for a segment of this connection. */
    method HandleSegment(s: Segment)
      requires rxLength <= rxBuffer.Length && sndNxt < SEQ
      modifies this, rxBuffer
      ensures sndNxt < SEQ && rxLength <= rxBuffer.Length
      ensures View() == Next(old(View()), s)
      ensures sent == old(sent) + (if Replies(old(View()), s) then [Sent(ACK, sndNxt, rcvNxt)] else [])
    {
      if !active { return; }
      if s.flags.rst {
        reset := true;
        finished := true;
        return;
      }
      if !established {
        if s.flags.syn && s.flags.ack && s.ackNumber == sndNxt {
          established := true;
          rcvNxt := Plus(s.sequence, 1);
          var _ := SendSegment(ACK, 0);
        }
        return;
      }
      if s.sequence != rcvNxt {
        if |s.payload| > 0 || s.flags.fin || s.flags.syn {
          var _ := SendSegment(ACK, 0);
        }
        return;
      }
      TakeSegment(s);
      if |s.payload| > 0 || s.flags.fin {
        var _ := SendSegment(ACK, 0);
      }
    }

    /** The payload and the FIN of a segment in sequence. */
    method TakeSegment(s: Segment)
      requires rxLength <= rxBuffer.Length && active && established && !s.flags.rst && s.sequence == rcvNxt
      modifies this`rxLength, this`truncated, this`rcvNxt, this`finished, rxBuffer
      ensures rxLength <= rxBuffer.Length && View() == Next(old(View()), s)
    {
      if |s.payload| > 0 {
        AcceptPayload(s.payload);
        rcvNxt := Plus(rcvNxt, |s.payload|);
      }
      if s.flags.fin {
        rcvNxt := Plus(rcvNxt, 1);
        finished := true;
      }
    }

    /** The copy into the receive buffer, cut at its capacity. */
    method AcceptPayload(payload: seq<Byte>)
      requires rxLength <= rxBuffer.Length
      modifies this`rxLength, this`truncated, rxBuffer
      ensures rxLength <= rxBuffer.Length
      ensures truncated == (old(truncated) || |payload| > rxBuffer.Length - old(rxLength))
      ensures rxBuffer[..rxLength] == old(rxBuffer[..rxLength]) + Cut(payload, rxBuffer.Length - old(rxLength))
    {
      var copyLen := |payload|;
      var remaining := if rxLength < rxBuffer.Length then rxBuffer.Length - rxLength else 0;
      if copyLen > remaining {
        copyLen := remaining;
        truncated := true;
      }
      ghost var before := rxBuffer[..rxLength];
      ghost var cut := truncated;
      for i := 0 to copyLen
        invariant rxLength == old(rxLength) && truncated == cut
        invariant rxBuffer[..rxLength] == before
        invariant rxBuffer[rxLength..rxLength + i] == payload[..i]
      {
        rxBuffer[rxLength + i] := payload[i];
      }
      rxLength := rxLength + copyLen;
      assert rxBuffer[..rxLength] == before + payload[..copyLen];
    }

    /** tcp_client_abort: the connection is dropped with at most one reset. */
    method Abort()
      modifies this`active, this`sent
      ensures !active
      ensures sent == old(sent) + (if old(active) && established && !reset
                                   then [Sent(Flags(false, false, true, true), sndNxt, rcvNxt)] else [])
    {
      if !active { return; }
      if established && !reset {
        sent := sent + [Sent(Flags(false, false, true, true), sndNxt, rcvNxt)];
      }
      active := false;
    }

    /** The receive side as a value. */
    ghost function View(): Receiver
      requires rxLength <= rxBuffer.Length
      reads this, rxBuffer
    {
      Receiver(active, configured, established, finished, reset, truncated, rcvNxt, sndNxt, rxBuffer[..rxLength],
               rxBuffer.Length)
    }
  }

  function Cut(s: seq<Byte>, n: nat): seq<Byte>
  {
    if |s| <= n then s else s[..n]
  }

  // ----- the machine as a function -----

  datatype Receiver = Receiver(active: bool, configured: bool, established: bool, finished: bool, reset: bool,
                               truncated: bool, rcvNxt: nat, sndNxt: nat, data: seq<Byte>, capacity: nat)
  {
    ghost predicate Fits() {
      |data| <= capacity && sndNxt < SEQ && rcvNxt < SEQ
    }
  }

  function Next(r: Receiver, s: Segment): Receiver
    requires |r.data| <= r.capacity
  {
    if !r.active then r
    else if s.flags.rst then r.(reset := true, finished := true)
    else if !r.established then
      if s.flags.syn && s.flags.ack && s.ackNumber == r.sndNxt
      then r.(established := true, rcvNxt := Plus(s.sequence, 1)) else r
    else if s.sequence != r.rcvNxt then r
    else
      var taken := if s.payload == [] then r else Take(r, s.payload);
      if s.flags.fin then taken.(rcvNxt := Plus(taken.rcvNxt, 1), finished := true) else taken
  }

  function Take(r: Receiver, payload: seq<Byte>): Receiver
    requires |r.data| <= r.capacity
  {
    r.(data := r.data + Cut(payload, r.capacity - |r.data|),
       truncated := r.truncated || |payload| > r.capacity - |r.data|,
       rcvNxt := Plus(r.rcvNxt, |payload|))
  }

  /** Does the segment make the client send an ACK? */
  predicate Replies(r: Receiver, s: Segment) {
    && r.active && r.configured && !s.flags.rst
    && if !r.established then s.flags.syn && s.flags.ack && s.ackNumber == r.sndNxt
       else s.payload != [] || s.flags.fin || (s.flags.syn && s.sequence != r.rcvNxt)
  }

  // ----- one peer, one stream -----

  /** The segment was cut from the peer's stream at this offset; the FIN stands
      after the last byte and an empty segment may follow it. */
  predicate CutAt(s: Segment, stream: seq<Byte>, isn: nat, offset: nat) {
    && !s.flags.syn
    && s.sequence == Plus(isn, 1 + offset)
    && if offset == |stream| + 1 then s.payload == [] && !s.flags.fin
       else
         && offset + |s.payload| <= |stream|
         && s.payload == stream[offset..offset + |s.payload|]
         && (s.flags.fin ==> offset + |s.payload| == |stream|)
  }

  /** Anything this peer may have sent: a reset, its SYN, a piece of its stream. */
  ghost predicate Genuine(s: Segment, stream: seq<Byte>, isn: nat) {
    || s.flags.rst
    || (s.flags.syn && s.sequence == isn)
    || exists offset: nat :: CutAt(s, stream, isn, offset)
  }

  /** How much of the peer's sequence space after its SYN has been taken. */
  function Taken(r: Receiver, isn: nat): nat
  {
    Offset(r.rcvNxt, isn)
  }

  function Offset(sequence: nat, isn: nat): nat
  {
    (sequence - isn - 1) % SEQ
  }

  /** The receive buffer against the stream. */
  ghost predicate Follows(r: Receiver, stream: seq<Byte>, isn: nat) {
    && r.Fits()
    && if !r.established then r.data == [] && !r.truncated && r.finished == r.reset
       else
         && Taken(r, isn) <= |stream| + 1
         && r.data == Cut(stream[..Bytes(r, stream, isn)], r.capacity)
         && (r.truncated <==> Bytes(r, stream, isn) > r.capacity)
         && (r.finished <==> r.reset || Taken(r, isn) == |stream| + 1)
  }

  /** The bytes accepted: all that was taken but the FIN. */
  function Bytes(r: Receiver, stream: seq<Byte>, isn: nat): (n: nat)
    ensures n <= |stream|
  {
    if Taken(r, isn) <= |stream| then Taken(r, isn) else |stream|
  }

  /** The sequence numbers of one stream do not wrap onto each other. */
  lemma SequenceMeansOffset(isn: nat, a: nat, b: nat)
    requires isn < SEQ && a < SEQ && b < SEQ
    ensures Plus(isn, a) == Plus(isn, b) <==> a == b
  {
  }

  lemma TakenAt(r: Receiver, isn: nat, offset: nat)
    requires isn < SEQ && offset < SEQ && r.rcvNxt < SEQ
    ensures Taken(r, isn) == offset <==> r.rcvNxt == Plus(isn, 1 + offset)
  {
  }

  lemma PlusPlus(a: nat, m: nat, n: nat)
    ensures Plus(Plus(a, m), n) == Plus(a, m + n)
  {
  }

  /** Appending a cut piece to a cut prefix cuts the longer prefix. */
  lemma CutGrows(stream: seq<Byte>, n: nat, payload: seq<Byte>, capacity: nat)
    requires n + |payload| <= |stream| && payload == stream[n..n + |payload|]
    ensures var kept := Cut(stream[..n], capacity);
            kept + Cut(payload, capacity - |kept|) == Cut(stream[..n + |payload|], capacity)
  {
    assert stream[..n + |payload|] == stream[..n] + payload;
  }

  /** In sequence numbers: a piece moves the receiver by its own length. */
  lemma PieceAdvances(r: Receiver, s: Segment, stream: seq<Byte>, isn: nat, offset: nat)
    requires |stream| < SEQ - 2 && isn < SEQ && r.active && r.established && !s.flags.rst
    requires r.Fits() && CutAt(s, stream, isn, offset) && offset <= |stream| + 1
    ensures offset == Taken(r, isn) <==> s.sequence == r.rcvNxt
    ensures offset == Taken(r, isn) ==> Taken(Next(r, s), isn) == offset + |s.payload| + if s.flags.fin then 1 else 0
    ensures Next(r, s).rcvNxt < SEQ
  {
    TakenAt(r, isn, offset);
    if offset == Taken(r, isn) {
      PlusPlus(isn, 1 + offset, |s.payload|);
      PlusPlus(isn, 1 + offset + |s.payload|, 1);
      TakenAt(Next(r, s), isn, offset + |s.payload| + if s.flags.fin then 1 else 0);
    }
  }

  /** A piece of the stream is taken exactly when it starts where the receiver
      stands; then all of it is. */
  lemma PieceTaken(r: Receiver, s: Segment, stream: seq<Byte>, isn: nat, offset: nat)
    requires |stream| < SEQ - 2 && isn < SEQ && r.active && r.established && !s.flags.rst
    requires Follows(r, stream, isn) && CutAt(s, stream, isn, offset) && offset <= |stream| + 1
    ensures offset != Taken(r, isn) ==> Next(r, s) == r
    ensures offset == Taken(r, isn) ==> Taken(Next(r, s), isn) == offset + |s.payload| + if s.flags.fin then 1 else 0
    ensures Follows(Next(r, s), stream, isn)
  {
    PieceAdvances(r, s, stream, isn, offset);
    if offset == Taken(r, isn) && offset <= |stream| {
      CutGrows(stream, offset, s.payload, r.capacity);
      assert stream[..Bytes(Next(r, s), stream, isn)] == stream[..offset + |s.payload|];
    }
  }

  /** One segment from the peer, whatever it is. */
  lemma StepFollows(r: Receiver, s: Segment, stream: seq<Byte>, isn: nat)
    requires |stream| < SEQ - 2 && isn < SEQ && Follows(r, stream, isn) && Genuine(s, stream, isn)
    ensures var n := Next(r, s);
            && Follows(n, stream, isn)
            && n.capacity == r.capacity
            && (r.established ==> n.established && Taken(r, isn) <= Taken(n, isn))
            && (r.reset ==> n.reset)
  {
    if r.active && !s.flags.rst {
      if s.flags.syn && s.sequence == isn {
        TakenAt(r, isn, SEQ - 1);
        TakenAt(Next(r, s), isn, 0);
        if !r.established {
          assert stream[..0] == [];
        } else {
          assert s.sequence != r.rcvNxt;
        }
      } else {
        var offset: nat :| CutAt(s, stream, isn, offset);
        if r.established {
          PieceTaken(r, s, stream, isn, offset);
        }
      }
    }
  }

  // ----- runs -----

  /** What can happen to a client: a segment of its connection arrives (after
      any delay, any number of times, in any order), the client itself sends,
      or the connection is given up. */
  datatype Event = Deliver(s: Segment) | Transmit(flags: Flags, payloadLength: nat) | Abort

  function Step(r: Receiver, e: Event): Receiver
    requires |r.data| <= r.capacity
  {
    match e
    case Deliver(s) => Next(r, s)
    case Transmit(flags, n) =>
      if r.active && r.configured then r.(sndNxt := Plus(r.sndNxt, SegmentAdvance(flags, n))) else r
    case Abort => r.(active := false)
  }

  ghost predicate GenuineRun(events: seq<Event>, stream: seq<Byte>, isn: nat) {
    forall i :: 0 <= i < |events| && events[i].Deliver? ==> Genuine(events[i].s, stream, isn)
  }

  function Run(r: Receiver, events: seq<Event>): (n: Receiver)
    requires |r.data| <= r.capacity
    ensures |n.data| <= n.capacity
    decreases |events|
  {
    if events == [] then r else Run(Step(r, events[0]), events[1..])
  }

  /** Does the event make the client send an acknowledgement number? Before the
      connection is established it has none to send. */
  predicate Acknowledges(r: Receiver, e: Event) {
    match e
    case Deliver(s) => Replies(r, s)
    case Transmit(flags, _) => r.active && r.configured && r.established && flags.ack
    case Abort => r.active && r.established && !r.reset
  }

  /** The acknowledgement numbers of all segments a run sends, oldest first:
      replies, the client's own segments, the reset of an abort. */
  function Acks(r: Receiver, events: seq<Event>): seq<nat>
    requires |r.data| <= r.capacity
    decreases |events|
  {
    if events == [] then []
    else
      var n := Step(r, events[0]);
      (if Acknowledges(r, events[0]) then [n.rcvNxt] else []) + Acks(n, events[1..])
  }

  /** The state tcp_client starts in. */
  ghost predicate Fresh(r: Receiver) {
    r.Fits() && !r.established && !r.finished && !r.reset && !r.truncated && r.data == []
  }

  lemma EventFollows(r: Receiver, e: Event, stream: seq<Byte>, isn: nat)
    requires |stream| < SEQ - 2 && isn < SEQ && Follows(r, stream, isn)
    requires e.Deliver? ==> Genuine(e.s, stream, isn)
    ensures var n := Step(r, e);
            && Follows(n, stream, isn) && n.capacity == r.capacity
            && (r.established ==> n.established && Taken(r, isn) <= Taken(n, isn))
            && (Acknowledges(r, e) ==> n.established)
  {
    if e.Deliver? {
      StepFollows(r, e.s, stream, isn);
    }
  }

  lemma {:induction false} RunFollows(r: Receiver, events: seq<Event>, stream: seq<Byte>, isn: nat)
    requires |stream| < SEQ - 2 && isn < SEQ && Follows(r, stream, isn) && GenuineRun(events, stream, isn)
    ensures Follows(Run(r, events), stream, isn) && Run(r, events).capacity == r.capacity
    ensures r.established ==> Run(r, events).established && Taken(r, isn) <= Taken(Run(r, events), isn)
    decreases |events|
  {
    if events != [] {
      var n := Step(r, events[0]);
      EventFollows(r, events[0], stream, isn);
      assert forall i :: 0 <= i < |events[1..]| ==> events[1..][i] == events[i + 1];
      RunFollows(n, events[1..], stream, isn);
    }
  }

  /** Stream safety: from connection to any later moment the buffer holds the
      first bytes of the peer's stream, as many as were accepted or as fit; it
      is marked truncated exactly when more was accepted than fits; and a
      connection that finished without a reset accepted the whole stream. */
  lemma StreamSafety(r: Receiver, events: seq<Event>, stream: seq<Byte>, isn: nat)
    requires |stream| < SEQ - 2 && isn < SEQ && Fresh(r) && GenuineRun(events, stream, isn)
    ensures var n := Run(r, events);
            && (!n.established ==> n.data == [] && !n.truncated)
            && (n.established ==>
                  && n.data == stream[..if Bytes(n, stream, isn) <= r.capacity then Bytes(n, stream, isn) else r.capacity]
                  && (n.truncated <==> Bytes(n, stream, isn) > r.capacity)
                  && (n.finished && !n.reset ==> Bytes(n, stream, isn) == |stream|)
                  && (n.finished && !n.reset && |stream| <= r.capacity ==> n.data == stream))
  {
    RunFollows(r, events, stream, isn);
    var n := Run(r, events);
    if n.established && Bytes(n, stream, isn) > r.capacity {
      assert stream[..Bytes(n, stream, isn)][..r.capacity] == stream[..r.capacity];
    }
    assert stream[..|stream|] == stream;
  }

  /** Acknowledgements that only move forward, from one offset to another. */
  ghost predicate Climb(acks: seq<nat>, isn: nat, lo: nat, hi: nat) {
    && (forall i :: 0 <= i < |acks| ==> lo <= Offset(acks[i], isn) <= hi)
    && (forall i, j :: 0 <= i < j < |acks| ==> Offset(acks[i], isn) <= Offset(acks[j], isn))
  }

  lemma ClimbOn(ack: nat, acks: seq<nat>, isn: nat, hi: nat)
    requires Climb(acks, isn, Offset(ack, isn), hi) && Offset(ack, isn) <= hi
    ensures Climb([ack] + acks, isn, Offset(ack, isn), hi)
  {
  }

  /** Every acknowledgement names sequence space that has been taken in order,
      and no later one takes anything back. */
  lemma {:induction false} AcksOnlyTaken(r: Receiver, events: seq<Event>, stream: seq<Byte>, isn: nat)
    requires |stream| < SEQ - 2 && isn < SEQ && Follows(r, stream, isn) && GenuineRun(events, stream, isn)
    ensures Climb(Acks(r, events), isn, if r.established then Taken(r, isn) else 0, Taken(Run(r, events), isn))
    ensures Acks(r, events) != [] ==> Run(r, events).established
    decreases |events|
  {
    if events != [] {
      var n := Step(r, events[0]);
      EventFollows(r, events[0], stream, isn);
      assert forall i :: 0 <= i < |events[1..]| ==> events[1..][i] == events[i + 1];
      RunFollows(n, events[1..], stream, isn);
      AcksOnlyTaken(n, events[1..], stream, isn);
      if n.established {
        ClimbOn(n.rcvNxt, Acks(n, events[1..]), isn, Taken(Run(n, events[1..]), isn));
      }
    }
  }

  // ----- retransmission -----

  function Length(s: Segment): nat
  {
    |s.payload| + if s.flags.fin then 1 else 0
  }

  /** The whole rest of the stream from an offset on, cut into pieces. */
  predicate Pieces(pieces: seq<Segment>, stream: seq<Byte>, isn: nat, offset: nat)
    decreases |pieces|
  {
    if pieces == [] then offset == |stream| + 1
    else
      && offset <= |stream| && !pieces[0].flags.rst && CutAt(pieces[0], stream, isn, offset)
      && Pieces(pieces[1..], stream, isn, offset + Length(pieces[0]))
  }

  /** Is this the start of one of the pieces, or the end of the last? */
  predicate Boundary(pieces: seq<Segment>, offset: nat, at: nat)
    decreases |pieces|
  {
    at == offset || (pieces != [] && Boundary(pieces[1..], offset + Length(pieces[0]), at))
  }

  function Deliveries(pieces: seq<Segment>): seq<Event>
  {
    seq(|pieces|, i requires 0 <= i < |pieces| => Deliver(pieces[i]))
  }

  /** Loss is repaired by sending again: once a peer has its pieces delivered in
      order, the whole stream is accepted exactly when the receiver stood at one
      of their boundaries. A piece that only overlaps it is dropped as a whole. */
  lemma {:induction false} Retransmission(r: Receiver, pieces: seq<Segment>, stream: seq<Byte>, isn: nat, offset: nat)
    requires |stream| < SEQ - 2 && isn < SEQ && Follows(r, stream, isn) && r.active && r.established
    requires Pieces(pieces, stream, isn, offset)
    ensures var n := Run(r, Deliveries(pieces));
            && Follows(n, stream, isn) && n.reset == r.reset && n.established && n.capacity == r.capacity
            && (Taken(n, isn) == |stream| + 1 <==> Boundary(pieces, offset, Taken(r, isn)))
            && (Boundary(pieces, offset, Taken(r, isn)) ==> n.finished)
            && (!Boundary(pieces, offset, Taken(r, isn)) ==> n == r)
    decreases |pieces|
  {
    if pieces != [] {
      var n := Next(r, pieces[0]);
      PieceTaken(r, pieces[0], stream, isn, offset);
      assert Deliveries(pieces)[1..] == Deliveries(pieces[1..]);
      if Length(pieces[0]) == 0 || Taken(r, isn) != offset {
        assert Boundary(pieces, offset, Taken(r, isn)) <==> Boundary(pieces[1..], offset + Length(pieces[0]), Taken(n, isn));
      }
      Retransmission(n, pieces[1..], stream, isn, offset + Length(pieces[0]));
    }
  }

  // ----- opening the connection -----

  /** The answer to the client's SYN. */
  predicate SynAck(s: Segment, sndNxt: nat) {
    !s.flags.rst && s.flags.syn && s.flags.ack && s.ackNumber == sndNxt
  }

  /** The sequence space of what the client itself sent. */
  function SentSpace(events: seq<Event>): nat
  {
    if events == [] then 0
    else (if events[0].Transmit? then SegmentAdvance(events[0].flags, events[0].payloadLength) else 0) + SentSpace(events[1..])
  }

  /** At event i a SYN|ACK for all that was sent by then arrives, before any abort. */
  ghost predicate OpensAt(r: Receiver, events: seq<Event>, i: nat) {
    && i < |events| && Abort !in events[..i] && events[i].Deliver?
    && SynAck(events[i].s, Plus(r.sndNxt, if r.configured then SentSpace(events[..i]) else 0))
  }

  lemma OpensNext(r: Receiver, events: seq<Event>, i: nat)
    requires r.Fits() && 0 < i && events != [] && events[0] != Abort && r.active
    ensures OpensAt(r, events, i) <==> OpensAt(Step(r, events[0]), events[1..], i - 1)
  {
    var n := Step(r, events[0]);
    if i < |events| {
      var front := events[..i];
      assert front[1..] == events[1..][..i - 1] && front == [events[0]] + events[1..][..i - 1];
      if events[0].Transmit? && r.configured {
        PlusPlus(r.sndNxt, SegmentAdvance(events[0].flags, events[0].payloadLength), SentSpace(front[1..]));
      }
    }
  }

  /** In every run of an active client the connection is established exactly by
      such a segment, and nothing else opens it. */
  lemma {:induction false} Established(r: Receiver, events: seq<Event>)
    requires r.Fits() && r.active && !r.established
    ensures Run(r, events).established <==> exists i :: OpensAt(r, events, i)
    decreases |events|
  {
    if events != [] {
      var e, n := events[0], Step(r, events[0]);
      assert events[..0] == [] && Plus(r.sndNxt, 0) == r.sndNxt;
      assert OpensAt(r, events, 0) <==> n.established;
      if n.established {
        StaysEstablished(n, events[1..]);
      } else if e == Abort {
        StaysClosed(n, events[1..]);
        assert forall i: nat :: 0 < i <= |events| ==> events[..i][0] == Abort;
      } else {
        Established(n, events[1..]);
        if i: nat :| OpensAt(r, events, i) {
          OpensNext(r, events, i);
        }
        if i: nat :| OpensAt(n, events[1..], i) {
          OpensNext(r, events, i + 1);
        }
      }
    }
  }

  lemma {:induction false} StaysEstablished(r: Receiver, events: seq<Event>)
    requires |r.data| <= r.capacity && r.established
    ensures Run(r, events).established
    decreases |events|
  {
    if events != [] {
      StaysEstablished(Step(r, events[0]), events[1..]);
    }
  }

  lemma {:induction false} StaysClosed(r: Receiver, events: seq<Event>)
    requires |r.data| <= r.capacity && !r.active
    ensures Run(r, events) == r
    decreases |events|
  {
    if events != [] {
      StaysClosed(Step(r, events[0]), events[1..]);
    }
  }

  /** The offsets a peer learns while its pieces arrive in order: after each
      piece that has any, all sequence space up to its end. */
  function AckOffsets(pieces: seq<Segment>, offset: nat): seq<nat>
    decreases |pieces|
  {
    if pieces == [] then []
    else
      var end := offset + Length(pieces[0]);
      (if Length(pieces[0]) > 0 then [end] else []) + AckOffsets(pieces[1..], end)
  }

  ghost predicate AckedAt(acks: seq<nat>, isn: nat, offsets: seq<nat>) {
    |acks| == |offsets| && forall i :: 0 <= i < |acks| ==> Offset(acks[i], isn) == offsets[i]
  }

  /** Pieces in order are acknowledged one by one, each with all that was taken. */
  lemma {:induction false} PiecesAcked(r: Receiver, pieces: seq<Segment>, stream: seq<Byte>, isn: nat, offset: nat)
    requires |stream| < SEQ - 2 && isn < SEQ && Follows(r, stream, isn) && r.active && r.established && r.configured
    requires Pieces(pieces, stream, isn, offset) && Taken(r, isn) == offset
    ensures AckedAt(Acks(r, Deliveries(pieces)), isn, AckOffsets(pieces, offset))
    decreases |pieces|
  {
    if pieces != [] {
      var s, rest, end := pieces[0], pieces[1..], offset + Length(pieces[0]);
      var n := Next(r, s);
      PieceTaken(r, s, stream, isn, offset);
      PiecesAcked(n, rest, stream, isn, end);
      assert Deliveries(pieces) == [Deliver(s)] + Deliveries(rest);
      FirstEvent(r, Deliver(s), Deliveries(rest));
      if Length(s) > 0 { MoreAcked(n.rcvNxt, Acks(n, Deliveries(rest)), isn, end, AckOffsets(rest, end)); }
    }
  }

  /** A connection without loss, from the first segment on: the peer's SYN|ACK
      opens it and is acknowledged, its pieces bring the whole stream, and each
      of them is acknowledged with all that was taken by then. */
  lemma Conversation(r: Receiver, s: Segment, pieces: seq<Segment>, stream: seq<Byte>, isn: nat)
    requires |stream| < SEQ - 2 && isn < SEQ && Fresh(r) && r.active
    requires SynAck(s, r.sndNxt) && s.sequence == isn && Pieces(pieces, stream, isn, 0)
    ensures var events := [Deliver(s)] + Deliveries(pieces);
            var n := Run(r, events);
            && n.established && n.finished && !n.reset && Taken(n, isn) == |stream| + 1
            && n.data == Cut(stream, r.capacity) && (n.truncated <==> |stream| > r.capacity)
            && (r.configured ==> AckedAt(Acks(r, events), isn, [0] + AckOffsets(pieces, 0)))
            && (!r.configured ==> Acks(r, events) == [])
  {
    var o := Next(r, s);
    Opened(r, s, stream, isn);
    FirstEvent(r, Deliver(s), Deliveries(pieces));
    Retransmission(o, pieces, stream, isn, 0);
    WholeStream(Run(o, Deliveries(pieces)), stream, isn);
    if r.configured {
      PiecesAcked(o, pieces, stream, isn, 0);
      MoreAcked(o.rcvNxt, Acks(o, Deliveries(pieces)), isn, 0, AckOffsets(pieces, 0));
    } else {
      Mute(r, [Deliver(s)] + Deliveries(pieces));
    }
  }

  lemma Opened(r: Receiver, s: Segment, stream: seq<Byte>, isn: nat)
    requires |stream| < SEQ - 2 && isn < SEQ && Fresh(r) && r.active && SynAck(s, r.sndNxt) && s.sequence == isn
    ensures var o := Next(r, s);
            && Follows(o, stream, isn) && o.established && o.active && !o.reset && Taken(o, isn) == 0
            && o.configured == r.configured && o.capacity == r.capacity
    ensures Offset(Next(r, s).rcvNxt, isn) == 0 && Replies(r, s) == r.configured
  {
    StepFollows(r, s, stream, isn);
    TakenAt(Next(r, s), isn, 0);
  }

  lemma FirstEvent(r: Receiver, e: Event, events: seq<Event>)
    requires |r.data| <= r.capacity
    ensures Run(r, [e] + events) == Run(Step(r, e), events)
    ensures Acks(r, [e] + events) == (if Acknowledges(r, e) then [Step(r, e).rcvNxt] else []) + Acks(Step(r, e), events)
  {
    assert ([e] + events)[1..] == events;
  }

  lemma MoreAcked(ack: nat, acks: seq<nat>, isn: nat, offset: nat, offsets: seq<nat>)
    requires AckedAt(acks, isn, offsets) && Offset(ack, isn) == offset
    ensures AckedAt([ack] + acks, isn, [offset] + offsets)
  {
  }

  lemma WholeStream(n: Receiver, stream: seq<Byte>, isn: nat)
    requires Follows(n, stream, isn) && n.established && Taken(n, isn) == |stream| + 1
    ensures n.data == Cut(stream, n.capacity) && (n.truncated <==> |stream| > n.capacity) && n.finished
  {
    assert stream[..|stream|] == stream;
  }

  /** Without an address the client sends nothing but the reset of an abort. */
  lemma {:induction false} Mute(r: Receiver, events: seq<Event>)
    requires |r.data| <= r.capacity && !r.configured && Abort !in events
    ensures Acks(r, events) == []
    decreases |events|
  {
    if events != [] {
      Mute(Step(r, events[0]), events[1..]);
    }
  }

  /** How many of the segments ask for an answer. */
  function Asking(segments: seq<Segment>): nat
  {
    if segments == [] then 0
    else (if segments[0].flags.syn || Length(segments[0]) > 0 then 1 else 0) + Asking(segments[1..])
  }

  /** In whatever order and however often the peer's segments arrive, each with
      payload or FIN and each repetition of its SYN gets exactly one answer. */
  lemma {:induction false} EachAnswered(r: Receiver, segments: seq<Segment>, stream: seq<Byte>, isn: nat)
    requires |stream| < SEQ - 2 && isn < SEQ && Follows(r, stream, isn) && r.active && r.established && r.configured
    requires forall i :: 0 <= i < |segments| ==> !segments[i].flags.rst && Genuine(segments[i], stream, isn)
    ensures |Acks(r, Deliveries(segments))| == Asking(segments)
    decreases |segments|
  {
    if segments != [] {
      assert Deliveries(segments)[1..] == Deliveries(segments[1..]);
      StepFollows(r, segments[0], stream, isn);
      SynIsOld(r, segments[0], stream, isn);
      EachAnswered(Next(r, segments[0]), segments[1..], stream, isn);
    }
  }

  lemma SynIsOld(r: Receiver, s: Segment, stream: seq<Byte>, isn: nat)
    requires |stream| < SEQ - 2 && isn < SEQ && Follows(r, stream, isn) && r.established && Genuine(s, stream, isn)
    ensures s.flags.syn && !s.flags.rst ==> s.sequence != r.rcvNxt
  {
    TakenAt(r, isn, SEQ - 1);
  }

  /** A reset, and nothing else, marks the connection as reset and finished. */
  lemma {:induction false} ResetWhen(r: Receiver, events: seq<Event>)
    requires |r.data| <= r.capacity && r.active
    ensures Run(r, events).reset <==> r.reset || exists i :: ResetsAt(events, i)
    ensures (exists i :: ResetsAt(events, i)) ==> Run(r, events).finished
    decreases |events|
  {
    if events != [] {
      var n := Step(r, events[0]);
      assert events[..0] == [];
      assert ResetsAt(events, 0) ==> n.reset && n.finished;
      if events[0] == Abort {
        StaysClosed(n, events[1..]);
        assert forall i: nat :: 0 < i <= |events| ==> events[..i][0] == Abort;
      } else {
        ResetWhen(n, events[1..]);
        StaysFinished(n, events[1..]);
        LaterResets(events);
      }
    }
  }

  lemma LaterResets(events: seq<Event>)
    requires events != [] && events[0] != Abort
    ensures (exists i :: ResetsAt(events, i)) <==> ResetsAt(events, 0) || exists i :: ResetsAt(events[1..], i)
  {
    forall i: nat | 0 < i < |events|
      ensures ResetsAt(events, i) <==> ResetsAt(events[1..], i - 1)
    {
      assert events[..i] == [events[0]] + events[1..][..i - 1];
    }
    if i: nat :| ResetsAt(events[1..], i) {
      assert ResetsAt(events, i + 1);
    }
  }

  ghost predicate ResetsAt(events: seq<Event>, i: nat) {
    i < |events| && Abort !in events[..i] && events[i].Deliver? && events[i].s.flags.rst
  }

  lemma {:induction false} StaysFinished(r: Receiver, events: seq<Event>)
    requires |r.data| <= r.capacity
    ensures r.finished ==> Run(r, events).finished
    ensures r.reset ==> Run(r, events).reset
    decreases |events|
  {
    if events != [] {
      StaysFinished(Step(r, events[0]), events[1..]);
    }
  }
}
