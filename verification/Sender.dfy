/** The reliable sender of src/tcp_reliability.cpp on values: the state and what each
    operation makes of it. The class TCPReliability is proved against these functions. */
module ReliableSender {
  import opened Widths
  import opened RttEstimator

  /** steady_clock counts nanoseconds; the timeout is kept in milliseconds. */
  const NANOS_PER_MS := 1_000_000

  datatype Segment = Segment(
    seqNum: uint32, data: seq<byte>, sentTime: int, retransmits: byte, acknowledged: bool)
  {
    /** seq_num + data.size() is a 64-bit sum: it does not wrap at 2^32. */
    function End(): nat {
      seqNum + |data|
    }

    predicate Carries(number: uint32) {
      seqNum <= number < End()
    }

    predicate Expired(now: int, rto: nat) {
      !acknowledged && now - sentTime > rto * NANOS_PER_MS
    }

    function Marked(time: int): Segment {
      this.(sentTime := time, retransmits := (retransmits + 1) % 0x100)
    }
  }

  datatype Sender = Sender(
    nextSeq: uint32, lastAck: uint32, buffer: seq<byte>, unacked: seq<Segment>, estimate: Estimate,
    maxRetransmits: byte, sendWindow: uint16, remoteWindow: uint16, inFlight: uint32)
  {
    function EffectiveWindow(): (w: uint16)
      ensures w <= sendWindow && w <= remoteWindow && (w == sendWindow || w == remoteWindow)
    {
      if remoteWindow < sendWindow then remoteWindow else sendWindow
    }

    /** The subtraction is unsigned: with more in flight than the window it wraps. */
    function AvailableWindow(): uint32 {
      (EffectiveWindow() - inFlight) % TWO32
    }

    predicate CanSend(size: nat) {
      (inFlight + size) % TWO64 <= EffectiveWindow()
    }

    function DequeueSize(maxSize: nat): (n: nat)
      ensures n <= maxSize && n <= |buffer|
    {
      Min(maxSize, Min(AvailableWindow(), |buffer|))
    }
  }

  const INITIAL: Sender := Sender(0, 0, [], [], Estimate(0, 0, 1000), 3, 65535, 65535, 0)

  function Tracked(s: Sender, chunk: seq<byte>, now: int): Segment {
    Segment(s.nextSeq, chunk, now, 0, false)
  }

  /** get_data_to_send: the new state and the bytes handed out. */
  function Dequeue(s: Sender, maxSize: nat, now: int): (r: (Sender, seq<byte>))
    ensures r.1 == s.buffer[..s.DequeueSize(maxSize)]
    ensures s.buffer == r.1 + r.0.buffer
    ensures r.1 == [] ==> r.0 == s
  {
    var n := s.DequeueSize(maxSize);
    var chunk := s.buffer[..n];
    if n == 0 then (s, chunk)
    else (s.(buffer := s.buffer[n..], unacked := s.unacked + [Tracked(s, chunk, now)],
             nextSeq := Add32(s.nextSeq, n), inFlight := Add32(s.inFlight, n)),
          chunk)
  }

  /** The segments an acknowledgment leaves in the list, and those it removes. */
  function Kept(segments: seq<Segment>, ack: uint32): seq<Segment> {
    if |segments| == 0 then []
    else if segments[0].End() <= ack then Kept(segments[1..], ack)
    else [segments[0]] + Kept(segments[1..], ack)
  }

  function Removed(segments: seq<Segment>, ack: uint32): seq<Segment> {
    if |segments| == 0 then []
    else if segments[0].End() <= ack then [segments[0]] + Removed(segments[1..], ack)
    else Removed(segments[1..], ack)
  }

  function ProcessAck(s: Sender, ack: uint32): Sender {
    if ack <= s.lastAck then s else
    var newlyAcked := ack - s.lastAck;
    s.(lastAck := ack, unacked := Kept(s.unacked, ack),
       inFlight := if s.inFlight >= newlyAcked then s.inFlight - newlyAcked else 0)
  }

  predicate Retransmittable(segment: Segment, now: int, rto: nat, maxRetransmits: byte) {
    segment.Expired(now, rto) && segment.retransmits < maxRetransmits
  }

  /** One pass of the background loop over the list: the segments selected at time now are
      marked as sent again, the one at position i at time marks(i). */
  function Pass(segments: seq<Segment>, now: int, marks: nat -> int, rto: nat, maxRetransmits: byte)
    : (r: seq<Segment>)
    ensures |r| == |segments|
    ensures forall i :: 0 <= i < |r| ==>
              r[i] == if Retransmittable(segments[i], now, rto, maxRetransmits)
                      then segments[i].Marked(marks(i)) else segments[i]
  {
    seq(|segments|, i requires 0 <= i < |segments| =>
      if Retransmittable(segments[i], now, rto, maxRetransmits) then segments[i].Marked(marks(i)) else segments[i])
  }

  /** The positions below n that a pass selects, in list order. */
  function Due(segments: seq<Segment>, n: nat, now: int, rto: nat, maxRetransmits: byte): (r: seq<nat>)
    requires n <= |segments|
    ensures forall k :: 0 <= k < |r| ==> r[k] < n
  {
    if n == 0 then []
    else if Retransmittable(segments[n - 1], now, rto, maxRetransmits)
    then Due(segments, n - 1, now, rto, maxRetransmits) + [n - 1]
    else Due(segments, n - 1, now, rto, maxRetransmits)
  }

  predicate TimedOut(s: Sender, now: int) {
    exists i :: 0 <= i < |s.unacked| && s.unacked[i].Expired(now, s.estimate.rto)
                && s.unacked[i].retransmits >= s.maxRetransmits
  }

  /** The calls a socket or a peer can make on the sender. */
  datatype Op = BufferData(data: seq<byte>)
              | GetData(maxSize: nat, now: int)
              | Ack(ack: uint32)
              | SetWindow(window: uint16)
              | RemoteWindow(window: uint16)
              | MeasureRtt(rtt: nat)
              | Retransmit(passStart: int, marks: nat -> int)
              | SetMaxRetransmits(limit: byte)
              | SetRto(rto: nat)

  function Step(s: Sender, op: Op): Sender {
    match op
    case BufferData(data) => s.(buffer := s.buffer + data)
    case GetData(maxSize, now) => Dequeue(s, maxSize, now).0
    case Ack(ack) => ProcessAck(s, ack)
    case SetWindow(window) => s.(sendWindow := window)
    case RemoteWindow(window) => s.(remoteWindow := window)
    case MeasureRtt(rtt) => s.(estimate := Update(s.estimate, rtt))
    case Retransmit(passStart, marks) =>
      s.(unacked := Pass(s.unacked, passStart, marks, s.estimate.rto, s.maxRetransmits))
    case SetMaxRetransmits(limit) => s.(maxRetransmits := limit)
    case SetRto(rto) => s.(estimate := s.estimate.(rto := rto))
  }

  function Run(s: Sender, ops: seq<Op>): Sender {
    if |ops| == 0 then s else Step(Run(s, ops[..|ops| - 1]), ops[|ops| - 1])
  }

  lemma RunSnoc(s: Sender, ops: seq<Op>, op: Op)
    ensures Run(s, ops + [op]) == Step(Run(s, ops), op)
  {
    assert (ops + [op])[..|ops|] == ops;
  }

  /** A pass marks a segment exactly when it is not acknowledged, has waited longer than the
      timeout and is below the limit; it is then counted once more, and nothing else changes. */
  lemma PassMarksIff(s: Sender, passStart: int, marks: nat -> int, i: nat)
    requires i < |s.unacked|
    ensures |Step(s, Retransmit(passStart, marks)).unacked| == |s.unacked|
    ensures var before, after := s.unacked[i], Step(s, Retransmit(passStart, marks)).unacked[i];
            if !before.acknowledged && passStart - before.sentTime > s.estimate.rto * 1_000_000
               && before.retransmits < s.maxRetransmits
            then after == before.(sentTime := marks(i), retransmits := before.retransmits + 1)
            else after == before
  {
  }

  /** has_timeout on the raw fields. */
  lemma TimedOutIff(s: Sender, now: int)
    ensures TimedOut(s, now) <==>
            exists i :: 0 <= i < |s.unacked| && !s.unacked[i].acknowledged
                        && now - s.unacked[i].sentTime > s.estimate.rto * 1_000_000
                        && s.unacked[i].retransmits >= s.maxRetransmits
  {
    if TimedOut(s, now) {
      var i :| 0 <= i < |s.unacked| && s.unacked[i].Expired(now, s.estimate.rto)
               && s.unacked[i].retransmits >= s.maxRetransmits;
    } else {
      forall i | 0 <= i < |s.unacked|
        ensures s.unacked[i].acknowledged || now - s.unacked[i].sentTime <= s.estimate.rto * 1_000_000
                || s.unacked[i].retransmits < s.maxRetransmits
      {
        assert !(s.unacked[i].Expired(now, s.estimate.rto) && s.unacked[i].retransmits >= s.maxRetransmits);
      }
    }
  }

  /** get_data_to_send takes as much as the request, the buffer and the free window allow. */
  lemma DequeueTakes(s: Sender, maxSize: nat, now: int)
    ensures var (after, chunk) := Dequeue(s, maxSize, now);
            var free := (Min(s.sendWindow, s.remoteWindow) - s.inFlight) % 0x1_0000_0000;
            && |chunk| == Min(maxSize, Min(free, |s.buffer|))
            && chunk + after.buffer == s.buffer
            && after.nextSeq == (s.nextSeq + |chunk|) % 0x1_0000_0000
            && after.inFlight == (s.inFlight + |chunk|) % 0x1_0000_0000
            && after.unacked == s.unacked + if chunk == [] then [] else [Segment(s.nextSeq, chunk, now, 0, false)]
  {
  }

  /** Any acknowledgment, from any state: the cursor never goes back, the counter is reduced by
      what the cursor moved but not below 0, and exactly the segments that end beyond the
      acknowledgment stay. */
  lemma AckEffect(s: Sender, ack: uint32)
    ensures var after := ProcessAck(s, ack);
            && after.lastAck == Max(s.lastAck, ack)
            && after.inFlight == Max(0, s.inFlight - (after.lastAck - s.lastAck))
            && (forall segment :: segment in after.unacked <==>
                  segment in s.unacked && (ack <= s.lastAck || ack < segment.seqNum + |segment.data|))
            && after == s.(lastAck := after.lastAck, inFlight := after.inFlight, unacked := after.unacked)
  {
    KeptMembers(s.unacked, ack);
  }

  lemma {:induction false} KeptMembers(segments: seq<Segment>, ack: uint32)
    ensures forall segment :: segment in Kept(segments, ack) <==>
              segment in segments && ack < segment.seqNum + |segment.data|
  {
    if |segments| > 0 {
      KeptMembers(segments[1..], ack);
      assert segments == [segments[0]] + segments[1..];
    }
  }

  /** What a fresh sender holds, and that each setter changes its one field. */
  lemma SettersSet(s: Sender, window: uint16, limit: byte, rto: nat)
    ensures INITIAL == Sender(0, 0, [], [], Estimate(0, 0, 1000), 3, 65535, 65535, 0)
    ensures Step(s, SetWindow(window)) == s.(sendWindow := window)
    ensures Step(s, RemoteWindow(window)) == s.(remoteWindow := window)
    ensures Step(s, SetMaxRetransmits(limit)) == s.(maxRetransmits := limit)
    ensures Step(s, SetRto(rto)) == s.(estimate := Estimate(s.estimate.srtt, s.estimate.rttvar, rto))
  {
  }
}
