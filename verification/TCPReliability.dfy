/** src/tcp_reliability.cpp as it is written: an object whose methods update counters, a
    queue and a list of shared segments. Each method is proved to do to its view what the
    functions of module Sender say. */
module Reliability {
  import opened Widths
  import opened RttEstimator
  import opened ReliableSender

  class TCPSegment {
    const seqNum: uint32
    const data: seq<byte>
    var sentTime: int
    var retransmitCount: byte
    var acknowledged: bool

    constructor (seqNum: uint32, data: seq<byte>, now: int)
      ensures View() == Segment(seqNum, data, now, 0, false)
    {
      this.seqNum := seqNum;
      this.data := data;
      sentTime := now;
      retransmitCount := 0;
      acknowledged := false;
    }

    function View(): Segment
      reads this
    {
      Segment(seqNum, data, sentTime, retransmitCount, acknowledged)
    }
  }

  function Views(segments: seq<TCPSegment>): (r: seq<Segment>)
    reads segments
    ensures |r| == |segments| && forall i :: 0 <= i < |r| ==> r[i] == segments[i].View()
  {
    seq(|segments|, i requires 0 <= i < |segments| reads segments => segments[i].View())
  }

  /** The list holds each shared segment once. */
  predicate Distinct(segments: seq<TCPSegment>) {
    forall i, j :: 0 <= i < j < |segments| ==> segments[i] != segments[j]
  }

  lemma DequeueIs(s: Sender, maxSize: nat, now: int)
    ensures var chunk := s.buffer[..s.DequeueSize(maxSize)];
            Dequeue(s, maxSize, now) ==
            if chunk == [] then (s, [])
            else (s.(buffer := s.buffer[|chunk|..], unacked := s.unacked + [Tracked(s, chunk, now)],
                     nextSeq := Add32(s.nextSeq, |chunk|), inFlight := Add32(s.inFlight, |chunk|)),
                  chunk)
  {
  }

  lemma KeptNothing(ack: uint32)
    ensures Kept([], ack) == []
  {
  }

  lemma KeptObjects(kept: seq<TCPSegment>, views: seq<Segment>, ack: uint32)
    requires Views(kept) == Kept(views, ack)
    ensures forall o :: o in kept ==> ack < o.seqNum + |o.data|
  {
    hide Kept;
    KeptMembers(views, ack);
    forall o | o in kept ensures ack < o.seqNum + |o.data| {
      var j :| 0 <= j < |kept| && kept[j] == o;
      assert Views(kept)[j] == o.View();
    }
  }

  lemma {:induction false} KeptSnoc(segments: seq<Segment>, last: Segment, ack: uint32)
    ensures Kept(segments + [last], ack) ==
            Kept(segments, ack) + if last.End() <= ack then [] else [last]
  {
    if |segments| == 0 {
      assert segments + [last] == [last] && [last][1..] == [];
    } else {
      KeptSnoc(segments[1..], last, ack);
      assert (segments + [last])[1..] == segments[1..] + [last];
      Assoc([segments[0]], Kept(segments[1..], ack), if last.End() <= ack then [] else [last]);
    }
  }

  /** The positions a pass selects are exactly the retransmittable ones, in order. */
  lemma {:induction false} DueFacts(segments: seq<Segment>, n: nat, now: int, rto: nat, limit: byte)
    requires n <= |segments|
    ensures var due := Due(segments, n, now, rto, limit);
            && (forall i: nat :: i in due <==> i < n && Retransmittable(segments[i], now, rto, limit))
            && (forall j, k :: 0 <= j < k < |due| ==> due[j] < due[k])
  {
    if n > 0 {
      DueFacts(segments, n - 1, now, rto, limit);
    }
  }

  /** The k-th selected position has k selected ones before it. */
  lemma {:induction false} DueRank(segments: seq<Segment>, n: nat, now: int, rto: nat, limit: byte, k: nat)
    requires n <= |segments| && k < |Due(segments, n, now, rto, limit)|
    ensures |Due(segments, Due(segments, n, now, rto, limit)[k], now, rto, limit)| == k
  {
    if k < |Due(segments, n - 1, now, rto, limit)| {
      DueRank(segments, n - 1, now, rto, limit, k);
    }
  }

  class TCPReliability {
    var nextSeqNum: uint32
    var lastAckReceived: uint32
    var sendBuffer: seq<byte>
    var unackedSegments: seq<TCPSegment>
    var rto: nat
    var srtt: nat
    var rttvar: nat
    var maxRetransmits: byte
    var sendWindowSize: uint16
    var remoteWindowSize: uint16
    var bytesInFlight: uint32

    ghost predicate Valid()
      reads this
    {
      Distinct(unackedSegments)
    }

    ghost function View(): Sender
      reads this, unackedSegments
    {
      Sender(nextSeqNum, lastAckReceived, sendBuffer, Views(unackedSegments), Estimate(srtt, rttvar, rto),
             maxRetransmits, sendWindowSize, remoteWindowSize, bytesInFlight)
    }

    constructor ()
      ensures Valid() && View() == INITIAL && unackedSegments == [] && sendBuffer == []
      ensures nextSeqNum == lastAckReceived == bytesInFlight == 0 && srtt == rttvar == 0 && rto == 1000
      ensures maxRetransmits == 3 && sendWindowSize == remoteWindowSize == 65535
    {
      nextSeqNum, lastAckReceived, bytesInFlight := 0, 0, 0;
      sendBuffer, unackedSegments := [], [];
      rto, srtt, rttvar := 1000, 0, 0;
      maxRetransmits, sendWindowSize, remoteWindowSize := 3, 65535, 65535;
    }

    method SetInitialRto(rto: nat)
      requires Valid()
      modifies this`rto
      ensures Valid() && View() == Step(old(View()), SetRto(rto)) && this.rto == rto
    {
      this.rto := rto;
    }

    method SetMaxRetransmits(limit: byte)
      requires Valid()
      modifies this`maxRetransmits
      ensures Valid() && View() == Step(old(View()), Op.SetMaxRetransmits(limit)) && maxRetransmits == limit
    {
      maxRetransmits := limit;
    }

    method SetWindowSize(window: uint16)
      requires Valid()
      modifies this`sendWindowSize
      ensures Valid() && View() == Step(old(View()), SetWindow(window)) && sendWindowSize == window
    {
      sendWindowSize := window;
    }

    method UpdateRemoteWindow(window: uint16)
      requires Valid()
      modifies this`remoteWindowSize
      ensures Valid() && View() == Step(old(View()), RemoteWindow(window)) && remoteWindowSize == window
    {
      remoteWindowSize := window;
    }

    method SetInitialSeq(seqNum: uint32)
      requires Valid()
      modifies this`nextSeqNum
      ensures Valid() && View() == old(View()).(nextSeq := seqNum) && nextSeqNum == seqNum
    {
      nextSeqNum := seqNum;
    }

    method AdvanceSeq(bytes: nat)
      modifies this`nextSeqNum
      ensures nextSeqNum == Add32(old(nextSeqNum), bytes)
    {
      nextSeqNum := Add32(nextSeqNum, bytes);
    }

    method ProcessAck(ack: uint32)
      requires Valid()
      modifies this, unackedSegments
      ensures Valid() && View() == ReliableSender.ProcessAck(old(View()), ack)
      ensures lastAckReceived == Max(old(lastAckReceived), ack)
      ensures bytesInFlight ==
              if ack <= old(lastAckReceived) then old(bytesInFlight)
              else Max(0, old(bytesInFlight) - (ack - old(lastAckReceived)))
      ensures forall o :: o in unackedSegments <==>
                o in old(unackedSegments) && (ack <= old(lastAckReceived) || ack < o.seqNum + |o.data|)
    {
      hide Kept;
      ghost var s := View();
      if ack > lastAckReceived {
        var newlyAcked: uint32 := ack - lastAckReceived;
        lastAckReceived := ack;
        RemoveAcknowledgedSegments(ack);
        if bytesInFlight >= newlyAcked {
          bytesInFlight := bytesInFlight - newlyAcked;
        } else {
          bytesInFlight := 0;
        }
        assert View().unacked == Kept(s.unacked, ack);
      }
    }

    /** remove_if and erase: the covered segments are flagged and dropped, the others keep
        their order and contents. */
    method RemoveAcknowledgedSegments(ack: uint32)
      requires Valid()
      modifies this`unackedSegments, unackedSegments
      ensures Valid() && Views(unackedSegments) == Kept(old(Views(unackedSegments)), ack)
      ensures forall o :: o in unackedSegments <==> o in old(unackedSegments) && ack < o.seqNum + |o.data|
      ensures forall o :: o in old(unackedSegments) && o !in unackedSegments ==> o.acknowledged
    {
      hide Kept;
      var segments := unackedSegments;
      ghost var views := Views(segments);
      var kept: seq<TCPSegment> := [];
      KeptNothing(ack);
      assert views[..0] == Views(kept) == [];
      for i := 0 to |segments|
        invariant unackedSegments == segments && Distinct(kept)
        invariant forall o :: o in kept ==> o in segments[..i]
        invariant forall j :: 0 <= j < i ==>
                    segments[j] in kept || (segments[j].acknowledged && segments[j].seqNum + |segments[j].data| <= ack)
        invariant forall j :: i <= j < |segments| ==> segments[j].View() == views[j]
        invariant Views(kept) == Kept(views[..i], ack)
      {
        var segment := segments[i];
        assert views[..i + 1] == views[..i] + [views[i]];
        KeptSnoc(views[..i], views[i], ack);
        assert segment !in segments[..i] && segment !in kept;
        if segment.seqNum + |segment.data| <= ack {
          segment.acknowledged := true;
        } else {
          kept := kept + [segment];
        }
      }
      assert views[..|segments|] == views;
      unackedSegments := kept;
      KeptObjects(kept, views, ack);
    }

    method IsSeqAcknowledged(seqNum: uint32) returns (acknowledged: bool)
      ensures acknowledged <==> seqNum < lastAckReceived
    {
      acknowledged := seqNum < lastAckReceived;
    }

    method GetEffectiveWindow() returns (window: uint16)
      ensures window == View().EffectiveWindow()
    {
      window := if remoteWindowSize < sendWindowSize then remoteWindowSize else sendWindowSize;
    }

    method CanSendData(size: nat) returns (can: bool)
      ensures can <==> View().CanSend(size)
    {
      var window := GetEffectiveWindow();
      can := (bytesInFlight + size) % TWO64 <= window;
    }

    method BufferData(data: seq<byte>)
      requires Valid()
      modifies this`sendBuffer
      ensures Valid() && View() == Step(old(View()), Op.BufferData(data))
    {
      for i := 0 to |data|
        invariant sendBuffer == old(sendBuffer) + data[..i]
      {
        sendBuffer := sendBuffer + [data[i]];
      }
      assert data[..|data|] == data;
    }

    method GetDataToSend(maxSize: nat, now: int) returns (data: seq<byte>)
      requires Valid()
      modifies this`sendBuffer, this`unackedSegments, this`nextSeqNum, this`bytesInFlight
      ensures Valid() && (View(), data) == Dequeue(old(View()), maxSize, now)
      ensures data + sendBuffer == old(sendBuffer)
      ensures |data| == Min(maxSize, Min((Min(sendWindowSize, remoteWindowSize) - old(bytesInFlight)) % 0x1_0000_0000,
                                         |old(sendBuffer)|))
      ensures nextSeqNum == (old(nextSeqNum) + |data|) % 0x1_0000_0000
      ensures bytesInFlight == (old(bytesInFlight) + |data|) % 0x1_0000_0000
      ensures data == [] ==> unackedSegments == old(unackedSegments)
      ensures data != [] ==>
                && |unackedSegments| == |old(unackedSegments)| + 1
                && var last := unackedSegments[|unackedSegments| - 1];
                && unackedSegments == old(unackedSegments) + [last] && fresh(last)
                && last.View() == Segment(old(nextSeqNum), data, now, 0, false)
    {
      hide Dequeue, Min, Views, Distinct;
      ghost var s := View();
      DequeueTakes(s, maxSize, now);
      DequeueIs(s, maxSize, now);
      var window := GetEffectiveWindow();
      var available: uint32 := (window - bytesInFlight) % TWO32;
      var toSend := Min(maxSize, Min(available, |sendBuffer|));
      assert toSend == s.DequeueSize(maxSize);
      data := Pop(toSend);
      if data != [] {
        Track(data, now);
      }
    }

    /** The loop of get_data_to_send: byte by byte from the front of the queue. */
    method Pop(toSend: nat) returns (data: seq<byte>)
      requires toSend <= |sendBuffer|
      modifies this`sendBuffer
      ensures data == old(sendBuffer)[..toSend] && sendBuffer == old(sendBuffer)[toSend..]
    {
      data := [];
      var i := 0;
      while i < toSend && sendBuffer != []
        invariant 0 <= i <= toSend
        invariant data == old(sendBuffer)[..i] && sendBuffer == old(sendBuffer)[i..]
      {
        data, sendBuffer, i := data + [sendBuffer[0]], sendBuffer[1..], i + 1;
      }
    }

    /** The tracking half of get_data_to_send, for a non-empty chunk. */
    method Track(data: seq<byte>, now: int)
      requires Valid()
      modifies this`unackedSegments, this`nextSeqNum, this`bytesInFlight
      ensures Valid()
      ensures var s := old(View());
              View() == s.(unacked := s.unacked + [Tracked(s, data, now)],
                           nextSeq := Add32(s.nextSeq, |data|), inFlight := Add32(s.inFlight, |data|))
      ensures |unackedSegments| > 0
      ensures var last := unackedSegments[|unackedSegments| - 1];
              unackedSegments == old(unackedSegments) + [last] && fresh(last)
    {
      var segment := new TCPSegment(nextSeqNum, data, now);
      assert segment !in unackedSegments;
      unackedSegments := unackedSegments + [segment];
      AdvanceSeq(|data|);
      bytesInFlight := Add32(bytesInFlight, |data|);
    }

    /** The selected segments are the list's own objects, in list order. */
    method GetSegmentsToRetransmit(now: int) returns (selected: seq<TCPSegment>)
      requires Valid()
      ensures var due := Due(Views(unackedSegments), |unackedSegments|, now, rto, maxRetransmits);
              |selected| == |due| && forall k :: 0 <= k < |due| ==> selected[k] == unackedSegments[due[k]]
      ensures forall o :: o in selected <==>
                && o in unackedSegments && !o.acknowledged && now - o.sentTime > rto * 1_000_000
                && o.retransmitCount < maxRetransmits
    {
      selected := [];
      ghost var views := Views(unackedSegments);
      ghost var due: seq<nat> := [];
      for i := 0 to |unackedSegments|
        invariant due == Due(views, i, now, rto, maxRetransmits) && |selected| == |due|
        invariant forall k :: 0 <= k < |due| ==> due[k] < i && selected[k] == unackedSegments[due[k]]
      {
        var segment := unackedSegments[i];
        if !segment.acknowledged && now - segment.sentTime > rto * NANOS_PER_MS
           && segment.retransmitCount < maxRetransmits {
          selected, due := selected + [segment], due + [i];
        }
      }
      SelectedAreOverdue(selected, due, now);
    }

    lemma SelectedAreOverdue(selected: seq<TCPSegment>, due: seq<nat>, now: int)
      requires due == Due(Views(unackedSegments), |unackedSegments|, now, rto, maxRetransmits)
      requires |selected| == |due| && forall k :: 0 <= k < |due| ==> selected[k] == unackedSegments[due[k]]
      ensures forall o :: o in selected <==>
                && o in unackedSegments && !o.acknowledged && now - o.sentTime > rto * 1_000_000
                && o.retransmitCount < maxRetransmits
    {
      DueFacts(Views(unackedSegments), |unackedSegments|, now, rto, maxRetransmits);
      hide Due;
      forall o | o in unackedSegments && !o.acknowledged && now - o.sentTime > rto * 1_000_000
                 && o.retransmitCount < maxRetransmits
        ensures o in selected
      {
        var i: nat :| i < |unackedSegments| && unackedSegments[i] == o;
        assert i in due;
        var k :| 0 <= k < |due| && due[k] == i;
        assert selected[k] == o;
      }
    }

    method MarkSegmentSent(segment: TCPSegment, now: int)
      modifies segment
      ensures segment.View() == old(segment.View()).Marked(now)
      ensures segment.sentTime == now && segment.retransmitCount == (old(segment.retransmitCount) + 1) % 256
      ensures segment.acknowledged == old(segment.acknowledged)
    {
      segment.sentTime := now;
      segment.retransmitCount := (segment.retransmitCount + 1) % 0x100;
    }

    method HasTimeout(now: int) returns (timeout: bool)
      ensures timeout <==> TimedOut(View(), now)
      ensures timeout <==>
              (exists o :: o in unackedSegments && !o.acknowledged && now - o.sentTime > rto * 1_000_000
                           && o.retransmitCount >= maxRetransmits)
    {
      for i := 0 to |unackedSegments|
        invariant forall j :: 0 <= j < i ==>
                    !(View().unacked[j].Expired(now, rto) && View().unacked[j].retransmits >= maxRetransmits)
      {
        var segment := unackedSegments[i];
        if !segment.acknowledged && now - segment.sentTime > rto * NANOS_PER_MS
           && segment.retransmitCount >= maxRetransmits {
          assert View().unacked[i].Expired(now, rto);
          return true;
        }
      }
      return false;
    }

    method UpdateRtt(rtt: nat)
      requires Valid()
      modifies this`srtt, this`rttvar, this`rto
      ensures Valid() && View() == Step(old(View()), MeasureRtt(rtt))
      ensures rto == Min(Max(srtt + Max(100, 4 * rttvar), 200), 60000)
      ensures old(srtt) == 0 ==> srtt == rtt && rttvar == rtt / 2
      ensures old(srtt) != 0 ==>
                && srtt == (7 * old(srtt) + rtt) / 8
                && rttvar == (3 * old(rttvar) + if rtt < old(srtt) then old(srtt) - rtt else rtt - old(srtt)) / 4
    {
      hide Views, Distinct, Abs, Min, Max, RtoFor;
      if srtt == 0 {
        srtt := rtt;
        rttvar := rtt / 2;
      } else {
        var diff := Abs(srtt - rtt);
        Distance(srtt, rtt);
        WeightedMeans(rttvar, diff, srtt, rtt);
        rttvar := ((1.0 - 0.25) * (rttvar as real) + 0.25 * (diff as real)).Floor;
        srtt := ((1.0 - 0.125) * (srtt as real) + 0.125 * (rtt as real)).Floor;
      }
      CalculateRto();
    }

    method CalculateRto()
      modifies this`rto
      ensures rto == RtoFor(srtt, rttvar) && rto == Min(Max(srtt + Max(100, 4 * rttvar), 200), 60000)
    {
      var maxTerm := Max(RTT_G, RTT_K * rttvar);
      rto := srtt + maxTerm;
      rto := Max(rto, 200);
      rto := Min(rto, 60000);
    }
  }
}
