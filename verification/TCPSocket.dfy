/** The send call and the retransmission pass of src/tcp_socket.cpp as they are written. */
module Socket {
  import opened Widths
  import opened StateMachine
  import opened ReliableSender
  import opened Reliability
  import opened ConnectionManager
  import opened SendLoop
  import opened AckLaws
  import SlidingWindow
  import TcpWire
  import Packets

  /** The flags of every data segment. */
  const DATA_FLAGS: byte := TcpWire.PSH + TcpWire.ACK

  function Delivered(net: nat -> RawOutcome): nat -> bool {
    (i: nat) => net(i) == RawOutcome.Sent
  }

  /** The packets of a call carry its emissions, under consecutive packet ids. */
  predicate Carries(packets: seq<seq<byte>>, emitted: seq<Emission>, order: ByteOrder, id: uint16,
                    conn: TcpWire.Endpoint) {
    && |packets| == |emitted|
    && forall i :: 0 <= i < |packets| ==>
         packets[i] == Packets.Transmit(order, Add16(id, i), conn.(localSeq := emitted[i].seqNum),
                                        emitted[i].data, DATA_FLAGS)
  }

  class TCPSocket {
    const connection: TCPConnection
    const manager: TCPConnectionManager
    const reliability: TCPReliability

    ghost predicate Valid()
      reads this, reliability
    {
      reliability.Valid()
    }

    /** The socket of an accepted connection. */
    constructor (connection: TCPConnection, manager: TCPConnectionManager)
      ensures this.connection == connection && this.manager == manager && fresh(reliability)
      ensures Valid() && reliability.View() == INITIAL.(nextSeq := connection.localSeq)
    {
      this.connection := connection;
      this.manager := manager;
      reliability := new TCPReliability();
      new;
      reliability.SetInitialSeq(connection.localSeq);
    }

    predicate IsConnected()
      reads this, connection, connection.stateMachine
    {
      connection.stateMachine.IsEstablished()
    }

    /** net(i) is the fate of the i-th packet of the call, clock(i) the time its chunk is
        taken. Not connected, the call returns -1 and does nothing; connected, it does to the
        sender and to local_seq what SendLoop.Send says, and puts exactly those segments on
        the wire. */
    method Send(data: seq<byte>, net: nat -> RawOutcome, clock: nat -> int)
      returns (result: int, packets: seq<seq<byte>>, ghost run: SendState)
      requires Valid()
      modifies reliability, connection`localSeq, manager.ipLayer
      ensures Valid()
      ensures old(connection.stateMachine.currentState) == Established ==>
                && run == SendLoop.Send(old(reliability.View()), old(connection.localSeq), data, Delivered(net), clock)
                && reliability.View() == run.sender && connection.localSeq == run.localSeq
                && result == run.totalSent
                && Carries(packets, run.emitted, manager.ipLayer.order, old(manager.ipLayer.packetId),
                           old(connection.View()))
      ensures old(connection.stateMachine.currentState) != Established ==>
                && manager.ipLayer.packetId == old(manager.ipLayer.packetId)
                && result == -1 && packets == []
                && reliability.View() == old(reliability.View()) && connection.localSeq == old(connection.localSeq)
    {
      run := SendLoop.Before(reliability.View(), connection.localSeq, data);
      if !IsConnected() {
        return -1, [], run;
      }
      ghost var id, endpoint := manager.ipLayer.packetId, connection.View();
      NothingCarried(manager.ipLayer.order, id, endpoint);
      reliability.BufferData(data);
      result, packets, run := SendWhatFits(|data|, net, clock, run, id, endpoint);
    }

    /** The object and the loop's variables show the state run of the specification; while the
        loop is running, the packet ids have followed the packets. */
    ghost predicate Shows(run: SendState, packets: seq<seq<byte>>, totalSent: nat, id: uint16,
                          endpoint: TcpWire.Endpoint, running: bool)
      reads this, reliability, reliability.unackedSegments, connection, connection.stateMachine, manager,
            manager.ipLayer
    {
      && Valid() && IsConnected()
      && reliability.View() == run.sender
      && connection.View() == endpoint.(localSeq := run.localSeq)
      && totalSent == run.totalSent
      && Carries(packets, run.emitted, manager.ipLayer.order, id, endpoint)
      && (running ==> manager.ipLayer.packetId == Add16(id, |packets|))
    }

    /** The loop of send. */
    method SendWhatFits(length: nat, net: nat -> RawOutcome, clock: nat -> int, ghost start: SendState,
                        ghost id: uint16, ghost endpoint: TcpWire.Endpoint)
      returns (totalSent: nat, packets: seq<seq<byte>>, ghost run: SendState)
      requires Shows(start, [], 0, id, endpoint, true)
      modifies reliability, connection`localSeq, manager.ipLayer
      ensures run == Rounds(start, length, 0, Delivered(net), clock)
      ensures Shows(run, packets, totalSent, id, endpoint, false)
    {
      hide *;
      run, totalSent, packets := start, 0, [];
      var stop := false;
      var canSend := CanSendChunk(run, packets, totalSent, id, endpoint);
      while !stop && totalSent < length && canSend
        invariant Shows(run, packets, totalSent, id, endpoint, !stop)
        invariant Rounds(start, length, 0, Delivered(net), clock) ==
                  if stop then run else Rounds(run, length, |packets|, Delivered(net), clock)
        invariant totalSent == run.totalSent && canSend == (!stop && run.sender.CanSend(CHUNK))
        decreases !stop, |reliability.sendBuffer|
      {
        stop, packets, totalSent, run := Round(net, clock, length, packets, totalSent, run, id, endpoint);
        canSend := CanSendChunk(run, packets, totalSent, id, endpoint);
        canSend := canSend && !stop;
      }
      if !stop {
        RoundStep(run, length, |packets|, Delivered(net), clock);
        assert run == Rounds(start, length, 0, Delivered(net), clock);
        StopRunning(run, packets, totalSent, id, endpoint);
      }
    }

    /** The guard of the loop. */
    method CanSendChunk(ghost run: SendState, packets: seq<seq<byte>>, totalSent: nat, ghost id: uint16,
                        ghost endpoint: TcpWire.Endpoint) returns (can: bool)
      requires Shows(run, packets, totalSent, id, endpoint, false) || Shows(run, packets, totalSent, id, endpoint, true)
      ensures can == run.sender.CanSend(CHUNK) && totalSent == run.totalSent
    {
      can := reliability.CanSendData(CHUNK);
    }

    lemma StopRunning(run: SendState, packets: seq<seq<byte>>, totalSent: nat, id: uint16, endpoint: TcpWire.Endpoint)
      requires Shows(run, packets, totalSent, id, endpoint, true)
      ensures Shows(run, packets, totalSent, id, endpoint, false)
    {
    }

    /** The body of the loop: take a chunk, transmit it. */
    method Round(net: nat -> RawOutcome, clock: nat -> int, length: nat, packets: seq<seq<byte>>,
                 totalSent: nat, ghost run: SendState, ghost id: uint16, ghost endpoint: TcpWire.Endpoint)
      returns (stop: bool, packets': seq<seq<byte>>, totalSent': nat, ghost run': SendState)
      requires Shows(run, packets, totalSent, id, endpoint, true)
      requires totalSent < length && run.sender.CanSend(CHUNK)
      modifies reliability, connection`localSeq, manager.ipLayer
      ensures Shows(run', packets', totalSent', id, endpoint, !stop) && totalSent' == run'.totalSent
      ensures Rounds(run, length, |packets|, Delivered(net), clock) ==
              if stop then run' else Rounds(run', length, |packets'|, Delivered(net), clock)
      ensures !stop ==> |reliability.sendBuffer| < |old(reliability.sendBuffer)|
    {
      hide *;
      var i := |packets|;
      Opened(run, packets, totalSent, id, endpoint);
      ghost var (sender, chunk) := Dequeue(run.sender, CHUNK, clock(i));
      RoundStep(run, length, i, Delivered(net), clock);
      DeliveredAt(net, i);
      var sent, packet;
      sent, packet, run' := SendChunk(net(i), clock(i), run);
      stop, packets', totalSent' := sent == 0, packets, totalSent;
      if !stop {
        packets', totalSent' := packets + [packet], totalSent + sent;
        OneMoreCarried(packets, run.emitted, packet, chunk, run.localSeq, manager.ipLayer.order, id, endpoint);
        NextId(id, i);
        SentFields(run, sender, chunk);
      }
      Closed(run', packets', totalSent', id, endpoint, !stop);
    }

    lemma Opened(run: SendState, packets: seq<seq<byte>>, totalSent: nat, id: uint16, endpoint: TcpWire.Endpoint)
      requires Shows(run, packets, totalSent, id, endpoint, true)
      ensures Valid() && IsConnected() && reliability.View() == run.sender && connection.localSeq == run.localSeq
      ensures connection.View() == endpoint.(localSeq := run.localSeq) && totalSent == run.totalSent
      ensures Carries(packets, run.emitted, manager.ipLayer.order, id, endpoint)
      ensures manager.ipLayer.packetId == Add16(id, |packets|)
    {
    }

    lemma Closed(run: SendState, packets: seq<seq<byte>>, totalSent: nat, id: uint16, endpoint: TcpWire.Endpoint,
                 running: bool)
      requires Valid() && IsConnected() && reliability.View() == run.sender
      requires connection.View() == endpoint.(localSeq := run.localSeq) && totalSent == run.totalSent
      requires Carries(packets, run.emitted, manager.ipLayer.order, id, endpoint)
      requires running ==> manager.ipLayer.packetId == Add16(id, |packets|)
      ensures Shows(run, packets, totalSent, id, endpoint, running)
    {
    }

    /** Dequeue one chunk and transmit it; 0 when there was none or the transmission failed. */
    method SendChunk(fate: RawOutcome, now: int, ghost st: SendState)
      returns (sent: nat, packet: seq<byte>, ghost next: SendState)
      requires Valid() && IsConnected() && st.sender == reliability.View() && st.localSeq == connection.localSeq
      modifies reliability, connection`localSeq, manager.ipLayer
      ensures Valid() && IsConnected() && reliability.View() == next.sender
      ensures connection.View() == old(connection.View()).(localSeq := next.localSeq)
      ensures var (sender, chunk) := Dequeue(st.sender, CHUNK, now);
              if chunk == [] then sent == 0 && next == st
              else if fate != RawOutcome.Sent then sent == 0 && next == st.(sender := sender, failed := chunk)
              else sent == |chunk| > 0 && next == SendLoop.Sent(st, sender, chunk)
                   && manager.ipLayer.packetId == Add16(old(manager.ipLayer.packetId), 1)
                   && packet == Packets.Transmit(manager.ipLayer.order, old(manager.ipLayer.packetId),
                                                 old(connection.View()), chunk, DATA_FLAGS)
      ensures sent == 0 ==> next.totalSent == st.totalSent && next.emitted == st.emitted
      ensures sent > 0 ==> |reliability.sendBuffer| < |old(reliability.sendBuffer)|
    {
      hide Packets.Transmit, Dequeue, Add16, Add32;
      sent, packet, next := 0, [], st;
      var chunk := reliability.GetDataToSend(CHUNK, now);
      if chunk == [] {
        return;
      }
      var success;
      success, packet := manager.SendSegment(connection, chunk, DATA_FLAGS, fate);
      if success {
        sent, next := |chunk|, SendLoop.Sent(st, reliability.View(), chunk);
      } else {
        next := st.(sender := reliability.View(), failed := chunk);
      }
    }

    /** Send the i-th tracked segment again, and mark it whatever comes of that. */
    method ResendOne(segment: TCPSegment, fate: RawOutcome, time: int, ghost i: nat) returns (packet: seq<byte>)
      requires Valid() && i < |reliability.unackedSegments| && reliability.unackedSegments[i] == segment
      modifies segment, connection`localSeq, manager.ipLayer
      ensures Valid()
      ensures var s := old(reliability.View());
              reliability.View() == s.(unacked := s.unacked[i := s.unacked[i].Marked(time)])
      ensures var state := connection.stateMachine.currentState;
              && connection.View() == old(connection.View()).(localSeq :=
                   if MaySend(state) && fate == RawOutcome.Sent
                   then Add32(old(connection.localSeq), |segment.data|) else old(connection.localSeq))
              && packet == (if Attempted(state, fate)
                            then Packets.Transmit(manager.ipLayer.order, old(manager.ipLayer.packetId),
                                                  old(connection.View()), segment.data, DATA_FLAGS)
                            else [])
              && manager.ipLayer.packetId ==
                 Add16(old(manager.ipLayer.packetId), if Attempted(state, fate) then 1 else 0)
    {
      hide Packets.Transmit, Add16, Add32, MaySend;
      NoMoreIds(manager.ipLayer.packetId);
      var success;
      success, packet := manager.SendSegment(connection, segment.data, DATA_FLAGS, fate);
      reliability.MarkSegmentSent(segment, time);
    }

    /** One pass of the background loop: every overdue segment below the limit is sent again
        under the connection's current sequence number and marked, whether or not the
        transmission succeeds; clock(k) is the time of the k-th mark, and packets[k] what the
        k-th transmission puts on the wire. */
    method RetransmissionPass(now: int, net: nat -> RawOutcome, clock: nat -> int)
      returns (packets: seq<seq<byte>>)
      requires Valid()
      modifies reliability.unackedSegments, connection`localSeq, manager.ipLayer
      ensures Valid()
      ensures var s := old(reliability.View());
              reliability.View() == Step(s, Retransmit(now, MarkTimes(s, now, clock)))
      ensures connection.localSeq == Resend(Selected(old(reliability.View()), now), old(connection.localSeq),
                                            Resent(net, connection.stateMachine.currentState)).0
      ensures var pass := ResendPass(old(reliability.View()), now, net, connection.stateMachine.currentState,
                                     manager.ipLayer.order, old(manager.ipLayer.packetId), old(connection.View()));
              pass.Shown(packets, |DueOf(old(reliability.View()), now)|)
              && manager.ipLayer.packetId == pass.Id(|DueOf(old(reliability.View()), now)|)
    {
      hide Selected, Resend, MarkTimes, Step, ResendPass.Shown, ResendPass.Id, ResendPass.Endpoint, Retransmittable;
      ghost var pass := ResendPass(reliability.View(), now, net, connection.stateMachine.currentState,
                                   manager.ipLayer.order, manager.ipLayer.packetId, connection.View());
      var segments := reliability.GetSegmentsToRetransmit(now);
      packets := [];
      PassBegins(pass, segments, clock);
      hide *;
      for k := 0 to |segments|
        invariant PassShows(pass, segments, packets, clock, k)
      {
        packets := PassRound(pass, segments, packets, net, clock, k);
      }
      PassEnds(pass, segments, packets, clock);
    }

    /** k of the selected segments have been sent again and marked. */
    ghost predicate PassShows(pass: ResendPass, segments: seq<TCPSegment>, packets: seq<seq<byte>>,
                              clock: nat -> int, k: nat)
      reads this, reliability, reliability.unackedSegments, connection, connection.stateMachine, manager,
            manager.ipLayer
    {
      var due := DueOf(pass.sender, pass.now);
      && Valid() && connection.stateMachine.currentState == pass.state
      && manager.ipLayer.order == pass.order
      && |segments| == |due| && k <= |segments|
      && PassSegments(pass, segments)
      && reliability.View() == pass.sender.(unacked := PartMarked(pass.sender, pass.now, clock, k))
      && connection.View() == pass.Endpoint(k)
      && pass.Shown(packets, k)
      && manager.ipLayer.packetId == pass.Id(k)
    }

    /** The selected segments are the list's own objects. */
    ghost predicate PassSegments(pass: ResendPass, segments: seq<TCPSegment>)
      requires |segments| == |DueOf(pass.sender, pass.now)|
      reads this, reliability
    {
      forall j :: 0 <= j < |segments| ==>
        DueOf(pass.sender, pass.now)[j] < |reliability.unackedSegments|
        && segments[j] == reliability.unackedSegments[DueOf(pass.sender, pass.now)[j]]
    }

    lemma PassBegins(pass: ResendPass, segments: seq<TCPSegment>, clock: nat -> int)
      requires Valid() && pass.sender == reliability.View() && pass.conn == connection.View()
      requires pass.order == manager.ipLayer.order && pass.id == manager.ipLayer.packetId
      requires connection.stateMachine.currentState == pass.state && |segments| == |DueOf(pass.sender, pass.now)|
      requires forall j :: 0 <= j < |segments| ==>
                 segments[j] == reliability.unackedSegments[DueOf(pass.sender, pass.now)[j]]
      ensures PassShows(pass, segments, [], clock, 0)
    {
      NothingMarked(pass.sender, pass.now, clock);
      pass.Begins();
    }

    lemma PassEnds(pass: ResendPass, segments: seq<TCPSegment>, packets: seq<seq<byte>>, clock: nat -> int)
      requires PassShows(pass, segments, packets, clock, |segments|)
      ensures Valid()
      ensures reliability.View() ==
              Step(pass.sender, Retransmit(pass.now, MarkTimes(pass.sender, pass.now, clock)))
      ensures connection.localSeq ==
              Resend(Selected(pass.sender, pass.now), pass.conn.localSeq, Resent(pass.net, pass.state)).0
      ensures connection.stateMachine.currentState == pass.state && manager.ipLayer.order == pass.order
      ensures pass.Shown(packets, |DueOf(pass.sender, pass.now)|)
      ensures manager.ipLayer.packetId == pass.Id(|DueOf(pass.sender, pass.now)|)
    {
      AllMarked(pass.sender, pass.now, clock);
      assert Selected(pass.sender, pass.now)[..|segments|] == Selected(pass.sender, pass.now);
    }

    method PassRound(ghost pass: ResendPass, segments: seq<TCPSegment>, packets: seq<seq<byte>>,
                     net: nat -> RawOutcome, clock: nat -> int, k: nat)
      returns (packets': seq<seq<byte>>)
      requires PassShows(pass, segments, packets, clock, k) && k < |segments| && net == pass.net
      modifies reliability.unackedSegments, connection`localSeq, manager.ipLayer
      ensures PassShows(pass, segments, packets', clock, k + 1)
    {
      ghost var i := DueOf(pass.sender, pass.now)[k];
      Unpack(pass, segments, packets, clock, k);
      pass.Continues(packets, k);
      hide *;
      var packet := ResendOne(segments[k], net(k), clock(k), i);
      packets' := packets + [packet];
      Pack(pass, segments, packets', clock, k);
    }

    lemma Unpack(pass: ResendPass, segments: seq<TCPSegment>, packets: seq<seq<byte>>, clock: nat -> int, k: nat)
      requires PassShows(pass, segments, packets, clock, k) && k < |segments|
      ensures Valid() && connection.stateMachine.currentState == pass.state && manager.ipLayer.order == pass.order
      ensures |DueOf(pass.sender, pass.now)| == |segments| && PassSegments(pass, segments)
      ensures var i, list := DueOf(pass.sender, pass.now)[k], PartMarked(pass.sender, pass.now, clock, k);
              && i < |reliability.unackedSegments| && segments[k] == reliability.unackedSegments[i]
              && segments[k].data == pass.sender.unacked[i].data
              && reliability.View() == pass.sender.(unacked := list)
              && PartMarked(pass.sender, pass.now, clock, k + 1) == list[i := list[i].Marked(clock(k))]
      ensures connection.View() == pass.Endpoint(k) && manager.ipLayer.packetId == pass.Id(k)
      ensures pass.Shown(packets, k)
    {
      OneMoreMarked(pass.sender, pass.now, clock, k);
      var i := DueOf(pass.sender, pass.now)[k];
      assert reliability.View().unacked[i] == reliability.unackedSegments[i].View();
    }

    lemma Pack(pass: ResendPass, segments: seq<TCPSegment>, packets: seq<seq<byte>>, clock: nat -> int, k: nat)
      requires k < |segments| == |DueOf(pass.sender, pass.now)| && PassSegments(pass, segments)
      requires Valid() && connection.stateMachine.currentState == pass.state && manager.ipLayer.order == pass.order
      requires reliability.View() ==
               pass.sender.(unacked := PartMarked(pass.sender, pass.now, clock, k + 1))
      requires connection.View() == pass.Endpoint(k + 1) && manager.ipLayer.packetId == pass.Id(k + 1)
      requires pass.Shown(packets, k + 1)
      ensures PassShows(pass, segments, packets, clock, k + 1)
    {
    }
  }

  /** send_segment reaches the raw socket. */
  predicate Attempted(state: State, fate: RawOutcome) {
    MaySend(state) && fate != NotOpen
  }

  lemma NoMoreIds(id: uint16)
    ensures Add16(id, 0) == id
  {
  }

  /** What a retransmission pass starts from: net(k) is the fate of its k-th packet. */
  datatype ResendPass = ResendPass(
    sender: Sender, now: int, net: nat -> RawOutcome, state: State, order: ByteOrder, id: uint16,
    conn: TcpWire.Endpoint)
  {
    /** The packets that reached the raw socket among the first k. */
    function Attempts(k: nat): nat {
      if k == 0 then 0 else Attempts(k - 1) + if Attempted(state, net(k - 1)) then 1 else 0
    }

    /** The packet id and the connection after k transmissions. */
    function Id(k: nat): uint16 {
      Add16(id, Attempts(k))
    }

    function Endpoint(k: nat): TcpWire.Endpoint
      requires k <= |Selected(sender, now)|
    {
      conn.(localSeq := Resend(Selected(sender, now)[..k], conn.localSeq, Resent(net, state)).0)
    }

    /** The k-th transmission carries the bytes of the k-th selected segment under the
        connection's current number, not the number they are tracked under. */
    function Packet(k: nat): seq<byte>
      requires k < |Selected(sender, now)|
    {
      if Attempted(state, net(k))
      then Packets.Transmit(order, Id(k), Endpoint(k), Selected(sender, now)[k].data, DATA_FLAGS) else []
    }

    predicate Shown(packets: seq<seq<byte>>, k: nat)
      requires k <= |Selected(sender, now)|
    {
      |packets| == k && forall j :: 0 <= j < k ==> packets[j] == Packet(j)
    }

    lemma Begins()
      ensures Shown([], 0) && Id(0) == id && Endpoint(0) == conn
    {
    }

    lemma Continues(packets: seq<seq<byte>>, k: nat)
      requires k < |Selected(sender, now)| && Shown(packets, k)
      ensures Shown(packets + [Packet(k)], k + 1)
      ensures Packet(k) ==
              if Attempted(state, net(k))
              then Packets.Transmit(order, Id(k), Endpoint(k), sender.unacked[DueOf(sender, now)[k]].data, DATA_FLAGS)
              else []
      ensures Id(k + 1) == Add16(Id(k), if Attempted(state, net(k)) then 1 else 0)
      ensures Endpoint(k + 1) == Endpoint(k).(localSeq :=
                if MaySend(state) && net(k) == RawOutcome.Sent
                then Add32(Endpoint(k).localSeq, |sender.unacked[DueOf(sender, now)[k]].data|)
                else Endpoint(k).localSeq)
    {
      hide Packets.Transmit, Add16, Add32, Attempted, Resend, MaySend, Resent, Due, DueOf, Picked;
      OneMoreResent(sender, now, conn.localSeq, net, state, k);
      ContinuesId(k);
    }

    lemma ContinuesId(k: nat)
      ensures Id(k + 1) == Add16(Id(k), if Attempted(state, net(k)) then 1 else 0)
    {
      NextId(id, Attempts(k));
      NoMoreIds(Id(k));
      hide Add16, Attempted;
    }
  }

  /** The list after the first k marks of a pass. */
  function PartMarked(s: Sender, now: int, clock: nat -> int, k: nat): (r: seq<Segment>)
    requires k <= |DueOf(s, now)|
    ensures |r| == |s.unacked|
  {
    seq(|s.unacked|, i requires 0 <= i < |s.unacked| =>
      if i in DueOf(s, now)[..k] then s.unacked[i].Marked(MarkTimes(s, now, clock)(i)) else s.unacked[i])
  }

  lemma NothingMarked(s: Sender, now: int, clock: nat -> int)
    ensures PartMarked(s, now, clock, 0) == s.unacked
  {
  }

  lemma OneMoreMarked(s: Sender, now: int, clock: nat -> int, k: nat)
    requires k < |DueOf(s, now)|
    ensures var i, before := DueOf(s, now)[k], PartMarked(s, now, clock, k);
            before[i] == s.unacked[i] && PartMarked(s, now, clock, k + 1) == before[i := before[i].Marked(clock(k))]
  {
    hide DueOf, MarkTimes;
    NextDue(s, now, clock, k);
    var due, before, after := DueOf(s, now), PartMarked(s, now, clock, k), PartMarked(s, now, clock, k + 1);
    var i := due[k];
    assert due[..k + 1] == due[..k] + [i];
    assert before[i] == s.unacked[i] && after[i] == s.unacked[i].Marked(clock(k));
    assert forall j :: 0 <= j < |s.unacked| && j != i ==> after[j] == before[j];
  }

  /** The k-th selected position is a new one, and is marked at the k-th reading of the clock. */
  lemma NextDue(s: Sender, now: int, clock: nat -> int, k: nat)
    requires k < |DueOf(s, now)|
    ensures var due := DueOf(s, now);
            due[k] < |s.unacked| && due[k] !in due[..k] && MarkTimes(s, now, clock)(due[k]) == clock(k)
  {
    hide Due, Retransmittable;
    DueFacts(s.unacked, |s.unacked|, now, s.estimate.rto, s.maxRetransmits);
    DueRank(s.unacked, |s.unacked|, now, s.estimate.rto, s.maxRetransmits, k);
  }

  lemma AllMarked(s: Sender, now: int, clock: nat -> int)
    ensures PartMarked(s, now, clock, |DueOf(s, now)|)
         == Pass(s.unacked, now, MarkTimes(s, now, clock), s.estimate.rto, s.maxRetransmits)
  {
    var due := DueOf(s, now);
    assert due[..|due|] == due;
    DueFacts(s.unacked, |s.unacked|, now, s.estimate.rto, s.maxRetransmits);
  }

  lemma OneMoreResent(s: Sender, now: int, localSeq: uint32, net: nat -> RawOutcome, state: State, k: nat)
    requires k < |Selected(s, now)|
    ensures var before := Resend(Selected(s, now)[..k], localSeq, Resent(net, state)).0;
            Resend(Selected(s, now)[..k + 1], localSeq, Resent(net, state)).0 ==
            if MaySend(state) && net(k) == RawOutcome.Sent
            then Add32(before, |s.unacked[DueOf(s, now)[k]].data|) else before
  {
    assert Selected(s, now)[..k + 1][..k] == Selected(s, now)[..k];
  }

  /** send_segment succeeds only in a state that may send. */
  function Resent(net: nat -> RawOutcome, state: State): nat -> bool {
    (i: nat) => MaySend(state) && net(i) == RawOutcome.Sent
  }

  lemma DeliveredAt(net: nat -> RawOutcome, i: nat)
    ensures Delivered(net)(i) <==> net(i) == RawOutcome.Sent
  {
  }

  lemma SentFields(st: SendState, sender: Sender, chunk: seq<byte>)
    ensures var next := SendLoop.Sent(st, sender, chunk);
            && next.totalSent == st.totalSent + |chunk| && next.emitted == st.emitted + [Emission(st.localSeq, chunk)]
  {
  }

  lemma NothingCarried(order: ByteOrder, id: uint16, conn: TcpWire.Endpoint)
    ensures Carries([], [], order, id, conn) && Add16(id, 0) == id
  {
  }

  lemma OneMoreCarried(packets: seq<seq<byte>>, emitted: seq<Emission>, packet: seq<byte>, data: seq<byte>,
                       localSeq: uint32, order: ByteOrder, id: uint16, conn: TcpWire.Endpoint)
    requires Carries(packets, emitted, order, id, conn)
    requires packet == Packets.Transmit(order, Add16(id, |packets|), conn.(localSeq := localSeq), data, DATA_FLAGS)
    ensures Carries(packets + [packet], emitted + [Emission(localSeq, data)], order, id, conn)
    ensures |packets| == |emitted|
  {
    hide Packets.Transmit, Add16;
  }

  lemma NextId(id: uint16, i: nat)
    ensures Add16(Add16(id, i), 1) == Add16(id, i + 1)
  {
  }

  // ----- from one socket to the other -----

  /** What a receiver of the same byte order puts together from packets in order. */
  function Reassembled(order: ByteOrder, packets: seq<seq<byte>>): seq<byte> {
    if |packets| == 0 then [] else
    Reassembled(order, packets[..|packets| - 1]) +
    match Packets.Receive(order, packets[|packets| - 1])
    case Accepted(_, _, data) => data
    case Refused => []
  }

  /** A packet is accepted, goes to the ACK handler, and holds this segment. */
  predicate Delivers(order: ByteOrder, packet: seq<byte>, emission: Emission) {
    var r := Packets.Receive(order, packet);
    && r.Accepted? && r.handler == TcpWire.HandleAck && r.header.flags == 0x18
    && r.header.seqNum == emission.seqNum && r.data == emission.data
  }

  lemma OneDelivered(order: ByteOrder, id: uint16, conn: TcpWire.Endpoint, emission: Emission)
    requires |emission.data| <= CHUNK
    ensures Delivers(order, Packets.Transmit(order, id, conn.(localSeq := emission.seqNum), emission.data, DATA_FLAGS),
                     emission)
  {
    hide Packets.Receive, Packets.Transmit;
    var sender := conn.(localSeq := emission.seqNum);
    Packets.ReceiverSeesSender(order, id, sender, emission.data, DATA_FLAGS, []);
    var packet := Packets.Transmit(order, id, sender, emission.data, DATA_FLAGS);
    assert packet + [] == packet;
    Packets.HandlerOf(order, id, sender, emission.data, DATA_FLAGS, []);
  }

  lemma LastDelivered(order: ByteOrder, packets: seq<seq<byte>>, last: Emission)
    requires |packets| > 0 && Delivers(order, packets[|packets| - 1], last)
    ensures Reassembled(order, packets) == Reassembled(order, packets[..|packets| - 1]) + last.data
  {
    hide Packets.Receive;
  }

  lemma EachDelivered(packets: seq<seq<byte>>, emitted: seq<Emission>, order: ByteOrder, id: uint16,
                      conn: TcpWire.Endpoint)
    requires Carries(packets, emitted, order, id, conn) && SmallChunks(emitted)
    ensures |packets| == |emitted| && forall k :: 0 <= k < |packets| ==> Delivers(order, packets[k], emitted[k])
  {
    hide Packets.Transmit, Add16, Delivers;
    forall k | 0 <= k < |packets| ensures Delivers(order, packets[k], emitted[k]) {
      OneDelivered(order, Add16(id, k), conn, emitted[k]);
    }
  }

  lemma {:induction false} PacketsReassemble(packets: seq<seq<byte>>, emitted: seq<Emission>, order: ByteOrder)
    requires |packets| == |emitted| && forall k :: 0 <= k < |packets| ==> Delivers(order, packets[k], emitted[k])
    ensures Reassembled(order, packets) == Payload(emitted)
  {
    hide Delivers, Packets.Receive;
    if |packets| > 0 {
      var n := |packets| - 1;
      PacketsReassemble(packets[..n], emitted[..n], order);
      LastDelivered(order, packets, emitted[n]);
    }
  }

  /** What send puts on the wire is what the other side gets: the packets of one call, parsed
      and checked by a receiver, give back the bytes taken from buffer and data, under
      consecutive numbers; with the failed chunk and the remaining buffer, all bytes. */
  lemma SendDelivers(s: Sender, localSeq: uint32, data: seq<byte>, net: nat -> RawOutcome, clock: nat -> int,
                     packets: seq<seq<byte>>, order: ByteOrder, id: uint16, conn: TcpWire.Endpoint)
    requires Carries(packets, SendLoop.Send(s, localSeq, data, Delivered(net), clock).emitted, order, id, conn)
    ensures var r := SendLoop.Send(s, localSeq, data, Delivered(net), clock);
            && Reassembled(order, packets) + r.failed + r.sender.buffer == s.buffer + data
            && (forall k :: 0 <= k < |packets| ==> Delivers(order, packets[k], r.emitted[k]))
            && Numbered(r.emitted, localSeq)
  {
    hide SendLoop.Send, Carries, Delivers;
    var r := SendLoop.Send(s, localSeq, data, Delivered(net), clock);
    SendConserves(s, localSeq, data, Delivered(net), clock);
    SendNumbered(s, localSeq, data, Delivered(net), clock);
    EachDelivered(packets, r.emitted, order, id, conn);
    PacketsReassemble(packets, r.emitted, order);
  }

  /** Every packet of a call is TCP from the connection's address to its peer's, with the flags
      PSH and ACK, the chunk as data and the next packet id, which wraps after 65535. */
  lemma CarriedLayout(packets: seq<seq<byte>>, emitted: seq<Emission>, order: ByteOrder, id: uint16,
                      conn: TcpWire.Endpoint, k: nat)
    requires Carries(packets, emitted, order, id, conn) && k < |packets|
    ensures var packet := packets[k];
            && |packet| == 40 + |emitted[k].data| && packet[33] == 0x18 && packet[40..] == emitted[k].data
            && packet[9] == 6 && packet[4..6] == Bytes16(Big, (id + k) % 0x1_0000)
            && packet[24..28] == Bytes32(Big, emitted[k].seqNum)
            && packet[12..16] == Bytes32(order, conn.localIp) && packet[16..20] == Bytes32(order, conn.remoteIp)
  {
    hide Packets.Transmit, Bytes16, Bytes32;
    Packets.TransmitLayout(order, Add16(id, k), conn.(localSeq := emitted[k].seqNum), emitted[k].data, DATA_FLAGS);
  }

  /** The same for every packet of a retransmission pass that reaches the raw socket. */
  lemma ResentLayout(pass: ResendPass, k: nat)
    requires k < |Selected(pass.sender, pass.now)| && pass.Packet(k) != []
    ensures var packet, data := pass.Packet(k), Selected(pass.sender, pass.now)[k].data;
            && |packet| == 40 + |data| && packet[33] == 0x18 && packet[40..] == data && packet[9] == 6
            && packet[4..6] == Bytes16(Big, (pass.id + pass.Attempts(k)) % 0x1_0000)
            && packet[24..28] == Bytes32(Big, pass.Endpoint(k).localSeq)
            && packet[12..16] == Bytes32(pass.order, pass.conn.localIp)
            && packet[16..20] == Bytes32(pass.order, pass.conn.remoteIp)
  {
    hide Packets.Transmit, Bytes16, Bytes32, Resend, Selected, ResendPass.Attempts;
    Packets.TransmitLayout(pass.order, pass.Id(k), pass.Endpoint(k), Selected(pass.sender, pass.now)[k].data,
                           DATA_FLAGS);
  }

  /** Which transmissions of a pass reach the raw socket, and that the packet ids count exactly
      those. */
  lemma AttemptsCount(pass: ResendPass, k: nat)
    requires k < |Selected(pass.sender, pass.now)|
    ensures pass.Packet(k) != [] <==>
            (pass.state == Established || pass.state == CloseWait) && pass.net(k) != RawOutcome.NotOpen
    ensures pass.Attempts(0) == 0
    ensures pass.Attempts(k + 1) == pass.Attempts(k) + if pass.Packet(k) != [] then 1 else 0
  {
    hide Packets.Transmit, Selected;
    if Attempted(pass.state, pass.net(k)) {
      Packets.TransmitLayout(pass.order, pass.Id(k), pass.Endpoint(k), Selected(pass.sender, pass.now)[k].data,
                             DATA_FLAGS);
    }
  }

  /** A pass marks the k-th selected segment at the k-th reading of the clock and touches no
      segment it does not select. */
  lemma PassMarksInOrder(s: Sender, now: int, clock: nat -> int, k: nat)
    requires k < |DueOf(s, now)|
    ensures var after := Step(s, Retransmit(now, MarkTimes(s, now, clock))).unacked;
            var i := DueOf(s, now)[k];
            && after[i].sentTime == clock(k) && after[i].retransmits == s.unacked[i].retransmits + 1
            && after[i].seqNum == s.unacked[i].seqNum && after[i].data == s.unacked[i].data
    ensures forall i: nat :: i < |s.unacked| && i !in DueOf(s, now) ==>
              Step(s, Retransmit(now, MarkTimes(s, now, clock))).unacked[i] == s.unacked[i]
  {
    hide Due, MarkTimes, Step;
    NextDue(s, now, clock, k);
    DueFacts(s.unacked, |s.unacked|, now, s.estimate.rto, s.maxRetransmits);
    var due, marks := DueOf(s, now), MarkTimes(s, now, clock);
    assert due[k] in due;
    PassMarksIff(s, now, marks, due[k]);
    forall i: nat | i < |s.unacked| && i !in due
      ensures Step(s, Retransmit(now, marks)).unacked[i] == s.unacked[i]
    {
      PassMarksIff(s, now, marks, i);
    }
  }

  // ----- a pass against the tracked numbers -----

  lemma {:induction false} DueBytes(s: Sender, n: nat, now: int)
    requires n <= |s.unacked|
    ensures var due := Due(s.unacked, n, now, s.estimate.rto, s.maxRetransmits);
            |SlidingWindow.Bytes(Picked(s.unacked, due))| <= |SlidingWindow.Bytes(s.unacked[..n])|
  {
    var due := Due(s.unacked, n, now, s.estimate.rto, s.maxRetransmits);
    if n > 0 {
      DueBytes(s, n - 1, now);
      assert s.unacked[..n] == s.unacked[..n - 1] + [s.unacked[n - 1]];
      SlidingWindow.BytesAppend(s.unacked[..n - 1], [s.unacked[n - 1]]);
      if |due| > 0 && due[|due| - 1] == n - 1 {
        var before := Picked(s.unacked, due[..|due| - 1]);
        assert Picked(s.unacked, due) == before + [s.unacked[n - 1]];
        SlidingWindow.BytesAppend(before, [s.unacked[n - 1]]);
      }
    }
  }

  /** A pass leaves the connection's number on the sender's exactly when it sends nothing: in a
      state that may not send, or when every transmission fails. Otherwise the next segment
      is tracked under one number and sent under another. Less than 2^32 bytes are tracked. */
  lemma PassKeepsAgreementIff(s: Sender, now: int, net: nat -> RawOutcome, state: State)
    requires SlidingWindow.NonEmpty(s.unacked) && |SlidingWindow.Bytes(s.unacked)| < TWO32
    ensures Resend(Selected(s, now), s.nextSeq, Resent(net, state)).0 == s.nextSeq <==>
            !MaySend(state) || forall k :: 0 <= k < |DueOf(s, now)| ==> net(k) != RawOutcome.Sent
  {
    hide SlidingWindow.Bytes, Resend;
    DueBytes(s, |s.unacked|, now);
    assert s.unacked[..|s.unacked|] == s.unacked;
    ResendBreaksAgreement(Selected(s, now), s.nextSeq, Resent(net, state));
    assert forall k: nat :: Resent(net, state)(k) <==> MaySend(state) && net(k) == RawOutcome.Sent;
  }

  /** One byte is sent and not acknowledged. */
  const ONE_SENT: seq<Op> := [BufferData([7]), GetData(1, 0)]

  /** Once it is overdue, a pass that succeeds parts the counters. */
  lemma PassPartsCounters(net: nat -> RawOutcome)
    requires net(0) == RawOutcome.Sent
    ensures var s := ReliableSender.Run(INITIAL, ONE_SENT);
            s.nextSeq == 1 && Resend(Selected(s, 1_000_000_001), s.nextSeq, Resent(net, Established)).0 == 2
  {
    assert ONE_SENT == [] + [BufferData([7])] + [GetData(1, 0)];
    RunSnoc(INITIAL, [], BufferData([7]));
    RunSnoc(INITIAL, [] + [BufferData([7])], GetData(1, 0));
    assert ReliableSender.Run(INITIAL, []) == INITIAL;
    hide ReliableSender.Run;
    var buffered := Step(INITIAL, BufferData([7]));
    assert buffered.DequeueSize(1) == 1;
    assert buffered.buffer[..1] == [7];
    var s := ReliableSender.Run(INITIAL, ONE_SENT);
    assert s.unacked == [Segment(0, [7], 0, 0, false)];
    hide Step, Dequeue, Resend;
    OneDue(s.unacked[0], 1_000_000_001, 1000, 3);
    assert Selected(s, 1_000_000_001) == [s.unacked[0]];
    OneResent(s.unacked[0], 1, Resent(net, Established));
  }

  lemma OneDue(segment: Segment, now: int, rto: nat, limit: byte)
    requires Retransmittable(segment, now, rto, limit)
    ensures Due([segment], 1, now, rto, limit) == [0]
  {
    assert Due([segment], 0, now, rto, limit) == [];
  }

  lemma OneResent(segment: Segment, localSeq: uint32, net: nat -> bool)
    requires net(0)
    ensures Resend([segment], localSeq, net).0 == Add32(localSeq, |segment.data|)
  {
    assert [segment][..0] == [];
  }
}
