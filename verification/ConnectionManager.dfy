/** The segment path of src/tcp_connection_manager.cpp as it is written: the connection
    object, the header and checksum construction, send_segment and the check of incoming
    segments. */
module ConnectionManager {
  import opened Widths
  import opened TcpWire
  import opened StateMachine
  import Checksum
  import IpWire
  import Packets
  import StateMachineLaws

  class TCPConnection {
    var localIp: uint32
    var localPort: uint16
    var remoteIp: uint32
    var remotePort: uint16
    var localSeq: uint32
    var localAck: uint32
    var windowSize: uint16
    const stateMachine: TCPStateMachine

    constructor (endpoint: Endpoint)
      ensures View() == endpoint && fresh(stateMachine) && stateMachine.currentState == Closed
    {
      localIp, localPort := endpoint.localIp, endpoint.localPort;
      remoteIp, remotePort := endpoint.remoteIp, endpoint.remotePort;
      localSeq, localAck, windowSize := endpoint.localSeq, endpoint.localAck, endpoint.windowSize;
      stateMachine := new TCPStateMachine();
    }

    function View(): Endpoint
      reads this
    {
      Endpoint(localIp, localPort, remoteIp, remotePort, localSeq, localAck, windowSize)
    }
  }

  /** What the raw socket does with a packet: it is not open, sendto fails, or it goes out. */
  datatype RawOutcome = NotOpen | Lost | Sent

  class TCPConnectionManager {
    const ipLayer: IpWire.IPLayer

    constructor (order: ByteOrder)
      ensures fresh(ipLayer) && ipLayer.order == order && ipLayer.packetId == 1
    {
      ipLayer := new IpWire.IPLayer(order);
    }

    method CalculateTcpChecksum(srcIp: uint32, dstIp: uint32, h: TCPHeader, data: seq<byte>)
      returns (checksum: uint16)
      ensures checksum == TcpChecksum(ipLayer.order, srcIp, dstIp, h, data)
    {
      var segments := [PseudoHeader(ipLayer.order, srcIp, dstIp, |data|), h.Image(ipLayer.order)];
      if data != [] {
        segments := segments + [data];
      }
      assert segments == ChecksummedParts(ipLayer.order, srcIp, dstIp, h, data);
      checksum := Checksum.CalculateChecksumOfSegments(ipLayer.order, segments);
    }

    method CreateTcpHeader(conn: TCPConnection, data: seq<byte>, flags: byte) returns (h: TCPHeader)
      ensures h == BuildHeader(ipLayer.order, conn.View(), data, flags)
    {
      h := TCPHeader(0, 0, 0, 0, 0, 0, 0, 0, 0);
      h := h.(srcPort := conn.localPort, dstPort := conn.remotePort);
      h := h.(seqNum := conn.localSeq, ackNum := conn.localAck);
      h := h.SetDataOffset(5);
      h := h.(flags := flags, windowSize := conn.windowSize);
      assert h == BlankHeader(conn.View(), flags);
      var checksum := CalculateTcpChecksum(conn.localIp, conn.remoteIp, h, data);
      h := h.(checksum := checksum);
    }

    /** Header in network order, then the data. */
    method BuildSegment(conn: TCPConnection, data: seq<byte>, flags: byte) returns (segment: seq<byte>)
      ensures segment == SegmentBytes(ipLayer.order, conn.View(), data, flags)
    {
      var header := CreateTcpHeader(conn, data, flags);
      segment := header.ExchangeOrder(ipLayer.order).Image(ipLayer.order) + data;
    }

    /** send_segment: refused outside ESTABLISHED and CLOSE_WAIT; otherwise the packet carries
        the segment of the connection as it was, and only a successful transmission moves
        the sequence number past the data. */
    method SendSegment(conn: TCPConnection, data: seq<byte>, flags: byte, outcome: RawOutcome)
      returns (success: bool, packet: seq<byte>)
      modifies conn`localSeq, ipLayer
      ensures success <==> MaySend(conn.stateMachine.currentState) && outcome == Sent
      ensures conn.localSeq == if success then Add32(old(conn.localSeq), |data|) else old(conn.localSeq)
      ensures if MaySend(conn.stateMachine.currentState) && outcome != NotOpen
              then packet == Packets.Transmit(ipLayer.order, old(ipLayer.packetId), old(conn.View()), data, flags)
                   && ipLayer.packetId == Add16(old(ipLayer.packetId), 1)
              else packet == [] && ipLayer.packetId == old(ipLayer.packetId)
    {
      hide SegmentBytes, IpWire.PacketBytes;
      success, packet := false, [];
      if !conn.stateMachine.CanSendData() {
        return;
      }
      var segment := BuildSegment(conn, data, flags);
      if outcome != NotOpen {
        packet := ipLayer.CreatePacket(conn.localIp, conn.remoteIp, IPPROTO_TCP, segment);
        success := outcome == Sent;
      }
      if success && data != [] {
        conn.localSeq := Add32(conn.localSeq, |data|);
      }
    }

    /** connect, but for the list of connections: after the active open the machine is in a
        state that may not send, so no SYN ever reaches the wire and every call fails. */
    method Connect(endpoint: Endpoint, outcome: RawOutcome) returns (success: bool, packet: seq<byte>)
      modifies ipLayer
      ensures !success && packet == [] && ipLayer.packetId == old(ipLayer.packetId)
    {
      var conn := new TCPConnection(endpoint);
      var _ := conn.stateMachine.ProcessEvent(ActiveOpen);
      success, packet := SendSegment(conn, [], SYN, outcome);
    }

    /** close_connection, but for the list of connections. It leaves the sending states before
        it sends, so no FIN ever reaches the wire. */
    method CloseConnection(conn: TCPConnection, outcome: RawOutcome) returns (success: bool, packet: seq<byte>)
      modifies conn.stateMachine, conn`localSeq, ipLayer
      ensures conn.stateMachine.currentState == Transition(old(conn.stateMachine.currentState), CloseCall)
      ensures !success && packet == []
      ensures conn.View() == old(conn.View()) && ipLayer.packetId == old(ipLayer.packetId)
    {
      StateMachineLaws.CloseEndsSending(conn.stateMachine.currentState);
      var _ := conn.stateMachine.ProcessEvent(CloseCall);
      success, packet := SendSegment(conn, [], Packets.FIN_ACK, outcome);
    }

    /** process_incoming_segment up to the choice of handler. */
    method ProcessIncomingSegment(srcIp: uint32, dstIp: uint32, tcpData: seq<byte>) returns (result: Incoming)
      ensures result == CheckSegment(ipLayer.order, srcIp, dstIp, tcpData)
    {
      if |tcpData| < HEADER_SIZE {
        return Refused;
      }
      var h := FromImage(ipLayer.order, tcpData).ExchangeOrder(ipLayer.order);
      var received := h.checksum;
      h := h.(checksum := 0);
      var calculated := CalculateTcpChecksum(srcIp, dstIp, h, tcpData[HEADER_SIZE..]);
      if received != calculated {
        return Refused;
      }
      var data := if |tcpData| > HEADER_SIZE then tcpData[HEADER_SIZE..] else [];
      return Accepted(Dispatch(h), h, data);
    }

    /** One packet of the accept loop. */
    method ReceivePacket(packet: seq<byte>) returns (result: Incoming)
      ensures result == Packets.Receive(ipLayer.order, packet)
    {
      var parsed := ipLayer.ParsePacket(packet);
      if parsed.Packet? && parsed.header.protocol == IPPROTO_TCP {
        result := ProcessIncomingSegment(parsed.header.srcIp, parsed.header.dstIp, parsed.payload);
      } else {
        result := Refused;
      }
    }
  }
}
