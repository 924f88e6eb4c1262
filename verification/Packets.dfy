/** TCP segments inside IP packets: what a receiver makes of what send_segment transmits,
    through parse_packet and process_incoming_segment together. */
module Packets {
  import opened Widths
  import opened Checksum
  import opened ChecksumLaws
  import opened TcpWire
  import IpWire
  import TcpWireLaws
  import IpWireLaws

  /** The packet for one segment. */
  function Transmit(order: ByteOrder, id: uint16, conn: Endpoint, data: seq<byte>, flags: byte): seq<byte> {
    IpWire.PacketBytes(order, id, conn.localIp, conn.remoteIp, IPPROTO_TCP, SegmentBytes(order, conn, data, flags))
  }

  /** accept_connection: parse, keep TCP only, check the segment. */
  function Receive(order: ByteOrder, packet: seq<byte>): Incoming {
    match IpWire.Parse(order, packet)
    case Malformed => Refused
    case Packet(h, payload) =>
      if h.protocol == IPPROTO_TCP then CheckSegment(order, h.srcIp, h.dstIp, payload) else Refused
  }

  /** Through both layers, and whatever bytes follow the packet, the receiver gets exactly the
      sender's ports, numbers, flags, window and data, if and only if segment and IP header
      fit the 16-bit total length. */
  lemma TransmitRoundTrip(order: ByteOrder, id: uint16, conn: Endpoint, data: seq<byte>, flags: byte,
                          trailing: seq<byte>)
    ensures var h := BlankHeader(conn, flags);
            Receive(order, Transmit(order, id, conn, data, flags) + trailing) == Accepted(Dispatch(h), h, data)
            <==> HEADER_SIZE + |data| <= 65515
  {
    hide IpWire.Parse, IpWire.PacketBytes, IpWire.BuildHeader, SegmentBytes, BlankHeader, Dispatch;
    var segment := SegmentBytes(order, conn, data, flags);
    IpWireLaws.BuiltPacketArrives(order, id, conn.localIp, conn.remoteIp, IPPROTO_TCP, segment, trailing);
    if |segment| <= 65515 {
      IpWireLaws.BuiltHeaderValid(order, id, conn.localIp, conn.remoteIp, IPPROTO_TCP, |segment| % TWO16);
      TcpWireLaws.SegmentRoundTrip(order, conn, data, flags);
    }
  }

  /** Whatever packet is accepted, changing any one byte that a checksum covers - the 20
      fixed header bytes or the payload - makes one of the two layers refuse it. */
  lemma CoveredByteErrorRefused(order: ByteOrder, packet: seq<byte>, i: nat, v: byte)
    requires Receive(order, packet) != Refused
    requires var r := IpWire.Parse(order, packet);
             i < IpWire.IP_HEADER_SIZE || r.header.HeaderLength() <= i < r.header.HeaderLength() + |r.payload|
    requires v != packet[i]
    ensures Receive(order, packet[i := v]) == Refused
  {
    hide IpWire.Parse, CheckSegment;
    if i < IpWire.IP_HEADER_SIZE {
      IpWireLaws.OneByteErrorRefused(order, packet, i, v);
    } else {
      var r := IpWire.Parse(order, packet);
      IpWireLaws.PayloadByteChange(order, packet, i, v);
      TcpWireLaws.OneByteErrorRefused(order, r.header.srcIp, r.header.dstIp, r.payload,
                                      i - r.header.HeaderLength(), v);
    }
  }

  /** So every one-byte error in a packet that send_segment transmits is caught, in either
      header, either checksum or the data. */
  lemma TransmittedByteErrorRefused(order: ByteOrder, id: uint16, conn: Endpoint, data: seq<byte>, flags: byte,
                                    trailing: seq<byte>, i: nat, v: byte)
    requires HEADER_SIZE + |data| <= 65515 && i < IpWire.IP_HEADER_SIZE + HEADER_SIZE + |data|
    requires v != (Transmit(order, id, conn, data, flags) + trailing)[i]
    ensures Receive(order, (Transmit(order, id, conn, data, flags) + trailing)[i := v]) == Refused
  {
    hide IpWire.Parse, IpWire.PacketBytes, IpWire.BuildHeader, SegmentBytes, BlankHeader, Dispatch, CheckSegment;
    var packet := Transmit(order, id, conn, data, flags) + trailing;
    var segment := SegmentBytes(order, conn, data, flags);
    TransmitRoundTrip(order, id, conn, data, flags, trailing);
    IpWireLaws.BuiltPacketArrives(order, id, conn.localIp, conn.remoteIp, IPPROTO_TCP, segment, trailing);
    IpWireLaws.BuiltHeaderValid(order, id, conn.localIp, conn.remoteIp, IPPROTO_TCP, |segment| % TWO16);
    CoveredByteErrorRefused(order, packet, i, v);
  }

  /** A changed aligned word that a checksum covers - of the 20 fixed header bytes or of the
      payload - is missed by both layers exactly when 0x0000 became 0xFFFF or the reverse,
      outside total length and the two checksums. Both checksums cover the addresses, but
      neither tells the two zeros apart. */
  lemma CoveredWordErrorRefusedIff(order: ByteOrder, packet: seq<byte>, i: nat, u: byte, v: byte)
    requires Receive(order, packet) != Refused && i % 2 == 0
    requires var r := IpWire.Parse(order, packet);
             || i < IpWire.IP_HEADER_SIZE
             || (r.header.HeaderLength() <= i && i + 1 < r.header.HeaderLength() + |r.payload|)
    requires [u, v] != [packet[i], packet[i + 1]]
    ensures Receive(order, ReplaceWord(packet, i, u, v)) == Refused <==>
            || i == 2 || i == 10 || i == IpWire.Parse(order, packet).header.HeaderLength() + 16
            || !ZeroExchange(packet[i], packet[i + 1], u, v)
  {
    hide IpWire.Parse, CheckSegment, ZeroExchange;
    var r := IpWire.Parse(order, packet);
    if i >= IpWire.IP_HEADER_SIZE {
      IpWireLaws.PayloadWordChange(order, packet, i, u, v);
      TcpWireLaws.WordErrorRefusedIff(order, r.header.srcIp, r.header.dstIp, r.payload,
                                      i - r.header.HeaderLength(), u, v);
    } else {
      IpWireLaws.WordErrorRefusedIff(order, packet, i, u, v);
      if IpWire.Parse(order, ReplaceWord(packet, i, u, v)) != IpWire.Malformed {
        HeaderExchange(order, packet, i, u, v);
      }
    }
  }

  lemma HeaderExchange(order: ByteOrder, packet: seq<byte>, i: nat, u: byte, v: byte)
    requires Receive(order, packet) != Refused
    requires i % 2 == 0 && i < IpWire.IP_HEADER_SIZE && [u, v] != [packet[i], packet[i + 1]]
    requires ZeroExchange(packet[i], packet[i + 1], u, v)
    requires IpWire.Parse(order, ReplaceWord(packet, i, u, v)) != IpWire.Malformed
    ensures Receive(order, ReplaceWord(packet, i, u, v)) != Refused
  {
    hide IpWire.Parse, CheckSegment, IpWireLaws.Addresses, Load32, Bytes32;
    var changed := ReplaceWord(packet, i, u, v);
    var was, now := IpWire.Parse(order, packet), IpWire.Parse(order, changed);
    IpWireLaws.MissedWord(order, packet, i, u, v);
    IpWireLaws.ParsedAddresses(order, packet);
    IpWireLaws.ParsedAddresses(order, changed);
    assert i != 8;
    if i >= 12 {
      hide ZeroExchange, ReplaceWord;
      ExchangedPseudo(order, packet, was.header, now.header, |was.payload| - HEADER_SIZE, i, u, v);
      TcpWireLaws.AddressExchangeMissed(order, was.header.srcIp, was.header.dstIp, now.header.srcIp,
                                        now.header.dstIp, was.payload, i - 12, u, v);
    }
  }

  /** A changed address word shows at its place in the pseudo header. */
  lemma ExchangedPseudo(order: ByteOrder, packet: seq<byte>, was: IpWire.IPHeader, now: IpWire.IPHeader, n: nat,
                        i: nat, u: byte, v: byte)
    requires |packet| >= IpWire.IP_HEADER_SIZE && 12 <= i < 19
    requires IpWireLaws.Addresses(order, was) == packet[12..20]
    requires IpWireLaws.Addresses(order, now) == ReplaceWord(packet, i, u, v)[12..20]
    ensures var pseudo := PseudoHeader(order, was.srcIp, was.dstIp, n);
            && pseudo[i - 12] == packet[i] && pseudo[i - 11] == packet[i + 1]
            && PseudoHeader(order, now.srcIp, now.dstIp, n) == ReplaceWord(pseudo, i - 12, u, v)
  {
    PseudoAddresses(order, was, n);
    PseudoAddresses(order, now, n);
    hide PseudoHeader, IpWireLaws.Addresses;
    assert ReplaceWord(packet, i, u, v)[12..20] == ReplaceWord(packet[12..20], i - 12, u, v);
  }

  lemma PseudoAddresses(order: ByteOrder, h: IpWire.IPHeader, n: nat)
    ensures PseudoHeader(order, h.srcIp, h.dstIp, n)[..8] == IpWireLaws.Addresses(order, h)
    ensures PseudoHeader(order, h.srcIp, h.dstIp, n)
            == IpWireLaws.Addresses(order, h) + PseudoHeader(order, 0, 0, n)[8..]
  {
  }

  /** The flags of send_fin. */
  const FIN_ACK: byte := FIN + ACK

  /** Through both layers the receiver reads back what the sending connection holds. */
  lemma ReceiverSeesSender(order: ByteOrder, id: uint16, conn: Endpoint, data: seq<byte>, flags: byte,
                           trailing: seq<byte>)
    requires HEADER_SIZE + |data| <= 65515
    ensures var r := Receive(order, Transmit(order, id, conn, data, flags) + trailing);
            && r.Accepted? && r.data == data && r.header.flags == flags && r.header.DataOffset() == 5
            && r.header.srcPort == conn.localPort && r.header.dstPort == conn.remotePort
            && r.header.seqNum == conn.localSeq && r.header.ackNum == conn.localAck
            && r.header.windowSize == conn.windowSize
  {
    hide Receive, Transmit, Dispatch;
    TransmitRoundTrip(order, id, conn, data, flags, trailing);
  }

  /** Where the flag byte of the segment lies in a packet. */
  function FlagByte(packet: seq<byte>): int
    requires |packet| > 0
  {
    packet[0] % 0x10 * 4 + 13
  }

  /** Only TCP is received, and the handler is decided by the flag byte: with SYN, by ACK;
      else ACK goes before FIN and FIN before RST. RFC 793 puts ACK on every segment after
      the handshake, so the FIN of a conforming peer is handled as an acknowledgment. */
  lemma HandledIff(order: ByteOrder, packet: seq<byte>)
    requires Receive(order, packet) != Refused
    ensures |packet| >= 40 && packet[9] == 6 && 33 <= FlagByte(packet) < |packet|
    ensures TcpWireLaws.LeadsTo(packet[FlagByte(packet)], Receive(order, packet).handler)
  {
    hide IpWire.Parse, CheckSegment, Receive, TcpWireLaws.LeadsTo;
    var r := IpWire.Parse(order, packet);
    ReceivedIsTcp(order, packet);
    IpWireLaws.PayloadPlace(order, packet, 13);
    TcpWireLaws.HandlerIff(order, r.header.srcIp, r.header.dstIp, r.payload);
  }

  lemma ReceivedIsTcp(order: ByteOrder, packet: seq<byte>)
    requires Receive(order, packet) != Refused
    ensures var r := IpWire.Parse(order, packet);
            && r.Packet? && |packet| >= 20 && packet[9] == 6 && |r.payload| >= 20
            && Receive(order, packet) == CheckSegment(order, r.header.srcIp, r.header.dstIp, r.payload)
  {
    hide IpWire.Parse, CheckSegment;
    IpWireLaws.ParsedAddresses(order, packet);
  }

  /** What the segments of the program are for: a SYN (0x02), a SYN-ACK (0x12), an ACK (0x10),
      data (0x18) and a reset (0x04) reach their own handlers through both layers, but the
      FIN of send_fin (0x11) the ACK handler. */
  lemma TransmittedHandled(order: ByteOrder, id: uint16, conn: Endpoint, data: seq<byte>, trailing: seq<byte>)
    requires HEADER_SIZE + |data| <= 65515
    ensures Reaches(order, id, conn, data, 0x02, trailing, HandleSyn)
    ensures Reaches(order, id, conn, data, 0x12, trailing, HandleSynAck)
    ensures Reaches(order, id, conn, data, 0x10, trailing, HandleAck)
    ensures Reaches(order, id, conn, data, 0x18, trailing, HandleAck)
    ensures Reaches(order, id, conn, data, 0x11, trailing, HandleAck)
    ensures Reaches(order, id, conn, data, 0x04, trailing, HandleRst)
  {
    hide Reaches, Dispatch, BlankHeader;
    FlagsDispatched(conn);
    HandlerOf(order, id, conn, data, 0x02, trailing);
    HandlerOf(order, id, conn, data, 0x12, trailing);
    HandlerOf(order, id, conn, data, 0x10, trailing);
    HandlerOf(order, id, conn, data, 0x18, trailing);
    HandlerOf(order, id, conn, data, 0x11, trailing);
    HandlerOf(order, id, conn, data, 0x04, trailing);
  }

  lemma FlagsDispatched(conn: Endpoint)
    ensures Dispatch(BlankHeader(conn, 0x02)) == HandleSyn && Dispatch(BlankHeader(conn, 0x12)) == HandleSynAck
    ensures Dispatch(BlankHeader(conn, 0x10)) == HandleAck && Dispatch(BlankHeader(conn, 0x18)) == HandleAck
    ensures Dispatch(BlankHeader(conn, 0x11)) == HandleAck && Dispatch(BlankHeader(conn, 0x04)) == HandleRst
  {
  }

  predicate Reaches(order: ByteOrder, id: uint16, conn: Endpoint, data: seq<byte>, flags: byte, trailing: seq<byte>,
                    handler: Handler)
  {
    var r := Receive(order, Transmit(order, id, conn, data, flags) + trailing);
    r.Accepted? && r.handler == handler
  }

  lemma HandlerOf(order: ByteOrder, id: uint16, conn: Endpoint, data: seq<byte>, flags: byte, trailing: seq<byte>)
    requires HEADER_SIZE + |data| <= 65515
    ensures Reaches(order, id, conn, data, flags, trailing, Dispatch(BlankHeader(conn, flags)))
  {
    hide Receive, Transmit, Dispatch, BlankHeader;
    TransmitRoundTrip(order, id, conn, data, flags, trailing);
  }

  /** A transmitted packet: TCP from the connection's address to its peer's, the flags in byte
      33 and the data from byte 40 on. */
  lemma TransmitLayout(order: ByteOrder, id: uint16, conn: Endpoint, data: seq<byte>, flags: byte)
    ensures var packet := Transmit(order, id, conn, data, flags);
            && |packet| == 40 + |data| && packet[9] == 6 && packet[33] == flags && packet[40..] == data
            && packet[4..6] == Bytes16(Big, id)
            && packet[12..16] == Bytes32(order, conn.localIp) && packet[16..20] == Bytes32(order, conn.remoteIp)
            && packet[20..22] == Bytes16(Big, conn.localPort) && packet[22..24] == Bytes16(Big, conn.remotePort)
            && packet[24..28] == Bytes32(Big, conn.localSeq) && packet[28..32] == Bytes32(Big, conn.localAck)
  {
    hide IpWire.PacketBytes, SegmentBytes, TcpChecksum, Bytes16, Bytes32;
    var segment := SegmentBytes(order, conn, data, flags);
    var packet := Transmit(order, id, conn, data, flags);
    IpWireLaws.PacketLayout(order, id, conn.localIp, conn.remoteIp, IPPROTO_TCP, segment);
    TcpWireLaws.SegmentLayout(order, conn, data, flags);
    assert packet[33] == packet[20..][13];
    assert packet[40..] == packet[20..][20..];
    assert packet[20..22] == packet[20..][0..2] && packet[22..24] == packet[20..][2..4];
    assert packet[24..28] == packet[20..][4..8] && packet[28..32] == packet[20..][8..12];
  }

  // ----- between hosts of different order -----

  /** What a packet that fits needs to pass to a host of the other order: an IP header that
      sums to 0 mod 257 and a neutral segment. */
  predicate CrossesOrders(sender: ByteOrder, id: uint16, conn: Endpoint, data: seq<byte>, flags: byte)
    requires HEADER_SIZE + |data| <= 65515
  {
    var header := IpWire.BlankHeader(sender, id, conn.localIp, conn.remoteIp, IPPROTO_TCP, HEADER_SIZE + |data|);
    && WordSum(Big, header.Image(sender)) % 257 == 0
    && TcpWireLaws.OrderNeutral(PseudoHeader(sender, conn.localIp, conn.remoteIp, |data|),
                                BlankHeader(conn, flags), data)
  }

  /** Through both layers and between hosts of any order: a packet that fits is received
      exactly when the orders agree or the two accidents coincide, and then as it was sent. */
  lemma AnyOrderRoundTripIff(sender: ByteOrder, receiver: ByteOrder, id: uint16, conn: Endpoint, data: seq<byte>,
                             flags: byte, trailing: seq<byte>)
    requires HEADER_SIZE + |data| <= 65515
    ensures var h := BlankHeader(conn, flags);
            Receive(receiver, Transmit(sender, id, conn, data, flags) + trailing) ==
            if sender == receiver || CrossesOrders(sender, id, conn, data, flags)
            then Accepted(Dispatch(h), h, data) else Refused
  {
    hide IpWire.Parse, IpWire.PacketBytes, IpWire.BlankHeader, SegmentBytes, BlankHeader, Dispatch, CheckSegment,
         TcpWireLaws.OrderNeutral, PseudoHeader, WordSum, Bytes32;
    var segment := SegmentBytes(sender, conn, data, flags);
    IpWireLaws.OtherHostParsesIff(sender, receiver, id, conn.localIp, conn.remoteIp, IPPROTO_TCP, segment, trailing);
    var r := IpWire.Parse(receiver, Transmit(sender, id, conn, data, flags) + trailing);
    if r.Packet? {
      TcpWireLaws.OtherHostAcceptsIff(sender, receiver, conn, r.header.srcIp, r.header.dstIp, data, flags);
    }
  }
}
