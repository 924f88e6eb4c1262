/** include/tcp_header.h and the segment build and check of
    src/tcp_connection_manager.cpp, on values. */
module TcpWire {
  import opened Widths
  import opened Checksum

  const HEADER_SIZE := 20
  const IPPROTO_TCP: byte := 6

  const FIN: byte := 0x01
  const SYN: byte := 0x02
  const RST: byte := 0x04
  const PSH: byte := 0x08
  const ACK: byte := 0x10

  datatype TCPHeader = TCPHeader(
    srcPort: uint16, dstPort: uint16, seqNum: uint32, ackNum: uint32,
    dataOffsetReserved: byte, flags: byte, windowSize: uint16, checksum: uint16, urgentPointer: uint16)
  {
    function SetDataOffset(offset: byte): TCPHeader {
      var low: int, high: int := dataOffsetReserved % 0x10, offset % 0x10 * 0x10;
      this.(dataOffsetReserved := low + high)
    }

    function DataOffset(): byte {
      dataOffsetReserved / 0x10
    }

    /** flag is one of the single-bit constants above. */
    predicate HasFlag(flag: byte)
      requires flag != 0
    {
      flags / flag % 2 == 1
    }

    /** to_network_order and to_host_order: the same exchange of bytes in either direction. */
    function ExchangeOrder(order: ByteOrder): TCPHeader {
      TCPHeader(Htons(order, srcPort), Htons(order, dstPort), Htonl(order, seqNum), Htonl(order, ackNum),
                dataOffsetReserved, flags, Htons(order, windowSize), Htons(order, checksum),
                Htons(order, urgentPointer))
    }

    /** The 20 bytes the packed struct occupies in memory. */
    function Image(order: ByteOrder): (image: seq<byte>)
      ensures |image| == HEADER_SIZE
    {
      Bytes16(order, srcPort) + (Bytes16(order, dstPort) + (Bytes32(order, seqNum) + (Bytes32(order, ackNum) + (
      [dataOffsetReserved, flags] + (Bytes16(order, windowSize) + (Bytes16(order, checksum) +
      Bytes16(order, urgentPointer)))))))
    }
  }

  /** memcpy of 20 bytes into the struct. */
  function FromImage(order: ByteOrder, b: seq<byte>): TCPHeader
    requires |b| >= HEADER_SIZE
  {
    TCPHeader(Load16(order, b[0], b[1]), Load16(order, b[2], b[3]),
              Load32(order, b[4], b[5], b[6], b[7]), Load32(order, b[8], b[9], b[10], b[11]),
              b[12], b[13], Load16(order, b[14], b[15]), Load16(order, b[16], b[17]), Load16(order, b[18], b[19]))
  }

  /** The part of a TCPConnection that its segments carry. */
  datatype Endpoint = Endpoint(
    localIp: uint32, localPort: uint16, remoteIp: uint32, remotePort: uint16,
    localSeq: uint32, localAck: uint32, windowSize: uint16)

  /** Addresses are kept in network order already; the length is cut to 16 bits. */
  function PseudoHeader(order: ByteOrder, srcIp: uint32, dstIp: uint32, dataLength: nat): (image: seq<byte>)
    ensures |image| == 12
  {
    Bytes32(order, srcIp) + (Bytes32(order, dstIp) + ([0, IPPROTO_TCP] +
    Bytes16(order, Htons(order, (HEADER_SIZE + dataLength) % TWO16))))
  }

  function ChecksummedParts(order: ByteOrder, srcIp: uint32, dstIp: uint32, h: TCPHeader, data: seq<byte>)
    : seq<seq<byte>>
  {
    [PseudoHeader(order, srcIp, dstIp, |data|), h.Image(order)] + (if data == [] then [] else [data])
  }

  function TcpChecksum(order: ByteOrder, srcIp: uint32, dstIp: uint32, h: TCPHeader, data: seq<byte>): uint16 {
    Sum16(order, ChecksummedParts(order, srcIp, dstIp, h, data))
  }

  /** The header create_tcp_header is meant to build, before its checksum: five words long. */
  function BlankHeader(conn: Endpoint, flags: byte): TCPHeader {
    TCPHeader(conn.localPort, conn.remotePort, conn.localSeq, conn.localAck, 0x50, flags, conn.windowSize, 0, 0)
  }

  function BuildHeader(order: ByteOrder, conn: Endpoint, data: seq<byte>, flags: byte): TCPHeader {
    var h := BlankHeader(conn, flags);
    h.(checksum := TcpChecksum(order, conn.localIp, conn.remoteIp, h, data))
  }

  /** The bytes that send_segment hands to the IP layer. */
  function SegmentBytes(order: ByteOrder, conn: Endpoint, data: seq<byte>, flags: byte): (b: seq<byte>)
    ensures |b| == HEADER_SIZE + |data|
  {
    BuildHeader(order, conn, data, flags).ExchangeOrder(order).Image(order) + data
  }

  /** The branch process_incoming_segment takes; data, if any, is handled after it. */
  datatype Handler = HandleSynAck | HandleSyn | HandleAck | HandleFin | HandleRst | NoHandler

  function Dispatch(h: TCPHeader): Handler {
    if h.HasFlag(SYN) then (if h.HasFlag(ACK) then HandleSynAck else HandleSyn)
    else if h.HasFlag(ACK) then HandleAck
    else if h.HasFlag(FIN) then HandleFin
    else if h.HasFlag(RST) then HandleRst
    else NoHandler
  }

  /** Refused models `return false`; the header is in host order with its checksum
      field cleared, as the handlers see it. */
  datatype Incoming = Refused | Accepted(handler: Handler, header: TCPHeader, data: seq<byte>)

  function CheckSegment(order: ByteOrder, srcIp: uint32, dstIp: uint32, b: seq<byte>): (r: Incoming)
    ensures r.Accepted? ==> |b| >= HEADER_SIZE && r.handler == Dispatch(r.header)
  {
    if |b| < HEADER_SIZE then Refused else
    var h := FromImage(order, b).ExchangeOrder(order);
    var cleared := h.(checksum := 0);
    var data := b[HEADER_SIZE..];
    if h.checksum != TcpChecksum(order, srcIp, dstIp, cleared, data) then Refused
    else Accepted(Dispatch(cleared), cleared, data)
  }
}

/** What the segment format guarantees between two hosts. */
module TcpWireLaws {
  import opened Widths
  import opened Checksum
  import opened ChecksumLaws
  import opened TcpWire

  /** On the wire every field is most significant byte first. */
  lemma WireImage(order: ByteOrder, h: TCPHeader)
    ensures h.ExchangeOrder(order).Image(order) == h.Image(Big)
  {
    NetworkBytes(order, h.srcPort, h.seqNum);
    NetworkBytes(order, h.dstPort, h.ackNum);
    NetworkBytes(order, h.windowSize, 0);
    NetworkBytes(order, h.checksum, 0);
    NetworkBytes(order, h.urgentPointer, 0);
  }

  lemma WireLoad(order: ByteOrder, b: seq<byte>)
    requires |b| >= HEADER_SIZE
    ensures FromImage(order, b).ExchangeOrder(order) == FromImage(Big, b)
  {
    NetworkLoad(order, b[0], b[1], b[4], b[5]);
    NetworkLoad(order, b[2], b[3], 0, 0);
    NetworkLoad(order, b[4], b[5], b[6], b[7]);
    NetworkLoad(order, b[8], b[9], b[10], b[11]);
    NetworkLoad(order, b[14], b[15], 0, 0);
    NetworkLoad(order, b[16], b[17], 0, 0);
    NetworkLoad(order, b[18], b[19], 0, 0);
  }

  lemma ImageLoads(h: TCPHeader, tail: seq<byte>)
    ensures FromImage(Big, h.Image(Big) + tail) == h
  {
  }

  // ----- handlers -----

  /** Which handler a flag byte leads to, by its bits: 0x01 FIN, 0x02 SYN, 0x04 RST and 0x10
      ACK. SYN and ACK come before FIN, and FIN before RST. */
  predicate LeadsTo(flags: byte, handler: Handler) {
    var fin, syn, rst, ack := flags % 2 == 1, flags / 2 % 2 == 1, flags / 4 % 2 == 1, flags / 16 % 2 == 1;
    && (handler == HandleSyn <==> syn && !ack)
    && (handler == HandleSynAck <==> syn && ack)
    && (handler == HandleAck <==> !syn && ack)
    && (handler == HandleFin <==> !syn && !ack && fin)
    && (handler == HandleRst <==> !syn && !ack && !fin && rst)
    && (handler == NoHandler <==> !syn && !ack && !fin && !rst)
  }

  /** An accepted segment reaches the handler its byte 13 leads to. */
  lemma HandlerIff(order: ByteOrder, srcIp: uint32, dstIp: uint32, b: seq<byte>)
    requires CheckSegment(order, srcIp, dstIp, b) != Refused
    ensures LeadsTo(b[13], CheckSegment(order, srcIp, dstIp, b).handler)
  {
    WireLoad(order, b);
    hide TcpChecksum;
  }

  // ----- what is summed -----

  function Split(x: uint32): nat {
    x / 0x1_0000 + x % 0x1_0000
  }

  /** The word sum of a header image in terms of its fields: the host order matters
      only for the pair of single-byte fields. */
  function HeaderSum(order: ByteOrder, h: TCPHeader): nat {
    h.srcPort + h.dstPort + Split(h.seqNum) + Split(h.ackNum) + Load16(order, h.dataOffsetReserved, h.flags)
    + h.windowSize + h.checksum + h.urgentPointer
  }

  lemma FieldSums(order: ByteOrder, x: uint16, y: uint32)
    ensures WordSum(order, Bytes16(order, x)) == x
    ensures WordSum(order, Bytes32(order, y)) == Split(y)
    ensures |Bytes16(order, x)| == 2 && |Bytes32(order, y)| == 4
  {
    assert Bytes16(order, x)[2..] == [];
    var lo, hi := y % 0x1_0000, y / 0x1_0000;
    assert forall w: uint16 :: Bytes16(order, w)[2..] == [];
    assert WordSum(order, Bytes16(order, lo)) == lo && WordSum(order, Bytes16(order, hi)) == hi;
    WordSumAppend(order, Bytes16(order, hi), Bytes16(order, lo));
    WordSumAppend(order, Bytes16(order, lo), Bytes16(order, hi));
  }

  lemma ImageSum(order: ByteOrder, h: TCPHeader)
    ensures WordSum(order, h.Image(order)) == HeaderSum(order, h)
  {
    hide WordSum, Bytes16, Bytes32, Split;
    FieldSums(order, h.srcPort, h.seqNum);
    FieldSums(order, h.dstPort, h.ackNum);
    FieldSums(order, h.windowSize, 0);
    FieldSums(order, h.checksum, 0);
    FieldSums(order, h.urgentPointer, 0);
    var t1 := Bytes16(order, h.checksum) + Bytes16(order, h.urgentPointer);
    WordSumAppend(order, Bytes16(order, h.checksum), Bytes16(order, h.urgentPointer));
    var t2 := Bytes16(order, h.windowSize) + t1;
    WordSumAppend(order, Bytes16(order, h.windowSize), t1);
    var single := [h.dataOffsetReserved, h.flags];
    TwoBytes(order, h.dataOffsetReserved, h.flags);
    WordSumAppend(order, single, t2);
    var t3 := single + t2;
    WordSumAppend(order, Bytes32(order, h.ackNum), t3);
    var t4 := Bytes32(order, h.ackNum) + t3;
    WordSumAppend(order, Bytes32(order, h.seqNum), t4);
    var t5 := Bytes32(order, h.seqNum) + t4;
    WordSumAppend(order, Bytes16(order, h.dstPort), t5);
    WordSumAppend(order, Bytes16(order, h.srcPort), Bytes16(order, h.dstPort) + t5);
  }

  lemma PartsSum(order: ByteOrder, srcIp: uint32, dstIp: uint32, h: TCPHeader, data: seq<byte>)
    ensures TotalSum(order, ChecksummedParts(order, srcIp, dstIp, h, data)) ==
            WordSum(order, PseudoHeader(order, srcIp, dstIp, |data|)) + HeaderSum(order, h) + WordSum(order, data)
    ensures |data| <= MAX_SUMMED ==> TotalSum(order, ChecksummedParts(order, srcIp, dstIp, h, data)) < TWO32
  {
    var pseudo, image := PseudoHeader(order, srcIp, dstIp, |data|), h.Image(order);
    var last: seq<seq<byte>> := if data == [] then [] else [data];
    var parts := ChecksummedParts(order, srcIp, dstIp, h, data);
    assert parts[1..] == [image] + last && parts[1..][1..] == last;
    assert TotalSum(order, last) == WordSum(order, data) by {
      assert data != [] ==> last[1..] == [];
    }
    ImageSum(order, h);
    WordSumBound(order, pseudo);
    WordSumBound(order, image);
    WordSumBound(order, data);
  }

  /** Segments this short are summed without a 32-bit overflow; IP allows 65495. */
  const MAX_SUMMED := 131040

  // ----- round trip -----

  /** Whatever the connection, the data and the flags, the receiver accepts the segment
      and sees the sender's header and data. */
  lemma SegmentRoundTrip(order: ByteOrder, conn: Endpoint, data: seq<byte>, flags: byte)
    ensures var h := BlankHeader(conn, flags);
            CheckSegment(order, conn.localIp, conn.remoteIp, SegmentBytes(order, conn, data, flags))
            == Accepted(Dispatch(h), h, data)
  {
    SegmentReads(order, order, conn, data, flags);
    hide FromImage, TCPHeader.Image, TCPHeader.ExchangeOrder, TcpChecksum, Dispatch;
  }

  lemma ImageFront(h: TCPHeader, tail: seq<byte>)
    ensures var b := h.Image(Big) + tail;
            && b[0..2] == Bytes16(Big, h.srcPort) && b[2..4] == Bytes16(Big, h.dstPort)
            && b[4..8] == Bytes32(Big, h.seqNum) && b[8..12] == Bytes32(Big, h.ackNum)
  {
  }

  lemma ImageBack(h: TCPHeader, tail: seq<byte>)
    ensures var b := h.Image(Big) + tail;
            && b[12] == h.dataOffsetReserved && b[13] == h.flags && b[14..16] == Bytes16(Big, h.windowSize)
            && b[16..18] == Bytes16(Big, h.checksum) && b[18..20] == Bytes16(Big, h.urgentPointer)
            && b[20..] == tail
  {
  }

  /** The layout of RFC 793, section 3.1, on either host: every byte of a built segment. */
  lemma SegmentLayout(order: ByteOrder, conn: Endpoint, data: seq<byte>, flags: byte)
    ensures var b := SegmentBytes(order, conn, data, flags);
            && b[0..2] == Bytes16(Big, conn.localPort) && b[2..4] == Bytes16(Big, conn.remotePort)
            && b[4..8] == Bytes32(Big, conn.localSeq) && b[8..12] == Bytes32(Big, conn.localAck)
            && b[12] == 0x50 && b[13] == flags && b[14..16] == Bytes16(Big, conn.windowSize)
            && b[16..18] ==
               Bytes16(Big, TcpChecksum(order, conn.localIp, conn.remoteIp, BlankHeader(conn, flags), data))
            && b[18..20] == [0, 0] && b[20..] == data
  {
    hide TCPHeader.Image, TCPHeader.ExchangeOrder, Bytes32, TcpChecksum;
    var sent := BuildHeader(order, conn, data, flags);
    WireImage(order, sent);
    ImageFront(sent, data);
    ImageBack(sent, data);
  }

  /** The pseudo header of RFC 793, section 3.1: the length is that of every segment IP can
      carry, and cut to 16 bits beyond. */
  lemma PseudoHeaderLayout(order: ByteOrder, srcIp: uint32, dstIp: uint32, n: nat)
    ensures PseudoHeader(order, srcIp, dstIp, n)
            == Bytes32(order, srcIp) + (Bytes32(order, dstIp) + ([0, 6] + Bytes16(Big, (20 + n) % 0x1_0000)))
  {
    hide Bytes16, Bytes32, Htons, Htonl;
    NetworkBytes16(order, (20 + n) % 0x1_0000);
  }

  // ----- error detection -----

  /** The word sum of the header a receiver reconstructs, its checksum field cleared,
      straight from the wire bytes. */
  function WireSum(order: ByteOrder, b: seq<byte>): nat
    requires |b| >= HEADER_SIZE
  {
    Load16(Big, b[0], b[1]) + Load16(Big, b[2], b[3]) + Load16(Big, b[4], b[5]) + Load16(Big, b[6], b[7])
    + Load16(Big, b[8], b[9]) + Load16(Big, b[10], b[11]) + Load16(order, b[12], b[13])
    + Load16(Big, b[14], b[15]) + Load16(Big, b[18], b[19])
  }

  function ReceiverSum(order: ByteOrder, srcIp: uint32, dstIp: uint32, b: seq<byte>): nat
    requires |b| >= HEADER_SIZE
  {
    WordSum(order, PseudoHeader(order, srcIp, dstIp, |b| - HEADER_SIZE)) + WireSum(order, b)
    + WordSum(order, b[HEADER_SIZE..])
  }

  lemma AcceptedIff(order: ByteOrder, srcIp: uint32, dstIp: uint32, b: seq<byte>)
    requires HEADER_SIZE <= |b| <= HEADER_SIZE + MAX_SUMMED
    ensures CheckSegment(order, srcIp, dstIp, b) != Refused <==>
            Load16(Big, b[16], b[17]) == 0xFFFF - Canon(ReceiverSum(order, srcIp, dstIp, b))
    ensures var r := CheckSegment(order, srcIp, dstIp, b);
            r != Refused ==> r.header == FromImage(Big, b).(checksum := 0) && r.data == b[20..]
  {
    WireLoad(order, b);
    ReceiverChecksum(order, srcIp, dstIp, b);
  }

  lemma ReceiverChecksum(order: ByteOrder, srcIp: uint32, dstIp: uint32, b: seq<byte>)
    requires HEADER_SIZE <= |b| <= HEADER_SIZE + MAX_SUMMED
    ensures TcpChecksum(order, srcIp, dstIp, FromImage(Big, b).(checksum := 0), b[HEADER_SIZE..])
            == 0xFFFF - Canon(ReceiverSum(order, srcIp, dstIp, b))
  {
    hide FromImage, WireSum, HeaderSum, ChecksummedParts, PseudoHeader, TotalSum, WordSum, Sum16, Canon;
    var cleared, data := FromImage(Big, b).(checksum := 0), b[HEADER_SIZE..];
    ClearedSum(order, b);
    PartsSum(order, srcIp, dstIp, cleared, data);
    NoOverflow(order, ChecksummedParts(order, srcIp, dstIp, cleared, data));
  }

  lemma ClearedSum(order: ByteOrder, b: seq<byte>)
    requires |b| >= HEADER_SIZE
    ensures HeaderSum(order, FromImage(Big, b).(checksum := 0)) == WireSum(order, b)
  {
    Halves(Load16(Big, b[4], b[5]), Load16(Big, b[6], b[7]));
    Halves(Load16(Big, b[8], b[9]), Load16(Big, b[10], b[11]));
  }

  lemma LoadWeight(order: ByteOrder, a: byte, b: byte, v: byte) returns (first: int, second: int)
    ensures first == (if order.Big? then 0x100 else 1) && second == (if order.Big? then 1 else 0x100)
    ensures Load16(order, v, b) == Load16(order, a, b) + first * (v - a)
    ensures Load16(order, a, v) == Load16(order, a, b) + second * (v - b)
  {
    first, second := if order.Big? then 0x100 else 1, if order.Big? then 1 else 0x100;
  }

  lemma ReceiverSumWeight(order: ByteOrder, srcIp: uint32, dstIp: uint32, b: seq<byte>, i: nat, v: byte)
    returns (weight: int)
    requires |b| >= HEADER_SIZE && i < |b| && i != 16 && i != 17
    ensures weight == 1 || weight == 0x100
    ensures ReceiverSum(order, srcIp, dstIp, b[i := v])
            == ReceiverSum(order, srcIp, dstIp, b) + weight * (v - b[i])
  {
    hide ReceiverSum, Load16;
    if i < HEADER_SIZE {
      var k, o := i - i % 2, LoadOrder(order, i - i % 2);
      var first, second := LoadWeight(o, b[k], b[k + 1], v);
      if i == k {
        assert b[i := v] == ReplaceWord(b, k, v, b[k + 1]);
        ReceiverSumWord(order, srcIp, dstIp, b, k, v, b[k + 1]);
        weight := first;
      } else {
        assert b[i := v] == ReplaceWord(b, k, b[k], v);
        ReceiverSumWord(order, srcIp, dstIp, b, k, b[k], v);
        weight := second;
      }
    } else {
      weight := DataWeight(order, srcIp, dstIp, b, i, v);
    }
  }

  lemma DataWeight(order: ByteOrder, srcIp: uint32, dstIp: uint32, b: seq<byte>, i: nat, v: byte)
    returns (weight: int)
    requires HEADER_SIZE <= i < |b|
    ensures weight == 1 || weight == 0x100
    ensures ReceiverSum(order, srcIp, dstIp, b[i := v])
            == ReceiverSum(order, srcIp, dstIp, b) + weight * (v - b[i])
  {
    hide PseudoHeader, WordSum, Load16;
    weight := ByteWeight(order, b[HEADER_SIZE..], i - HEADER_SIZE, v);
    assert b[i := v][HEADER_SIZE..] == b[HEADER_SIZE..][i - HEADER_SIZE := v];
  }

  lemma ChecksumNotSummed(order: ByteOrder, srcIp: uint32, dstIp: uint32, b: seq<byte>, i: nat, v: byte)
    requires |b| >= HEADER_SIZE && 16 <= i <= 17
    ensures ReceiverSum(order, srcIp, dstIp, b[i := v]) == ReceiverSum(order, srcIp, dstIp, b)
  {
    assert b[i := v][HEADER_SIZE..] == b[HEADER_SIZE..];
  }

  lemma ReceiverByteShows(order: ByteOrder, srcIp: uint32, dstIp: uint32, b: seq<byte>, i: nat, v: byte)
    requires |b| >= HEADER_SIZE && i < |b| && v != b[i]
    ensures var c := b[i := v];
            var was, now := ReceiverSum(order, srcIp, dstIp, b), ReceiverSum(order, srcIp, dstIp, c);
            if i == 16 || i == 17 then was == now && Load16(Big, c[16], c[17]) != Load16(Big, b[16], b[17])
            else c[16] == b[16] && c[17] == b[17] && Canon(now) != Canon(was)
  {
    hide ReceiverSum, Canon;
    if i == 16 || i == 17 {
      ChecksumNotSummed(order, srcIp, dstIp, b, i, v);
    } else {
      var weight := ReceiverSumWeight(order, srcIp, dstIp, b, i, v);
      ByteChangeShows(ReceiverSum(order, srcIp, dstIp, b), ReceiverSum(order, srcIp, dstIp, b[i := v]), weight,
                      b[i], v);
    }
  }

  /** No two acceptable segments differ in exactly one byte: whatever byte of an accepted
      segment changes, in header, checksum or data, the result is refused. */
  lemma OneByteErrorRefused(order: ByteOrder, srcIp: uint32, dstIp: uint32, b: seq<byte>, i: nat, v: byte)
    requires |b| <= HEADER_SIZE + MAX_SUMMED && i < |b| && v != b[i]
    requires CheckSegment(order, srcIp, dstIp, b) != Refused
    ensures CheckSegment(order, srcIp, dstIp, b[i := v]) == Refused
  {
    hide CheckSegment, ReceiverSum, Canon, Load16;
    AcceptedIff(order, srcIp, dstIp, b);
    AcceptedIff(order, srcIp, dstIp, b[i := v]);
    ReceiverByteShows(order, srcIp, dstIp, b, i, v);
  }

  /** The order in which a receiver loads the word at i: fields are brought to host order, so
      only the two single-byte fields and the data depend on the host. */
  function LoadOrder(order: ByteOrder, i: nat): ByteOrder {
    if i < HEADER_SIZE && i != 12 then Big else order
  }

  lemma WireSumWord(order: ByteOrder, b: seq<byte>, i: nat, u: byte, v: byte)
    requires |b| >= HEADER_SIZE && i + 1 < |b| && i % 2 == 0 && i != 16
    ensures var o := LoadOrder(order, i);
            WireSum(order, ReplaceWord(b, i, u, v)) == WireSum(order, b) +
            if i < HEADER_SIZE then Load16(o, u, v) - Load16(o, b[i], b[i + 1]) else 0
  {
    hide Load16;
  }

  lemma ReceiverSumWord(order: ByteOrder, srcIp: uint32, dstIp: uint32, b: seq<byte>, i: nat, u: byte, v: byte)
    requires |b| >= HEADER_SIZE && i + 1 < |b| && i % 2 == 0 && i != 16
    ensures var o := LoadOrder(order, i);
            ReceiverSum(order, srcIp, dstIp, ReplaceWord(b, i, u, v))
            == ReceiverSum(order, srcIp, dstIp, b) + Load16(o, u, v) - Load16(o, b[i], b[i + 1])
  {
    hide PseudoHeader, WordSum, WireSum, Load16;
    var c := ReplaceWord(b, i, u, v);
    WireSumWord(order, b, i, u, v);
    if i < HEADER_SIZE {
      assert c[HEADER_SIZE..] == b[HEADER_SIZE..];
    } else {
      WordReplaced(order, b[HEADER_SIZE..], i - HEADER_SIZE, u, v);
      assert c[HEADER_SIZE..] == ReplaceWord(b[HEADER_SIZE..], i - HEADER_SIZE, u, v);
    }
  }

  lemma ReceiverSumPositive(order: ByteOrder, srcIp: uint32, dstIp: uint32, b: seq<byte>)
    requires |b| >= HEADER_SIZE
    ensures ReceiverSum(order, srcIp, dstIp, b) > 0
  {
    hide PseudoHeader, WordSum, WireSum;
    PseudoPositive(order, srcIp, dstIp, |b| - HEADER_SIZE);
  }

  lemma ReceiverWordShows(order: ByteOrder, srcIp: uint32, dstIp: uint32, b: seq<byte>, i: nat, u: byte, v: byte)
    requires |b| >= HEADER_SIZE && i + 1 < |b| && i % 2 == 0 && [u, v] != [b[i], b[i + 1]]
    ensures var c := ReplaceWord(b, i, u, v);
            var was, now := ReceiverSum(order, srcIp, dstIp, b), ReceiverSum(order, srcIp, dstIp, c);
            if i == 16 then was == now && Load16(Big, c[16], c[17]) != Load16(Big, b[16], b[17])
            else c[16] == b[16] && c[17] == b[17]
                 && (Canon(now) == Canon(was) <==> ZeroExchange(b[i], b[i + 1], u, v))
  {
    hide ReceiverSum, Canon, Load16, ZeroExchange;
    var c := ReplaceWord(b, i, u, v);
    if i == 16 {
      ChecksumNotSummed(order, srcIp, dstIp, b, 16, u);
      ChecksumNotSummed(order, srcIp, dstIp, b[16 := u], 17, v);
      LoadApart(Big, b[16], b[17], u, v);
    } else {
      ReceiverSumWord(order, srcIp, dstIp, b, i, u, v);
      ReceiverSumPositive(order, srcIp, dstIp, b);
      ReceiverSumPositive(order, srcIp, dstIp, c);
      WordChangeShows(LoadOrder(order, i), ReceiverSum(order, srcIp, dstIp, b), ReceiverSum(order, srcIp, dstIp, c),
                      b[i], b[i + 1], u, v);
    }
  }

  /** Changing one aligned word of an accepted segment is missed exactly when one zero of
      one's-complement arithmetic becomes the other, outside the checksum itself. */
  lemma WordErrorRefusedIff(order: ByteOrder, srcIp: uint32, dstIp: uint32, b: seq<byte>, i: nat, u: byte, v: byte)
    requires |b| <= HEADER_SIZE + MAX_SUMMED && i % 2 == 0 && i + 1 < |b| && [u, v] != [b[i], b[i + 1]]
    requires CheckSegment(order, srcIp, dstIp, b) != Refused
    ensures CheckSegment(order, srcIp, dstIp, ReplaceWord(b, i, u, v)) == Refused <==>
            i == 16 || !ZeroExchange(b[i], b[i + 1], u, v)
  {
    hide CheckSegment, ReceiverSum, Canon, Load16, ZeroExchange, ReplaceWord;
    AcceptedIff(order, srcIp, dstIp, b);
    AcceptedIff(order, srcIp, dstIp, ReplaceWord(b, i, u, v));
    ReceiverWordShows(order, srcIp, dstIp, b, i, u, v);
  }

  /** The same exchange in an address of the pseudo header is missed as well. */
  lemma AddressExchangeMissed(order: ByteOrder, srcIp: uint32, dstIp: uint32, src: uint32, dst: uint32, b: seq<byte>,
                              i: nat, u: byte, v: byte)
    requires HEADER_SIZE <= |b| <= HEADER_SIZE + MAX_SUMMED && i % 2 == 0 && i + 1 < 12
    requires var pseudo := PseudoHeader(order, srcIp, dstIp, |b| - HEADER_SIZE);
             && [u, v] != [pseudo[i], pseudo[i + 1]] && ZeroExchange(pseudo[i], pseudo[i + 1], u, v)
             && PseudoHeader(order, src, dst, |b| - HEADER_SIZE) == ReplaceWord(pseudo, i, u, v)
    ensures CheckSegment(order, src, dst, b) == Refused <==> CheckSegment(order, srcIp, dstIp, b) == Refused
  {
    hide PseudoHeader, CheckSegment, WordSum, Canon, Load16, ZeroExchange, WireSum;
    var pseudo := PseudoHeader(order, srcIp, dstIp, |b| - HEADER_SIZE);
    AcceptedIff(order, srcIp, dstIp, b);
    AcceptedIff(order, src, dst, b);
    WordReplaced(order, pseudo, i, u, v);
    ReceiverSumPositive(order, srcIp, dstIp, b);
    ReceiverSumPositive(order, src, dst, b);
    WordChangeShows(order, ReceiverSum(order, srcIp, dstIp, b), ReceiverSum(order, src, dst, b),
                    pseudo[i], pseudo[i + 1], u, v);
  }

  /** Inverting any one bit of a segment that send_segment built makes
      process_incoming_segment refuse it. */
  lemma SingleBitErrorRefused(order: ByteOrder, conn: Endpoint, data: seq<byte>, flags: byte, i: nat, k: nat)
    requires |data| <= MAX_SUMMED && i < HEADER_SIZE + |data| && k < 8
    ensures var b := SegmentBytes(order, conn, data, flags);
            CheckSegment(order, conn.localIp, conn.remoteIp, b[i := FlipBit(b[i], k)]) == Refused
  {
    SegmentRoundTrip(order, conn, data, flags);
    var b := SegmentBytes(order, conn, data, flags);
    OneByteErrorRefused(order, conn.localIp, conn.remoteIp, b, i, FlipBit(b[i], k));
  }

  // ----- conformance -----

  /** What RFC 793, section 3.1, asks for: the complement of the one's-complement sum, in
      network words, over the pseudo header, the header as it goes on the wire and the data. */
  function StandardChecksum(order: ByteOrder, srcIp: uint32, dstIp: uint32, h: TCPHeader, data: seq<byte>): uint16 {
    var wire := h.ExchangeOrder(order).Image(order);
    0xFFFF - Rfc1071Sum(Big, PseudoHeader(order, srcIp, dstIp, |data|) + wire + data)
  }

  function WholeWords(data: seq<byte>): (words: seq<byte>)
    ensures |words| % 2 == 0
  {
    data[..|data| - |data| % 2]
  }

  /** Pseudo header, whole data words and flags minus data offset cancel mod 257. */
  predicate OrderNeutral(pseudo: seq<byte>, h: TCPHeader, data: seq<byte>) {
    (WordSum(Big, pseudo) + WordSum(Big, WholeWords(data)) + h.flags - h.dataOffsetReserved) % 257 == 0
  }

  /** The checksum is the standard one exactly on a big-endian host, or by accident when the
      segment is neutral: a little-endian host sums the header in its own order, so only the
      rest of the segment is swapped. */
  lemma ChecksumIsRfc793Iff(order: ByteOrder, srcIp: uint32, dstIp: uint32, h: TCPHeader, data: seq<byte>)
    requires |data| <= MAX_SUMMED
    ensures TcpChecksum(order, srcIp, dstIp, h, data) == StandardChecksum(order, srcIp, dstIp, h, data) <==>
            order.Big? || OrderNeutral(PseudoHeader(order, srcIp, dstIp, |data|), h, data)
  {
    hide WordSum, PseudoHeader, HeaderSum, TcpChecksum, StandardChecksum, WholeWords, Canon;
    var pseudo := PseudoHeader(order, srcIp, dstIp, |data|);
    StandardSum(order, srcIp, dstIp, h, data);
    HostSum(order, srcIp, dstIp, h, data);
    var host := WordSum(order, pseudo) + HeaderSum(order, h) + WordSum(order, data);
    var standard := WordSum(Big, pseudo) + HeaderSum(Big, h) + WordSum(Big, data);
    PseudoPositive(order, srcIp, dstIp, |data|);
    CanonEqual(host, standard);
    if order.Little? {
      HostSums(pseudo);
      SplitTail(data);
      HostSums(WholeWords(data));
      HeaderSums(h);
      var fields := h.flags - h.dataOffsetReserved;
      MixedOrders(WordSum(Little, pseudo), WordSum(Big, pseudo), WordSum(Little, WholeWords(data)),
                  WordSum(Big, WholeWords(data)), fields, host - standard);
    }
  }

  lemma HostSum(order: ByteOrder, srcIp: uint32, dstIp: uint32, h: TCPHeader, data: seq<byte>)
    requires |data| <= MAX_SUMMED
    ensures TcpChecksum(order, srcIp, dstIp, h, data)
            == 0xFFFF - Canon(WordSum(order, PseudoHeader(order, srcIp, dstIp, |data|)) + HeaderSum(order, h)
                              + WordSum(order, data))
  {
    hide ChecksummedParts, PseudoHeader, HeaderSum, TotalSum, WordSum, Sum16, Canon;
    PartsSum(order, srcIp, dstIp, h, data);
    NoOverflow(order, ChecksummedParts(order, srcIp, dstIp, h, data));
  }

  lemma StandardSum(order: ByteOrder, srcIp: uint32, dstIp: uint32, h: TCPHeader, data: seq<byte>)
    requires |data| <= MAX_SUMMED
    ensures StandardChecksum(order, srcIp, dstIp, h, data)
            == 0xFFFF - Canon(WordSum(Big, PseudoHeader(order, srcIp, dstIp, |data|)) + HeaderSum(Big, h)
                              + WordSum(Big, data))
  {
    hide Rfc1071Sum, Sum16, TotalSum, WordSum, HeaderSum, PseudoHeader, Canon, TCPHeader.Image, TCPHeader.ExchangeOrder;
    var pseudo, image := PseudoHeader(order, srcIp, dstIp, |data|), h.Image(Big);
    WireImage(order, h);
    ImageSum(Big, h);
    WordSumAppend(Big, pseudo, image);
    WordSumAppend(Big, pseudo + image, data);
    WordSumBound(Big, pseudo + image + data);
    OneBuffer(Big, pseudo + image + data);
    ChecksumIsRfc1071Iff(Big, pseudo + image + data);
  }

  lemma HeaderSums(h: TCPHeader)
    ensures HeaderSum(Little, h) == HeaderSum(Big, h) + 0xFF * (h.flags - h.dataOffsetReserved)
  {
    hide Split;
  }

  /** The pseudo header holds the protocol number, so nothing sums to zero. */
  lemma PseudoPositive(order: ByteOrder, srcIp: uint32, dstIp: uint32, n: nat)
    ensures WordSum(order, PseudoHeader(order, srcIp, dstIp, n)) > 0
    ensures WordSum(Big, PseudoHeader(order, srcIp, dstIp, n)) > 0
  {
    hide WordSum;
    var pseudo := PseudoHeader(order, srcIp, dstIp, n);
    assert pseudo[9] == 6;
    ZeroSums(order, pseudo);
    ZeroSums(Big, pseudo);
  }

  lemma SplitTail(data: seq<byte>)
    ensures WordSum(Little, data) - WordSum(Little, WholeWords(data))
            == WordSum(Big, data) - WordSum(Big, WholeWords(data))
  {
    var front := WholeWords(data);
    var tail := data[|front|..];
    assert data == front + tail;
    WordSumAppend(Little, front, tail);
    WordSumAppend(Big, front, tail);
    assert |tail| < 2;
  }

  lemma MixedOrders(p: int, pBig: int, w: int, wBig: int, fields: int, difference: int)
    requires (p - 0x100 * pBig) % 0xFFFF == 0 && (w - 0x100 * wBig) % 0xFFFF == 0
    requires difference == p - pBig + w - wBig + 0xFF * fields
    ensures difference % 0xFFFF == 0 <==> (pBig + wBig + fields) % 257 == 0
  {
    var k, l := (p - 0x100 * pBig) / 0xFFFF, (w - 0x100 * wBig) / 0xFFFF;
    var x := pBig + wBig + fields;
    assert difference == 0xFF * x + (k + l) * 0xFFFF;
    MultipleVanishes(0xFF * x, k + l);
    Mod257(x);
  }

  /** A little-endian host gets the checksum of a bare acknowledgment from 127.0.0.1 to itself
      wrong; the segment is the one it builds, whatever its ports and numbers. */
  lemma LittleEndianMissesRfc793(conn: Endpoint)
    requires conn.localIp == LOOPBACK && conn.remoteIp == LOOPBACK
    ensures var h := BlankHeader(conn, ACK);
            TcpChecksum(Little, LOOPBACK, LOOPBACK, h, []) != StandardChecksum(Little, LOOPBACK, LOOPBACK, h, [])
  {
    var none: seq<byte> := [];
    assert |none| == 0 && |none| <= MAX_SUMMED;
    hide *;
    NotNeutral(conn);
    var h := BlankHeader(conn, ACK);
    ChecksumIsRfc793Iff(Little, LOOPBACK, LOOPBACK, h, none);
  }

  lemma NotNeutral(conn: Endpoint)
    ensures !OrderNeutral(PseudoHeader(Little, LOOPBACK, LOOPBACK, 0), BlankHeader(conn, ACK), [])
  {
    LoopbackSum();
    NoWords();
    hide WordSum, PseudoHeader, WholeWords;
    assert (0xFE1C + 0 + 0x10 - 0x50) % 257 == 224;
  }

  lemma NoWords()
    ensures WordSum(Big, WholeWords([])) == 0
  {
  }

  lemma LoopbackSum()
    ensures WordSum(Big, PseudoHeader(Little, LOOPBACK, LOOPBACK, 0)) == 0xFE1C
  {
    var high, low, protocol, length: seq<byte> := [127, 0], [0, 1], [0, 6], [0, 20];
    LoopbackPseudo(high, low, protocol, length);
    hide WordSum, PseudoHeader;
    WordSumAppend(Big, high, low + (high + (low + (protocol + length))));
    WordSumAppend(Big, low, high + (low + (protocol + length)));
    WordSumAppend(Big, high, low + (protocol + length));
    WordSumAppend(Big, low, protocol + length);
    WordSumAppend(Big, protocol, length);
    TwoBytes(Big, 127, 0);
    TwoBytes(Big, 0, 1);
    TwoBytes(Big, 0, 6);
    TwoBytes(Big, 0, 20);
  }

  lemma LoopbackPseudo(high: seq<byte>, low: seq<byte>, protocol: seq<byte>, length: seq<byte>)
    requires high == [127, 0] && low == [0, 1] && protocol == [0, 6] && length == [0, 20]
    ensures PseudoHeader(Little, LOOPBACK, LOOPBACK, 0) == high + (low + (high + (low + (protocol + length))))
  {
    hide Bytes32, Bytes16, Htons;
    LoopbackBytes();
    assert Bytes32(Little, LOOPBACK) == high + low;
    NetworkBytes16(Little, 20);
    BigBytes(0, 20);
  }

  // ----- between hosts of different order -----

  /** Hosts that keep the same address bytes build the same pseudo header. */
  lemma SamePseudo(sender: ByteOrder, receiver: ByteOrder, srcIp: uint32, dstIp: uint32, src: uint32, dst: uint32,
                   n: nat)
    requires Bytes32(receiver, src) + Bytes32(receiver, dst) == Bytes32(sender, srcIp) + Bytes32(sender, dstIp)
    ensures PseudoHeader(receiver, src, dst, n) == PseudoHeader(sender, srcIp, dstIp, n)
  {
    hide Bytes16, Bytes32, Htons, Htonl;
    var length: uint16 := (HEADER_SIZE + n) % TWO16;
    NetworkBytes16(sender, length);
    NetworkBytes16(receiver, length);
    var tail := [0, IPPROTO_TCP] + Bytes16(Big, length);
    Assoc(Bytes32(sender, srcIp), Bytes32(sender, dstIp), tail);
    Assoc(Bytes32(receiver, src), Bytes32(receiver, dst), tail);
  }

  /** A host of either order accepts a segment exactly when it was built by one of its own, or
      the segment is neutral; src and dst are the sender's addresses as the receiver reads
      them. What is accepted is what was sent. */
  lemma OtherHostAcceptsIff(sender: ByteOrder, receiver: ByteOrder, conn: Endpoint, src: uint32, dst: uint32,
                            data: seq<byte>, flags: byte)
    requires |data| <= MAX_SUMMED
    requires Bytes32(receiver, src) + Bytes32(receiver, dst)
             == Bytes32(sender, conn.localIp) + Bytes32(sender, conn.remoteIp)
    ensures var h := BlankHeader(conn, flags);
            CheckSegment(receiver, src, dst, SegmentBytes(sender, conn, data, flags)) ==
            if sender == receiver || OrderNeutral(PseudoHeader(sender, conn.localIp, conn.remoteIp, |data|), h, data)
            then Accepted(Dispatch(h), h, data) else Refused
  {
    hide TcpChecksum, StandardChecksum, PseudoHeader, OrderNeutral, Bytes32, Dispatch, FromImage, TCPHeader.Image,
         TCPHeader.ExchangeOrder, Canon, HeaderSum, WordSum;
    var h := BlankHeader(conn, flags);
    SamePseudo(sender, receiver, conn.localIp, conn.remoteIp, src, dst, |data|);
    StandardSum(sender, conn.localIp, conn.remoteIp, h, data);
    StandardSum(receiver, src, dst, h, data);
    HostSum(sender, conn.localIp, conn.remoteIp, h, data);
    HostSum(receiver, src, dst, h, data);
    ChecksumIsRfc793Iff(sender, conn.localIp, conn.remoteIp, h, data);
    ChecksumIsRfc793Iff(receiver, src, dst, h, data);
    SegmentReads(sender, receiver, conn, data, flags);
  }

  /** Whatever its order, a host reads the fields the sender wrote. */
  lemma SegmentReads(sender: ByteOrder, receiver: ByteOrder, conn: Endpoint, data: seq<byte>, flags: byte)
    ensures var b := SegmentBytes(sender, conn, data, flags);
            FromImage(receiver, b).ExchangeOrder(receiver) == BuildHeader(sender, conn, data, flags)
            && b[HEADER_SIZE..] == data
  {
    hide BuildHeader, FromImage, TCPHeader.Image, TCPHeader.ExchangeOrder;
    var sent := BuildHeader(sender, conn, data, flags);
    WireImage(sender, sent);
    ImageLoads(sent, data);
    WireLoad(receiver, SegmentBytes(sender, conn, data, flags));
  }
}
