/** include/ip_header.h and src/ip_layer.cpp: building and parsing IPv4 packets. */
module IpWire {
  import opened Widths
  import opened Checksum

  const IP_HEADER_SIZE := 20

  /** The struct as it lies in memory: the 16-bit fields hold network-order values. */
  datatype IPHeader = IPHeader(
    versionIhl: byte, tos: byte, totalLength: uint16, identification: uint16, flagsFragment: uint16,
    ttl: byte, protocol: byte, checksum: uint16, srcIp: uint32, dstIp: uint32)
  {
    function Version(): byte { versionIhl / 0x10 }

    function HeaderLength(): byte { versionIhl % 0x10 * 4 }

    function SetVersion(version: byte): IPHeader {
      var low: int, high: int := versionIhl % 0x10, version % 0x10 * 0x10;
      this.(versionIhl := low + high)
    }

    function SetIhl(ihl: byte): IPHeader {
      var low: int, high: int := ihl % 0x10, versionIhl / 0x10 * 0x10;
      this.(versionIhl := high + low)
    }

    function SetFlagsFragment(order: ByteOrder, flags: uint16, fragmentOffset: uint16): IPHeader {
      var low: int, high: int := fragmentOffset % 0x2000, flags % 8 * 0x2000;
      this.(flagsFragment := Htons(order, high + low))
    }

    function Image(order: ByteOrder): (image: seq<byte>)
      ensures |image| == IP_HEADER_SIZE
    {
      [versionIhl, tos] + (Bytes16(order, totalLength) + (Bytes16(order, identification) + (
      Bytes16(order, flagsFragment) + ([ttl, protocol] + (Bytes16(order, checksum) + (
      Bytes32(order, srcIp) + Bytes32(order, dstIp)))))))
    }
  }

  function FromImage(order: ByteOrder, b: seq<byte>): IPHeader
    requires |b| >= IP_HEADER_SIZE
  {
    IPHeader(b[0], b[1], Load16(order, b[2], b[3]), Load16(order, b[4], b[5]), Load16(order, b[6], b[7]),
             b[8], b[9], Load16(order, b[10], b[11]),
             Load32(order, b[12], b[13], b[14], b[15]), Load32(order, b[16], b[17], b[18], b[19]))
  }

  /** sizeof(IPHeader) + payload_length, cut to 16 bits. */
  function TotalLength(payloadLength: uint16): uint16 {
    (IP_HEADER_SIZE + payloadLength) % TWO16
  }

  /** The header create_ip_header is meant to build: version 4, 5 words, Don't Fragment. */
  function BlankHeader(order: ByteOrder, id: uint16, srcIp: uint32, dstIp: uint32, protocol: byte,
                       payloadLength: uint16): IPHeader {
    IPHeader(0x45, 0, Htons(order, TotalLength(payloadLength)), Htons(order, id), Htons(order, 0x4000),
             64, protocol, 0, srcIp, dstIp)
  }

  function HeaderChecksum(order: ByteOrder, h: IPHeader): uint16 {
    Sum16(order, [h.Image(order)])
  }

  function BuildHeader(order: ByteOrder, id: uint16, srcIp: uint32, dstIp: uint32, protocol: byte,
                       payloadLength: uint16): IPHeader {
    var h := BlankHeader(order, id, srcIp, dstIp, protocol, payloadLength);
    h.(checksum := Htons(order, HeaderChecksum(order, h)))
  }

  /** create_packet; the payload size is cut to 16 bits on its way into the header. */
  function PacketBytes(order: ByteOrder, id: uint16, srcIp: uint32, dstIp: uint32, protocol: byte,
                       payload: seq<byte>): (packet: seq<byte>)
    ensures |packet| == IP_HEADER_SIZE + |payload|
  {
    BuildHeader(order, id, srcIp, dstIp, protocol, |payload| % TWO16).Image(order) + payload
  }

  datatype Parsed = Malformed | Packet(header: IPHeader, payload: seq<byte>)

  predicate ChecksumValid(order: ByteOrder, h: IPHeader) {
    Htons(order, h.checksum) == HeaderChecksum(order, h.(checksum := 0))
  }

  function Parse(order: ByteOrder, packet: seq<byte>): (r: Parsed)
    ensures r.Packet? ==> |packet| >= IP_HEADER_SIZE && |r.payload| <= 65515
    ensures r.Packet? ==> r.header.HeaderLength() >= IP_HEADER_SIZE
  {
    if |packet| < IP_HEADER_SIZE then Malformed else
    var h := FromImage(order, packet);
    if h.Version() != 4 then Malformed else
    var headerLength := h.HeaderLength();
    if headerLength < IP_HEADER_SIZE || headerLength > |packet| then Malformed else
    var totalLength := Htons(order, h.totalLength);
    if totalLength > |packet| || totalLength < headerLength then Malformed else
    if !ChecksumValid(order, h) then Malformed else
    Packet(h, packet[headerLength..totalLength])
  }

  /** IPLayer without its raw socket. */
  class IPLayer {
    const order: ByteOrder
    var packetId: uint16

    constructor (order: ByteOrder)
      ensures packetId == 1 && this.order == order
    {
      this.order := order;
      packetId := 1;
    }

    method CalculateChecksum(h: IPHeader) returns (checksum: uint16)
      ensures checksum == HeaderChecksum(order, h)
    {
      checksum := Checksum.CalculateChecksum(order, h.Image(order));
    }

    method CreateIpHeader(srcIp: uint32, dstIp: uint32, protocol: byte, payloadLength: uint16)
      returns (h: IPHeader)
      modifies this
      ensures h == BlankHeader(order, old(packetId), srcIp, dstIp, protocol, payloadLength)
      ensures packetId == Add16(old(packetId), 1) == if old(packetId) == 65535 then 0 else old(packetId) + 1
    {
      hide Htons, TotalLength;
      h := IPHeader(0, 0, 0, 0, 0, 0, 0, 0, 0, 0);
      h := h.SetVersion(4);
      h := h.SetIhl(5);
      h := h.(totalLength := Htons(order, TotalLength(payloadLength)));
      h := h.(identification := Htons(order, packetId));
      packetId := Add16(packetId, 1);
      h := h.SetFlagsFragment(order, 2, 0);
      h := h.(ttl := 64, protocol := protocol, checksum := 0, srcIp := srcIp, dstIp := dstIp);
    }

    method CreatePacket(srcIp: uint32, dstIp: uint32, protocol: byte, payload: seq<byte>)
      returns (packet: seq<byte>)
      modifies this
      ensures packet == PacketBytes(order, old(packetId), srcIp, dstIp, protocol, payload)
      ensures packetId == Add16(old(packetId), 1) == if old(packetId) == 65535 then 0 else old(packetId) + 1
    {
      var h := CreateIpHeader(srcIp, dstIp, protocol, |payload| % TWO16);
      var checksum := CalculateChecksum(h);
      h := h.(checksum := Htons(order, checksum));
      packet := h.Image(order) + payload;
    }

    method ValidateChecksum(h: IPHeader) returns (valid: bool)
      ensures valid == ChecksumValid(order, h)
    {
      var calculated := CalculateChecksum(h.(checksum := 0));
      valid := Htons(order, h.checksum) == calculated;
    }

    method ParsePacket(packet: seq<byte>) returns (result: Parsed)
      ensures result == Parse(order, packet)
    {
      if |packet| < IP_HEADER_SIZE {
        return Malformed;
      }
      var h := FromImage(order, packet);
      if h.Version() != 4 {
        return Malformed;
      }
      var headerLength := h.HeaderLength();
      if headerLength < IP_HEADER_SIZE || headerLength > |packet| {
        return Malformed;
      }
      var totalLength := Htons(order, h.totalLength);
      if totalLength > |packet| || totalLength < headerLength {
        return Malformed;
      }
      var valid := ValidateChecksum(h);
      if !valid {
        return Malformed;
      }
      var payloadLength: nat := totalLength - headerLength;
      var payload := if payloadLength > 0 then packet[headerLength..headerLength + payloadLength] else [];
      return Packet(h, payload);
    }
  }
}

module IpWireLaws {
  import opened Widths
  import opened Checksum
  import opened ChecksumLaws
  import opened IpWire

  lemma ImageLoads(order: ByteOrder, h: IPHeader, tail: seq<byte>)
    ensures FromImage(order, h.Image(order) + tail) == h
  {
  }

  lemma HtonsTwice(order: ByteOrder, x: uint16)
    ensures Htons(order, Htons(order, x)) == x
  {
    SwapTwice(x);
  }

  // ----- round trip -----

  lemma BlankHeaderFields(order: ByteOrder, id: uint16, srcIp: uint32, dstIp: uint32, protocol: byte, n: uint16)
    ensures var h := BlankHeader(order, id, srcIp, dstIp, protocol, n);
            && h.versionIhl == 0x45 && h.checksum == 0 && h.totalLength == Htons(order, TotalLength(n))
            && h.protocol == protocol && h.srcIp == srcIp && h.dstIp == dstIp
  {
  }

  lemma BuiltHeaderValid(order: ByteOrder, id: uint16, srcIp: uint32, dstIp: uint32, protocol: byte, n: uint16)
    ensures var h := BuildHeader(order, id, srcIp, dstIp, protocol, n);
            && h.versionIhl == 0x45 && h.totalLength == Htons(order, TotalLength(n))
            && h.protocol == protocol && h.srcIp == srcIp && h.dstIp == dstIp
            && ChecksumValid(order, h)
  {
    BlankHeaderFields(order, id, srcIp, dstIp, protocol, n);
    var blank := BlankHeader(order, id, srcIp, dstIp, protocol, n);
    HtonsTwice(order, HeaderChecksum(order, blank));
    assert BuildHeader(order, id, srcIp, dstIp, protocol, n).(checksum := 0) == blank;
  }

  /** How a packet with a valid option-free header parses. */
  lemma ValidHeaderParses(order: ByteOrder, packet: seq<byte>, h: IPHeader)
    requires |packet| >= IP_HEADER_SIZE && FromImage(order, packet) == h
    requires h.versionIhl == 0x45 && ChecksumValid(order, h)
    ensures var total := Htons(order, h.totalLength);
            Parse(order, packet) ==
            if IP_HEADER_SIZE <= total <= |packet| then Packet(h, packet[IP_HEADER_SIZE..total]) else Malformed
  {
  }

  /** How a built packet parses, whatever follows it. */
  lemma BuiltPacketParses(order: ByteOrder, h: IPHeader, payload: seq<byte>, trailing: seq<byte>)
    requires h.versionIhl == 0x45 && ChecksumValid(order, h)
    ensures var packet, total := h.Image(order) + payload + trailing, Htons(order, h.totalLength);
            Parse(order, packet) ==
            if IP_HEADER_SIZE <= total <= |packet| then Packet(h, (payload + trailing)[..total - IP_HEADER_SIZE])
            else Malformed
  {
    hide Parse, ChecksumValid, FromImage, Htons, IPHeader.Image;
    var image := h.Image(order);
    var packet := image + payload + trailing;
    Assoc(image, payload, trailing);
    ImageLoads(order, h, payload + trailing);
    ValidHeaderParses(order, packet, h);
    var total: int := Htons(order, h.totalLength);
    if IP_HEADER_SIZE <= total <= |packet| {
      SliceAfter(image, payload + trailing, total - IP_HEADER_SIZE);
    }
  }

  lemma SliceAfter(a: seq<byte>, b: seq<byte>, n: nat)
    requires n <= |b|
    ensures (a + b)[|a|..|a| + n] == b[..n]
  {
  }

  /** A packet that fits is parsed back; of a longer one less than the payload arrives. */
  lemma BuiltPacketArrives(order: ByteOrder, id: uint16, srcIp: uint32, dstIp: uint32, protocol: byte,
                           payload: seq<byte>, trailing: seq<byte>)
    ensures var h := BuildHeader(order, id, srcIp, dstIp, protocol, |payload| % TWO16);
            var r := Parse(order, PacketBytes(order, id, srcIp, dstIp, protocol, payload) + trailing);
            if |payload| <= 65515 then r == Packet(h, payload)
            else r == Malformed || |r.payload| < |payload|
  {
    var n: uint16 := |payload| % TWO16;
    BuiltHeaderValid(order, id, srcIp, dstIp, protocol, n);
    var h := BuildHeader(order, id, srcIp, dstIp, protocol, n);
    var total: int := TotalLength(n);
    HtonsTwice(order, TotalLength(n));
    TotalLengthFits(|payload|);
    BuiltPacketParses(order, h, payload, trailing);
    var packet := h.Image(order) + payload + trailing;
    assert |packet| == IP_HEADER_SIZE + |payload| + |trailing|;
    if |payload| <= 65515 {
      assert (payload + trailing)[..|payload|] == payload;
    } else if IP_HEADER_SIZE <= total <= |packet| {
      assert |(payload + trailing)[..total - IP_HEADER_SIZE]| < |payload|;
    }
  }

  /** Parsing a packet that create_packet built, with any bytes after it, gives back its
      header and its payload exactly when the payload is at most 65515 bytes long: beyond
      that the 16-bit total length no longer describes it. */
  lemma PacketRoundTrip(order: ByteOrder, id: uint16, srcIp: uint32, dstIp: uint32, protocol: byte,
                        payload: seq<byte>, trailing: seq<byte>)
    ensures Parse(order, PacketBytes(order, id, srcIp, dstIp, protocol, payload) + trailing)
            == Packet(BuildHeader(order, id, srcIp, dstIp, protocol, |payload| % TWO16), payload)
            <==> |payload| <= 65515
  {
    BuiltPacketArrives(order, id, srcIp, dstIp, protocol, payload, trailing);
  }

  /** Bytes after the header do not reach the header checks: changing one changes the payload
      there and nothing else. */
  lemma PayloadByteChange(order: ByteOrder, packet: seq<byte>, i: nat, v: byte)
    requires Parse(order, packet) != Malformed
    requires var r := Parse(order, packet);
             r.header.HeaderLength() <= i < r.header.HeaderLength() + |r.payload|
    ensures var r := Parse(order, packet);
            && r.payload[i - r.header.HeaderLength()] == packet[i]
            && Parse(order, packet[i := v]) == Packet(r.header, r.payload[i - r.header.HeaderLength() := v])
  {
    var r, changed := Parse(order, packet), packet[i := v];
    var start: int := r.header.HeaderLength();
    assert FromImage(order, changed) == r.header;
    var total: int := start + |r.payload|;
    assert changed[start..total] == packet[start..total][i - start := v];
  }

  /** Where a payload byte stands in the packet. */
  lemma PayloadPlace(order: ByteOrder, packet: seq<byte>, k: nat)
    requires Parse(order, packet) != Malformed && k < |Parse(order, packet).payload|
    ensures |packet| >= packet[0] % 0x10 * 4 + |Parse(order, packet).payload|
    ensures packet[0] % 0x10 * 4 >= IP_HEADER_SIZE
    ensures Parse(order, packet).payload[k] == packet[packet[0] % 0x10 * 4 + k]
  {
    AcceptedIff(order, packet);
    hide Parse;
  }

  /** The same for two neighbouring bytes. */
  lemma PayloadWordChange(order: ByteOrder, packet: seq<byte>, i: nat, u: byte, v: byte)
    requires Parse(order, packet) != Malformed
    requires var r := Parse(order, packet);
             r.header.HeaderLength() <= i && i + 1 < r.header.HeaderLength() + |r.payload|
    ensures var r := Parse(order, packet);
            var k := i - r.header.HeaderLength();
            && r.payload[k] == packet[i] && r.payload[k + 1] == packet[i + 1]
            && Parse(order, ReplaceWord(packet, i, u, v)) == Packet(r.header, ReplaceWord(r.payload, k, u, v))
  {
    PayloadByteChange(order, packet, i, u);
    PayloadByteChange(order, packet, i + 1, packet[i + 1]);
    PayloadByteChange(order, packet[i := u], i + 1, v);
  }

  lemma LengthCut(n: nat)
    ensures TotalLength(n % TWO16) == (20 + n) % 0x1_0000
  {
  }

  lemma TotalLengthFits(n: nat)
    ensures if n <= 65515 then TotalLength(n % TWO16) == IP_HEADER_SIZE + n
            else TotalLength(n % TWO16) - IP_HEADER_SIZE < n
  {
  }

  lemma ImageBytes(order: ByteOrder, h: IPHeader, tail: seq<byte>)
    ensures var b := h.Image(order) + tail;
            && b[0] == h.versionIhl && b[1] == h.tos && b[2..4] == Bytes16(order, h.totalLength)
            && b[4..6] == Bytes16(order, h.identification) && b[6..8] == Bytes16(order, h.flagsFragment)
            && b[8] == h.ttl && b[9] == h.protocol && b[20..] == tail
  {
  }

  lemma ImageEndBytes(order: ByteOrder, h: IPHeader, tail: seq<byte>)
    ensures var b := h.Image(order) + tail;
            && b[10..12] == Bytes16(order, h.checksum)
            && b[12..16] == Bytes32(order, h.srcIp) && b[16..20] == Bytes32(order, h.dstIp)
  {
  }

  /** The layout of RFC 791, section 3.1, on either host: every byte of a built packet. The
      addresses are kept, and stored, as they lie in memory. */
  lemma PacketLayout(order: ByteOrder, id: uint16, srcIp: uint32, dstIp: uint32, protocol: byte,
                     payload: seq<byte>)
    ensures var b := PacketBytes(order, id, srcIp, dstIp, protocol, payload);
            && b[0] == 0x45 && b[1] == 0 && b[2..4] == Bytes16(Big, (20 + |payload|) % 0x1_0000)
            && b[4..6] == Bytes16(Big, id) && b[6..8] == [0x40, 0] && b[8] == 64 && b[9] == protocol
            && b[12..16] == Bytes32(order, srcIp) && b[16..20] == Bytes32(order, dstIp) && b[20..] == payload
  {
    var n: uint16 := |payload| % TWO16;
    var h := BuildHeader(order, id, srcIp, dstIp, protocol, n);
    LengthCut(|payload|);
    assert Bytes16(Big, 0x4000) == [0x40, 0];
    hide IPHeader.Image, Htons, Htonl, Bytes16, Bytes32, TotalLength, HeaderChecksum;
    NetworkBytes(order, TotalLength(n), 0);
    NetworkBytes(order, id, 0);
    NetworkBytes(order, 0x4000, 0);
    ImageBytes(order, h, payload);
    ImageEndBytes(order, h, payload);
  }

  // ----- error detection -----

  /** The header bytes with the checksum field cleared. */
  function Cleared(b: seq<byte>): seq<byte>
    requires |b| >= IP_HEADER_SIZE
  {
    b[..IP_HEADER_SIZE][10 := 0][11 := 0]
  }

  lemma StoreLoad16(order: ByteOrder, a: byte, b: byte)
    ensures Bytes16(order, Load16(order, a, b)) == [a, b]
  {
  }

  lemma StoreLoad(order: ByteOrder, a: byte, b: byte, c: byte, d: byte)
    ensures Bytes16(order, Load16(order, a, b)) == [a, b]
    ensures Bytes32(order, Load32(order, a, b, c, d)) == [a, b, c, d]
  {
    StoreLoad16(order, a, b);
    StoreLoad16(order, c, d);
    var first, second := Load16(order, a, b), Load16(order, c, d);
    Halves(first, second);
    Halves(second, first);
    var x := Load32(order, a, b, c, d);
    var y := if order.Big? then [x / 0x1_0000, x % 0x1_0000] else [x % 0x1_0000, x / 0x1_0000];
    assert y == [first, second];
  }

  lemma ClearedImage(order: ByteOrder, b: seq<byte>)
    requires |b| >= IP_HEADER_SIZE
    ensures FromImage(order, b).(checksum := 0).Image(order) == Cleared(b)
  {
    ImageOfLoad(order, b);
    ClearingChecksum(order, FromImage(order, b));
  }

  lemma ImageOfLoad(order: ByteOrder, b: seq<byte>)
    requires |b| >= IP_HEADER_SIZE
    ensures FromImage(order, b).Image(order) == b[..IP_HEADER_SIZE]
  {
    hide Load16, Load32, Bytes16, Bytes32;
    StoreLoad(order, b[2], b[3], 0, 0);
    StoreLoad(order, b[4], b[5], 0, 0);
    StoreLoad(order, b[6], b[7], 0, 0);
    StoreLoad(order, b[10], b[11], 0, 0);
    StoreLoad(order, b[12], b[13], b[14], b[15]);
    StoreLoad(order, b[16], b[17], b[18], b[19]);
    var h := FromImage(order, b);
    var addresses := Bytes32(order, h.srcIp) + Bytes32(order, h.dstIp);
    assert addresses == b[12..20];
    var fromTtl := [h.ttl, h.protocol] + (Bytes16(order, h.checksum) + addresses);
    assert fromTtl == b[8..20];
    var fromId := Bytes16(order, h.identification) + (Bytes16(order, h.flagsFragment) + fromTtl);
    assert fromId == b[4..20];
  }

  lemma ClearingChecksum(order: ByteOrder, h: IPHeader)
    ensures h.(checksum := 0).Image(order) == h.Image(order)[10 := 0][11 := 0]
  {
  }

  lemma ChecksumValidIff(order: ByteOrder, b: seq<byte>)
    requires |b| >= IP_HEADER_SIZE
    ensures ChecksumValid(order, FromImage(order, b)) <==>
            Load16(Big, b[10], b[11]) == 0xFFFF - Canon(WordSum(order, Cleared(b)))
  {
    ClearedImage(order, b);
    WordSumBound(order, Cleared(b));
    OneBuffer(order, Cleared(b));
    NetworkLoad(order, b[10], b[11], 0, 0);
  }

  /** Which byte strings are accepted, and what is taken from them, by the bytes alone: apart
      from the checksum the order of the host plays no part. */
  lemma AcceptedIff(order: ByteOrder, packet: seq<byte>)
    ensures Parse(order, packet).Packet? <==>
            && |packet| >= IP_HEADER_SIZE && packet[0] / 0x10 == 4 && packet[0] % 0x10 >= 5
            && packet[0] % 0x10 * 4 <= Load16(Big, packet[2], packet[3]) <= |packet|
            && Load16(Big, packet[10], packet[11]) == 0xFFFF - Canon(WordSum(order, Cleared(packet)))
    ensures Parse(order, packet).Packet? ==>
            && Parse(order, packet).payload == packet[packet[0] % 0x10 * 4..Load16(Big, packet[2], packet[3])]
            && Parse(order, packet).header == FromImage(order, packet)
  {
    hide ChecksumValid, Canon, Cleared, WordSum;
    if |packet| >= IP_HEADER_SIZE {
      ChecksumValidIff(order, packet);
      NetworkLoad(order, packet[2], packet[3], 0, 0);
    }
  }

  /** Whichever of the 20 header bytes of an accepted packet changes, the changed packet is
      refused: no size or content hypothesis. */
  lemma OneByteErrorRefused(order: ByteOrder, packet: seq<byte>, i: nat, v: byte)
    requires Parse(order, packet) != Malformed
    requires i < IP_HEADER_SIZE && v != packet[i]
    ensures Parse(order, packet[i := v]) == Malformed
  {
    var changed := packet[i := v];
    ChecksumValidIff(order, packet);
    ChecksumValidIff(order, changed);
    HeaderSumsDiffer(order, packet, i, v);
  }

  lemma HeaderSumsDiffer(order: ByteOrder, b: seq<byte>, i: nat, v: byte)
    requires |b| >= IP_HEADER_SIZE && i < IP_HEADER_SIZE && v != b[i]
    ensures var c := b[i := v];
            if i == 10 || i == 11
            then Cleared(c) == Cleared(b) && Load16(Big, c[10], c[11]) != Load16(Big, b[10], b[11])
            else c[10] == b[10] && c[11] == b[11]
                 && Canon(WordSum(order, Cleared(c))) != Canon(WordSum(order, Cleared(b)))
  {
    var c := b[i := v];
    if i == 10 || i == 11 {
      assert Cleared(c) == Cleared(b);
    } else {
      assert Cleared(c) == Cleared(b)[i := v];
      var weight := ByteWeight(order, Cleared(b), i, v);
      ByteChangeShows(WordSum(order, Cleared(b)), WordSum(order, Cleared(c)), weight, b[i], v);
    }
  }

  /** Changing one aligned word of the header of an accepted packet is missed exactly when one
      zero of one's-complement arithmetic becomes the other, outside the total length, which
      is checked by itself, and the checksum. */
  lemma WordErrorRefusedIff(order: ByteOrder, packet: seq<byte>, i: nat, u: byte, v: byte)
    requires Parse(order, packet) != Malformed
    requires i % 2 == 0 && i < IP_HEADER_SIZE && [u, v] != [packet[i], packet[i + 1]]
    ensures Parse(order, ReplaceWord(packet, i, u, v)) == Malformed <==>
            i == 2 || i == 10 || !ZeroExchange(packet[i], packet[i + 1], u, v)
  {
    hide Parse, Canon, Cleared, WordSum, FromImage, Load16, ZeroExchange;
    AcceptedIff(order, packet);
    var changed := ReplaceWord(packet, i, u, v);
    AcceptedIff(order, changed);
    if i == 10 {
      ChecksumWordChanged(packet, u, v);
    } else {
      ZeroWord(packet[i], packet[i + 1], u, v);
      LengthsNotZero(order, packet);
      if changed[0] != 0 {
        HeaderWordShows(order, packet, i, u, v);
      }
      if Parse(order, changed) != Malformed {
        LengthsNotZero(order, changed);
      }
    }
  }

  lemma ZeroWord(a: byte, b: byte, u: byte, v: byte)
    ensures ZeroExchange(a, b, u, v) ==> (a == b == 0 && u == v == 0xFF) || (a == b == 0xFF && u == v == 0)
  {
  }

  lemma HeaderWordShows(order: ByteOrder, packet: seq<byte>, i: nat, u: byte, v: byte)
    requires |packet| >= IP_HEADER_SIZE && packet[0] != 0 && i % 2 == 0 && i < IP_HEADER_SIZE && i != 10
    requires [u, v] != [packet[i], packet[i + 1]] && ReplaceWord(packet, i, u, v)[0] != 0
    ensures Canon(WordSum(order, Cleared(ReplaceWord(packet, i, u, v)))) == Canon(WordSum(order, Cleared(packet)))
            <==> ZeroExchange(packet[i], packet[i + 1], u, v)
  {
    hide Canon, Cleared, WordSum, Load16, ZeroExchange;
    var changed := ReplaceWord(packet, i, u, v);
    ClearedWord(packet, i, u, v);
    WordReplaced(order, Cleared(packet), i, u, v);
    ClearedPositive(order, packet);
    ClearedPositive(order, changed);
    WordChangeShows(order, WordSum(order, Cleared(packet)), WordSum(order, Cleared(changed)),
                    packet[i], packet[i + 1], u, v);
  }

  /** A missed exchange leaves version, lengths and payload alone. */
  lemma MissedWord(order: ByteOrder, packet: seq<byte>, i: nat, u: byte, v: byte)
    requires Parse(order, packet) != Malformed
    requires i % 2 == 0 && i < IP_HEADER_SIZE && ZeroExchange(packet[i], packet[i + 1], u, v)
    requires Parse(order, ReplaceWord(packet, i, u, v)) != Malformed
    ensures i != 0 && i != 2
    ensures Parse(order, packet).payload == Parse(order, ReplaceWord(packet, i, u, v)).payload
  {
    hide Parse;
    var changed := ReplaceWord(packet, i, u, v);
    LengthsNotZero(order, packet);
    LengthsNotZero(order, changed);
    SamePayload(order, packet, changed);
  }

  lemma LengthsNotZero(order: ByteOrder, packet: seq<byte>)
    requires Parse(order, packet) != Malformed
    ensures packet[0] / 0x10 == 4 && (packet[2] != 0 || packet[3] != 0)
  {
    hide Parse;
    AcceptedIff(order, packet);
  }

  lemma SamePayload(order: ByteOrder, packet: seq<byte>, changed: seq<byte>)
    requires Parse(order, packet) != Malformed && Parse(order, changed) != Malformed
    requires packet[..4] == changed[..4] && packet[20..] == changed[20..]
    ensures Parse(order, packet).payload == Parse(order, changed).payload
  {
    AcceptedIff(order, packet);
    AcceptedIff(order, changed);
    hide Parse, Cleared, WordSum, Canon, Load16;
    var start: int, end: int := packet[0] % 0x10 * 4, Load16(Big, packet[2], packet[3]);
    assert forall k :: 0 <= k < 4 ==> packet[..4][k] == packet[k] && changed[..4][k] == changed[k];
    assert changed[start..end] == packet[start..end] by {
      assert changed[20..][start - 20..end - 20] == packet[20..][start - 20..end - 20];
    }
  }

  function Addresses(order: ByteOrder, h: IPHeader): (image: seq<byte>)
    ensures |image| == 8
  {
    Bytes32(order, h.srcIp) + Bytes32(order, h.dstIp)
  }

  lemma ParsedAddresses(order: ByteOrder, packet: seq<byte>)
    requires Parse(order, packet) != Malformed
    ensures |packet| >= IP_HEADER_SIZE && Addresses(order, Parse(order, packet).header) == packet[12..20]
    ensures Parse(order, packet).header.protocol == packet[9]
    ensures Parse(order, packet).header.srcIp == Load32(order, packet[12], packet[13], packet[14], packet[15])
    ensures Parse(order, packet).header.dstIp == Load32(order, packet[16], packet[17], packet[18], packet[19])
  {
    assert Parse(order, packet).header == FromImage(order, packet);
    hide Parse, Load16, Load32, Bytes16, Bytes32;
    StoreLoad(order, packet[12], packet[13], packet[14], packet[15]);
    StoreLoad(order, packet[16], packet[17], packet[18], packet[19]);
  }

  lemma ChecksumWordChanged(packet: seq<byte>, u: byte, v: byte)
    requires |packet| >= IP_HEADER_SIZE && [u, v] != [packet[10], packet[11]]
    ensures var changed := ReplaceWord(packet, 10, u, v);
            Cleared(changed) == Cleared(packet) && Load16(Big, u, v) != Load16(Big, packet[10], packet[11])
  {
    LoadApart(Big, u, v, packet[10], packet[11]);
    assert Cleared(ReplaceWord(packet, 10, u, v)) == Cleared(packet);
  }

  lemma ClearedWord(packet: seq<byte>, i: nat, u: byte, v: byte)
    requires |packet| >= IP_HEADER_SIZE && i % 2 == 0 && i < IP_HEADER_SIZE && i != 10
    ensures |Cleared(packet)| == IP_HEADER_SIZE
    ensures Cleared(packet)[i] == packet[i] && Cleared(packet)[i + 1] == packet[i + 1]
    ensures Cleared(ReplaceWord(packet, i, u, v)) == ReplaceWord(Cleared(packet), i, u, v)
  {
    assert Cleared(ReplaceWord(packet, i, u, v)) == ReplaceWord(Cleared(packet), i, u, v);
  }

  lemma ClearedPositive(order: ByteOrder, packet: seq<byte>)
    requires |packet| >= IP_HEADER_SIZE && packet[0] != 0
    ensures WordSum(order, Cleared(packet)) > 0
  {
    hide WordSum;
    ZeroSums(order, Cleared(packet));
    assert Cleared(packet)[0] == packet[0];
  }

  /** Inverting any one of the 160 header bits of a packet from create_packet makes
      parse_packet fail. */
  lemma SingleBitErrorRefused(order: ByteOrder, id: uint16, srcIp: uint32, dstIp: uint32, protocol: byte,
                              payload: seq<byte>, i: nat, k: nat)
    requires |payload| <= 65515 && i < IP_HEADER_SIZE && k < 8
    ensures var b := PacketBytes(order, id, srcIp, dstIp, protocol, payload);
            Parse(order, b[i := FlipBit(b[i], k)]) == Malformed
  {
    var b := PacketBytes(order, id, srcIp, dstIp, protocol, payload);
    PacketRoundTrip(order, id, srcIp, dstIp, protocol, payload, []);
    assert b + [] == b;
    OneByteErrorRefused(order, b, i, FlipBit(b[i], k));
  }

  // ----- conformance -----

  /** The checksum field on the wire is the one RFC 791 and RFC 1071 ask for exactly on a
      big-endian host, or by accident when the header sums to 0 mod 257: the extra htons
      swaps the little-endian result. */
  lemma WireChecksumStandardIff(order: ByteOrder, id: uint16, srcIp: uint32, dstIp: uint32, protocol: byte,
                                payload: seq<byte>)
    ensures var b := PacketBytes(order, id, srcIp, dstIp, protocol, payload);
            var blank := BlankHeader(order, id, srcIp, dstIp, protocol, |payload| % TWO16);
            Load16(Big, b[10], b[11]) == 0xFFFF - Rfc1071Sum(Big, Cleared(b)) <==>
            order.Big? || WordSum(Big, blank.Image(order)) % 257 == 0
  {
    hide PacketBytes, BuildHeader, BlankHeader, Rfc1071Sum, Cleared, Sum16, IPHeader.Image, WordSum, Canon;
    var b := PacketBytes(order, id, srcIp, dstIp, protocol, payload);
    WireChecksumIs(order, id, srcIp, dstIp, protocol, payload);
    WordSumBound(order, Cleared(b));
    WordSumBound(Big, Cleared(b));
    OneBuffer(order, Cleared(b));
    OneBuffer(Big, Cleared(b));
    ChecksumIsRfc1071Iff(Big, Cleared(b));
    SameOnBothHosts(Cleared(b));
  }

  /** A little-endian host's first packet from 127.0.0.1 to itself misses it, with a bare
      acknowledgment as payload, or any other 20 bytes. */
  lemma LittleEndianMissesStandard(segment: seq<byte>)
    requires |segment| == 20
    ensures var b := PacketBytes(Little, 1, LOOPBACK, LOOPBACK, 6, segment);
            Load16(Big, b[10], b[11]) != 0xFFFF - Rfc1071Sum(Big, Cleared(b))
  {
    hide PacketBytes, BlankHeader, Rfc1071Sum, Cleared, IPHeader.Image, WordSum, Load16;
    FirstHeaderSum();
    WireChecksumStandardIff(Little, 1, LOOPBACK, LOOPBACK, 6, segment);
    assert |segment| % TWO16 == 20 && 0x1C331 % 257 == 112;
  }

  lemma FirstHeaderSum()
    ensures WordSum(Big, BlankHeader(Little, 1, LOOPBACK, LOOPBACK, 6, 20).Image(Little)) == 0x1C331
  {
    hide WordSum, BlankHeader, IPHeader.Image, Bytes32;
    BlankHeaderSum(Little, 1, LOOPBACK, LOOPBACK, 6, 20);
    LoopbackBytes();
    var high, low: seq<byte> := [127, 0], [0, 1];
    assert [127, 0, 0, 1] == high + low;
    WordSumAppend(Big, high, low);
    TwoBytes(Big, 127, 0);
    TwoBytes(Big, 0, 1);
  }

  /** The word sum of a header as built, by its fields: the host order plays no part but in
      the addresses, which are kept as they lie in memory. */
  lemma BlankHeaderSum(order: ByteOrder, id: uint16, srcIp: uint32, dstIp: uint32, protocol: byte, n: uint16)
    ensures WordSum(Big, BlankHeader(order, id, srcIp, dstIp, protocol, n).Image(order)) ==
            0x4500 + TotalLength(n) + id + 0x4000 + (0x4000 + protocol)
            + WordSum(Big, Bytes32(order, srcIp)) + WordSum(Big, Bytes32(order, dstIp))
  {
    hide WordSum, Bytes16, Bytes32, Htons, TotalLength;
    FieldBytes(order, TotalLength(n));
    FieldBytes(order, id);
    FieldBytes(order, 0x4000);
    NothingStored(order);
    TwoBytes(Big, 0x45, 0);
    TwoBytes(Big, 64, protocol);
    var addresses := Bytes32(order, srcIp) + Bytes32(order, dstIp);
    LengthOf32(order, srcIp);
    WordSumAppend(Big, Bytes32(order, srcIp), Bytes32(order, dstIp));
    var t1 := Bytes16(order, 0) + addresses;
    WordSumAppend(Big, Bytes16(order, 0), addresses);
    var t2 := [64, protocol] + t1;
    WordSumAppend(Big, [64, protocol], t1);
    var t3 := Bytes16(order, Htons(order, 0x4000)) + t2;
    WordSumAppend(Big, Bytes16(order, Htons(order, 0x4000)), t2);
    var t4 := Bytes16(order, Htons(order, id)) + t3;
    WordSumAppend(Big, Bytes16(order, Htons(order, id)), t3);
    var t5 := Bytes16(order, Htons(order, TotalLength(n))) + t4;
    WordSumAppend(Big, Bytes16(order, Htons(order, TotalLength(n))), t4);
    WordSumAppend(Big, [0x45, 0], t5);
  }

  /** A converted field is stored, and summed, most significant byte first. */
  lemma FieldBytes(order: ByteOrder, x: uint16)
    ensures WordSum(Big, Bytes16(order, Htons(order, x))) == x && |Bytes16(order, Htons(order, x))| == 2
  {
    hide WordSum, Htons;
    NetworkBytes16(order, x);
    TwoBytes(Big, x / 0x100, x % 0x100);
  }

  lemma NothingStored(order: ByteOrder)
    ensures WordSum(Big, Bytes16(order, 0)) == 0 && |Bytes16(order, 0)| == 2
  {
    hide WordSum;
    TwoBytes(Big, 0, 0);
  }

  lemma LengthOf32(order: ByteOrder, x: uint32)
    ensures |Bytes32(order, x)| == 4
  {
  }

  /** The checksum field on the wire holds what the sending host computed. */
  lemma WireChecksumIs(order: ByteOrder, id: uint16, srcIp: uint32, dstIp: uint32, protocol: byte,
                       payload: seq<byte>)
    ensures var b := PacketBytes(order, id, srcIp, dstIp, protocol, payload);
            && Load16(Big, b[10], b[11]) == Sum16(order, [Cleared(b)]) && |Cleared(b)| == IP_HEADER_SIZE
            && Cleared(b) == BlankHeader(order, id, srcIp, dstIp, protocol, |payload| % TWO16).Image(order)
  {
    hide Sum16, IPHeader.Image;
    var n: uint16 := |payload| % TWO16;
    var h := BuildHeader(order, id, srcIp, dstIp, protocol, n);
    var b := PacketBytes(order, id, srcIp, dstIp, protocol, payload);
    BuiltHeaderValid(order, id, srcIp, dstIp, protocol, n);
    ImageLoads(order, h, payload);
    ClearedImage(order, b);
    NetworkLoad(order, b[10], b[11], 0, 0);
  }

  // ----- between hosts of different order -----

  /** A host of either order parses a packet exactly when it was built by one of its own, or
      the header sums to 0 mod 257; it finds payload, protocol and address bytes unchanged. */
  lemma OtherHostParsesIff(sender: ByteOrder, receiver: ByteOrder, id: uint16, srcIp: uint32, dstIp: uint32,
                           protocol: byte, payload: seq<byte>, trailing: seq<byte>)
    requires |payload| <= 65515
    ensures var r := Parse(receiver, PacketBytes(sender, id, srcIp, dstIp, protocol, payload) + trailing);
            && (r.Packet? <==>
                || sender == receiver
                || WordSum(Big, BlankHeader(sender, id, srcIp, dstIp, protocol, |payload|).Image(sender)) % 257 == 0)
            && (r.Packet? ==>
                && r.payload == payload && r.header.protocol == protocol
                && Addresses(receiver, r.header) == Bytes32(sender, srcIp) + Bytes32(sender, dstIp))
  {
    hide Parse, PacketBytes, BlankHeader, IPHeader.Image, Cleared, Sum16, WordSum, Canon, Addresses, Bytes32;
    var b := PacketBytes(sender, id, srcIp, dstIp, protocol, payload);
    var packet := b + trailing;
    PacketLayout(sender, id, srcIp, dstIp, protocol, payload);
    TotalLengthFits(|payload|);
    LengthOnWire(b, TotalLength(|payload| % TWO16));
    WireChecksumIs(sender, id, srcIp, dstIp, protocol, payload);
    ClearedOfFront(b, trailing);
    WordSumBound(sender, Cleared(b));
    OneBuffer(sender, Cleared(b));
    SameOnBothHosts(Cleared(b));
    AcceptedIff(receiver, packet);
    if Parse(receiver, packet).Packet? {
      ParsedAddresses(receiver, packet);
      assert packet[12..20] == b[12..16] + b[16..20];
    }
  }

  lemma LengthOnWire(b: seq<byte>, total: uint16)
    requires |b| >= 4 && b[2..4] == Bytes16(Big, total)
    ensures Load16(Big, b[2], b[3]) == total
  {
    assert b[2..4] == [b[2], b[3]];
  }

  lemma ClearedOfFront(b: seq<byte>, trailing: seq<byte>)
    requires |b| >= IP_HEADER_SIZE
    ensures Cleared(b + trailing) == Cleared(b)
  {
  }
}
