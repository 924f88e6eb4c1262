/** src/network_utils.cpp: the Internet checksum loops and what they compute. */
module Checksum {
  import opened Widths

  /** The unbounded sum of the 16-bit words of a buffer; an odd last byte counts
      as the high byte of a word, whatever the host. */
  function WordSum(order: ByteOrder, data: seq<byte>): nat {
    if |data| == 0 then 0
    else if |data| == 1 then data[0] * 0x100
    else Load16(order, data[0], data[1]) + WordSum(order, data[2..])
  }

  function TotalSum(order: ByteOrder, segments: seq<seq<byte>>): nat {
    if |segments| == 0 then 0
    else WordSum(order, segments[0]) + TotalSum(order, segments[1..])
  }

  /** The representative of s mod 65535 that one's-complement addition keeps:
      0 only for a zero sum, otherwise between 1 and 65535. */
  function Canon(s: nat): uint16 {
    if s == 0 then 0 else (s - 1) % 0xFFFF + 1
  }

  /** What both overloads of calculate_checksum return. */
  function Sum16(order: ByteOrder, segments: seq<seq<byte>>): uint16 {
    0xFFFF - Canon(TotalSum(order, segments) % TWO32)
  }

  method ChecksumAccumulate(order: ByteOrder, data: seq<byte>, start: uint32) returns (sum: uint32)
    ensures sum == (start + WordSum(order, data)) % TWO32
  {
    sum := start;
    var ptr: nat, length: nat := 0, |data|;
    while length > 1
      invariant ptr + length == |data|
      invariant (sum + WordSum(order, data[ptr..])) % TWO32 == (start + WordSum(order, data)) % TWO32
    {
      assert data[ptr..][2..] == data[ptr + 2..];
      var word := Load16(order, data[ptr], data[ptr + 1]);
      ReduceEarly(sum + word, WordSum(order, data[ptr + 2..]));
      sum := (sum + word) % TWO32;
      ptr, length := ptr + 2, length - 2;
    }
    if length == 1 {
      var tail: int := data[ptr];
      sum := (sum + tail * 0x100) % TWO32;
    }
  }

  lemma MultipleVanishes(a: int, k: int)
    ensures (a + k * 0xFFFF) % 0xFFFF == a % 0xFFFF
  {
  }

  lemma CanonOfWord(x: uint16)
    ensures Canon(x) == x
  {
  }

  /** Adding the carries back once keeps the residue. */
  lemma CarryStep(s: nat)
    requires s >= 0x1_0000
    ensures Canon(s % 0x1_0000 + s / 0x1_0000) == Canon(s)
  {
  }

  /** The carry loop shared by the two overloads, and the final complement. */
  method FoldCarries(sum: uint32) returns (checksum: uint16)
    ensures checksum == 0xFFFF - Canon(sum)
  {
    var s: uint32 := sum;
    while s / 0x1_0000 != 0
      invariant Canon(s) == Canon(sum)
      decreases s
    {
      CarryStep(s);
      s := s % 0x1_0000 + s / 0x1_0000;
    }
    CanonOfWord(s);
    checksum := (0xFFFF_FFFF - s) % 0x1_0000;
  }

  method CalculateChecksum(order: ByteOrder, data: seq<byte>) returns (checksum: uint16)
    ensures checksum == Sum16(order, [data])
  {
    var sum := ChecksumAccumulate(order, data, 0);
    checksum := FoldCarries(sum);
    assert TotalSum(order, [data]) == WordSum(order, data);
  }

  method CalculateChecksumOfSegments(order: ByteOrder, segments: seq<seq<byte>>) returns (checksum: uint16)
    ensures checksum == Sum16(order, segments)
  {
    hide WordSum, Canon;
    var sum: uint32 := 0;
    for i := 0 to |segments|
      invariant (sum + TotalSum(order, segments[i..])) % TWO32 == TotalSum(order, segments) % TWO32
    {
      assert segments[i..][1..] == segments[i + 1..];
      ReduceEarly(sum + WordSum(order, segments[i]), TotalSum(order, segments[i + 1..]));
      sum := ChecksumAccumulate(order, segments[i], sum);
    }
    checksum := FoldCarries(sum);
  }
}
