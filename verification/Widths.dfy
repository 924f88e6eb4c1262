/** The fixed-width unsigned integers of the program and their memory images.
    A value of `uint16` or `uint32` lies in memory in the byte order of the host,
    so everything that looks at bytes takes that order as a parameter. */
module Widths {

  const TWO16: int := 0x1_0000
  const TWO32: int := 0x1_0000_0000
  const TWO64: int := 0x1_0000_0000_0000_0000

  type byte = x: int | 0 <= x < 0x100
  type uint16 = x: int | 0 <= x < 0x1_0000
  type uint32 = x: int | 0 <= x < 0x1_0000_0000

  datatype ByteOrder = Little | Big

  /** 127.0.0.1 as a little-endian host keeps it. */
  const LOOPBACK: uint32 := 0x0100_007F

  function Min(a: int, b: int): int {
    if a < b then a else b
  }

  function Max(a: int, b: int): int {
    if a < b then b else a
  }

  function Abs(a: int): nat {
    if a < 0 then -a else a
  }

  /** Unsigned additions of the program, which wrap. */
  function Add32(x: uint32, n: nat): uint32 {
    (x + n) % TWO32
  }

  function Add16(x: uint16, n: nat): uint16 {
    (x + n) % TWO16
  }

  /** The 16-bit word that a host of the given order loads from two adjacent bytes. */
  function Load16(order: ByteOrder, a: byte, b: byte): uint16 {
    if order.Big? then a * 0x100 + b else b * 0x100 + a
  }

  function Bytes16(order: ByteOrder, x: uint16): seq<byte> {
    if order.Big? then [x / 0x100, x % 0x100] else [x % 0x100, x / 0x100]
  }

  function Load32(order: ByteOrder, a: byte, b: byte, c: byte, d: byte): uint32 {
    if order.Big? then Load16(Big, a, b) * 0x1_0000 + Load16(Big, c, d)
    else Load16(Little, c, d) * 0x1_0000 + Load16(Little, a, b)
  }

  function Bytes32(order: ByteOrder, x: uint32): seq<byte> {
    if order.Big? then Bytes16(Big, x / 0x1_0000) + Bytes16(Big, x % 0x1_0000)
    else Bytes16(Little, x % 0x1_0000) + Bytes16(Little, x / 0x1_0000)
  }

  function Swap16(x: uint16): uint16 {
    x % 0x100 * 0x100 + x / 0x100
  }

  function Swap32(x: uint32): uint32 {
    Swap16(x % 0x1_0000) * 0x1_0000 + Swap16(x / 0x1_0000)
  }

  /** `htons` and `ntohs`: one function, its own inverse. */
  function Htons(order: ByteOrder, x: uint16): uint16 {
    if order.Big? then x else Swap16(x)
  }

  /** `htonl` and `ntohl`. */
  function Htonl(order: ByteOrder, x: uint32): uint32 {
    if order.Big? then x else Swap32(x)
  }

  lemma Assoc<T>(a: seq<T>, b: seq<T>, c: seq<T>)
    ensures a + b + c == a + (b + c)
  {
  }

  /** Reducing a 32-bit sum early does not change it. */
  lemma ReduceEarly(a: int, b: int)
    ensures (a % TWO32 + b) % TWO32 == (a + b) % TWO32
  {
  }

  /** A 32-bit value is determined by its two halves. */
  lemma Halves(hi: uint16, lo: uint16)
    ensures (hi * 0x1_0000 + lo) / 0x1_0000 == hi
    ensures (hi * 0x1_0000 + lo) % 0x1_0000 == lo
  {
  }

  lemma Swapped(x: uint16)
    ensures Swap16(x) / 0x100 == x % 0x100
    ensures Swap16(x) % 0x100 == x / 0x100
  {
  }

  /** Storing a converted value puts its bytes most significant first, on either host. */
  lemma NetworkBytes(order: ByteOrder, x: uint16, y: uint32)
    ensures Bytes16(order, Htons(order, x)) == Bytes16(Big, x)
    ensures Bytes32(order, Htonl(order, y)) == Bytes32(Big, y)
  {
    var lo, hi := y % 0x1_0000, y / 0x1_0000;
    NetworkBytes16(order, x);
    NetworkBytes16(order, lo);
    NetworkBytes16(order, hi);
    Halves(Swap16(lo), Swap16(hi));
    hide Bytes16, Swap16;
  }

  lemma NetworkBytes16(order: ByteOrder, x: uint16)
    ensures Bytes16(order, Htons(order, x)) == Bytes16(Big, x)
  {
    Swapped(x);
  }

  lemma BigBytes(a: byte, b: byte)
    ensures Bytes16(Big, a * 0x100 + b) == [a, b]
  {
  }

  lemma LoopbackBytes()
    ensures Bytes32(Little, LOOPBACK) == [127, 0, 0, 1]
  {
    Halves(0x0100, 0x007F);
  }

  lemma SwapLoad(a: byte, b: byte)
    ensures Swap16(Load16(Little, a, b)) == Load16(Big, a, b)
  {
  }

  /** Loading and then converting reads the bytes most significant first, on either host. */
  lemma NetworkLoad(order: ByteOrder, a: byte, b: byte, c: byte, d: byte)
    ensures Htons(order, Load16(order, a, b)) == Load16(Big, a, b)
    ensures Htonl(order, Load32(order, a, b, c, d)) == Load32(Big, a, b, c, d)
  {
    SwapLoad(a, b);
    SwapLoad(c, d);
    if order.Little? {
      var w := Load32(order, a, b, c, d);
      var hi, lo := Load16(Little, c, d), Load16(Little, a, b);
      Halves(hi, lo);
      assert w / 0x1_0000 == hi && w % 0x1_0000 == lo;
    }
  }

  function Pow2(n: nat): nat {
    if n == 0 then 1 else 2 * Pow2(n - 1)
  }

  /** The bits of b with bit k inverted. */
  function InvertBit(b: nat, k: nat): (r: nat)
    ensures r != b
  {
    if k > 0 then b % 2 + 2 * InvertBit(b / 2, k - 1)
    else if b % 2 == 0 then b + 1 else b - 1
  }

  lemma HalfFits(b: nat, half: nat, r: nat)
    ensures b < 2 * half ==> b / 2 < half
    ensures r < half ==> b % 2 + 2 * r < 2 * half
  {
  }

  lemma {:induction false} InvertBitFits(b: nat, k: nat, n: nat)
    requires k < n && b < Pow2(n)
    ensures InvertBit(b, k) < Pow2(n)
  {
    var half := Pow2(n - 1);
    assert Pow2(n) == 2 * half;
    hide Pow2;
    if k > 0 {
      HalfFits(b, half, InvertBit(b / 2, k - 1));
      InvertBitFits(b / 2, k - 1, n - 1);
    }
  }

  function FlipBit(b: byte, k: nat): (r: byte)
    requires k < 8
    ensures r != b && r == InvertBit(b, k)
  {
    assert Pow2(8) == 0x100 by { assert Pow2(4) == 16; assert Pow2(6) == 64; }
    InvertBitFits(b, k, 8);
    InvertBit(b, k)
  }
}
