/** Laws of the checksum of src/network_utils.cpp: its meaning modulo 65535, its
    agreement with eager one's-complement addition (RFC 1071), composition over
    segments, independence of word order and of host byte order, and the
    detection of changed bytes. */
module ChecksumLaws {
  import opened Widths
  import opened Checksum

  // ----- the canonical residue -----

  /** Canon(s) is the one 16-bit value congruent to s mod 65535 that is zero exactly when s is. */
  lemma CanonUnique(s: nat, c: uint16)
    ensures c == Canon(s) <==> (c - s) % 0xFFFF == 0 && (c == 0 <==> s == 0)
  {
  }

  lemma CanonEqual(s: nat, t: nat)
    ensures Canon(s) == Canon(t) <==> (s - t) % 0xFFFF == 0 && (s == 0 <==> t == 0)
  {
    CanonUnique(t, Canon(s));
    CanonUnique(s, Canon(s));
    assert Canon(s) - t == (Canon(s) - s) + (s - t);
  }

  /** Sums that differ by less than 65535 fold to different values. */
  lemma CanonDiffers(s: nat, t: nat)
    requires s != t && -0xFFFF < s - t < 0xFFFF
    ensures Canon(s) != Canon(t)
  {
  }

  // ----- meaning -----

  /** The checksum is the one value that brings the word sum to 0 mod 65535; it is
      0xFFFF only for a zero sum. Needs a sum below 2^32. */
  lemma ChecksumMeaning(order: ByteOrder, segments: seq<seq<byte>>, c: uint16)
    requires TotalSum(order, segments) < TWO32
    ensures c == Sum16(order, segments) <==>
            (c + TotalSum(order, segments)) % 0xFFFF == 0 && (c == 0xFFFF <==> TotalSum(order, segments) == 0)
  {
    var total := TotalSum(order, segments);
    CanonUnique(total, 0xFFFF - c);
    ComplementCancels(c, total);
    NoOverflow(order, segments);
  }

  lemma ComplementCancels(c: int, total: int)
    ensures (0xFFFF - c - total) % 0xFFFF == 0 <==> (c + total) % 0xFFFF == 0
  {
  }

  /** Letting the 32-bit sum wrap is harmless exactly when the number of lost carries
      is a multiple of 65535 and the wrapped sum is not a spurious zero. */
  lemma OverflowMatters(order: ByteOrder, segments: seq<seq<byte>>)
    ensures var total := TotalSum(order, segments);
            Sum16(order, segments) == 0xFFFF - Canon(total) <==>
            total / TWO32 % 0xFFFF == 0 && (total % TWO32 == 0 ==> total == 0)
  {
    var total := TotalSum(order, segments);
    CanonEqual(total % TWO32, total);
    LostCarries(total);
  }

  /** 2^32 is 1 mod 65535, so each wrap loses one. */
  lemma LostCarries(total: nat)
    ensures (total % TWO32 - total) % 0xFFFF == 0 <==> total / TWO32 % 0xFFFF == 0
  {
    var q: int := total / TWO32;
    assert total % TWO32 - total == -q + -q * 0x1_0001 * 0xFFFF;
    MultipleVanishes(-q, -q * 0x1_0001);
    OppositeVanishes(q);
  }

  lemma OppositeVanishes(q: int)
    ensures -q % 0xFFFF == 0 <==> q % 0xFFFF == 0
  {
    var k, r := q / 0xFFFF, q % 0xFFFF;
    assert -q == -r + -k * 0xFFFF;
    MultipleVanishes(-r, -k);
  }

  lemma {:induction false} AllOnesSum(order: ByteOrder, data: seq<byte>)
    requires |data| % 2 == 0 && forall i :: 0 <= i < |data| ==> data[i] == 0xFF
    ensures WordSum(order, data) == |data| / 2 * 0xFFFF
  {
    if |data| > 0 {
      AllOnesSum(order, data[2..]);
    }
  }

  /** 131076 bytes of 0xFF wrap the sum once, and the checksum is wrong on either host. */
  lemma LongBufferMissed(order: ByteOrder, data: seq<byte>)
    requires |data| == 131076 && forall i :: 0 <= i < |data| ==> data[i] == 0xFF
    ensures TotalSum(order, [data]) >= TWO32
    ensures Sum16(order, [data]) != 0xFFFF - Canon(TotalSum(order, [data]))
  {
    hide WordSum, Canon, Sum16;
    AllOnesSum(order, data);
    var segments := [data];
    assert segments[1..] == [] && TotalSum(order, segments) == 65538 * 0xFFFF;
    OverflowMatters(order, segments);
  }

  lemma NoOverflow(order: ByteOrder, segments: seq<seq<byte>>)
    requires TotalSum(order, segments) < TWO32
    ensures Sum16(order, segments) == 0xFFFF - Canon(TotalSum(order, segments))
  {
    hide TotalSum, Canon;
  }

  // ----- RFC 1071 -----

  /** One's-complement addition of two 16-bit words, with the end-around carry. */
  function OnesAdd(x: uint16, y: uint16): uint16 {
    if x + y > 0xFFFF then x + y - 0xFFFF else x + y
  }

  /** The one's-complement sum, carry by carry, of the words as the program reads them. */
  function CarriedSum(order: ByteOrder, data: seq<byte>): uint16 {
    if |data| == 0 then 0
    else if |data| == 1 then Load16(Big, data[0], 0)
    else OnesAdd(Load16(order, data[0], data[1]), CarriedSum(order, data[2..]))
  }

  function Padded(data: seq<byte>): seq<byte> {
    if |data| % 2 == 0 then data else data + [0]
  }

  /** RFC 1071, section 1: an odd buffer is padded with a zero byte, and its words are
      loaded as the host loads them and added carry by carry. */
  function Rfc1071Sum(order: ByteOrder, data: seq<byte>): uint16 {
    CarriedSum(order, Padded(data))
  }

  lemma CanonAdd(a: nat, b: nat)
    ensures Canon(a + b) == OnesAdd(Canon(a), Canon(b))
  {
    CanonUnique(a, Canon(a));
    CanonUnique(b, Canon(b));
    var c := OnesAdd(Canon(a), Canon(b));
    assert (c - (a + b)) % 0xFFFF == ((Canon(a) - a) + (Canon(b) - b)) % 0xFFFF;
    CanonUnique(a + b, c);
  }

  /** Deferring every carry to one final fold gives the one's-complement sum. */
  lemma {:induction false} FoldIsCarriedSum(order: ByteOrder, data: seq<byte>)
    ensures Canon(WordSum(order, data)) == CarriedSum(order, data)
  {
    if |data| == 1 {
      CanonOfWord(Load16(Big, data[0], 0));
    } else if |data| > 1 {
      var word := Load16(order, data[0], data[1]);
      FoldIsCarriedSum(order, data[2..]);
      CanonOfWord(word);
      CanonAdd(word, WordSum(order, data[2..]));
    }
  }

  /** The checksum of a buffer is the one of RFC 1071 exactly on a big-endian host, or for an
      even length, or for a zero last byte: the program shifts an odd last byte left by 8
      whatever the host. Needs a sum below 2^32. */
  lemma ChecksumIsRfc1071Iff(order: ByteOrder, data: seq<byte>)
    requires WordSum(order, data) < TWO32
    ensures Sum16(order, [data]) == 0xFFFF - Rfc1071Sum(order, data) <==>
            order.Big? || |data| % 2 == 0 || data[|data| - 1] == 0
  {
    hide WordSum;
    hide Sum16;
    hide Canon;
    hide CarriedSum;
    OneBuffer(order, data);
    FoldIsCarriedSum(order, Padded(data));
    if |data| % 2 == 1 {
      PaddedSum(order, data[..|data| - 1], data[|data| - 1]);
      assert data == data[..|data| - 1] + [data[|data| - 1]];
    }
  }

  lemma PaddedSum(order: ByteOrder, front: seq<byte>, tail: byte)
    requires |front| % 2 == 0
    ensures var data := front + [tail];
            Canon(WordSum(order, data)) == Canon(WordSum(order, data + [0])) <==> order.Big? || tail == 0
    ensures WordSum(order, front + [tail]) == WordSum(order, front) + tail * 0x100
  {
    hide WordSum, Canon;
    WordSumAppend(order, front, [tail]);
    WordSumAppend(order, front, [tail, 0]);
    assert front + [tail] + [0] == front + [tail, 0];
    TailSum(order, tail);
    ShiftedTail(WordSum(order, front), tail);
  }

  lemma ShiftedTail(sum: nat, tail: byte)
    ensures Canon(sum + tail * 0x100) == Canon(sum + tail) <==> tail == 0
  {
    var t: int := tail;
    if t != 0 {
      CanonDiffers(sum + t * 0x100, sum + t);
    }
  }

  lemma TwoBytes(order: ByteOrder, a: byte, b: byte)
    ensures WordSum(order, [a, b]) == Load16(order, a, b)
  {
    assert [a, b][2..] == [];
  }

  lemma TailSum(order: ByteOrder, tail: byte)
    ensures WordSum(order, [tail]) == tail * 0x100
    ensures WordSum(order, [tail, 0]) == if order.Big? then tail * 0x100 else tail
  {
    var pair: seq<byte> := [tail, 0];
    assert pair[2..] == [];
  }

  /** The smallest buffer on which a little-endian host misses the standard. */
  lemma OddTailMissesRfc1071()
    ensures Sum16(Little, [[1]]) != 0xFFFF - Rfc1071Sum(Little, [1])
  {
    assert WordSum(Little, [1]) == 0x100;
    ChecksumIsRfc1071Iff(Little, [1]);
  }

  /** Every buffer of at most 131072 bytes is summed without overflow. */
  lemma {:induction false} WordSumBound(order: ByteOrder, data: seq<byte>)
    ensures WordSum(order, data) <= (|data| + 1) / 2 * 0xFFFF
  {
    if |data| > 1 {
      WordSumBound(order, data[2..]);
    }
  }

  // ----- composition -----

  function Concat(segments: seq<seq<byte>>): seq<byte> {
    if |segments| == 0 then [] else segments[0] + Concat(segments[1..])
  }

  predicate EvenButLast(segments: seq<seq<byte>>) {
    forall i :: 0 <= i < |segments| - 1 ==> |segments[i]| % 2 == 0
  }

  lemma {:induction false} WordSumAppend(order: ByteOrder, a: seq<byte>, b: seq<byte>)
    requires |a| % 2 == 0
    ensures WordSum(order, a + b) == WordSum(order, a) + WordSum(order, b)
  {
    if |a| == 0 {
      assert a + b == b;
    } else {
      WordSumAppend(order, a[2..], b);
      assert (a + b)[2..] == a[2..] + b;
    }
  }

  lemma {:induction false} TotalIsConcatSum(order: ByteOrder, segments: seq<seq<byte>>)
    requires EvenButLast(segments)
    ensures TotalSum(order, segments) == WordSum(order, Concat(segments))
  {
    if |segments| == 1 {
      assert Concat(segments) == segments[0];
    } else if |segments| > 1 {
      TotalIsConcatSum(order, segments[1..]);
      WordSumAppend(order, segments[0], Concat(segments[1..]));
    }
  }

  /** The scattered overload agrees with the one-buffer overload on the concatenation
      when every segment but the last has even length, with or without overflow. */
  lemma SegmentsCompose(order: ByteOrder, segments: seq<seq<byte>>)
    requires EvenButLast(segments)
    ensures Sum16(order, segments) == Sum16(order, [Concat(segments)])
  {
    TotalIsConcatSum(order, segments);
    assert TotalSum(order, [Concat(segments)]) == WordSum(order, Concat(segments));
  }

  /** b[0] - b[1] + b[2] - ... */
  function Alternating(b: seq<byte>): int {
    if |b| == 0 then 0 else b[0] - Alternating(b[1..])
  }

  /** What moving b by one byte, behind a byte t, does to its word sum, divided by 255. */
  function Displacement(order: ByteOrder, t: byte, b: seq<byte>): int {
    if order.Big? then Alternating(b)
    else if |b| == 0 then 0
    else Alternating([t] + b[..|b| - 1])
  }

  lemma {:induction false} MovedByOne(order: ByteOrder, t: byte, b: seq<byte>)
    ensures 0x100 * t + WordSum(order, b) - WordSum(order, [t] + b) == 0xFF * Displacement(order, t, b)
    decreases |b|
  {
    if |b| == 0 {
      assert [t] + b == [t];
      assert Displacement(order, t, b) == 0;
    } else {
      assert ([t] + b)[2..] == b[1..];
      if |b| == 1 {
        OneMoved(order, t, b[0]);
        assert b == [b[0]] && [t] + b == [t, b[0]];
      } else {
        var rest := b[2..];
        MovedByOne(order, b[1], rest);
        assert [b[1]] + rest == b[1..];
        assert b[1..][1..] == rest;
        LittleStep(t, b);
        assert Alternating(b) == b[0] - Alternating(b[1..]);
        assert Alternating(b[1..]) == b[1] - Alternating(rest);
      }
    }
  }

  lemma OneByte(order: ByteOrder, u: byte)
    ensures Alternating([u]) == u && WordSum(order, [u]) == u * 0x100
  {
    assert [u][1..] == [];
  }

  lemma OneMoved(order: ByteOrder, t: byte, u: byte)
    ensures 0x100 * t + WordSum(order, [u]) - WordSum(order, [t, u]) == 0xFF * Displacement(order, t, [u])
  {
    OneByte(order, t);
    OneByte(order, u);
    assert [t, u][2..] == [];
    var back: seq<byte> := [u];
    assert [t] + back[..|back| - 1] == [t];
    hide Alternating;
  }

  lemma LittleStep(t: byte, b: seq<byte>)
    requires |b| >= 2
    ensures Displacement(Little, t, b) == t - b[0] + Displacement(Little, b[1], b[2..])
  {
    var whole := [t] + b[..|b| - 1];
    var once := b[..|b| - 1];
    assert whole[1..] == once;
    assert whole[0] == t && once[0] == b[0];
    if |b| == 2 {
      assert once[1..] == [];
    } else {
      assert once[1..] == [b[1]] + b[2..][..|b[2..]| - 1];
    }
    assert Alternating(whole) == t - Alternating(once);
    assert Alternating(once) == b[0] - Alternating(once[1..]);
  }

  lemma {:induction false} ZeroSums(order: ByteOrder, data: seq<byte>)
    ensures WordSum(order, data) == 0 <==> forall i :: 0 <= i < |data| ==> data[i] == 0
  {
    if |data| > 1 {
      ZeroSums(order, data[2..]);
      assert forall i :: 2 <= i < |data| ==> data[i] == data[2..][i - 2];
    }
  }

  /** Behind a segment of odd length the two overloads agree exactly when the alternating byte
      sum of what follows is 0 mod 257; on a little-endian host, that of the odd byte and all
      but the last byte that follows. */
  lemma OddSegmentComposesIff(order: ByteOrder, a: seq<byte>, b: seq<byte>)
    requires |a| % 2 == 1 && TotalSum(order, [a, b]) < TWO32 && WordSum(order, a + b) < TWO32
    ensures Sum16(order, [a, b]) == Sum16(order, [a + b]) <==>
            Displacement(order, a[|a| - 1], b) % 257 == 0
  {
    hide WordSum;
    hide Sum16;
    hide Displacement;
    hide Canon;
    hide TotalSum;
    var front, t := a[..|a| - 1], a[|a| - 1];
    OddSums(order, front, t, b);
    assert a == front + [t];
    TwoSegments(order, a, b);
    OneBuffer(order, a + b);
    NoOverflow(order, [a, b]);
    CanonEqual(TotalSum(order, [a, b]), WordSum(order, a + b));
    Mod257(Displacement(order, t, b));
  }

  lemma OddSums(order: ByteOrder, front: seq<byte>, t: byte, b: seq<byte>)
    requires |front| % 2 == 0
    ensures var a := front + [t];
            && WordSum(order, a) + WordSum(order, b) - WordSum(order, a + b) == 0xFF * Displacement(order, t, b)
            && (WordSum(order, a) + WordSum(order, b) == 0 <==> WordSum(order, a + b) == 0)
  {
    hide WordSum, Displacement;
    var a := front + [t];
    WordSumAppend(order, front, [t]);
    OneByte(order, t);
    assert a + b == front + ([t] + b);
    WordSumAppend(order, front, [t] + b);
    MovedByOne(order, t, b);
    ZeroBehind(order, t, b);
  }

  lemma ZeroBehind(order: ByteOrder, t: byte, b: seq<byte>)
    ensures WordSum(order, [t] + b) == 0 <==> t == 0 && WordSum(order, b) == 0
  {
    hide WordSum;
    ZeroSums(order, b);
    ZeroSums(order, [t] + b);
    assert ([t] + b)[0] == t && forall i :: 0 <= i < |b| ==> ([t] + b)[i + 1] == b[i];
  }

  lemma TwoSegments(order: ByteOrder, a: seq<byte>, b: seq<byte>)
    ensures TotalSum(order, [a, b]) == WordSum(order, a) + WordSum(order, b)
  {
    var both, last := [a, b], [b];
    assert both[1..] == last && last[1..] == [];
    assert TotalSum(order, last) == WordSum(order, b);
  }

  /** 65535 is 255 times 257. */
  lemma Mod257(x: int)
    ensures 0xFF * x % 0xFFFF == 0 <==> x % 257 == 0
  {
    MultipleVanishes(0xFF * (x % 257), x / 257);
    assert 0xFF * x == 0xFF * (x % 257) + x / 257 * 0xFFFF;
  }

  /** An odd segment in front of a one usually breaks composition. */
  lemma OddSegmentsFail(order: ByteOrder)
    ensures Sum16(order, [[1], [2, 1]]) != Sum16(order, [[1] + [2, 1]])
  {
    TwoSegments(order, [1], [2, 1]);
    WordSumBound(order, [1]);
    WordSumBound(order, [2, 1]);
    WordSumBound(order, [1] + [2, 1]);
    assert [2, 1][1..] == [1] && [1][1..] == [];
    assert [1] + [2, 1][..1] == [1, 2] && [1, 2][1..] == [2] && [2][1..] == [];
    assert Displacement(Big, 1, [2, 1]) == 1;
    assert Displacement(Little, 1, [2, 1]) == -1;
    OddSegmentComposesIff(order, [1], [2, 1]);
  }

  // ----- order of words -----

  function Words(order: ByteOrder, data: seq<byte>): seq<uint16>
    requires |data| % 2 == 0
  {
    if |data| == 0 then [] else [Load16(order, data[0], data[1])] + Words(order, data[2..])
  }

  function SeqSum(xs: seq<uint16>): nat {
    if |xs| == 0 then 0 else xs[0] + SeqSum(xs[1..])
  }

  lemma {:induction false} WordSumIsSeqSum(order: ByteOrder, data: seq<byte>)
    requires |data| % 2 == 0
    ensures WordSum(order, data) == SeqSum(Words(order, data))
  {
    if |data| > 0 {
      WordSumIsSeqSum(order, data[2..]);
      assert Words(order, data)[1..] == Words(order, data[2..]);
    }
  }

  lemma {:induction false} SeqSumRemove(xs: seq<uint16>, i: nat)
    requires i < |xs|
    ensures SeqSum(xs) == xs[i] + SeqSum(xs[..i] + xs[i + 1..])
  {
    if i == 0 {
      assert xs[..0] + xs[1..] == xs[1..];
    } else {
      SeqSumRemove(xs[1..], i - 1);
      var rest := xs[..i] + xs[i + 1..];
      assert rest[1..] == xs[1..][..i - 1] + xs[1..][i..];
    }
  }

  lemma {:induction false} SeqSumPermutes(xs: seq<uint16>, ys: seq<uint16>)
    requires multiset(xs) == multiset(ys)
    ensures SeqSum(xs) == SeqSum(ys)
    decreases |xs|
  {
    hide SeqSum;
    if |xs| == 0 {
      assert |multiset(ys)| == 0;
    } else {
      assert xs[0] in multiset(ys);
      var i :| 0 <= i < |ys| && ys[i] == xs[0];
      var xsRest, ysRest := xs[..0] + xs[1..], ys[..i] + ys[i + 1..];
      Without(xs, 0);
      Without(ys, i);
      SeqSumRemove(xs, 0);
      SeqSumRemove(ys, i);
      SeqSumPermutes(xsRest, ysRest);
    }
  }

  lemma Without(xs: seq<uint16>, i: nat)
    requires i < |xs|
    ensures multiset(xs[..i] + xs[i + 1..]) == multiset(xs) - multiset{xs[i]}
  {
    assert xs == xs[..i] + [xs[i]] + xs[i + 1..];
  }

  /** Reordering the words of a buffer leaves the checksum unchanged, wrapping or not. */
  lemma WordOrderIrrelevant(order: ByteOrder, a: seq<byte>, b: seq<byte>)
    requires |a| % 2 == 0 && |b| % 2 == 0
    requires multiset(Words(order, a)) == multiset(Words(order, b))
    ensures Sum16(order, [a]) == Sum16(order, [b])
  {
    WordSumIsSeqSum(order, a);
    WordSumIsSeqSum(order, b);
    SeqSumPermutes(Words(order, a), Words(order, b));
    assert TotalSum(order, [a]) == WordSum(order, a);
    assert TotalSum(order, [b]) == WordSum(order, b);
  }

  // ----- order of bytes -----

  function SwapBytes(data: seq<byte>): (r: seq<byte>)
    ensures |r| == |data|
  {
    if |data| < 2 then data else [data[1], data[0]] + SwapBytes(data[2..])
  }

  lemma CanonSwaps(s: nat)
    ensures Canon(0x100 * s) == Swap16(Canon(s))
  {
    var c: int := Canon(s);
    CanonUnique(s, c);
    var k := (c - s) / 0xFFFF;
    assert c - s == k * 0xFFFF;
    var r: int := Swap16(c);
    assert r - 0x100 * s == (0x100 * k - c / 0x100) * 0xFFFF;
    MultipleVanishes(0, 0x100 * k - c / 0x100);
    CanonUnique(0x100 * s, r);
  }

  lemma WordSwaps(a: byte, b: byte, s: int, t: int)
    requires (s - 0x100 * t) % 0xFFFF == 0
    ensures (Load16(Little, a, b) + s - 0x100 * (Load16(Big, a, b) + t)) % 0xFFFF == 0
    ensures Load16(Little, a, b) == 0 <==> Load16(Big, a, b) == 0
  {
  }

  lemma FirstWord(order: ByteOrder, data: seq<byte>)
    requires |data| >= 2
    ensures WordSum(order, data) == Load16(order, data[0], data[1]) + WordSum(order, data[2..])
  {
  }

  /** A little-endian host sums 256 times what a big-endian host sums, mod 65535. */
  lemma {:induction false} HostSums(data: seq<byte>)
    requires |data| % 2 == 0
    ensures (WordSum(Little, data) - 0x100 * WordSum(Big, data)) % 0xFFFF == 0
    ensures WordSum(Little, data) == 0 <==> WordSum(Big, data) == 0
  {
    if |data| > 0 {
      FirstWord(Little, data);
      FirstWord(Big, data);
      hide WordSum, Load16;
      HostSums(data[2..]);
      WordSwaps(data[0], data[1], WordSum(Little, data[2..]), WordSum(Big, data[2..]));
    } else {
      assert data == [];
    }
  }

  lemma HostSumsOdd(front: seq<byte>, tail: byte)
    requires |front| % 2 == 0
    ensures var little, big := WordSum(Little, front + [tail]), WordSum(Big, front + [tail]);
            && ((little - 0x100 * big) % 0xFFFF == 0 <==> tail == 0)
            && (little == 0 <==> big == 0)
  {
    hide WordSum;
    HostSums(front);
    WordSumAppend(Little, front, [tail]);
    WordSumAppend(Big, front, [tail]);
    OneByte(Little, tail);
    OneByte(Big, tail);
    TailSums(WordSum(Little, front), WordSum(Big, front), tail);
  }

  lemma TailSums(little: int, big: int, t: int)
    requires (little - 0x100 * big) % 0xFFFF == 0 && 0 <= t < 0x100
    ensures ((little + t * 0x100) - 0x100 * (big + t * 0x100)) % 0xFFFF == 0 <==> t == 0
  {
  }

  /** Byte-order independence (RFC 1071, section 2): the two hosts compute byte-swapped
      checksums of the same buffer exactly when its length is even or its last byte is 0;
      the odd tail byte is shifted the big-endian way on both. */
  lemma HostOrderSwapsChecksum(data: seq<byte>)
    requires WordSum(Little, data) < TWO32 && WordSum(Big, data) < TWO32
    ensures Sum16(Little, [data]) == Swap16(Sum16(Big, [data])) <==>
            |data| % 2 == 0 || data[|data| - 1] == 0
  {
    var little, big := WordSum(Little, data), WordSum(Big, data);
    OneBuffer(Little, data);
    OneBuffer(Big, data);
    HostSumsAnyLength(data);
    SwapAgreement(little, big);
  }

  /** One odd byte is enough to tell the hosts apart. */
  lemma HostsDisagree()
    ensures Sum16(Little, [[1]]) != Swap16(Sum16(Big, [[1]]))
  {
    assert WordSum(Little, [1]) == 0x100 && WordSum(Big, [1]) == 0x100;
    HostOrderSwapsChecksum([1]);
  }

  lemma OneBuffer(order: ByteOrder, data: seq<byte>)
    requires WordSum(order, data) < TWO32
    ensures Sum16(order, [data]) == 0xFFFF - Canon(WordSum(order, data))
  {
    hide WordSum, Canon;
    var segments := [data];
    assert segments[1..] == [] && TotalSum(order, segments) == WordSum(order, data);
    NoOverflow(order, segments);
  }

  lemma HostSumsAnyLength(data: seq<byte>)
    ensures (WordSum(Little, data) - 0x100 * WordSum(Big, data)) % 0xFFFF == 0 <==>
            |data| % 2 == 0 || data[|data| - 1] == 0
    ensures WordSum(Little, data) == 0 <==> WordSum(Big, data) == 0
  {
    if |data| % 2 == 0 {
      HostSums(data);
    } else {
      var front, tail := data[..|data| - 1], data[|data| - 1];
      assert data == front + [tail];
      HostSumsOdd(front, tail);
    }
  }

  lemma SwapAgreement(little: nat, big: nat)
    ensures 0xFFFF - Canon(little) == Swap16(0xFFFF - Canon(big)) <==>
            (little - 0x100 * big) % 0xFFFF == 0 && (little == 0 <==> big == 0)
  {
    CanonSwaps(big);
    CanonEqual(little, 0x100 * big);
    SwapComplement(Canon(big));
  }

  lemma SwapComplement(x: uint16)
    ensures Swap16(0xFFFF - x) == 0xFFFF - Swap16(x)
  {
  }

  lemma {:induction false} SwappedWords(order: ByteOrder, data: seq<byte>)
    requires |data| % 2 == 0
    ensures WordSum(order, SwapBytes(data)) == WordSum(if order.Big? then Little else Big, data)
  {
    if |data| > 0 {
      SwappedWords(order, data[2..]);
      assert SwapBytes(data)[2..] == SwapBytes(data[2..]);
    }
  }

  /** Swapping the two bytes of every word swaps the two bytes of the checksum. */
  lemma SwappingBytesSwapsChecksum(order: ByteOrder, data: seq<byte>)
    requires |data| % 2 == 0
    requires WordSum(Little, data) < TWO32 && WordSum(Big, data) < TWO32
    ensures Sum16(order, [SwapBytes(data)]) == Swap16(Sum16(order, [data]))
  {
    HostOrderSwapsChecksum(data);
    SwappedWords(order, data);
    OneBuffer(order, SwapBytes(data));
    var other := if order.Big? then Little else Big;
    OneBuffer(other, data);
    assert Sum16(order, [SwapBytes(data)]) == Sum16(other, [data]);
    SwapTwice(Sum16(Big, [data]));
  }

  lemma SwapTwice(x: uint16)
    ensures Swap16(Swap16(x)) == x
  {
    Swapped(x);
  }

  // ----- changed bytes -----

  /** Each byte counts in the sum with weight 1 or 256. */
  lemma {:induction false} ByteWeight(order: ByteOrder, data: seq<byte>, i: nat, v: byte) returns (weight: int)
    requires i < |data|
    ensures weight == 1 || weight == 0x100
    ensures WordSum(order, data[i := v]) == WordSum(order, data) + weight * (v - data[i])
  {
    if |data| == 1 || (i < 2 && (i == 0) == order.Big?) {
      weight := 0x100;
    } else if i < 2 {
      weight := 1;
    } else {
      weight := ByteWeight(order, data[2..], i - 2, v);
    }
    if |data| > 1 && i < 2 {
      assert data[i := v][2..] == data[2..];
    } else if i >= 2 {
      assert data[i := v][2..] == data[2..][i - 2 := v];
    }
  }

  /** Changing one byte of a summed buffer always changes its folded sum: the
      difference is 1 or 256 times a byte difference, never 0 mod 65535. */
  lemma ByteChangeShows(sum: nat, changed: nat, weight: int, was: byte, now: byte)
    requires was != now && (weight == 1 || weight == 0x100)
    requires changed == sum + weight * (now - was)
    ensures Canon(changed) != Canon(sum)
  {
    CanonDiffers(sum, changed);
  }

  // ----- changed words -----

  function ReplaceWord(b: seq<byte>, i: nat, u: byte, v: byte): (r: seq<byte>)
    requires i + 1 < |b|
    ensures |r| == |b|
  {
    b[i := u][i + 1 := v]
  }

  /** The word [a, b] and the word [u, v] are the two zeros of one's-complement arithmetic. */
  predicate ZeroExchange(a: byte, b: byte, u: byte, v: byte) {
    a == b && u == v && ((a == 0 && u == 0xFF) || (a == 0xFF && u == 0))
  }

  lemma {:induction false} WordReplaced(order: ByteOrder, data: seq<byte>, i: nat, u: byte, v: byte)
    requires i + 1 < |data| && i % 2 == 0
    ensures WordSum(order, ReplaceWord(data, i, u, v))
            == WordSum(order, data) + Load16(order, u, v) - Load16(order, data[i], data[i + 1])
  {
    var changed := ReplaceWord(data, i, u, v);
    if i == 0 {
      assert changed[2..] == data[2..];
    } else {
      WordReplaced(order, data[2..], i - 2, u, v);
      assert changed[2..] == ReplaceWord(data[2..], i - 2, u, v);
    }
  }

  /** A changed word leaves the folded sum alone exactly when one zero became the other. */
  lemma WordChangeShows(order: ByteOrder, sum: nat, changed: nat, a: byte, b: byte, u: byte, v: byte)
    requires sum > 0 && changed > 0 && [a, b] != [u, v]
    requires changed == sum + Load16(order, u, v) - Load16(order, a, b)
    ensures Canon(changed) == Canon(sum) <==> ZeroExchange(a, b, u, v)
  {
    var was: int, now: int := Load16(order, a, b), Load16(order, u, v);
    LoadApart(order, a, b, u, v);
    CanonEqual(changed, sum);
    NearMultiple(now - was);
  }

  lemma LoadApart(order: ByteOrder, a: byte, b: byte, u: byte, v: byte)
    requires [a, b] != [u, v]
    ensures Load16(order, a, b) != Load16(order, u, v)
    ensures Load16(order, a, b) == 0 <==> a == b == 0
    ensures Load16(order, a, b) == 0xFFFF <==> a == b == 0xFF
    ensures Load16(order, u, v) == 0 <==> u == v == 0
    ensures Load16(order, u, v) == 0xFFFF <==> u == v == 0xFF
  {
    assert a != u || b != v;
  }

  lemma NearMultiple(x: int)
    requires -0xFFFF <= x <= 0xFFFF
    ensures x % 0xFFFF == 0 <==> x == 0 || x == 0xFFFF || x == -0xFFFF
  {
  }

  // ----- the same sum on both hosts -----

  /** The two hosts find congruent sums exactly when the sum is 0 mod 257. */
  lemma SameOnBothHosts(data: seq<byte>)
    requires |data| % 2 == 0
    ensures Canon(WordSum(Little, data)) == Canon(WordSum(Big, data)) <==> WordSum(Big, data) % 257 == 0
  {
    hide WordSum, Canon;
    var little: int, big: int := WordSum(Little, data), WordSum(Big, data);
    HostSums(data);
    CanonEqual(little, big);
    var k := (little - 0x100 * big) / 0xFFFF;
    assert little - big == 0xFF * big + k * 0xFFFF;
    MultipleVanishes(0xFF * big, k);
    Mod257(big);
  }
}
