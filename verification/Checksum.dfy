/**
 The Internet checksum of libcpe464/checksum.c, and the ones' complement sum
 of RFC 1071 sections 1 and 2 that it is meant to compute.
 */
module Checksum {
  import opened Bytes

  /** How the host stores a 16-bit word: RFC 1071 section 2 (B) is about both. */
  datatype ByteOrder = LittleEndian | BigEndian

  function Word(order: ByteOrder, first: byte, second: byte): (w: nat)
    ensures w <= 0xFFFF
  {
    if order.BigEndian? then first * 256 + second else first + second * 256
  }

  /** The plain sum of the 16-bit words of b, an odd last byte being followed by a zero byte. */
  function WordSum(order: ByteOrder, b: seq<byte>): nat {
    if |b| == 0 then 0
    else if |b| == 1 then Word(order, b[0], 0)
    else Word(order, b[0], b[1]) + WordSum(order, b[2..])
  }

  /** RFC 1071 section 1: ones' complement addition is addition with end-around carry. */
  function EndAroundAdd(x: nat, y: nat): nat {
    if x + y > 0xFFFF then x + y - 0xFFFF else x + y
  }

  /** The reference: the words added one by one with end-around carry. */
  function OnesSum(order: ByteOrder, b: seq<byte>): nat {
    if |b| == 0 then 0
    else if |b| == 1 then Word(order, b[0], 0)
    else EndAroundAdd(Word(order, b[0], b[1]), OnesSum(order, b[2..]))
  }

  /** The checksum of RFC 1071: the complement of the ones' complement sum. */
  function InternetChecksum(order: ByteOrder, b: seq<byte>): int {
    0xFFFF - OnesSum(order, b)
  }

  /** The representative of n in 1..0xFFFF modulo 0xFFFF; only 0 maps to 0. */
  function Fold(n: nat): (r: nat)
    ensures r <= 0xFFFF
    ensures r == 0 <==> n == 0
  {
    if n == 0 then 0 else 1 + (n - 1) % 0xFFFF
  }

  /** Fold is determined by the residue and by being zero. */
  lemma FoldUnique(n: nat, r: nat, k: int)
    requires r <= 0xFFFF && (r == 0 <==> n == 0) && n == r + k * 0xFFFF
    ensures Fold(n) == r
  {
    if n != 0 {
      assert n - 1 == (r - 1) + k * 0xFFFF;
      assert (n - 1) % 0xFFFF == r - 1;
    }
  }

  lemma FoldQuotient(n: nat) returns (k: int)
    ensures n == Fold(n) + k * 0xFFFF
  {
    k := if n == 0 then 0 else (n - 1) / 0xFFFF;
  }

  lemma FoldAdd(x: nat, n: nat)
    requires x <= 0xFFFF
    ensures Fold(x + n) == EndAroundAdd(x, Fold(n))
  {
    var k := FoldQuotient(n);
    var r := EndAroundAdd(x, Fold(n));
    if x + Fold(n) > 0xFFFF {
      FoldUnique(x + n, r, k + 1);
    } else {
      FoldUnique(x + n, r, k);
    }
  }

  /** Deferring the carries changes nothing: folding the plain sum gives the reference sum. */
  lemma {:induction false} DeferredCarries(order: ByteOrder, b: seq<byte>)
    ensures OnesSum(order, b) == Fold(WordSum(order, b)) <= 0xFFFF
  {
    if |b| == 0 {
    } else if |b| == 1 {
      FoldUnique(Word(order, b[0], 0), Word(order, b[0], 0), 0);
    } else {
      DeferredCarries(order, b[2..]);
      FoldAdd(Word(order, b[0], b[1]), WordSum(order, b[2..]));
    }
  }

  /** A buffer of at most 65536 bytes cannot overflow the signed 32-bit accumulator. */
  lemma {:induction false} AccumulatorBound(order: ByteOrder, b: seq<byte>)
    ensures WordSum(order, b) <= 0xFFFF * ((|b| + 1) / 2)
    ensures |b| <= 0x1_0000 ==> WordSum(order, b) <= 0x7FFF_FFFF
  {
    if |b| >= 2 {
      AccumulatorBound(order, b[2..]);
    }
  }

  /** Exactly two folds are enough for any value of the 31-bit accumulator. */
  lemma TwoFolds(sum: nat)
    requires sum <= 0x7FFF_FFFF
    ensures var once := sum / 0x1_0000 + sum % 0x1_0000;
            (once + once / 0x1_0000) % 0x1_0000 == Fold(sum)
  {
    var once := sum / 0x1_0000 + sum % 0x1_0000;
    assert sum == once + (sum / 0x1_0000) * 0xFFFF;
    if once > 0xFFFF {
      assert once / 0x1_0000 == 1;
      FoldUnique(sum, once - 0xFFFF, sum / 0x1_0000 + 1);
    } else {
      FoldUnique(sum, once, sum / 0x1_0000);
    }
  }

  /**
   in_cksum over the first len bytes of addr. The carries are deferred to the
   end and folded exactly twice, in place; the result is still the RFC 1071
   checksum. The shift and mask of the non-negative 32-bit accumulator are
   written as division and remainder.
   */
  method InCksum(order: ByteOrder, addr: array<byte>, len: nat) returns (answer: nat)
    requires len <= addr.Length && len <= 0x1_0000
    ensures answer == InternetChecksum(order, addr[..len])
  {
    ghost var all := addr[..len];
    AccumulatorBound(order, all);
    var sum := 0;
    var w := 0;
    var nleft := len;
    while nleft > 1
      invariant 0 <= w && 0 <= nleft && w + nleft == len
      invariant sum >= 0 && sum + WordSum(order, all[w..]) == WordSum(order, all)
    {
      assert all[w..][2..] == all[w + 2..];
      sum := sum + Word(order, addr[w], addr[w + 1]);
      assert sum <= 0x7FFF_FFFF;
      w := w + 2;
      nleft := nleft - 2;
    }
    if nleft == 1 {
      sum := sum + Word(order, addr[w], 0);
    }
    assert sum == WordSum(order, all);
    TwoFolds(sum);
    DeferredCarries(order, all);
    sum := sum / 0x1_0000 + sum % 0x1_0000;
    sum := sum + sum / 0x1_0000;
    answer := 0xFFFF - sum % 0x1_0000;
  }

  /** The receive-side test: in_cksum returned zero. */
  predicate Verifies(order: ByteOrder, b: seq<byte>) {
    InternetChecksum(order, b) == 0
  }

  /** A buffer verifies exactly when its word sum is a positive multiple of 0xFFFF. */
  lemma VerifiesIff(order: ByteOrder, b: seq<byte>)
    ensures Verifies(order, b) <==> WordSum(order, b) > 0 && WordSum(order, b) % 0xFFFF == 0
  {
    DeferredCarries(order, b);
    var n := WordSum(order, b);
    if n > 0 {
      assert n == 1 + (n - 1) % 0xFFFF + ((n - 1) / 0xFFFF) * 0xFFFF;
    }
  }

  /** An odd last byte is summed as if a zero byte followed it. */
  lemma {:induction false} OddByteIsZeroPadded(order: ByteOrder, b: seq<byte>)
    requires |b| % 2 == 1
    ensures InternetChecksum(order, b) == InternetChecksum(order, b + [0])
  {
    if |b| == 1 {
      assert (b + [0])[2..] == [];
      assert OnesSum(order, b + [0]) == EndAroundAdd(Word(order, b[0], 0), 0);
    } else {
      OddByteIsZeroPadded(order, b[2..]);
      assert (b + [0])[2..] == b[2..] + [0];
    }
  }

  function Swap(w: nat): nat
    requires w <= 0xFFFF
  {
    w % 256 * 256 + w / 256
  }

  function Other(order: ByteOrder): ByteOrder {
    if order.BigEndian? then LittleEndian else BigEndian
  }

  /** Swapping the bytes of a word multiplies it by 256 modulo 0xFFFF. */
  lemma SwapIsTimes256(w: nat)
    requires w <= 0xFFFF
    ensures 0 <= Swap(w) <= 0xFFFF && (Swap(w) == 0 <==> w == 0)
    ensures 256 * w == Swap(w) + w / 256 * 0xFFFF
  {
    var h, l := w / 256, w % 256;
    assert w == 256 * h + l;
  }

  lemma SwapEndAround(x: nat, y: nat)
    requires x <= 0xFFFF && y <= 0xFFFF
    ensures Swap(EndAroundAdd(x, y)) == EndAroundAdd(Swap(x), Swap(y))
  {
    var z := EndAroundAdd(x, y);
    SwapIsTimes256(x);
    SwapIsTimes256(y);
    SwapIsTimes256(z);
    var r := EndAroundAdd(Swap(x), Swap(y));
    var carryIn := if x + y > 0xFFFF then 256 else 0;
    var carryOut := if Swap(x) + Swap(y) > 0xFFFF then 1 else 0;
    FoldUnique(256 * z, Swap(z), z / 256);
    FoldUnique(256 * z, r, x / 256 + y / 256 + carryOut - carryIn);
  }

  lemma SwapWord(order: ByteOrder, first: byte, second: byte)
    ensures Word(Other(order), first, second) == Swap(Word(order, first, second))
  {
  }

  /** RFC 1071 section 2 (B): the other byte order gives the byte-swapped sum. */
  lemma {:induction false} ByteOrderIndependence(order: ByteOrder, b: seq<byte>)
    ensures OnesSum(order, b) <= 0xFFFF
    ensures OnesSum(Other(order), b) == Swap(OnesSum(order, b))
  {
    DeferredCarries(order, b);
    if |b| == 1 {
      SwapWord(order, b[0], 0);
    } else if |b| >= 2 {
      DeferredCarries(order, b[2..]);
      ByteOrderIndependence(order, b[2..]);
      SwapWord(order, b[0], b[1]);
      SwapEndAround(Word(order, b[0], b[1]), OnesSum(order, b[2..]));
    }
  }

  /** Hosts of either byte order accept the same buffers. */
  lemma VerifiesOnEitherOrder(order: ByteOrder, b: seq<byte>)
    ensures Verifies(order, b) <==> Verifies(Other(order), b)
  {
    ByteOrderIndependence(order, b);
  }

  /** The worked example of RFC 1071 section 3, in both byte orders. */
  lemma Rfc1071Example()
    ensures var b: seq<byte> := [0x00, 0x01, 0xF2, 0x03, 0xF4, 0xF5, 0xF6, 0xF7];
            OnesSum(BigEndian, b) == 0xDDF2 && OnesSum(LittleEndian, b) == 0xF2DD
            && InternetChecksum(BigEndian, b) == 0x220D
  {
    var b: seq<byte> := [0x00, 0x01, 0xF2, 0x03, 0xF4, 0xF5, 0xF6, 0xF7];
    assert b[2..][2..] == b[4..] && b[4..][2..] == b[6..] && b[6..][2..] == [];
    assert OnesSum(BigEndian, b[6..]) == 0xF6F7;
    assert OnesSum(BigEndian, b[4..]) == EndAroundAdd(0xF4F5, 0xF6F7) == 0xEBED;
    assert OnesSum(BigEndian, b[2..]) == EndAroundAdd(0xF203, 0xEBED) == 0xDDF1;
    ByteOrderIndependence(BigEndian, b);
  }
}
