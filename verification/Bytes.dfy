/** The byte type, the buffer limits of the program, and big-endian 32-bit words. */
module Bytes {

  type byte = b: int | 0 <= b < 256

  datatype Option<+T> = None | Some(value: T)

  const MAX_PDU_SIZE := 1407
  const MAX_PAYLOAD := 1400
  const HEADER_SIZE := 7
  const TWO_32 := 0x1_0000_0000

  /** b[..|prefix|] is overwritten with prefix, as memcpy and fread do; the rest keeps its old bytes. */
  function Overlay(prefix: seq<byte>, b: seq<byte>): (r: seq<byte>)
    requires |prefix| <= |b|
    ensures |r| == |b| && r[..|prefix|] == prefix
  {
    prefix + b[|prefix|..]
  }

  predicate StartsWith(b: seq<byte>, prefix: seq<byte>) {
    |prefix| <= |b| && b[..|prefix|] == prefix
  }

  /** The bytes of a C string literal, without its closing zero. */
  function Ascii(text: string): (r: seq<byte>)
    requires forall i | 0 <= i < |text| :: text[i] < 128 as char
    ensures |r| == |text|
  {
    seq(|text|, i requires 0 <= i < |text| => text[i] as int)
  }

  /** htonl of an int or uint32_t, as the four bytes it leaves in memory. */
  function Htonl(n: int): (r: seq<byte>)
    ensures |r| == 4
  {
    var u := n % TWO_32;
    [u / 0x100_0000, u / 0x1_0000 % 256, u / 256 % 256, u % 256]
  }

  function Ntohl(b: seq<byte>): (r: nat)
    requires |b| == 4
    ensures r < TWO_32
  {
    b[0] as nat * 0x100_0000 + b[1] as nat * 0x1_0000 + b[2] as nat * 256 + b[3] as nat
  }

  /** The network byte order round trip gives back the value modulo 2^32. */
  lemma NtohlHtonl(n: int)
    ensures Ntohl(Htonl(n)) == n % TWO_32
    ensures 0 <= n < TWO_32 ==> Ntohl(Htonl(n)) == n
  {
    var u := n % TWO_32;
    var q1, q2 := u / 256, u / 0x1_0000;
    assert q2 == q1 / 256;
    assert u / 0x100_0000 == q2 / 256;
    assert u == 256 * q1 + u % 256;
    assert q1 == 256 * q2 + q1 % 256;
    assert q2 == 256 * (q2 / 256) + q2 % 256;
  }

  /** Network order is most significant byte first. */
  lemma NetworkOrder()
    ensures Htonl(0x0102_0304) == [1, 2, 3, 4] && Ntohl([1, 2, 3, 4]) == 0x0102_0304
  {
  }
}
