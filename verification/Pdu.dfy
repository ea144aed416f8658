/** Packets: the layout sendPdu builds (helperFunctions.c), how the receivers read it, and why the checksum seals it. */
module Pdu {
  import opened Bytes
  import opened Checksum

  /** pdu_header with seq in host order; HeaderBytes applies htonl. */
  datatype Header = Header(seqNum: nat, checksum: nat, flag: byte)

  /** A uint16_t as the two bytes the host keeps it in. */
  function StoreWord(order: ByteOrder, w: nat): (r: seq<byte>)
    requires w <= 0xFFFF
    ensures |r| == 2 && Word(order, r[0], r[1]) == w
  {
    if order.BigEndian? then [w / 256, w % 256] else [w % 256, w / 256]
  }

  function HeaderBytes(order: ByteOrder, h: Header): (r: seq<byte>)
    requires h.checksum <= 0xFFFF
    ensures |r| == HEADER_SIZE
  {
    Htonl(h.seqNum) + StoreWord(order, h.checksum) + [h.flag]
  }

  /** The packet sendPdu transmits: checksummed with the header as given, then the checksum stored over it. */
  function Sealed(order: ByteOrder, h: Header, payload: seq<byte>): seq<byte>
    requires h.checksum <= 0xFFFF
  {
    DeferredCarries(order, HeaderBytes(order, h) + payload);
    HeaderBytes(order, h.(checksum := InternetChecksum(order, HeaderBytes(order, h) + payload))) + payload
  }

  /** sendPdu up to the call of sendtoErr: the bytes handed to it, or None for the two -1 returns. */
  method SendPdu(order: ByteOrder, destIsNull: bool, header: Header, payload: seq<byte>)
    returns (sent: Option<seq<byte>>)
    requires header.checksum <= 0xFFFF
    ensures sent ==
            if HEADER_SIZE + |payload| > MAX_PDU_SIZE || destIsNull then None
            else Some(Sealed(order, header, payload))
  {
    var packetLen := HEADER_SIZE + |payload|;
    var packet := new byte[MAX_PDU_SIZE];
    if packetLen > MAX_PDU_SIZE { return None; }
    if destIsNull { return None; }
    var tempHeader := header;
    var head := HeaderBytes(order, tempHeader);
    forall i | 0 <= i < HEADER_SIZE { packet[i] := head[i]; }
    forall i | 0 <= i < |payload| { packet[HEADER_SIZE + i] := payload[i]; }
    assert packet[..packetLen] == head + payload;
    var cksum := InCksum(order, packet, packetLen);
    DeferredCarries(order, head + payload);
    tempHeader := tempHeader.(checksum := cksum);
    head := HeaderBytes(order, tempHeader);
    forall i | 0 <= i < HEADER_SIZE { packet[i] := head[i]; }
    assert packet[..packetLen] == head + payload;
    return Some(packet[..packetLen]);
  }

  function SeqOf(b: seq<byte>): nat
    requires |b| >= HEADER_SIZE
  {
    Ntohl(b[..4])
  }

  function FlagOf(b: seq<byte>): byte
    requires |b| >= HEADER_SIZE
  {
    b[6]
  }

  function PayloadOf(b: seq<byte>): seq<byte>
    requires |b| >= HEADER_SIZE
  {
    b[HEADER_SIZE..]
  }

  lemma {:induction false} WordSumConcat(order: ByteOrder, a: seq<byte>, b: seq<byte>)
    requires |a| % 2 == 0
    ensures WordSum(order, a + b) == WordSum(order, a) + WordSum(order, b)
  {
    if a == [] {
      assert a + b == b;
    } else {
      assert (a + b)[2..] == a[2..] + b;
      WordSumConcat(order, a[2..], b);
    }
  }

  /** The checksum field is one aligned word of the sum; the rest does not depend on it. */
  lemma PacketSum(order: ByteOrder, h: Header, payload: seq<byte>)
    requires h.checksum <= 0xFFFF
    ensures WordSum(order, HeaderBytes(order, h) + payload)
         == WordSum(order, Htonl(h.seqNum)) + h.checksum + WordSum(order, [h.flag] + payload)
  {
    var rest := [h.flag] + payload;
    var field := StoreWord(order, h.checksum);
    assert HeaderBytes(order, h) + payload == Htonl(h.seqNum) + (field + rest);
    WordSumConcat(order, Htonl(h.seqNum), field + rest);
    WordSumConcat(order, field, rest);
    assert field[2..] == [];
  }

  /** The two sums of the packet outside its checksum field. */
  function BareSum(order: ByteOrder, h: Header, payload: seq<byte>): nat {
    WordSum(order, Htonl(h.seqNum)) + WordSum(order, [h.flag] + payload)
  }

  lemma SealedSum(order: ByteOrder, h: Header, payload: seq<byte>)
    requires h.checksum <= 0xFFFF
    ensures WordSum(order, Sealed(order, h, payload))
         == BareSum(order, h, payload) + 0xFFFF - Fold(BareSum(order, h, payload) + h.checksum)
  {
    var first := HeaderBytes(order, h) + payload;
    DeferredCarries(order, first);
    PacketSum(order, h, payload);
    PacketSum(order, h.(checksum := InternetChecksum(order, first)), payload);
  }

  lemma ComplementCancels(bare: nat, k: nat)
    requires k <= 0xFFFF
    ensures var total := bare + 0xFFFF - Fold(bare + k);
            (total > 0 && total % 0xFFFF == 0) == (k == 0 || (k == 0xFFFF && bare > 0))
  {
    var q := FoldQuotient(bare + k);
    var total := bare + 0xFFFF - Fold(bare + k);
    assert total == (1 + q) * 0xFFFF - k;
    if k == 0xFFFF {
      assert total == q * 0xFFFF;
    } else if k > 0 {
      assert total == q * 0xFFFF + (0xFFFF - k);
      assert total % 0xFFFF == 0xFFFF - k;
    }
  }

  /**
   Self-verification, with its exact condition: the packet sendPdu builds
   passes in_cksum if and only if the caller passed a header whose checksum
   field was a ones' complement zero (0, or 0xFFFF over a non-zero packet).
   */
  lemma SealedVerifiesIff(order: ByteOrder, h: Header, payload: seq<byte>)
    requires h.checksum <= 0xFFFF
    ensures Verifies(order, Sealed(order, h, payload))
            <==> (h.checksum == 0 || (h.checksum == 0xFFFF && BareSum(order, h, payload) > 0))
  {
    SealedSum(order, h, payload);
    VerifiesIff(order, Sealed(order, h, payload));
    ComplementCancels(BareSum(order, h, payload), h.checksum);
  }

  /** What every caller of sendPdu gets: a verifying packet that parses back to its seq, flag and payload. */
  lemma SealedRoundTrip(order: ByteOrder, seqNum: nat, flag: byte, payload: seq<byte>)
    requires seqNum < TWO_32
    ensures var b := Sealed(order, Header(seqNum, 0, flag), payload);
            && |b| == HEADER_SIZE + |payload|
            && Verifies(order, b) && Verifies(Other(order), b)
            && SeqOf(b) == seqNum && FlagOf(b) == flag && PayloadOf(b) == payload
  {
    var h := Header(seqNum, 0, flag);
    var b := Sealed(order, h, payload);
    SealedVerifiesIff(order, h, payload);
    VerifiesOnEitherOrder(order, b);
    NtohlHtonl(seqNum);
    assert b[..4] == Htonl(seqNum);
  }

  /** Changing byte i moves the word sum by the byte's weight, 1 or 256, times the difference. */
  lemma {:induction false} WordSumByteChange(order: ByteOrder, b: seq<byte>, i: nat, v: byte)
    requires i < |b|
    ensures WordSum(order, b[i := v])
         == WordSum(order, b) + (if (i % 2 == 0) == order.BigEndian? then 256 else 1) * (v as int - b[i] as int)
  {
    if i >= 2 {
      assert b[i := v][2..] == b[2..][i - 2 := v];
      WordSumByteChange(order, b[2..], i - 2, v);
    } else if |b| >= 2 {
      assert b[i := v][2..] == b[2..];
    }
  }

  /** Every change of a single byte of a packet that verifies is detected. */
  lemma ByteChangeDetected(order: ByteOrder, b: seq<byte>, i: nat, v: byte)
    requires Verifies(order, b) && i < |b| && v != b[i]
    ensures !Verifies(order, b[i := v])
  {
    VerifiesIff(order, b);
    VerifiesIff(order, b[i := v]);
    WordSumByteChange(order, b, i, v);
    NotAMultiple(WordSum(order, b), WordSum(order, b[i := v]));
  }

  lemma NotAMultiple(n: nat, m: nat)
    requires n % 0xFFFF == 0 && n != m && -0xFFFF < m - n < 0xFFFF
    ensures m % 0xFFFF != 0
  {
  }

  predicate AllZero(b: seq<byte>) {
    forall i | 0 <= i < |b| :: b[i] == 0
  }

  lemma {:induction false} AllZeroIff(order: ByteOrder, b: seq<byte>)
    ensures AllZero(b) <==> WordSum(order, b) == 0
  {
    if |b| >= 2 {
      AllZeroIff(order, b[2..]);
      assert AllZero(b) <==> b[0] == 0 && b[1] == 0 && AllZero(b[2..]) by {
        if b[0] == 0 && b[1] == 0 && AllZero(b[2..]) {
          forall i | 0 <= i < |b| ensures b[i] == 0 {
            if i >= 2 { assert b[2..][i - 2] == 0; }
          }
        }
      }
    }
  }

  /** Replaces the aligned word that starts at byte 2 * k. */
  function SetWord(order: ByteOrder, b: seq<byte>, k: nat, w: nat): (r: seq<byte>)
    requires 2 * k + 1 < |b| && w <= 0xFFFF
    ensures |r| == |b|
  {
    b[2 * k := StoreWord(order, w)[0]][2 * k + 1 := StoreWord(order, w)[1]]
  }

  lemma WordSumWordChange(order: ByteOrder, b: seq<byte>, k: nat, w: nat)
    requires 2 * k + 1 < |b| && w <= 0xFFFF
    ensures WordSum(order, SetWord(order, b, k, w)) == WordSum(order, b) + w - Word(order, b[2 * k], b[2 * k + 1])
  {
    var store := StoreWord(order, w);
    WordSumByteChange(order, b, 2 * k, store[0]);
    WordSumByteChange(order, b[2 * k := store[0]], 2 * k + 1, store[1]);
  }

  /** Moving a multiple of 0xFFFF by w - was reaches another one exactly over the full distance. */
  lemma WordDelta(n: nat, was: nat, w: nat)
    requires n % 0xFFFF == 0 && was <= 0xFFFF && w <= 0xFFFF && w != was && n + w - was >= 0
    ensures ((n + w - was) % 0xFFFF == 0) == ({w, was} == {0, 0xFFFF})
  {
    if {w, was} == {0, 0xFFFF} {
      assert w in {0, 0xFFFF} && was in {0, 0xFFFF};
      assert n + w - was == n + 0xFFFF || n + w - was == n - 0xFFFF;
    } else {
      assert w - was == 0xFFFF ==> w in {w, was} && {w, was} == {0, 0xFFFF};
      assert w - was == -0xFFFF ==> {w, was} == {0, 0xFFFF};
      NotAMultiple(n, n + w - was);
    }
  }

  /**
   Changing one aligned 16-bit word of a packet that verifies stays undetected
   exactly when the word goes from one of 0x0000 and 0xFFFF to the other and
   the changed packet is not all zero.
   */
  lemma WordChangeUndetectedIff(order: ByteOrder, b: seq<byte>, k: nat, w: nat)
    requires Verifies(order, b) && 2 * k + 1 < |b| && w <= 0xFFFF
    requires w != Word(order, b[2 * k], b[2 * k + 1])
    ensures Verifies(order, SetWord(order, b, k, w))
            <==> ({w, Word(order, b[2 * k], b[2 * k + 1])} == {0, 0xFFFF} && !AllZero(SetWord(order, b, k, w)))
  {
    var c := SetWord(order, b, k, w);
    VerifiesIff(order, b);
    VerifiesIff(order, c);
    AllZeroIff(order, c);
    WordSumWordChange(order, b, k, w);
    WordDelta(WordSum(order, b), Word(order, b[2 * k], b[2 * k + 1]), w);
  }
}
