/** The protocol's messages as packets, and why the lossy, corrupting channel is the network of module Protocol. */
module Wire {
  import opened Bytes
  import opened Checksum
  import opened Pdu
  import opened PacketManager
  import opened WindowBuffer
  import opened Protocol
  import opened Loops
  import opened Chunks
  import opened Invariant
  import opened Safety

  const FLAG_RR: byte := 5
  const FLAG_SREJ: byte := 6
  const FLAG_EOF: byte := 10
  const FLAG_DATA: byte := 16

  /** send_data_packet and send_eof_packet through sendPdu. */
  function MsgPacket(order: ByteOrder, m: Msg): seq<byte> {
    Sealed(order, Header(m.seqNum, 0, if m.Eof? then FLAG_EOF else FLAG_DATA), m.payload)
  }

  /** sendRR, sendSREJ and sendEOF through sendPdu; the acknowledgement of EOF always has number 0. */
  function AckPacket(order: ByteOrder, a: Ack): seq<byte> {
    match a
    case RR(n) => Sealed(order, Header(n, 0, FLAG_RR), Ascii("RR"))
    case SREJ(n) => Sealed(order, Header(n, 0, FLAG_SREJ), Ascii("SREJ"))
    case EofAck => Sealed(order, Header(0, 0, FLAG_EOF), Ascii("EOF_ACK"))
  }

  /** How the receiver takes a received packet: any flag but EOF's is data. */
  function ReceivedByClient(order: ByteOrder, b: seq<byte>): Arrival<Msg>
    requires |b| >= HEADER_SIZE
  {
    if !Verifies(order, b) then Corrupt
    else if FlagOf(b) == FLAG_EOF then Intact(Eof(SeqOf(b), PayloadOf(b)))
    else Intact(Data(SeqOf(b), PayloadOf(b)))
  }

  /** How the server takes a received packet; one with an unknown flag is ignored like a corrupt one. */
  function ReceivedByServer(order: ByteOrder, b: seq<byte>): Arrival<Ack>
    requires |b| >= HEADER_SIZE
  {
    if !Verifies(order, b) then Corrupt
    else if FlagOf(b) == FLAG_RR then Intact(RR(SeqOf(b)))
    else if FlagOf(b) == FLAG_SREJ then Intact(SREJ(SeqOf(b)))
    else if FlagOf(b) == FLAG_EOF then Intact(EofAck)
    else Corrupt
  }

  // ----- The calls that turn messages into packets and packets into messages -----

  method SendRR(order: ByteOrder, n: nat) returns (sent: Option<seq<byte>>)
    ensures sent == Some(AckPacket(order, RR(n)))
  {
    sent := SendPdu(order, false, Header(n, 0, FLAG_RR), Ascii("RR"));
  }

  method SendSREJ(order: ByteOrder, n: nat) returns (sent: Option<seq<byte>>)
    ensures sent == Some(AckPacket(order, SREJ(n)))
  {
    sent := SendPdu(order, false, Header(n, 0, FLAG_SREJ), Ascii("SREJ"));
  }

  method SendEOF(order: ByteOrder) returns (sent: Option<seq<byte>>)
    ensures sent == Some(AckPacket(order, EofAck))
  {
    sent := SendPdu(order, false, Header(0, 0, FLAG_EOF), Ascii("EOF_ACK"));
  }

  /** The receive-side test and the reading of the header in stateFileReceive. */
  method TakeAtClient(order: ByteOrder, packet: array<byte>, packetLen: nat) returns (a: Arrival<Msg>)
    requires HEADER_SIZE <= packetLen <= packet.Length && packetLen <= MAX_PDU_SIZE
    ensures a == ReceivedByClient(order, packet[..packetLen])
  {
    var cksum := InCksum(order, packet, packetLen);
    if cksum != 0 { return Corrupt; }
    var seqNum := Ntohl(packet[..4]);
    assert packet[..packetLen][..4] == packet[..4];
    var payload := packet[HEADER_SIZE..packetLen];
    assert packet[..packetLen][HEADER_SIZE..] == payload;
    return Intact(if packet[6] == FLAG_EOF then Eof(seqNum, payload) else Data(seqNum, payload));
  }

  /** The receive-side test and the reading of the header in the server's main loop. */
  method TakeAtServer(order: ByteOrder, buffer: array<byte>, recvLen: nat) returns (a: Arrival<Ack>)
    requires HEADER_SIZE <= recvLen <= buffer.Length && recvLen <= MAX_PDU_SIZE
    ensures a == ReceivedByServer(order, buffer[..recvLen])
  {
    var cksum := InCksum(order, buffer, recvLen);
    if cksum != 0 { return Corrupt; }
    var ackSeq := Ntohl(buffer[..4]);
    assert buffer[..recvLen][..4] == buffer[..4];
    var flag := buffer[6];
    return if flag == FLAG_RR then Intact(RR(ackSeq))
           else if flag == FLAG_SREJ then Intact(SREJ(ackSeq))
           else if flag == FLAG_EOF then Intact(EofAck)
           else Corrupt;
  }

  /** The flags on the wire: RR 5, SREJ 6, EOF and its acknowledgement 10, data 16; the acknowledgement is numbered 0. */
  lemma FlagsOnTheWire(order: ByteOrder, m: Msg, n: nat)
    requires m.seqNum < TWO_32 && n < TWO_32
    ensures FlagOf(MsgPacket(order, m)) == (if m.Eof? then 10 else 16) && SeqOf(MsgPacket(order, m)) == m.seqNum
    ensures FlagOf(AckPacket(order, RR(n))) == 5 && SeqOf(AckPacket(order, RR(n))) == n
    ensures FlagOf(AckPacket(order, SREJ(n))) == 6 && SeqOf(AckPacket(order, SREJ(n))) == n
    ensures FlagOf(AckPacket(order, EofAck)) == 10 && SeqOf(AckPacket(order, EofAck)) == 0
  {
    SealedRoundTrip(order, m.seqNum, if m.Eof? then FLAG_EOF else FLAG_DATA, m.payload);
    SealedRoundTrip(order, n, FLAG_RR, Ascii("RR"));
    SealedRoundTrip(order, n, FLAG_SREJ, Ascii("SREJ"));
    SealedRoundTrip(order, 0, FLAG_EOF, Ascii("EOF_ACK"));
  }

  /** What comes out of one send of a packet: nothing, or these bytes. */
  ghost predicate MayArrive(packet: seq<byte>, arrived: seq<byte>) {
    exists standard, chance, msgNo, c ::
      ArrivesBy(packet, arrived, standard, chance, msgNo, c)
  }

  ghost predicate ArrivesBy(packet: seq<byte>, arrived: seq<byte>,
                            standard: seq<Effect>, chance: seq<Effect>, msgNo: nat, c: Choice) {
    && NoFlips(standard) && ChoiceFits(c, standard, chance, |packet|)
    && Transmitted(standard, chance, packet, msgNo, c) == Some(arrived)
  }

  lemma ArrivedIsSentOrRejected(order: ByteOrder, packet: seq<byte>, arrived: seq<byte>)
    requires MayArrive(packet, arrived) && Verifies(order, packet)
    ensures |arrived| == |packet| && (Verifies(order, arrived) ==> arrived == packet)
  {
    var standard, chance, msgNo, c :| ArrivesBy(packet, arrived, standard, chance, msgNo, c);
    AcceptedMeansUnaltered(standard, chance, packet, msgNo, c, order);
  }

  /**
   The network abstraction is sound towards the receiver: whatever arrives of a
   message is taken as that message or as a corrupted packet, on a host of
   either byte order.
   */
  lemma ClientGetsMessageOrCorruption(from: ByteOrder, to: ByteOrder, m: Msg, arrived: seq<byte>)
    requires m.seqNum < TWO_32 && MayArrive(MsgPacket(from, m), arrived)
    ensures |arrived| == HEADER_SIZE + |m.payload|
    ensures ReceivedByClient(to, arrived) in {Corrupt, Intact(m)}
    ensures arrived == MsgPacket(from, m) ==> ReceivedByClient(to, arrived) == Intact(m)
  {
    var flag := if m.Eof? then FLAG_EOF else FLAG_DATA;
    SealedRoundTrip(from, m.seqNum, flag, m.payload);
    ArrivedIsSentOrRejected(to, MsgPacket(from, m), arrived);
  }

  lemma ServerGetsAckOrCorruption(from: ByteOrder, to: ByteOrder, a: Ack, arrived: seq<byte>)
    requires (a.EofAck? || a.seqNum < TWO_32) && MayArrive(AckPacket(from, a), arrived)
    ensures |arrived| >= HEADER_SIZE
    ensures ReceivedByServer(to, arrived) in {Corrupt, Intact(a)}
    ensures arrived == AckPacket(from, a) ==> ReceivedByServer(to, arrived) == Intact(a)
  {
    match a {
      case RR(n) => SealedRoundTrip(from, n, FLAG_RR, Ascii("RR"));
      case SREJ(n) => SealedRoundTrip(from, n, FLAG_SREJ, Ascii("SREJ"));
      case EofAck => SealedRoundTrip(from, 0, FLAG_EOF, Ascii("EOF_ACK"));
    }
    ArrivedIsSentOrRejected(to, AckPacket(from, a), arrived);
  }

  /** Every message of a clean reachable state fits a packet, with room in the number field to spare. */
  lemma MessagesFitPackets(c: Config, y: System)
    requires Reachable(c, y)
    ensures forall m | m in y.toClient :: m.seqNum < NO_SEQ && HEADER_SIZE + |m.payload| <= MAX_PDU_SIZE
    ensures forall a | a in y.toServer && !a.EofAck? :: a.seqNum < NO_SEQ
  {
    ReachableInv(c, y);
    EofSeqBounds(c);
    ExpectedBounds(c, y);
    forall m | m in y.toClient ensures m.seqNum < NO_SEQ && HEADER_SIZE + |m.payload| <= MAX_PDU_SIZE {
      assert MsgOk(c, y.server, y.client.expectedSeq, m);
    }
    forall a | a in y.toServer && !a.EofAck? ensures a.seqNum < NO_SEQ {
      assert AckOk(y.client, a);
    }
  }
}
