/** The filename request: sendFilename (rcopy.c) encodes it, processClient (server.c) decodes it. */
module FilenameRequest {
  import opened Bytes
  import opened Checksum
  import opened Pdu
  import opened PacketManager

  const MAX_FILENAME := 100
  const FLAG_REQUEST: byte := 8
  const FLAG_REQUEST_ACK: byte := 9

  datatype Request = Request(winSize: int, bufSize: int, name: seq<byte>)

  /** The payload: both sizes as uint32_t in network order, the uint8_t name length, that many bytes of the name. */
  function Encode(r: Request): seq<byte> {
    Htonl(r.winSize) + Htonl(r.bufSize) + [|r.name| % 256] + r.name[..|r.name| % 256]
  }

  /** sendFilename fills its buffer with a moving offset and hands it to sendPdu. */
  method SendFilename(order: ByteOrder, destIsNull: bool, filename: seq<byte>, buffersize: int, windowsize: int)
    returns (sent: Option<seq<byte>>)
    ensures sent ==
            if destIsNull then None
            else Some(Sealed(order, Header(0, 0, 8), Encode(Request(windowsize, buffersize, filename))))
  {
    var pdu := new byte[MAX_PDU_SIZE - HEADER_SIZE];
    var pduLen := 0;
    var filenameLen := |filename| % 256;
    var buffSize, windSize := Htonl(buffersize), Htonl(windowsize);
    forall i | 0 <= i < 4 { pdu[pduLen + i] := windSize[i]; }
    pduLen := pduLen + 4;
    forall i | 0 <= i < 4 { pdu[pduLen + i] := buffSize[i]; }
    pduLen := pduLen + 4;
    pdu[pduLen] := filenameLen;
    pduLen := pduLen + 1;
    forall i | 0 <= i < filenameLen { pdu[pduLen + i] := filename[i]; }
    pduLen := pduLen + filenameLen;
    assert pdu[..pduLen] == Encode(Request(windowsize, buffersize, filename));
    sent := SendPdu(order, destIsNull, Header(0, 0, FLAG_REQUEST), pdu[..pduLen]);
  }

  /** What processClient reads from a packet of dataLen bytes at the front of its receive buffer. */
  function Decode(buffer: seq<byte>, dataLen: nat): Option<Request>
    requires |buffer| == MAX_PDU_SIZE + 1
  {
    if FlagOf(buffer) != FLAG_REQUEST || dataLen < HEADER_SIZE + 9 then None
    else Some(Request(Ntohl(buffer[7..11]), Ntohl(buffer[11..15]), buffer[16..16 + buffer[15] as nat]))
  }

  class ChildContext {
    var winSize: int
    var bufSize: int
    const filename: array<byte>

    constructor ()
      ensures fresh(filename) && filename.Length == MAX_FILENAME + 1
    {
      winSize, bufSize := 0, 0;
      filename := new byte[MAX_FILENAME + 1];
    }

    /**
     processClient: fills the context from a well-formed request and answers
     it; readable is the result of lookupFilename. The name in a request must
     fit the context's buffer, as rcopy's checkArgs makes sure.
     */
    method ProcessClient(order: ByteOrder, dataLen: nat, buffer: array<byte>, readable: bool)
      returns (result: int, reply: Option<seq<byte>>)
      requires buffer.Length == MAX_PDU_SIZE + 1 && filename.Length == MAX_FILENAME + 1 && buffer != filename
      requires Decode(buffer[..], dataLen).Some? ==> |Decode(buffer[..], dataLen).value.name| <= MAX_FILENAME
      modifies this, filename
      ensures Decode(buffer[..], dataLen).None? ==>
                && result == -1 && reply == None
                && winSize == old(winSize) && bufSize == old(bufSize) && filename[..] == old(filename[..])
      ensures Decode(buffer[..], dataLen).Some? ==>
                var r := Decode(buffer[..], dataLen).value;
                && winSize == r.winSize && bufSize == r.bufSize
                && filename[..] == Overlay(r.name + [0], old(filename[..]))
                && result == (if readable then 0 else -1)
                && reply == Some(Sealed(order, Header(0, 0, 9), if readable then Ascii("Ok") else Ascii("Not Ok")))
    {
      if buffer[6] == FLAG_REQUEST {
        if dataLen < HEADER_SIZE + 9 { return -1, None; }
        winSize := Ntohl(buffer[7..11]);
        bufSize := Ntohl(buffer[11..15]);
        var nameLen := buffer[HEADER_SIZE + 8];
        assert |buffer[16..16 + nameLen as nat]| == nameLen;
        forall i | 0 <= i < nameLen { filename[i] := buffer[HEADER_SIZE + 9 + i]; }
        filename[nameLen] := 0;
        assert filename[..nameLen] == buffer[16..16 + nameLen as nat];
        var msg := if readable then Ascii("Ok") else Ascii("Not Ok");
        reply := SendPdu(order, false, Header(0, 0, FLAG_REQUEST_ACK), msg);
        return if msg == Ascii("Ok") then 0 else -1, reply;
      }
      return -1, None;
    }
  }

  /**
   The request round trip with its exact condition: whatever bytes the receive
   buffer held behind the packet, the server decodes the three values rcopy
   was given if and only if both sizes are uint32_t values and the length of
   the name fits a uint8_t. The length check never rejects an encoded request.
   */
  lemma RequestRoundTripIff(order: ByteOrder, r: Request, buffer: seq<byte>)
    requires |buffer| == MAX_PDU_SIZE + 1
    requires StartsWith(buffer, Sealed(order, Header(0, 0, FLAG_REQUEST), Encode(r)))
    ensures var d := Decode(buffer, HEADER_SIZE + |Encode(r)|);
            && d.Some?
            && (d.value == r <==> (0 <= r.winSize < TWO_32 && 0 <= r.bufSize < TWO_32 && |r.name| < 256))
  {
    var packet := Sealed(order, Header(0, 0, FLAG_REQUEST), Encode(r));
    SealedRoundTrip(order, 0, FLAG_REQUEST, Encode(r));
    NtohlHtonl(r.winSize);
    NtohlHtonl(r.bufSize);
    assert PayloadOf(packet) == Encode(r);
    assert forall i | 0 <= i < |packet| :: buffer[i] == packet[i];
    assert buffer[7..11] == PayloadOf(packet)[..4] == Htonl(r.winSize);
    assert buffer[11..15] == PayloadOf(packet)[4..8] == Htonl(r.bufSize);
    assert buffer[15] == Encode(r)[8] == |r.name| % 256;
    assert buffer[16..16 + |r.name| % 256] == Encode(r)[9..] == r.name[..|r.name| % 256];
  }

  /**
   End to end: a request that the server's in_cksum test accepts after the
   channel had its way with it gives the server rcopy's own window size,
   buffer size and file name, for every name checkArgs lets through.
   */
  lemma BothEndsAgree(order: ByteOrder, r: Request, standard: seq<Effect>, chance: seq<Effect>, msgNo: nat, c: Choice,
                      buffer: seq<byte>)
    requires 0 <= r.winSize < TWO_32 && 0 <= r.bufSize < TWO_32 && |r.name| < MAX_FILENAME
    requires var packet := Sealed(order, Header(0, 0, FLAG_REQUEST), Encode(r));
             && ChoiceFits(c, standard, chance, |packet|) && NoFlips(standard)
             && |buffer| == MAX_PDU_SIZE + 1
             && var wire := Transmitted(standard, chance, packet, msgNo, c);
                wire.Some? && Verifies(order, wire.value) && StartsWith(buffer, wire.value)
    ensures Decode(buffer, HEADER_SIZE + |Encode(r)|) == Some(r)
  {
    var packet := Sealed(order, Header(0, 0, FLAG_REQUEST), Encode(r));
    SealedRoundTrip(order, 0, FLAG_REQUEST, Encode(r));
    AcceptedMeansUnaltered(standard, chance, packet, msgNo, c, order);
    RequestRoundTripIff(order, r, buffer);
  }

  /** The request's bytes: window size, then buffer size, each most significant byte first, the length, the name. */
  lemma RequestLayout(order: ByteOrder, r: Request)
    requires |r.name| < 256
    ensures var packet := Sealed(order, Header(0, 0, FLAG_REQUEST), Encode(r));
            && |packet| == 16 + |r.name| && packet[..4] == [0, 0, 0, 0] && packet[6] == 8
            && packet[7..11] == Htonl(r.winSize) && packet[11..15] == Htonl(r.bufSize)
            && packet[15] as int == |r.name| && packet[16..] == r.name
  {
    var packet := Sealed(order, Header(0, 0, FLAG_REQUEST), Encode(r));
    SealedRoundTrip(order, 0, FLAG_REQUEST, Encode(r));
    var body := PayloadOf(packet);
    assert body == Encode(r);
    assert packet[7..11] == body[..4] && packet[11..15] == body[4..8] && packet[15] == body[8];
    assert packet[16..] == body[9..] == r.name[..|r.name|] == r.name;
    assert packet[..4] == Htonl(0) == [0, 0, 0, 0];
  }

  function CString(b: seq<byte>): seq<byte> {
    if b == [] || b[0] == 0 then [] else [b[0]] + CString(b[1..])
  }

  /** rcopy's test of the answer in stateHandshake: flag 9, and the payload is the string Ok. */
  predicate HandshakeSucceeds(packet: seq<byte>) {
    |packet| >= HEADER_SIZE && packet[6] == 9 && CString(PayloadOf(packet)) == Ascii("Ok")
  }

  /** rcopy goes on to receive exactly when the server found the file readable. */
  lemma HandshakeAgrees(order: ByteOrder, readable: bool)
    ensures HandshakeSucceeds(Sealed(order, Header(0, 0, FLAG_REQUEST_ACK),
                                     if readable then Ascii("Ok") else Ascii("Not Ok")))
            <==> readable
  {
    var text := if readable then Ascii("Ok") else Ascii("Not Ok");
    SealedRoundTrip(order, 0, FLAG_REQUEST_ACK, text);
    if readable {
      assert text[1..][1..] == [];
      assert CString(text[1..]) == [text[1]];
      assert CString(text) == text;
    } else {
      assert CString(text)[0] == 'N' as int;
      assert Ascii("Ok")[0] == 'O' as int;
    }
  }
}
