/**
 The Selective Repeat transfer as a state machine over values: what one
 iteration of each end's main loop does (server.c transferData, rcopy.c
 stateFileReceive), and the system the two ends and the network form.
 */
module Protocol {
  import opened Bytes
  import opened WindowBuffer

  const MAX_ATTEMPTS := 10

  /** One transfer: the file, and the buffer and window size both ends agreed on. */
  datatype Config = Config(file: seq<byte>, bufSize: nat, winSize: nat)

  /** Sizes rcopy may ask for, and a file short enough for 32-bit sequence numbers never to wrap. */
  predicate ValidConfig(c: Config) {
    && 1 <= c.bufSize <= MAX_BUFFER
    && 1 <= c.winSize <= 0x4000_0000
    && |c.file| / c.bufSize + c.winSize + 2 < NO_SEQ
  }

  datatype Msg = Data(seqNum: nat, payload: seq<byte>) | Eof(seqNum: nat, payload: seq<byte>)
  datatype Ack = RR(seqNum: nat) | SREJ(seqNum: nat) | EofAck

  // ----- The sending end -----

  datatype Server = Server(panes: seq<Pane>, lower: nat, upper: int, pos: nat, feof: bool,
                           base: nat, nextSeq: nat, eofSent: bool, eofSeq: nat, eofAcked: bool, attempts: nat)

  /** A server state and the messages sent on the way to it, in order. */
  datatype Sent = Sent(server: Server, msgs: seq<Msg>)

  ghost predicate ServerShape(c: Config, s: Server) {
    ValidConfig(c) && Ring(s.panes, c.winSize) && s.pos <= |c.file|
  }

  ghost predicate SentShape(c: Config, r: Sent) {
    ServerShape(c, r.server) && forall i | 0 <= i < |r.msgs| :: |r.msgs[i].payload| <= MAX_BUFFER
  }

  /** fread of one buffer from position pos. */
  function Fread(c: Config, pos: nat): (r: seq<byte>)
    requires pos <= |c.file|
    ensures |r| <= c.bufSize
  {
    if pos + c.bufSize <= |c.file| then c.file[pos..pos + c.bufSize] else c.file[pos..]
  }

  /** fread into the pane of nextSeq: the pane keeps its old bytes behind a short read, which also sets feof. */
  function ReadPane(c: Config, s: Server): (r: Server)
    requires ServerShape(c, s)
    ensures ServerShape(c, r)
  {
    var slot := s.nextSeq % c.winSize;
    var bytes := Fread(c, s.pos);
    s.(panes := s.panes[slot := Pane(s.nextSeq, Overlay(bytes, s.panes[slot].data))],
       pos := s.pos + |bytes|,
       feof := s.feof || |bytes| < c.bufSize)
  }

  /** send_data_packet: the first n bytes of the pane of seqNum, whatever that pane holds by now. */
  function Packet(c: Config, s: Server, seqNum: nat, isEof: bool, n: nat): Msg
    requires ServerShape(c, s) && n <= MAX_BUFFER
  {
    var payload := s.panes[seqNum % c.winSize].data[..n];
    if isEof then Eof(seqNum, payload) else Data(seqNum, payload)
  }

  /** One turn of the initial loop of transferData, and whether it breaks. */
  function InitialTurn(c: Config, s: Server): (r: (Sent, bool))
    requires ServerShape(c, s)
    ensures SentShape(c, r.0)
  {
    var n := |Fread(c, s.pos)|;
    var s1 := ReadPane(c, s);
    var s2 := if n > 0 then s1.(nextSeq := s.nextSeq + 1) else s1;
    var out := if n > 0 then [Packet(c, s1, s.nextSeq, s.eofSent, n)] else [];
    if n == 0 || s2.feof then
      (Sent(s2.(eofSent := true, eofSeq := s2.nextSeq, nextSeq := s2.nextSeq + 1), out + [Eof(s2.nextSeq, [])]), true)
    else (Sent(s2, out), false)
  }

  /** The initial loop. */
  function InitialFill(c: Config, s: Server): (r: Sent)
    requires ServerShape(c, s)
    ensures SentShape(c, r)
    decreases c.winSize - s.nextSeq
  {
    if s.nextSeq >= c.winSize || s.feof then Sent(s, [])
    else
      var one := InitialTurn(c, s);
      if one.1 then one.0
      else
        var rest := InitialFill(c, one.0.server);
        Sent(rest.server, one.0.msgs + rest.msgs)
  }

  /** send_next_data: a short read makes this packet the EOF, carrying the bytes read. */
  function SendNextData(c: Config, s: Server): Sent
    requires ServerShape(c, s)
  {
    var n := |Fread(c, s.pos)|;
    var s1 := ReadPane(c, s);
    var s2 := if n < c.bufSize || s1.feof then s1.(eofSent := true, eofSeq := s.nextSeq) else s1;
    Sent(s2.(nextSeq := s.nextSeq + 1),
         [Packet(c, s2, s.nextSeq, s2.eofSent && s.nextSeq == s2.eofSeq, n)])
  }

  /** The fill loop after the window moved. */
  function MainFill(c: Config, s: Server): (r: Sent)
    requires ServerShape(c, s)
    ensures SentShape(c, r)
    decreases s.base + c.winSize - s.nextSeq
  {
    if s.nextSeq >= s.base + c.winSize || s.eofSent then Sent(s, [])
    else
      var one := SendNextData(c, s);
      var rest := MainFill(c, one.server);
      Sent(rest.server, one.msgs + rest.msgs)
  }

  /** What an SREJ or a timeout sends again: an empty EOF, or a full buffer of whatever the pane holds. */
  function Resend(c: Config, s: Server, seqNum: nat): Msg
    requires ServerShape(c, s)
  {
    if s.eofSent && seqNum == s.eofSeq then Packet(c, s, seqNum, true, 0)
    else Packet(c, s, seqNum, false, c.bufSize)
  }

  /** retransmit_packets from sequence number i on. */
  function Retransmit(c: Config, s: Server, i: nat): (r: seq<Msg>)
    requires ServerShape(c, s)
    ensures |r| == if i < s.nextSeq then s.nextSeq - i else 0
    ensures forall k | 0 <= k < |r| :: r[k] == Resend(c, s, i + k)
    decreases s.nextSeq - i
  {
    if i < s.nextSeq then [Resend(c, s, i)] + Retransmit(c, s, i + 1) else []
  }

  /** One iteration of the server's main loop that received an intact packet. */
  function ServerReceive(c: Config, s0: Server, a: Ack): Sent
    requires ServerShape(c, s0)
  {
    var s := s0.(attempts := 0);
    match a
    case RR(ack) =>
      if ack > s.base then
        var d := ack - s.base;
        MainFill(c, s.(lower := s.lower + d, upper := s.upper + d, base := ack))
      else Sent(s, [])
    case SREJ(ack) => Sent(s, [Resend(c, s, ack)])
    case EofAck => Sent(s.(eofAcked := true), [])
  }

  function ServerTimeout(c: Config, s: Server): Sent
    requires ServerShape(c, s)
  {
    Sent(s.(attempts := s.attempts + 1), Retransmit(c, s, s.base))
  }

  predicate ServerRunning(s: Server) {
    !s.eofAcked && s.attempts < MAX_ATTEMPTS
  }

  // ----- The receiving end -----

  datatype Client = Client(panes: seq<Pane>, expectedSeq: nat, eof: bool, attempts: nat, output: seq<byte>)

  ghost predicate ClientShape(c: Config, r: Client) {
    ValidConfig(c) && Ring(r.panes, c.winSize)
  }

  function HighestSeq(panes: seq<Pane>): (m: nat)
    ensures forall i | 0 <= i < |panes| :: panes[i].seqNum <= m
  {
    if panes == [] then 0
    else
      var m := HighestSeq(panes[..|panes| - 1]);
      var last := panes[|panes| - 1].seqNum;
      if last > m then last else m
  }

  /** The flush loop: write the expected pane, a full buffer each time, as long as it is there. */
  function Flush(c: Config, r: Client): (f: Client)
    requires ClientShape(c, r)
    ensures f == r.(expectedSeq := f.expectedSeq, output := f.output)
    decreases HighestSeq(r.panes) + 1 - r.expectedSeq
  {
    var p := r.panes[r.expectedSeq % c.winSize];
    if p.seqNum == r.expectedSeq then
      Flush(c, r.(expectedSeq := r.expectedSeq + 1, output := r.output + p.data[..c.bufSize]))
    else r
  }

  datatype Replied = Replied(client: Client, ack: Ack)

  function StorePane(c: Config, r: Client, seqNum: nat, payload: seq<byte>): Client
    requires ClientShape(c, r) && |payload| <= MAX_BUFFER
  {
    var slot := seqNum % c.winSize;
    r.(panes := r.panes[slot := Pane(seqNum, Overlay(payload, r.panes[slot].data))])
  }

  /** One iteration of the receiver's loop that received an intact packet. */
  function ClientReceive(c: Config, r0: Client, m: Msg): Replied
    requires ClientShape(c, r0) && |m.payload| <= MAX_BUFFER
  {
    var r := r0.(attempts := 0);
    match m
    case Eof(n, payload) =>
      if n == r.expectedSeq then Replied(r.(output := r.output + payload, eof := true), EofAck)
      else Replied(r, SREJ(r.expectedSeq))
    case Data(n, payload) =>
      if r.expectedSeq <= n < r.expectedSeq + c.winSize then
        var stored := StorePane(c, r, n, payload);
        if n == r.expectedSeq then
          var flushed := Flush(c, stored);
          Replied(flushed, RR(flushed.expectedSeq))
        else Replied(stored, SREJ(r.expectedSeq))
      else if n < r.expectedSeq then Replied(r, RR(r.expectedSeq))
      else Replied(r, SREJ(r.expectedSeq))
  }

  function ClientTimeout(r: Client): Replied {
    Replied(r.(attempts := r.attempts + 1), RR(r.expectedSeq))
  }

  /** A packet that fails in_cksum is answered with an SREJ of the expected packet. */
  function ClientCorrupt(r: Client): Replied {
    Replied(r.(attempts := 0), SREJ(r.expectedSeq))
  }

  predicate ClientRunning(r: Client) {
    !r.eof && r.attempts < MAX_ATTEMPTS
  }

  // ----- The system -----

  /**
   The two ends and every message ever sent. Delivering any message ever sent,
   at any time and any number of times or never, covers loss, duplication and
   reordering.
   */
  datatype System = System(server: Server, client: Client, toClient: set<Msg>, toServer: set<Ack>)

  datatype Step =
    | ServerGets(ack: Ack) | ServerGetsCorrupt | ServerTimesOut
    | ClientGets(msg: Msg) | ClientGetsCorrupt | ClientTimesOut

  function AsSet(msgs: seq<Msg>): set<Msg> {
    set m | m in msgs
  }

  ghost predicate Shape(c: Config, y: System) {
    && ServerShape(c, y.server) && ClientShape(c, y.client)
    && forall m | m in y.toClient :: |m.payload| <= MAX_BUFFER
  }

  function ServerStep(y: System, sent: Sent): System {
    y.(server := sent.server, toClient := y.toClient + AsSet(sent.msgs))
  }

  function ClientStep(y: System, replied: Replied): System {
    y.(client := replied.client, toServer := y.toServer + {replied.ack})
  }

  predicate Enabled(y: System, step: Step) {
    match step
    case ServerGets(a) => ServerRunning(y.server) && a in y.toServer
    case ServerGetsCorrupt => ServerRunning(y.server)
    case ServerTimesOut => ServerRunning(y.server)
    case ClientGets(m) => ClientRunning(y.client) && m in y.toClient
    case ClientGetsCorrupt => ClientRunning(y.client)
    case ClientTimesOut => ClientRunning(y.client)
  }

  function Next(c: Config, y: System, step: Step): (z: System)
    requires Shape(c, y) && Enabled(y, step)
    ensures Shape(c, z)
  {
    match step
    case ServerGets(a) => ServerStep(y, ServerReceive(c, y.server, a))
    case ServerGetsCorrupt => y.(server := y.server.(attempts := 0))
    case ServerTimesOut => ServerStep(y, ServerTimeout(c, y.server))
    case ClientGets(m) => ClientStep(y, ClientReceive(c, y.client, m))
    case ClientGetsCorrupt => ClientStep(y, ClientCorrupt(y.client))
    case ClientTimesOut => ClientStep(y, ClientTimeout(y.client))
  }

  function NewServer(c: Config, panes: seq<Pane>): Server {
    Server(panes, 0, c.winSize - 1, 0, false, 0, 0, false, 0, false, 0)
  }

  function NewClient(panes: seq<Pane>): Client {
    Client(panes, 0, false, 0, [])
  }

  /** Both ends just after init_window, with arbitrary bytes in their panes. */
  ghost predicate Fresh(c: Config, serverPanes: seq<Pane>, clientPanes: seq<Pane>) {
    && ValidConfig(c)
    && Ring(serverPanes, c.winSize) && Unused(serverPanes)
    && Ring(clientPanes, c.winSize) && Unused(clientPanes)
  }

  /** The system once the server has sent its initial window. */
  ghost function Start(c: Config, serverPanes: seq<Pane>, clientPanes: seq<Pane>): (y: System)
    requires Fresh(c, serverPanes, clientPanes)
    ensures Shape(c, y)
  {
    var sent := InitialFill(c, NewServer(c, serverPanes));
    System(sent.server, NewClient(clientPanes), AsSet(sent.msgs), {})
  }

  /** The system after a sequence of steps, as long as each is enabled in its turn. */
  ghost predicate CanRun(c: Config, y: System, steps: seq<Step>)
    requires Shape(c, y)
    decreases |steps|
  {
    steps == [] || (Enabled(y, steps[0]) && CanRun(c, Next(c, y, steps[0]), steps[1..]))
  }

  ghost function Run(c: Config, y: System, steps: seq<Step>): (z: System)
    requires Shape(c, y) && CanRun(c, y, steps)
    ensures Shape(c, z)
    decreases |steps|
  {
    if steps == [] then y else Run(c, Next(c, y, steps[0]), steps[1..])
  }

  /** The server acts on an SREJ only for a packet it has sent. */
  predicate Clean(y: System, step: Step) {
    step.ServerGets? && step.ack.SREJ? ==> step.ack.seqNum < y.server.nextSeq
  }

  ghost predicate CleanRun(c: Config, y: System, steps: seq<Step>)
    requires Shape(c, y)
    decreases |steps|
  {
    steps == []
    || (Enabled(y, steps[0]) && Clean(y, steps[0]) && CleanRun(c, Next(c, y, steps[0]), steps[1..]))
  }

  /** No packet on its way to the receiver arrives corrupted. */
  predicate Intact(steps: seq<Step>) {
    ClientGetsCorrupt !in steps
  }
}
