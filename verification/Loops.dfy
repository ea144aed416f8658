/** The main loops of the two ends, as functions of what poll and recvfrom give them, and how long they run. */
module Loops {
  import opened Bytes
  import opened WindowBuffer
  import opened Protocol

  /**
   What one turn of a main loop meets: a poll timeout, a packet that fails
   in_cksum (or that the server ignores), or an intact one.
   */
  datatype Arrival<+T> = Timeout | Corrupt | Intact(packet: T)

  function Packets<T>(arrivals: seq<Arrival<T>>): nat {
    if arrivals == [] then 0
    else (if arrivals[0].Timeout? then 0 else 1) + Packets(arrivals[1..])
  }

  // ----- The sending end -----

  /** What a timeout resends does not depend on the count of timeouts. */
  lemma SameRetransmit(c: Config, s: Server, t: Server, i: nat)
    requires ServerShape(c, s) && t == s.(attempts := t.attempts)
    ensures Retransmit(c, s, i) == Retransmit(c, t, i)
  {
    var a, b := Retransmit(c, s, i), Retransmit(c, t, i);
    forall k | 0 <= k < |a| ensures a[k] == b[k] {
      assert a[k] == Resend(c, s, i + k) && b[k] == Resend(c, t, i + k);
    }
  }

  function ServerTurn(c: Config, s: Server, a: Arrival<Ack>): (r: Sent)
    requires ServerShape(c, s)
    ensures ServerShape(c, r.server)
  {
    match a
    case Timeout => ServerTimeout(c, s)
    case Corrupt => Sent(s.(attempts := 0), [])
    case Intact(ack) => ServerReceive(c, s, ack)
  }

  /** The loop's result, the messages it sent and the turns it took; after arrivals poll only times out. */
  datatype ServerLooped = ServerLooped(server: Server, msgs: seq<Msg>, turns: nat)

  function ServerLoop(c: Config, s: Server, arrivals: seq<Arrival<Ack>>): (r: ServerLooped)
    requires ServerShape(c, s)
    decreases |arrivals|, MAX_ATTEMPTS - s.attempts
  {
    if !ServerRunning(s) then ServerLooped(s, [], 0)
    else
      var one := ServerTurn(c, s, if arrivals == [] then Timeout else arrivals[0]);
      var rest := ServerLoop(c, one.server, if arrivals == [] then [] else arrivals[1..]);
      ServerLooped(rest.server, one.msgs + rest.msgs, 1 + rest.turns)
  }

  lemma {:induction false} MainFillKeepsAttempts(c: Config, s: Server)
    requires ServerShape(c, s)
    ensures MainFill(c, s).server.attempts == s.attempts && MainFill(c, s).server.eofAcked == s.eofAcked
    decreases s.base + c.winSize - s.nextSeq
  {
    if s.nextSeq < s.base + c.winSize && !s.eofSent {
      MainFillKeepsAttempts(c, SendNextData(c, s).server);
    }
  }

  lemma {:induction false} ServerLoopTurns(c: Config, s: Server, arrivals: seq<Arrival<Ack>>)
    requires ServerShape(c, s) && s.attempts <= MAX_ATTEMPTS
    ensures ServerLoop(c, s, arrivals).turns <= MAX_ATTEMPTS - s.attempts + MAX_ATTEMPTS * Packets(arrivals)
    ensures !ServerRunning(ServerLoop(c, s, arrivals).server)
    decreases |arrivals|, MAX_ATTEMPTS - s.attempts
  {
    if ServerRunning(s) {
      var a := if arrivals == [] then Timeout else arrivals[0];
      var one := ServerTurn(c, s, a);
      if a.Intact? && a.packet.RR? && a.packet.seqNum > s.base {
        var d := a.packet.seqNum - s.base;
        MainFillKeepsAttempts(c, s.(attempts := 0, lower := s.lower + d, upper := s.upper + d, base := a.packet.seqNum));
      }
      ServerLoopTurns(c, one.server, if arrivals == [] then [] else arrivals[1..]);
    }
  }

  /** If K packets arrive in all, the server's main loop ends, within 10 * (K + 1) turns. */
  lemma ServerLoopEnds(c: Config, s: Server, arrivals: seq<Arrival<Ack>>)
    requires ServerShape(c, s) && s.attempts == 0
    ensures ServerLoop(c, s, arrivals).turns <= MAX_ATTEMPTS * (Packets(arrivals) + 1)
    ensures !ServerRunning(ServerLoop(c, s, arrivals).server)
  {
    ServerLoopTurns(c, s, arrivals);
  }

  // ----- The receiving end -----

  ghost predicate ArrivalsFit(arrivals: seq<Arrival<Msg>>) {
    forall i | 0 <= i < |arrivals| && arrivals[i].Intact? :: |arrivals[i].packet.payload| <= MAX_PAYLOAD
  }

  function ClientTurn(c: Config, r: Client, a: Arrival<Msg>): (z: Replied)
    requires ClientShape(c, r) && (a.Intact? ==> |a.packet.payload| <= MAX_PAYLOAD)
    ensures ClientShape(c, z.client)
  {
    match a
    case Timeout => ClientTimeout(r)
    case Corrupt => ClientCorrupt(r)
    case Intact(m) => ClientReceive(c, r, m)
  }

  datatype ClientLooped = ClientLooped(client: Client, acks: seq<Ack>, turns: nat)

  function ClientLoop(c: Config, r: Client, arrivals: seq<Arrival<Msg>>): (z: ClientLooped)
    requires ClientShape(c, r) && ArrivalsFit(arrivals)
    decreases |arrivals|, MAX_ATTEMPTS - r.attempts
  {
    if !ClientRunning(r) then ClientLooped(r, [], 0)
    else
      var one := ClientTurn(c, r, if arrivals == [] then Timeout else arrivals[0]);
      var rest := ClientLoop(c, one.client, if arrivals == [] then [] else arrivals[1..]);
      ClientLooped(rest.client, [one.ack] + rest.acks, 1 + rest.turns)
  }

  lemma {:induction false} ClientLoopTurns(c: Config, r: Client, arrivals: seq<Arrival<Msg>>)
    requires ClientShape(c, r) && ArrivalsFit(arrivals) && r.attempts <= MAX_ATTEMPTS
    ensures ClientLoop(c, r, arrivals).turns <= MAX_ATTEMPTS - r.attempts + MAX_ATTEMPTS * Packets(arrivals)
    ensures !ClientRunning(ClientLoop(c, r, arrivals).client)
    decreases |arrivals|, MAX_ATTEMPTS - r.attempts
  {
    if ClientRunning(r) {
      var one := ClientTurn(c, r, if arrivals == [] then Timeout else arrivals[0]);
      ClientLoopTurns(c, one.client, if arrivals == [] then [] else arrivals[1..]);
    }
  }

  /** If K packets arrive in all, the receiver's main loop ends, within 10 * (K + 1) turns. */
  lemma ClientLoopEnds(c: Config, r: Client, arrivals: seq<Arrival<Msg>>)
    requires ClientShape(c, r) && ArrivalsFit(arrivals) && r.attempts == 0
    ensures ClientLoop(c, r, arrivals).turns <= MAX_ATTEMPTS * (Packets(arrivals) + 1)
    ensures !ClientRunning(ClientLoop(c, r, arrivals).client)
  {
    ClientLoopTurns(c, r, arrivals);
  }
}
