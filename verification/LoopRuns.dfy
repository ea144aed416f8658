/**
 The two main loops are the protocol: a loop is a run of its end's steps, and
 every run of the system is the two loops on what the network hands them.
 */
module LoopRuns {
  import opened Bytes
  import opened WindowBuffer
  import opened Protocol
  import opened Chunks
  import opened Invariant
  import opened Safety
  import opened Progress
  import opened Exactness
  import opened Loops

  function ServerStepOf(a: Arrival<Ack>): Step {
    match a
    case Timeout => ServerTimesOut
    case Corrupt => ServerGetsCorrupt
    case Intact(ack) => ServerGets(ack)
  }

  function ClientStepOf(a: Arrival<Msg>): Step {
    match a
    case Timeout => ClientTimesOut
    case Corrupt => ClientGetsCorrupt
    case Intact(m) => ClientGets(m)
  }

  function First<T>(arrivals: seq<Arrival<T>>): Arrival<T> {
    if arrivals == [] then Timeout else arrivals[0]
  }

  function Later<T>(arrivals: seq<Arrival<T>>): seq<Arrival<T>> {
    if arrivals == [] then [] else arrivals[1..]
  }

  // ----- What one turn answers and counts -----

  /** Any packet, intact or not, starts the count of timeouts again; a timeout adds one. */
  lemma ServerTurnCounts(c: Config, s: Server, a: Arrival<Ack>)
    requires ServerShape(c, s)
    ensures ServerTurn(c, s, a).server.attempts == if a.Timeout? then s.attempts + 1 else 0
  {
    if a.Intact? && a.packet.RR? && a.packet.seqNum > s.base {
      var d := a.packet.seqNum - s.base;
      MainFillKeepsAttempts(c, s.(attempts := 0, lower := s.lower + d, upper := s.upper + d, base := a.packet.seqNum));
    }
  }

  /** A corrupted packet makes the server send nothing and changes nothing but the count. */
  lemma ServerIgnoresCorrupt(c: Config, s: Server)
    requires ServerShape(c, s)
    ensures ServerTurn(c, s, Corrupt) == Sent(s.(attempts := 0), [])
  {
  }

  /**
   The receiver's answer to a turn: RR to a timeout, SREJ to a corrupted
   packet; EOF's acknowledgement to the expected EOF alone; to data RR unless
   it is ahead of what is expected; SREJ otherwise. Every number answered is
   the receiver's new expectedSeq.
   */
  ghost predicate AnswersTurn(r: Client, a: Arrival<Msg>, z: Replied) {
    && (a.Timeout? ==> z.ack == RR(r.expectedSeq))
    && (a.Corrupt? ==> z.ack == SREJ(r.expectedSeq))
    && (a.Intact? ==>
          var m := a.packet;
          && (z.ack.EofAck? <==> m.Eof? && m.seqNum == r.expectedSeq)
          && (z.ack.RR? <==> m.Data? && m.seqNum <= r.expectedSeq))
    && (!z.ack.EofAck? ==> z.ack.seqNum == z.client.expectedSeq)
    && (z.client.expectedSeq > r.expectedSeq ==> a.Intact? && a.packet.Data? && a.packet.seqNum == r.expectedSeq)
    && (z.client.eof <==> r.eof || z.ack.EofAck?)
    && z.client.attempts == if a.Timeout? then r.attempts + 1 else 0
  }

  lemma ClientTurnAnswers(c: Config, r: Client, a: Arrival<Msg>)
    requires ClientShape(c, r) && (a.Intact? ==> |a.packet.payload| <= MAX_PAYLOAD)
    ensures AnswersTurn(r, a, ClientTurn(c, r, a))
  {
  }

  /** The expected packet moves the receiver on. */
  lemma ExpectedMovesOn(c: Config, r: Client, payload: seq<byte>)
    requires ClientShape(c, r) && |payload| <= MAX_PAYLOAD
    ensures ClientTurn(c, r, Intact(Data(r.expectedSeq, payload))).client.expectedSeq > r.expectedSeq
  {
    FlushAdvances(c, StorePane(c, r.(attempts := 0), r.expectedSeq, payload));
  }

  // ----- Answers and messages of the whole loops -----

  /** The receiver after i turns of its loop. */
  function ClientAfter(c: Config, r: Client, arrivals: seq<Arrival<Msg>>, i: nat): (z: Client)
    requires ClientShape(c, r) && ArrivalsFit(arrivals)
    ensures ClientShape(c, z)
    decreases i
  {
    if i == 0 then r else ClientAfter(c, ClientTurn(c, r, First(arrivals)).client, Later(arrivals), i - 1)
  }

  /** Turn i of the loop meets arrival i, or a timeout past the last, and its answer is the loop's answer i. */
  lemma {:induction false} ClientLoopAnswers(c: Config, r: Client, arrivals: seq<Arrival<Msg>>, i: nat)
    requires ClientShape(c, r) && ArrivalsFit(arrivals) && i < ClientLoop(c, r, arrivals).turns
    ensures var all := ClientLoop(c, r, arrivals);
            var ri := ClientAfter(c, r, arrivals, i);
            var a := if i < |arrivals| then arrivals[i] else Timeout;
            && |all.acks| == all.turns && ClientRunning(ri)
            && AnswersTurn(ri, a, ClientTurn(c, ri, a)) && all.acks[i] == ClientTurn(c, ri, a).ack
    decreases i
  {
    OneAnswerATurn(c, r, arrivals);
    var one := ClientTurn(c, r, First(arrivals));
    if i == 0 {
      ClientTurnAnswers(c, r, First(arrivals));
    } else {
      ClientLoopAnswers(c, one.client, Later(arrivals), i - 1);
    }
  }

  lemma {:induction false} OneAnswerATurn(c: Config, r: Client, arrivals: seq<Arrival<Msg>>)
    requires ClientShape(c, r) && ArrivalsFit(arrivals)
    ensures |ClientLoop(c, r, arrivals).acks| == ClientLoop(c, r, arrivals).turns
    decreases |arrivals|, MAX_ATTEMPTS - r.attempts
  {
    if ClientRunning(r) {
      OneAnswerATurn(c, ClientTurn(c, r, First(arrivals)).client, Later(arrivals));
    }
  }

  function Times<T>(n: nat, s: seq<T>): seq<T> {
    if n == 0 then [] else s + Times(n - 1, s)
  }

  /** With nothing arriving the server sends its window once for each timeout left of ten, and gives up. */
  lemma {:induction false} ServerGivesUp(c: Config, s: Server)
    requires ServerShape(c, s) && !s.eofAcked && s.attempts <= 10
    ensures ServerLoop(c, s, [])
         == ServerLooped(s.(attempts := 10), Times(10 - s.attempts, Retransmit(c, s, s.base)), 10 - s.attempts)
    decreases 10 - s.attempts
  {
    if s.attempts < 10 {
      var t := s.(attempts := s.attempts + 1);
      ServerGivesUp(c, t);
      SameRetransmit(c, s, t, s.base);
    }
  }

  /** With nothing arriving the receiver repeats its RR for each timeout left of ten, and gives up. */
  lemma {:induction false} ClientGivesUp(c: Config, r: Client)
    requires ClientShape(c, r) && !r.eof && r.attempts <= 10
    ensures ClientLoop(c, r, [])
         == ClientLooped(r.(attempts := 10), Times(10 - r.attempts, [RR(r.expectedSeq)]), 10 - r.attempts)
    decreases 10 - r.attempts
  {
    if r.attempts < 10 {
      ClientGivesUp(c, r.(attempts := r.attempts + 1));
    }
  }

  // ----- A loop is a run -----

  lemma ServerTurnIsStep(c: Config, y: System, a: Arrival<Ack>)
    requires Shape(c, y) && ServerRunning(y.server) && (a.Intact? ==> a.packet in y.toServer)
    ensures Enabled(y, ServerStepOf(a))
    ensures var one := ServerTurn(c, y.server, a);
            Next(c, y, ServerStepOf(a)) == y.(server := one.server, toClient := y.toClient + AsSet(one.msgs))
  {
    if a.Corrupt? { assert y.toClient + AsSet([]) == y.toClient; }
  }

  lemma ClientTurnIsStep(c: Config, y: System, a: Arrival<Msg>)
    requires Shape(c, y) && ClientRunning(y.client) && (a.Intact? ==> a.packet in y.toClient)
    requires a.Intact? ==> |a.packet.payload| <= MAX_PAYLOAD
    ensures Enabled(y, ClientStepOf(a))
    ensures var one := ClientTurn(c, y.client, a);
            Next(c, y, ClientStepOf(a)) == y.(client := one.client, toServer := y.toServer + {one.ack})
  {
  }

  /** The steps of the server's loop, one for each turn. */
  function ServerSteps(c: Config, s: Server, arrivals: seq<Arrival<Ack>>): seq<Step>
    requires ServerShape(c, s)
    decreases |arrivals|, MAX_ATTEMPTS - s.attempts
  {
    if !ServerRunning(s) then []
    else [ServerStepOf(First(arrivals))] + ServerSteps(c, ServerTurn(c, s, First(arrivals)).server, Later(arrivals))
  }

  function ClientSteps(c: Config, r: Client, arrivals: seq<Arrival<Msg>>): seq<Step>
    requires ClientShape(c, r) && ArrivalsFit(arrivals)
    decreases |arrivals|, MAX_ATTEMPTS - r.attempts
  {
    if !ClientRunning(r) then []
    else [ClientStepOf(First(arrivals))] + ClientSteps(c, ClientTurn(c, r, First(arrivals)).client, Later(arrivals))
  }

  predicate AcksAmong(arrivals: seq<Arrival<Ack>>, acks: set<Ack>) {
    forall i | 0 <= i < |arrivals| && arrivals[i].Intact? :: arrivals[i].packet in acks
  }

  predicate MsgsAmong(arrivals: seq<Arrival<Msg>>, msgs: set<Msg>) {
    forall i | 0 <= i < |arrivals| && arrivals[i].Intact? :: arrivals[i].packet in msgs
  }

  function AckSet(acks: seq<Ack>): set<Ack> {
    set a | a in acks
  }

  lemma AsSetConcat(base: set<Msg>, a: seq<Msg>, b: seq<Msg>)
    ensures base + AsSet(a + b) == base + AsSet(a) + AsSet(b)
  {
  }

  lemma AckSetConcat(base: set<Ack>, a: Ack, b: seq<Ack>)
    ensures base + AckSet([a] + b) == base + {a} + AckSet(b)
  {
  }

  /**
   The server's loop on arrivals the network can deliver is a run of the
   system: one step for each turn, ending in the loop's server, the messages
   ever sent grown by exactly those the loop sent, and nothing else changed.
   */
  lemma {:induction false} ServerLoopIsRun(c: Config, y: System, arrivals: seq<Arrival<Ack>>)
    requires Shape(c, y) && AcksAmong(arrivals, y.toServer)
    ensures var steps := ServerSteps(c, y.server, arrivals);
            var all := ServerLoop(c, y.server, arrivals);
            && CanRun(c, y, steps) && |steps| == all.turns
            && Run(c, y, steps) == y.(server := all.server, toClient := y.toClient + AsSet(all.msgs))
    decreases |arrivals|, MAX_ATTEMPTS - y.server.attempts
  {
    if ServerRunning(y.server) {
      var a := First(arrivals);
      var one := ServerTurn(c, y.server, a);
      ServerTurnIsStep(c, y, a);
      var z := Next(c, y, ServerStepOf(a));
      ServerLoopIsRun(c, z, Later(arrivals));
      var steps := ServerSteps(c, y.server, arrivals);
      assert steps[1..] == ServerSteps(c, one.server, Later(arrivals));
      AsSetConcat(y.toClient, one.msgs, ServerLoop(c, one.server, Later(arrivals)).msgs);
    } else {
      assert y.toClient + AsSet([]) == y.toClient;
    }
  }

  /** The receiver's loop is a run of the system in the same way. */
  lemma {:induction false} ClientLoopIsRun(c: Config, y: System, arrivals: seq<Arrival<Msg>>)
    requires Shape(c, y) && MsgsAmong(arrivals, y.toClient) && ArrivalsFit(arrivals)
    ensures var steps := ClientSteps(c, y.client, arrivals);
            var all := ClientLoop(c, y.client, arrivals);
            && CanRun(c, y, steps) && |steps| == all.turns
            && Run(c, y, steps) == y.(client := all.client, toServer := y.toServer + AckSet(all.acks))
    decreases |arrivals|, MAX_ATTEMPTS - y.client.attempts
  {
    if ClientRunning(y.client) {
      var a := First(arrivals);
      var one := ClientTurn(c, y.client, a);
      ClientTurnIsStep(c, y, a);
      var z := Next(c, y, ClientStepOf(a));
      ClientLoopIsRun(c, z, Later(arrivals));
      var steps := ClientSteps(c, y.client, arrivals);
      assert steps[1..] == ClientSteps(c, one.client, Later(arrivals));
      AckSetConcat(y.toServer, one.ack, ClientLoop(c, one.client, Later(arrivals)).acks);
    } else {
      assert y.toServer + AckSet([]) == y.toServer;
    }
  }

  // ----- A run is the two loops -----

  /** What the server's loop meets in a run, in order. */
  function ServerArrivals(steps: seq<Step>): seq<Arrival<Ack>> {
    if steps == [] then []
    else
      var rest := ServerArrivals(steps[1..]);
      match steps[0]
      case ServerTimesOut => [Timeout] + rest
      case ServerGetsCorrupt => [Corrupt] + rest
      case ServerGets(a) => [Intact(a)] + rest
      case _ => rest
  }

  function ClientArrivals(steps: seq<Step>): seq<Arrival<Msg>> {
    if steps == [] then []
    else
      var rest := ClientArrivals(steps[1..]);
      match steps[0]
      case ClientTimesOut => [Timeout] + rest
      case ClientGetsCorrupt => [Corrupt] + rest
      case ClientGets(m) => [Intact(m)] + rest
      case _ => rest
  }

  /** The loop on before + after: it has come to s and sent msgs when the arrivals after are still to come. */
  ghost predicate ServerLoopAt(c: Config, start: Server, before: seq<Arrival<Ack>>, s: Server, msgs: seq<Msg>,
                               after: seq<Arrival<Ack>>) {
    && ServerShape(c, start) && ServerShape(c, s)
    && var rest := ServerLoop(c, s, after);
       ServerLoop(c, start, before + after) == ServerLooped(rest.server, msgs + rest.msgs, |before| + rest.turns)
  }

  lemma ServerLoopUnfolds(c: Config, s: Server, arrivals: seq<Arrival<Ack>>)
    requires ServerShape(c, s) && ServerRunning(s) && arrivals != []
    ensures var one := ServerTurn(c, s, arrivals[0]);
            var rest := ServerLoop(c, one.server, arrivals[1..]);
            ServerLoop(c, s, arrivals) == ServerLooped(rest.server, one.msgs + rest.msgs, 1 + rest.turns)
  {
  }

  lemma ServerLoopBack(c: Config, start: Server, a: Arrival<Ack>, before: seq<Arrival<Ack>>, s: Server, msgs: seq<Msg>,
                       after: seq<Arrival<Ack>>)
    requires ServerShape(c, start) && ServerRunning(start)
    requires ServerLoopAt(c, ServerTurn(c, start, a).server, before, s, msgs, after)
    ensures ServerLoopAt(c, start, [a] + before, s, ServerTurn(c, start, a).msgs + msgs, after)
  {
    var arrivals := ([a] + before) + after;
    assert arrivals[0] == a && arrivals[1..] == before + after;
    ServerLoopUnfolds(c, start, arrivals);
    var one, rest := ServerTurn(c, start, a), ServerLoop(c, s, after);
    assert one.msgs + (msgs + rest.msgs) == (one.msgs + msgs) + rest.msgs;
  }

  lemma ClientStepsSpareServer(c: Config, y: System, step: Step)
    requires Shape(c, y) && Enabled(y, step)
    ensures step.ClientGets? || step.ClientGetsCorrupt? || step.ClientTimesOut? ==>
              Next(c, y, step).server == y.server && Next(c, y, step).toClient == y.toClient
    ensures step.ServerGets? || step.ServerGetsCorrupt? || step.ServerTimesOut? ==>
              Next(c, y, step).client == y.client && Next(c, y, step).toServer == y.toServer
  {
  }

  /**
   In every run, however the two ends interleave, the server's part is its
   loop on the arrivals of the run: msgs is what the loop sent on the way, and
   whatever comes after finds the loop in the run's server state.
   */
  lemma {:induction false} RunIsServerLoop(c: Config, y: System, steps: seq<Step>, after: seq<Arrival<Ack>>)
    returns (msgs: seq<Msg>)
    requires Shape(c, y) && CanRun(c, y, steps)
    ensures ServerLoopAt(c, y.server, ServerArrivals(steps), Run(c, y, steps).server, msgs, after)
    ensures Run(c, y, steps).toClient == y.toClient + AsSet(msgs)
    decreases |steps|
  {
    if steps == [] {
      msgs := [];
      assert [] + after == after && y.toClient + AsSet([]) == y.toClient;
    } else {
      var rest := RunIsServerLoop(c, Next(c, y, steps[0]), steps[1..], after);
      ClientStepsSpareServer(c, y, steps[0]);
      if steps[0].ServerGets? || steps[0].ServerGetsCorrupt? || steps[0].ServerTimesOut? {
        var a := if steps[0].ServerGets? then Intact(steps[0].ack)
                 else if steps[0].ServerGetsCorrupt? then Corrupt else Timeout;
        ServerTurnIsStep(c, y, a);
        ServerLoopBack(c, y.server, a, ServerArrivals(steps[1..]), Run(c, y, steps).server, rest, after);
        msgs := ServerTurn(c, y.server, a).msgs + rest;
        AsSetConcat(y.toClient, ServerTurn(c, y.server, a).msgs, rest);
      } else {
        msgs := rest;
      }
    }
  }

  ghost predicate ClientLoopAt(c: Config, start: Client, before: seq<Arrival<Msg>>, r: Client, acks: seq<Ack>,
                               after: seq<Arrival<Msg>>) {
    && ClientShape(c, start) && ClientShape(c, r) && ArrivalsFit(before + after) && ArrivalsFit(after)
    && var rest := ClientLoop(c, r, after);
       ClientLoop(c, start, before + after) == ClientLooped(rest.client, acks + rest.acks, |before| + rest.turns)
  }

  lemma ClientLoopBack(c: Config, start: Client, a: Arrival<Msg>, before: seq<Arrival<Msg>>, r: Client, acks: seq<Ack>,
                       after: seq<Arrival<Msg>>)
    requires ClientShape(c, start) && ClientRunning(start) && (a.Intact? ==> |a.packet.payload| <= MAX_PAYLOAD)
    requires ClientLoopAt(c, ClientTurn(c, start, a).client, before, r, acks, after)
    ensures ClientLoopAt(c, start, [a] + before, r, [ClientTurn(c, start, a).ack] + acks, after)
  {
    var arrivals := ([a] + before) + after;
    assert arrivals[0] == a && arrivals[1..] == before + after;
    forall i | 0 <= i < |arrivals| && arrivals[i].Intact? ensures |arrivals[i].packet.payload| <= MAX_PAYLOAD {
      if i > 0 { assert arrivals[i] == (before + after)[i - 1]; }
    }
    var rest := ClientLoop(c, r, after);
    var ack := ClientTurn(c, start, a).ack;
    assert [ack] + (acks + rest.acks) == ([ack] + acks) + rest.acks;
  }

  /** In every run the receiver's part is its loop on the arrivals of the run. */
  lemma {:induction false} RunIsClientLoop(c: Config, y: System, steps: seq<Step>, after: seq<Arrival<Msg>>)
    returns (acks: seq<Ack>)
    requires Shape(c, y) && CanRun(c, y, steps) && ArrivalsFit(after)
    ensures ClientLoopAt(c, y.client, ClientArrivals(steps), Run(c, y, steps).client, acks, after)
    ensures Run(c, y, steps).toServer == y.toServer + AckSet(acks)
    decreases |steps|
  {
    if steps == [] {
      acks := [];
      assert [] + after == after && y.toServer + AckSet([]) == y.toServer;
    } else {
      var rest := RunIsClientLoop(c, Next(c, y, steps[0]), steps[1..], after);
      ClientStepsSpareServer(c, y, steps[0]);
      if steps[0].ClientGets? || steps[0].ClientGetsCorrupt? || steps[0].ClientTimesOut? {
        var a := if steps[0].ClientGets? then Intact(steps[0].msg)
                 else if steps[0].ClientGetsCorrupt? then Corrupt else Timeout;
        ClientTurnIsStep(c, y, a);
        var one := ClientTurn(c, y.client, a);
        ClientLoopBack(c, y.client, a, ClientArrivals(steps[1..]), Run(c, y, steps).client, rest, after);
        acks := [one.ack] + rest;
        AckSetConcat(y.toServer, one.ack, rest);
      } else {
        acks := rest;
      }
    }
  }

  // ----- Safety, carried over to the loops -----

  predicate SrejsBelow(arrivals: seq<Arrival<Ack>>, n: nat) {
    forall i | 0 <= i < |arrivals| && arrivals[i].Intact? && arrivals[i].packet.SREJ? :: arrivals[i].packet.seqNum < n
  }

  lemma {:induction false} ServerLoopRunsClean(c: Config, y: System, arrivals: seq<Arrival<Ack>>)
    requires SystemInv(c, y) && Shape(c, y) && AcksAmong(arrivals, y.toServer)
    requires SrejsBelow(arrivals, y.server.nextSeq)
    ensures CleanRun(c, y, ServerSteps(c, y.server, arrivals))
    decreases |arrivals|, MAX_ATTEMPTS - y.server.attempts
  {
    if ServerRunning(y.server) {
      var a := First(arrivals);
      ServerTurnIsStep(c, y, a);
      var z := Next(c, y, ServerStepOf(a));
      NextInv(c, y, ServerStepOf(a));
      ServerStepGrows(c, y, ServerStepOf(a));
      ServerLoopRunsClean(c, z, Later(arrivals));
      assert ServerSteps(c, y.server, arrivals)[1..] == ServerSteps(c, z.server, Later(arrivals));
    }
  }

  lemma ServerStepGrows(c: Config, y: System, step: Step)
    requires SystemInv(c, y) && Shape(c, y) && Enabled(y, step) && Clean(y, step)
    ensures y.server.nextSeq <= Next(c, y, step).server.nextSeq
  {
    ExpectedBounds(c, y);
    if step.ServerGets? {
      assert AckOk(y.client, step.ack);
      ServerReceiveInv(c, y.server, y.client.expectedSeq, step.ack);
    }
  }

  /** The server's loop, and the receiver's, from a clean reachable state end in clean reachable states. */
  lemma LoopsStayReachable(c: Config, y: System, acks: seq<Arrival<Ack>>, msgs: seq<Arrival<Msg>>)
    requires Reachable(c, y) && Shape(c, y)
    requires AcksAmong(acks, y.toServer) && SrejsBelow(acks, y.server.nextSeq)
    requires MsgsAmong(msgs, y.toClient) && ArrivalsFit(msgs)
    ensures var all := ServerLoop(c, y.server, acks);
            Reachable(c, y.(server := all.server, toClient := y.toClient + AsSet(all.msgs)))
    ensures var all := ClientLoop(c, y.client, msgs);
            Reachable(c, y.(client := all.client, toServer := y.toServer + AckSet(all.acks)))
  {
    ReachableInv(c, y);
    ServerLoopIsRun(c, y, acks);
    ServerLoopRunsClean(c, y, acks);
    ReachableExtends(c, y, ServerSteps(c, y.server, acks));
    ClientLoopIsRun(c, y, msgs);
    ClientStepsClean(c, y, ClientSteps(c, y.client, msgs));
    OnlyClientSteps(c, y.client, msgs);
    ReachableExtends(c, y, ClientSteps(c, y.client, msgs));
  }

  lemma {:induction false} OnlyClientSteps(c: Config, r: Client, arrivals: seq<Arrival<Msg>>)
    requires ClientShape(c, r) && ArrivalsFit(arrivals)
    ensures forall step | step in ClientSteps(c, r, arrivals) :: !step.ServerGets?
    decreases |arrivals|, MAX_ATTEMPTS - r.attempts
  {
    if ClientRunning(r) {
      OnlyClientSteps(c, ClientTurn(c, r, First(arrivals)).client, Later(arrivals));
    }
  }

  lemma {:induction false} ClientStepsClean(c: Config, y: System, steps: seq<Step>)
    requires Shape(c, y) && CanRun(c, y, steps)
    ensures (forall step | step in steps :: !step.ServerGets?) ==> CleanRun(c, y, steps)
    decreases |steps|
  {
    if steps != [] {
      ClientStepsClean(c, Next(c, y, steps[0]), steps[1..]);
    }
  }
}
