/** One round without loss moves the window by everything it held; finitely many rounds finish the transfer. */
module Progress {
  import opened Bytes
  import opened WindowBuffer
  import opened Protocol
  import opened Chunks
  import opened Invariant
  import opened Safety

  // ----- Runs, joined -----

  lemma {:induction false} CleanCanRun(c: Config, y: System, steps: seq<Step>)
    requires Shape(c, y) && CleanRun(c, y, steps)
    ensures CanRun(c, y, steps)
    decreases |steps|
  {
    if steps != [] {
      CleanCanRun(c, Next(c, y, steps[0]), steps[1..]);
    }
  }

  lemma {:induction false} RunConcat(c: Config, y: System, a: seq<Step>, b: seq<Step>)
    requires Shape(c, y) && CanRun(c, y, a) && CanRun(c, Run(c, y, a), b)
    ensures CanRun(c, y, a + b) && Run(c, y, a + b) == Run(c, Run(c, y, a), b)
    ensures CleanRun(c, y, a) && CleanRun(c, Run(c, y, a), b) ==> CleanRun(c, y, a + b)
    decreases |a|
  {
    if a == [] {
      assert a + b == b;
    } else {
      assert (a + b)[1..] == a[1..] + b;
      RunConcat(c, Next(c, y, a[0]), a[1..], b);
    }
  }

  // ----- The round -----

  /** The receiver's answers to the messages, delivered in order. */
  function Replies(c: Config, r: Client, msgs: seq<Msg>): (acks: seq<Ack>)
    requires ClientShape(c, r) && forall i | 0 <= i < |msgs| :: |msgs[i].payload| <= MAX_BUFFER
    ensures |acks| == |msgs|
    decreases |msgs|
  {
    if msgs == [] then []
    else
      var z := ClientReceive(c, r, msgs[0]);
      [z.ack] + Replies(c, z.client, msgs[1..])
  }

  function Deliveries(msgs: seq<Msg>): seq<Step> {
    seq(|msgs|, i requires 0 <= i < |msgs| => ClientGets(msgs[i]))
  }

  function Answers(acks: seq<Ack>): seq<Step> {
    seq(|acks|, i requires 0 <= i < |acks| => ServerGets(acks[i]))
  }

  /** A round without loss: the server times out, its resends arrive in order, the replies arrive in order. */
  ghost function Round(c: Config, y: System): seq<Step>
    requires Shape(c, y)
  {
    var msgs := Retransmit(c, y.server, y.server.base);
    [ServerTimesOut] + Deliveries(msgs) + Answers(Replies(c, y.client, msgs))
  }

  /** Only the last answer may be the acknowledgement of EOF; the others are RRs. */
  predicate RRsThen(acks: seq<Ack>, last: Ack) {
    && acks != [] && acks[|acks| - 1] == last
    && forall i | 0 <= i < |acks| - 1 :: acks[i].RR?
  }

  /** What the receiver answers last once all of [n, nextSeq) arrived. */
  function FinalAck(s: Server): Ack {
    if s.eofSent then EofAck else RR(s.nextSeq)
  }

  lemma FlushAdvances(c: Config, r: Client)
    requires ClientShape(c, r) && r.panes[r.expectedSeq % c.winSize].seqNum == r.expectedSeq
    ensures Flush(c, r).expectedSeq >= r.expectedSeq + 1
  {
    FlushOnlyAdds(c, r.(expectedSeq := r.expectedSeq + 1,
                        output := r.output + r.panes[r.expectedSeq % c.winSize].data[..c.bufSize]));
  }

  lemma {:induction false} FlushOnlyAdds(c: Config, r: Client)
    requires ClientShape(c, r)
    ensures r.output <= Flush(c, r).output && r.expectedSeq <= Flush(c, r).expectedSeq
    decreases HighestSeq(r.panes) + 1 - r.expectedSeq
  {
    var p := r.panes[r.expectedSeq % c.winSize];
    if p.seqNum == r.expectedSeq {
      FlushOnlyAdds(c, r.(expectedSeq := r.expectedSeq + 1, output := r.output + p.data[..c.bufSize]));
    }
  }

  /** A resent data packet the receiver has reached: it is past it afterwards and answers with its new position. */
  lemma DataAdvances(c: Config, y: System, n: nat, m: Msg)
    requires SystemInv(c, y) && Shape(c, y) && m in y.toClient && !y.client.eof
    requires m.Data? && m.seqNum == n <= y.client.expectedSeq
    ensures var z := ClientReceive(c, y.client, m);
            && z.ack == RR(z.client.expectedSeq) && z.client.expectedSeq >= n + 1
            && ClientRunning(z.client) && z.client.attempts == 0
  {
    assert MsgOk(c, y.server, y.client.expectedSeq, m);
    var r0 := y.client.(attempts := 0);
    if n == r0.expectedSeq {
      FlushAdvances(c, StorePane(c, r0, n, m.payload));
    }
  }

  lemma EofEnds(c: Config, y: System, n: nat)
    requires SystemInv(c, y) && Shape(c, y) && !y.client.eof && Eof(n, []) in y.toClient
    requires n <= y.client.expectedSeq
    ensures var z := ClientReceive(c, y.client, Eof(n, []));
            z.ack == EofAck && z.client.eof && Finished(c, y.server, z.client, [])
  {
    assert MsgOk(c, y.server, y.client.expectedSeq, Eof(n, []));
    ExpectedBounds(c, y);
    AcceptEof(c, y.server, y.client.(attempts := 0), []);
  }

  /** The resends of [n, nextSeq) arriving in order at a receiver that has everything below n. */
  ghost predicate DeliveryReady(c: Config, y: System, n: nat) {
    && SystemInv(c, y) && Shape(c, y) && ClientRunning(y.client)
    && y.server.base <= n < y.server.nextSeq && n <= y.client.expectedSeq
    && forall k | n <= k < y.server.nextSeq :: Resend(c, y.server, k) in y.toClient
  }

  ghost predicate Delivered(c: Config, y: System, z: System, acks: seq<Ack>) {
    && SystemInv(c, z) && Shape(c, z) && z.server == y.server
    && RRsThen(acks, FinalAck(y.server))
    && (forall i | 0 <= i < |acks| :: acks[i] in z.toServer)
    && (if y.server.eofSent then Finished(c, z.server, z.client, []) && z.client.eof
        else z.client.expectedSeq == y.server.nextSeq && ClientRunning(z.client) && z.client.attempts == 0)
  }

  lemma DeliverLast(c: Config, y: System, n: nat)
    requires DeliveryReady(c, y, n) && n == y.server.nextSeq - 1
    ensures var m := Resend(c, y.server, n);
            Delivered(c, y, Next(c, y, ClientGets(m)), [ClientReceive(c, y.client, m).ack])
  {
    var m := Resend(c, y.server, n);
    NextInv(c, y, ClientGets(m));
    ExpectedBounds(c, y);
    if y.server.eofSent {
      EofEnds(c, y, n);
    } else {
      DataAdvances(c, y, n, m);
      ExpectedBounds(c, Next(c, y, ClientGets(m)));
    }
  }

  lemma {:induction false} RunKeepsMessages(c: Config, y: System, steps: seq<Step>)
    requires Shape(c, y) && CanRun(c, y, steps)
    ensures y.toServer <= Run(c, y, steps).toServer && y.toClient <= Run(c, y, steps).toClient
    decreases |steps|
  {
    if steps != [] {
      RunKeepsMessages(c, Next(c, y, steps[0]), steps[1..]);
    }
  }

  lemma DeliverOne(c: Config, y: System, n: nat)
    requires DeliveryReady(c, y, n) && n < y.server.nextSeq - 1
    ensures var z := Next(c, y, ClientGets(Resend(c, y.server, n)));
            DeliveryReady(c, z, n + 1) && z.server == y.server
            && ClientReceive(c, y.client, Resend(c, y.server, n)).ack.RR?
  {
    var m := Resend(c, y.server, n);
    NextInv(c, y, ClientGets(m));
    DataAdvances(c, y, n, m);
    var z := Next(c, y, ClientGets(m));
    forall k | n + 1 <= k < z.server.nextSeq ensures Resend(c, z.server, k) in z.toClient {
      assert Resend(c, y.server, k) in y.toClient;
    }
  }

  /** What the deliveries from n on reach, in one predicate. */
  ghost predicate WindowDelivered(c: Config, y: System, msgs: seq<Msg>) {
    && Shape(c, y)
    && CleanRun(c, y, Deliveries(msgs)) && CanRun(c, y, Deliveries(msgs))
    && (forall i | 0 <= i < |msgs| :: |msgs[i].payload| <= MAX_BUFFER)
    && Delivered(c, y, Run(c, y, Deliveries(msgs)), Replies(c, y.client, msgs))
  }

  lemma DeliverFirst(c: Config, y: System, m: Msg, rest: seq<Msg>)
    requires Shape(c, y) && Enabled(y, ClientGets(m))
    requires ClientReceive(c, y.client, m).ack.RR?
    requires WindowDelivered(c, Next(c, y, ClientGets(m)), rest)
    ensures WindowDelivered(c, y, [m] + rest)
  {
    var z := Next(c, y, ClientGets(m));
    var msgs := [m] + rest;
    assert Deliveries(msgs)[0] == ClientGets(m) && Deliveries(msgs)[1..] == Deliveries(rest);
    assert msgs[1..] == rest;
    RunKeepsMessages(c, z, Deliveries(rest));
    var acks := Replies(c, y.client, msgs);
    assert acks == [ClientReceive(c, y.client, m).ack] + Replies(c, z.client, rest);
  }

  lemma {:induction false} DeliverWindow(c: Config, y: System, n: nat)
    requires DeliveryReady(c, y, n)
    ensures WindowDelivered(c, y, Retransmit(c, y.server, n))
    decreases y.server.nextSeq - n
  {
    var m := Resend(c, y.server, n);
    var z := Next(c, y, ClientGets(m));
    if n == y.server.nextSeq - 1 {
      DeliverLast(c, y, n);
      DeliverSingle(c, y, m);
      assert Retransmit(c, y.server, n) == [m];
    } else {
      DeliverOne(c, y, n);
      DeliverWindow(c, z, n + 1);
      DeliverFirst(c, y, m, Retransmit(c, y.server, n + 1));
    }
  }

  lemma DeliverSingle(c: Config, y: System, m: Msg)
    requires Shape(c, y) && Enabled(y, ClientGets(m))
    requires Delivered(c, y, Next(c, y, ClientGets(m)), [ClientReceive(c, y.client, m).ack])
    ensures WindowDelivered(c, y, [m])
  {
    assert Deliveries([m])[0] == ClientGets(m) && Deliveries([m])[1..] == [];
    assert Replies(c, y.client, [m]) == [ClientReceive(c, y.client, m).ack];
  }

  // ----- The answers -----

  lemma AnswerOne(c: Config, y: System, a: Ack)
    requires SystemInv(c, y) && Shape(c, y) && ServerRunning(y.server) && a in y.toServer && !a.SREJ?
    ensures var z := Next(c, y, ServerGets(a));
            && SystemInv(c, z) && z.client == y.client && y.toServer == z.toServer
            && z.server.attempts == 0 && z.server.eofAcked == a.EofAck?
            && z.server.base >= y.server.base && (a.RR? ==> z.server.base >= a.seqNum)
  {
    NextInv(c, y, ServerGets(a));
    assert AckOk(y.client, a);
    ExpectedBounds(c, y);
    ServerReceiveInv(c, y.server, y.client.expectedSeq, a);
  }

  ghost predicate Answered(c: Config, y: System, last: Ack, z: System) {
    && SystemInv(c, z) && Shape(c, z) && z.client == y.client
    && z.server.attempts == 0 && z.server.eofAcked == last.EofAck?
    && z.server.base >= y.server.base && (last.RR? ==> z.server.base >= last.seqNum)
  }

  lemma {:induction false} AnswerAll(c: Config, y: System, acks: seq<Ack>, last: Ack)
    requires SystemInv(c, y) && Shape(c, y) && ServerRunning(y.server)
    requires RRsThen(acks, last) && !last.SREJ? && forall i | 0 <= i < |acks| :: acks[i] in y.toServer
    ensures CleanRun(c, y, Answers(acks)) && CanRun(c, y, Answers(acks))
    ensures Answered(c, y, last, Run(c, y, Answers(acks)))
    decreases |acks|
  {
    var a := acks[0];
    assert Answers(acks)[0] == ServerGets(a) && Answers(acks)[1..] == Answers(acks[1..]);
    AnswerOne(c, y, a);
    if |acks| == 1 {
      assert Answers(acks[1..]) == [];
    } else {
      AnswerAll(c, Next(c, y, ServerGets(a)), acks[1..], last);
    }
  }

  // ----- One round -----

  /** The state a round without loss can start from: the receiver unfinished, a timeout left to the server. */
  ghost predicate RoundReady(c: Config, y: System) {
    && SystemInv(c, y) && Shape(c, y)
    && ClientRunning(y.client) && !y.server.eofAcked && y.server.attempts + 1 < MAX_ATTEMPTS
  }

  /** Both ends are done; the EOF that was accepted was an empty one. */
  ghost predicate BothDone(c: Config, y: System) {
    y.client.eof && y.server.eofAcked && Finished(c, y.server, y.client, [])
  }

  lemma TimeoutOpensDelivery(c: Config, y: System)
    requires RoundReady(c, y)
    ensures var z := Next(c, y, ServerTimesOut);
            && DeliveryReady(c, z, z.server.base)
            && z.server == y.server.(attempts := y.server.attempts + 1) && z.client == y.client
            && Retransmit(c, z.server, z.server.base) == Retransmit(c, y.server, y.server.base)
  {
    NextInv(c, y, ServerTimesOut);
    var z := Next(c, y, ServerTimesOut);
    var msgs := Retransmit(c, y.server, y.server.base);
    forall k | z.server.base <= k < z.server.nextSeq
      ensures Resend(c, z.server, k) in z.toClient
    {
      assert msgs[k - y.server.base] == Resend(c, y.server, k) == Resend(c, z.server, k);
    }
    forall i | 0 <= i < |msgs| ensures msgs[i] == Retransmit(c, z.server, z.server.base)[i] {
      assert msgs[i] == Resend(c, y.server, y.server.base + i) == Resend(c, z.server, y.server.base + i);
    }
  }

  ghost predicate RoundDone(c: Config, y: System, z: System) {
    && SystemInv(c, z) && Shape(c, z)
    && (if y.server.eofSent then BothDone(c, z)
        else z.server.base == y.server.nextSeq && RoundReady(c, z) && z.server.attempts == 0)
  }

  lemma DeliveredThenAnswered(c: Config, y: System, x: System, z: System, acks: seq<Ack>)
    requires Delivered(c, y, x, acks) && Answered(c, x, FinalAck(y.server), z)
    requires CanRun(c, x, Answers(acks)) && z == Run(c, x, Answers(acks))
    ensures RoundDone(c, y, z)
  {
    ExpectedBounds(c, z);
    if y.server.eofSent {
      assert Finished(c, z.server, z.client, []);
    }
  }

  /** The deliveries and the answers of a round, from the state after the timeout. */
  lemma ExchangeRuns(c: Config, y: System, msgs: seq<Msg>)
    requires DeliveryReady(c, y, y.server.base) && msgs == Retransmit(c, y.server, y.server.base)
    requires !y.server.eofAcked && y.server.attempts < MAX_ATTEMPTS
    ensures var steps := Deliveries(msgs) + Answers(Replies(c, y.client, msgs));
            CleanRun(c, y, steps) && CanRun(c, y, steps) && RoundDone(c, y, Run(c, y, steps))
  {
    DeliverWindow(c, y, y.server.base);
    var acks := Replies(c, y.client, msgs);
    var x := Run(c, y, Deliveries(msgs));
    AnswerAll(c, x, acks, FinalAck(y.server));
    DeliveredThenAnswered(c, y, x, Run(c, x, Answers(acks)), acks);
    RunConcat(c, y, Deliveries(msgs), Answers(acks));
  }

  /**
   Bounded progress: from any clean reachable state with the receiver
   unfinished and timeouts left, a round without loss raises the base to the
   old nextSeq, or ends both sides if EOF was already sent.
   */
  lemma RoundAdvances(c: Config, y: System)
    requires RoundReady(c, y)
    ensures CleanRun(c, y, Round(c, y)) && CanRun(c, y, Round(c, y))
    ensures RoundDone(c, y, Run(c, y, Round(c, y)))
  {
    var msgs := Retransmit(c, y.server, y.server.base);
    TimeoutOpensDelivery(c, y);
    ExchangeRuns(c, Next(c, y, ServerTimesOut), msgs);
    var rest := Deliveries(msgs) + Answers(Replies(c, y.client, msgs));
    assert Round(c, y) == [ServerTimesOut] + rest;
    assert Round(c, y)[1..] == rest;
  }

  // ----- Many rounds -----

  /** At most k rounds without loss end both sides. */
  ghost predicate DoneWithin(c: Config, y: System, k: nat)
    requires Shape(c, y)
    decreases k
  {
    || BothDone(c, y)
    || (k > 0 && CleanRun(c, y, Round(c, y)) && CanRun(c, y, Round(c, y))
        && DoneWithin(c, Run(c, y, Round(c, y)), k - 1))
  }

  /** Where the base is at least after k windows. */
  function Windows(base: nat, k: nat, w: nat): nat
    decreases k
  {
    if k == 0 then base else Windows(base + w, k - 1, w)
  }

  lemma {:induction false} WindowsAre(base: nat, k: nat, w: nat)
    ensures Windows(base, k, w) == base + k * w
    decreases k
  {
    if k > 0 {
      WindowsAre(base + w, k - 1, w);
      assert k * w == (k - 1) * w + w;
    }
  }

  /** Each round the window moves by its whole size, until EOF has been sent. */
  lemma {:induction false} RoundsFinish(c: Config, y: System, k: nat)
    requires RoundReady(c, y) && k > 0 && EofSeq(c) < Windows(y.server.base, k, c.winSize)
    ensures DoneWithin(c, y, k)
    decreases k
  {
    RoundAdvances(c, y);
    var z := Run(c, y, Round(c, y));
    if y.server.eofSent {
      assert DoneWithin(c, z, k - 1);
    } else {
      UnsentBeforeEof(c, y.server);
      assert Windows(y.server.base, k, c.winSize) == Windows(z.server.base, k - 1, c.winSize);
      RoundsFinish(c, z, k - 1);
    }
  }

  lemma UnsentBeforeEof(c: Config, s: Server)
    requires ServerInv(c, s) && !s.eofSent
    ensures s.base + c.winSize == s.nextSeq <= EofSeq(c)
  {
    ReadBound(c, s.nextSeq);
  }

  lemma CeilingCovers(base: nat, n: nat, w: nat)
    requires w > 0
    ensures (n + w) / w > 0 && base + n < Windows(base, (n + w) / w, w)
  {
    DivBounds(n + w, w);
    if (n + w) / w <= 0 { Monotone((n + w) / w, 0, w); }
    WindowsAre(base, (n + w) / w, w);
  }

  /**
   From any clean reachable state with the receiver unfinished and timeouts
   left, as many rounds without loss as the packets from the base on fill
   windows, EOF counted, end both sides.
   */
  lemma TransferFinishes(c: Config, y: System)
    requires Reachable(c, y) && Shape(c, y)
    requires ClientRunning(y.client) && !y.server.eofAcked && y.server.attempts + 1 < MAX_ATTEMPTS
    ensures y.server.base <= EofSeq(c)
    ensures DoneWithin(c, y, (EofSeq(c) - y.server.base + c.winSize) / c.winSize)
  {
    ReachableInv(c, y);
    ExpectedBounds(c, y);
    CeilingCovers(y.server.base, EofSeq(c) - y.server.base, c.winSize);
    RoundsFinish(c, y, (EofSeq(c) - y.server.base + c.winSize) / c.winSize);
  }

  /** A whole transfer of N data packets: ceil((N + 1) / w) rounds without loss from its start. */
  lemma FreshTransferFinishes(c: Config, serverPanes: seq<Pane>, clientPanes: seq<Pane>)
    requires Fresh(c, serverPanes, clientPanes)
    ensures DoneWithin(c, Start(c, serverPanes, clientPanes), (EofSeq(c) + c.winSize) / c.winSize)
  {
    var y := Start(c, serverPanes, clientPanes);
    StartInv(c, serverPanes, clientPanes);
    InitialFillInv(c, NewServer(c, serverPanes));
    CeilingCovers(0, EofSeq(c), c.winSize);
    RoundsFinish(c, y, (EofSeq(c) + c.winSize) / c.winSize);
  }
}
