/**
 Where the transfer falls short of reproducing the file, and exactly when it
 does not: the left-over bytes of the last buffer, and SREJs for packets that
 were never sent.
 */
module Exactness {
  import opened Bytes
  import opened WindowBuffer
  import opened Protocol
  import opened Chunks
  import opened Invariant
  import opened Safety
  import opened Progress
  import opened Messages

  /** Panes as malloc might return them. */
  function SomePanes(w: nat): (panes: seq<Pane>)
    requires w > 0
    ensures Ring(panes, w) && Unused(panes)
  {
    seq(w, i => Pane(NO_SEQ, seq(MAX_BUFFER, k => 0)))
  }

  // ----- The left-over bytes -----

  lemma ReachableExtends(c: Config, y: System, steps: seq<Step>)
    requires Reachable(c, y) && Shape(c, y) && CleanRun(c, y, steps) && CanRun(c, y, steps)
    ensures Reachable(c, Run(c, y, steps))
  {
    var sp, cp, before :| ReachedBy(c, sp, cp, before, y);
    RunConcat(c, Start(c, sp, cp), before, steps);
    assert ReachedBy(c, sp, cp, before + steps, Run(c, y, steps));
  }

  lemma StartReachable(c: Config, sp: seq<Pane>, cp: seq<Pane>)
    requires Fresh(c, sp, cp)
    ensures Reachable(c, Start(c, sp, cp))
  {
    assert ReachedBy(c, sp, cp, [], Start(c, sp, cp));
  }

  lemma {:induction false} DoneState(c: Config, y: System, k: nat) returns (z: System)
    requires Reachable(c, y) && Shape(c, y) && DoneWithin(c, y, k)
    ensures Reachable(c, z) && BothDone(c, z)
    decreases k
  {
    if BothDone(c, y) {
      z := y;
    } else {
      ReachableExtends(c, y, Round(c, y));
      z := DoneState(c, Run(c, y, Round(c, y)), k - 1);
    }
  }

  /**
   The protocol's promise, and its exact condition: every completed clean run
   leaves the receiver with the file if and only if the file is a whole number
   of buffers long.
   */
  lemma AlwaysReproducesFileIff(c: Config)
    requires ValidConfig(c)
    ensures (forall y :: Reachable(c, y) && y.client.eof ==> y.client.output == c.file)
            <==> LeftOver(c) == 0
  {
    if LeftOver(c) == 0 {
      forall y | Reachable(c, y) && y.client.eof ensures y.client.output == c.file {
        CompletedOutput(c, y);
      }
    } else {
      var y := LeftOverLost(c);
      assert y.client.output != c.file;
    }
  }

  /** With bytes left over, rounds without loss end in a run whose output is not the file. */
  lemma LeftOverLost(c: Config) returns (z: System)
    requires ValidConfig(c) && LeftOver(c) != 0
    ensures Reachable(c, z) && z.client.eof && z.server.eofAcked && z.client.output != c.file
  {
    z := SomeRunCompletes(c);
    FinishedOutput(c, z.server, z.client, []);
  }

  /** One byte, buffers of two: two bytes arrive. Three bytes, buffers of two, a window of one: two arrive. */
  lemma LeftOverExamples() returns (padded: System, cut: System)
    ensures Reachable(Config([7], 2, 1), padded) && padded.client.eof && |padded.client.output| == 2
    ensures Reachable(Config([1, 2, 3], 2, 1), cut) && cut.client.eof && cut.client.output == [1, 2]
  {
    var c, d := Config([7], 2, 1), Config([1, 2, 3], 2, 1);
    padded := LeftOverLost(c);
    CompletedOutput(c, padded);
    cut := LeftOverLost(d);
    CompletedOutput(d, cut);
    assert d.file[..2] == [1, 2];
  }

  // ----- SREJs for packets never sent -----

  /** Reached by any run at all: SREJs for unsent packets are acted on too. */
  ghost predicate ReachableAnyhow(c: Config, y: System) {
    exists serverPanes, clientPanes, steps :: ReachedAnyhowBy(c, serverPanes, clientPanes, steps, y)
  }

  ghost predicate ReachedAnyhowBy(c: Config, sp: seq<Pane>, cp: seq<Pane>, steps: seq<Step>, y: System) {
    && Fresh(c, sp, cp) && CanRun(c, Start(c, sp, cp), steps)
    && y == Run(c, Start(c, sp, cp), steps)
  }

  lemma AnyhowExtends(c: Config, y: System, step: Step)
    requires ReachableAnyhow(c, y) && Shape(c, y) && Enabled(y, step)
    ensures ReachableAnyhow(c, Next(c, y, step))
  {
    var sp, cp, before :| ReachedAnyhowBy(c, sp, cp, before, y);
    var z := Next(c, y, step);
    assert [step][1..] == [];
    assert CanRun(c, z, []) && Run(c, z, []) == z;
    assert CanRun(c, y, [step]) && Run(c, y, [step]) == z;
    RunConcat(c, Start(c, sp, cp), before, [step]);
    assert ReachedAnyhowBy(c, sp, cp, before + [step], z);
  }

  lemma ReachableIsReachableAnyhow(c: Config, y: System)
    requires Reachable(c, y)
    ensures ReachableAnyhow(c, y)
  {
    var sp, cp, steps :| ReachedBy(c, sp, cp, steps, y);
    assert ReachedAnyhowBy(c, sp, cp, steps, y);
  }

  /** Nothing is buffered at the receiver. */
  ghost predicate NothingBuffered(r: Client) {
    forall i | 0 <= i < |r.panes| :: r.panes[i].seqNum == NO_SEQ || r.panes[i].seqNum < r.expectedSeq
  }

  /** Both ends in step at packet k, with every timeout left. */
  ghost predicate InStep(c: Config, y: System, k: nat) {
    && Reachable(c, y) && SystemInv(c, y) && Shape(c, y)
    && y.server.base == k == y.client.expectedSeq
    && y.server.attempts == 0 && !y.server.eofAcked
    && ClientRunning(y.client) && NothingBuffered(y.client)
  }

  lemma FlushesOne(c: Config, r: Client, payload: seq<byte>)
    requires ClientShape(c, r) && NothingBuffered(r) && |payload| <= MAX_BUFFER && r.expectedSeq + 1 < NO_SEQ
    ensures var f := Flush(c, StorePane(c, r, r.expectedSeq, payload));
            f.expectedSeq == r.expectedSeq + 1 && NothingBuffered(f)
  {
    var stored := StorePane(c, r, r.expectedSeq, payload);
    var p := stored.panes[r.expectedSeq % c.winSize];
    var next := stored.(expectedSeq := r.expectedSeq + 1, output := r.output + p.data[..c.bufSize]);
    assert Flush(c, stored) == Flush(c, next);
    assert next.panes[next.expectedSeq % c.winSize].seqNum != next.expectedSeq;
    assert Flush(c, next) == next;
  }

  /** A timeout, the first resend and its RR move both ends one packet on. */
  lemma OneByOne(c: Config, y: System, k: nat) returns (z: System)
    requires InStep(c, y, k) && k + c.winSize < EofSeq(c)
    ensures InStep(c, z, k + 1)
  {
    TimeoutOpensDelivery(c, y);
    var y1 := Next(c, y, ServerTimesOut);
    var y2 := FirstResendArrives(c, y1, k);
    z := ItsRRArrives(c, y2, k);
    StepsOfThree(c, y, ServerTimesOut, ClientGets(Resend(c, y1.server, k)), ServerGets(RR(k + 1)));
    ReachableExtends(c, y, [ServerTimesOut, ClientGets(Resend(c, y1.server, k)), ServerGets(RR(k + 1))]);
  }

  lemma ItsRRArrives(c: Config, y: System, k: nat) returns (z: System)
    requires SystemInv(c, y) && Shape(c, y) && ServerRunning(y.server) && RR(k + 1) in y.toServer
    requires y.client.expectedSeq == k + 1 && ClientRunning(y.client) && NothingBuffered(y.client)
    ensures Enabled(y, ServerGets(RR(k + 1))) && z == Next(c, y, ServerGets(RR(k + 1)))
    ensures SystemInv(c, z) && Shape(c, z) && z.client == y.client
    ensures z.server.base == k + 1 && z.server.attempts == 0 && !z.server.eofAcked
  {
    AnswerOne(c, y, RR(k + 1));
    z := Next(c, y, ServerGets(RR(k + 1)));
    ExpectedBounds(c, z);
  }

  lemma StepsOfThree(c: Config, y: System, a: Step, b: Step, d: Step)
    requires Shape(c, y) && Enabled(y, a) && Clean(y, a)
    requires Enabled(Next(c, y, a), b) && Clean(Next(c, y, a), b)
    requires var z := Next(c, Next(c, y, a), b); Enabled(z, d) && Clean(z, d)
    ensures CleanRun(c, y, [a, b, d]) && CanRun(c, y, [a, b, d])
    ensures Run(c, y, [a, b, d]) == Next(c, Next(c, Next(c, y, a), b), d)
  {
    assert [a, b, d][1..] == [b, d] && [b, d][1..] == [d] && [d][1..] == [];
    var y1 := Next(c, y, a);
    var y2 := Next(c, y1, b);
    var y3 := Next(c, y2, d);
    assert CleanRun(c, y3, []) && CanRun(c, y3, []) && Run(c, y3, []) == y3;
    assert CleanRun(c, y2, [d]) && CanRun(c, y2, [d]) && Run(c, y2, [d]) == y3;
    assert CleanRun(c, y1, [b, d]) && CanRun(c, y1, [b, d]) && Run(c, y1, [b, d]) == y3;
  }

  lemma FirstResendArrives(c: Config, y: System, k: nat) returns (z: System)
    requires DeliveryReady(c, y, k) && y.server.base == k == y.client.expectedSeq && k < EofSeq(c)
    requires ServerRunning(y.server) && NothingBuffered(y.client)
    ensures Enabled(y, ClientGets(Resend(c, y.server, k))) && z == Next(c, y, ClientGets(Resend(c, y.server, k)))
    ensures SystemInv(c, z) && Shape(c, z) && z.server == y.server
    ensures z.client.expectedSeq == k + 1 && ClientRunning(z.client) && NothingBuffered(z.client)
    ensures RR(k + 1) in z.toServer
  {
    var m := Resend(c, y.server, k);
    z := Next(c, y, ClientGets(m));
    NextInv(c, y, ClientGets(m));
    EofSeqBounds(c);
    FlushesOne(c, y.client.(attempts := 0), m.payload);
  }

  lemma {:induction false} ReachInStep(c: Config, k: nat) returns (y: System)
    requires ValidConfig(c) && !FitsWindow(c) && k + c.winSize <= EofSeq(c)
    ensures InStep(c, y, k)
  {
    if k == 0 {
      var panes := SomePanes(c.winSize);
      y := Start(c, panes, panes);
      StartReachable(c, panes, panes);
      StartInv(c, panes, panes);
      InitialFillInv(c, NewServer(c, panes));
    } else {
      var x := ReachInStep(c, k - 1);
      y := OneByOne(c, x, k - 1);
    }
  }

  /** The receiver has everything the server sent, and the window is full. */
  ghost predicate CaughtUp(c: Config, y: System, n: nat) {
    && Reachable(c, y) && Shape(c, y) && SystemInv(c, y) && RR(n) in y.toServer
    && y.server.nextSeq == n == y.client.expectedSeq && n == y.server.base + c.winSize
    && !y.server.eofSent && ServerRunning(y.server) && ClientRunning(y.client)
  }

  lemma ReachCaughtUp(c: Config, n: nat) returns (z: System)
    requires ValidConfig(c) && !FitsWindow(c) && c.winSize <= n <= EofSeq(c)
    ensures CaughtUp(c, z, n)
  {
    var y := ReachInStep(c, n - c.winSize);
    TimeoutOpensDelivery(c, y);
    var y1 := Next(c, y, ServerTimesOut);
    DeliverWindow(c, y1, y1.server.base);
    var steps := Deliveries(Retransmit(c, y1.server, y1.server.base));
    z := Run(c, y1, steps);
    TimeoutThen(c, y, steps);
    DeliveredCaughtUp(c, y1, z, n);
  }

  lemma TimeoutThen(c: Config, y: System, steps: seq<Step>)
    requires Reachable(c, y) && Shape(c, y) && ServerRunning(y.server)
    requires var x := Next(c, y, ServerTimesOut); CleanRun(c, x, steps) && CanRun(c, x, steps)
    ensures Reachable(c, Run(c, Next(c, y, ServerTimesOut), steps))
  {
    assert ([ServerTimesOut] + steps)[1..] == steps;
    ReachableExtends(c, y, [ServerTimesOut] + steps);
  }

  lemma DeliveredCaughtUp(c: Config, y: System, z: System, n: nat)
    requires DeliveryReady(c, y, y.server.base) && ServerRunning(y.server) && !FitsWindow(c)
    requires y.server.base + c.winSize == n <= EofSeq(c) && Reachable(c, z)
    requires exists acks :: Delivered(c, y, z, acks)
    ensures CaughtUp(c, z, n)
  {
    assert !y.server.eofSent;
    var acks :| Delivered(c, y, z, acks);
    assert acks[|acks| - 1] in z.toServer;
  }

  /** The receiver writes whatever full buffer arrives under the expected number. */
  lemma ExpectedIsWritten(c: Config, r: Client, payload: seq<byte>)
    requires ClientShape(c, r) && |payload| == c.bufSize
    ensures var z := ClientReceive(c, r, Data(r.expectedSeq, payload)).client;
            r.expectedSeq + 1 <= z.expectedSeq && r.output + payload <= z.output
  {
    var stored := StorePane(c, r.(attempts := 0), r.expectedSeq, payload);
    assert stored.panes[r.expectedSeq % c.winSize].data[..c.bufSize] == payload;
    FlushOnlyAdds(c, stored.(expectedSeq := r.expectedSeq + 1, output := r.output + payload));
  }

  /** The corrupted packet and the SREJ it causes: the server puts a stale pane under a new label. */
  lemma StalePaneSent(c: Config, y: System, n: nat) returns (z: System)
    requires CaughtUp(c, y, n) && c.winSize <= n
    ensures ReachableAnyhow(c, z) && Shape(c, z) && ClientRunning(z.client)
    ensures z.client == y.client.(attempts := 0)
    ensures Data(n, Chunk(c, n - c.winSize)) in z.toClient && |Chunk(c, n - c.winSize)| == c.bufSize
  {
    ReachableIsReachableAnyhow(c, y);
    AnyhowExtends(c, y, ClientGetsCorrupt);
    var y1 := Next(c, y, ClientGetsCorrupt);
    AnyhowExtends(c, y1, ServerGets(SREJ(n)));
    z := Next(c, y1, ServerGets(SREJ(n)));
    StaleChunk(c, y, n);
    var m := Resend(c, y.server.(attempts := 0), n);
    assert m in [m];
  }

  lemma StalePaneServed(c: Config, y: System, n: nat) returns (z: System)
    requires CaughtUp(c, y, n) && c.winSize <= n
    ensures ReachableAnyhow(c, z) && n + 1 <= z.client.expectedSeq
    ensures y.client.output + Chunk(c, n - c.winSize) <= z.client.output
    ensures |y.client.output| == n * c.bufSize && |Chunk(c, n - c.winSize)| == c.bufSize
  {
    var x := StalePaneSent(c, y, n);
    var m := Data(n, Chunk(c, n - c.winSize));
    AnyhowExtends(c, x, ClientGets(m));
    z := Next(c, x, ClientGets(m));
    ExpectedIsWritten(c, x.client, m.payload);
  }

  lemma StaleChunk(c: Config, y: System, n: nat)
    requires CaughtUp(c, y, n) && c.winSize <= n
    ensures Resend(c, y.server.(attempts := 0), n) == Data(n, Chunk(c, n - c.winSize))
    ensures |Chunk(c, n - c.winSize)| == c.bufSize
  {
    SameSlot(n, c.winSize);
    ReadBound(c, n);
    EofSeqBounds(c);
    ChunkSizes(c, n - c.winSize);
    assert Holds(c, y.server.panes, n - c.winSize);
  }

  /**
   When the clean-SREJ hypothesis can be dropped, for the packet count: in
   every run at all the receiver stays within the packets before EOF if and
   only if the whole file goes out in the initial fill.
   */
  lemma NeverOvershootsIff(c: Config)
    requires ValidConfig(c)
    ensures (forall y :: ReachableAnyhow(c, y) ==> y.client.expectedSeq <= EofSeq(c)) <==> FitsWindow(c)
  {
    if FitsWindow(c) {
      forall y | ReachableAnyhow(c, y) ensures y.client.expectedSeq <= EofSeq(c) {
        FittingIsClean(c, y);
        ReachableInv(c, y);
        ExpectedBounds(c, y);
      }
    } else {
      EofSeqBounds(c);
      var y := ReachCaughtUp(c, EofSeq(c));
      var z := StalePaneServed(c, y, EofSeq(c));
      assert z.client.expectedSeq > EofSeq(c);
    }
  }

  lemma FittingIsClean(c: Config, y: System)
    requires ReachableAnyhow(c, y) && FitsWindow(c)
    ensures Reachable(c, y)
  {
    var sp, cp, steps :| ReachedAnyhowBy(c, sp, cp, steps, y);
    StartInv(c, sp, cp);
    FittingRunFrom(c, Start(c, sp, cp), steps);
    assert ReachedBy(c, sp, cp, steps, y);
  }

  // ----- The left-over bytes in time -----

  lemma CleanStep(c: Config, y: System, step: Step)
    requires Reachable(c, y) && Shape(c, y) && Enabled(y, step) && Clean(y, step)
    ensures Reachable(c, Next(c, y, step))
  {
    var z := Next(c, y, step);
    assert [step][1..] == [];
    assert CleanRun(c, z, []) && CanRun(c, z, []) && Run(c, z, []) == z;
    assert CleanRun(c, y, [step]) && CanRun(c, y, [step]) && Run(c, y, [step]) == z;
    ReachableExtends(c, y, [step]);
  }

  /** The RR that reaches EOF makes the server send it, with the left-over bytes. */
  lemma FirstEofSent(c: Config, y: System) returns (z: System)
    requires ValidConfig(c) && CaughtUp(c, y, EofSeq(c))
    ensures Reachable(c, z) && Shape(c, z) && z.client == y.client
    ensures Eof(EofSeq(c), Chunk(c, EofSeq(c))) in z.toClient
  {
    var n := EofSeq(c);
    CleanStep(c, y, ServerGets(RR(n)));
    z := Next(c, y, ServerGets(RR(n)));
    MovedWindowExactly(c, y, n);
    var msgs := ServerReceive(c, y.server, RR(n)).msgs;
    assert msgs[0] == FirstSend(c, n + 0);
  }

  /** A run in which the first EOF arrives leaves the whole file, left-over bytes included. */
  lemma LeftOverInTime(c: Config) returns (z: System)
    requires ValidConfig(c) && !FitsWindow(c)
    ensures Reachable(c, z) && z.client.eof && z.client.output == c.file
  {
    EofSeqBounds(c);
    EofChunk(c);
    var x := ReachCaughtUp(c, EofSeq(c));
    var y := FirstEofSent(c, x);
    var m := Eof(EofSeq(c), Chunk(c, EofSeq(c)));
    ReachableInv(c, y);
    CleanStep(c, y, ClientGets(m));
    AcceptedEofDecides(c, y, m);
    z := Next(c, y, ClientGets(m));
  }

  /**
   Whether a completed clean run can reproduce the file at all: if and only if
   nothing is left over, or the left-over bytes come after the first window. A
   short last chunk in the first window is never delivered exactly.
   */
  lemma CanReproduceFileIff(c: Config)
    requires ValidConfig(c)
    ensures (exists y :: Reachable(c, y) && y.client.eof && y.client.output == c.file)
            <==> (LeftOver(c) == 0 || !FitsWindow(c))
  {
    if !FitsWindow(c) {
      var y := LeftOverInTime(c);
    } else if LeftOver(c) == 0 {
      var y := SomeRunCompletes(c);
      CompletedOutput(c, y);
    } else {
      forall y | Reachable(c, y) && y.client.eof ensures y.client.output != c.file {
        CompletedOutput(c, y);
      }
    }
  }

  lemma SomeRunCompletes(c: Config) returns (z: System)
    requires ValidConfig(c)
    ensures Reachable(c, z) && z.client.eof && z.server.eofAcked && Finished(c, z.server, z.client, [])
  {
    var panes := SomePanes(c.winSize);
    FreshTransferFinishes(c, panes, panes);
    StartReachable(c, panes, panes);
    z := DoneState(c, Start(c, panes, panes), (EofSeq(c) + c.winSize) / c.winSize);
  }
}
