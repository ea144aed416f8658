/** What the invariant gives for whole runs of the protocol. */
module Safety {
  import opened Bytes
  import opened WindowBuffer
  import opened Protocol
  import opened Chunks
  import opened Invariant

  /** The state some clean run of the transfer reaches. */
  ghost predicate Reachable(c: Config, y: System) {
    exists serverPanes, clientPanes, steps :: ReachedBy(c, serverPanes, clientPanes, steps, y)
  }

  ghost predicate ReachedBy(c: Config, serverPanes: seq<Pane>, clientPanes: seq<Pane>, steps: seq<Step>, y: System) {
    && Fresh(c, serverPanes, clientPanes)
    && CleanRun(c, Start(c, serverPanes, clientPanes), steps)
    && CanRun(c, Start(c, serverPanes, clientPanes), steps)
    && y == Run(c, Start(c, serverPanes, clientPanes), steps)
  }

  lemma ReachableInv(c: Config, y: System)
    requires Reachable(c, y)
    ensures SystemInv(c, y) && Shape(c, y)
  {
    var sp, cp, steps :| ReachedBy(c, sp, cp, steps, y);
    StartInv(c, sp, cp);
    RunInv(c, Start(c, sp, cp), steps);
  }

  lemma ReachableFinished(c: Config, y: System) returns (tail: seq<byte>)
    requires Reachable(c, y) && (y.client.eof || y.server.eofAcked)
    ensures Finished(c, y.server, y.client, tail)
    ensures y.client.eof && y.server.eofSent && y.server.eofSeq == EofSeq(c)
  {
    ReachableInv(c, y);
    tail :| Finished(c, y.server, y.client, tail);
  }

  /**
   Main safety: under loss, duplication, reordering and corruption, until EOF
   is accepted the receiver has written one buffer per packet it got past, and
   the bytes written never disagree with the file.
   */
  lemma OutputAgreesWithFile(c: Config, y: System)
    requires Reachable(c, y)
    ensures !y.client.eof ==> |y.client.output| == y.client.expectedSeq * c.bufSize
    ensures forall k | 0 <= k < |y.client.output| && k < |c.file| :: y.client.output[k] == c.file[k]
  {
    ReachableInv(c, y);
    if y.client.eof {
      var tail :| Finished(c, y.server, y.client, tail);
    }
  }

  /** The output after an EOF carrying tail was accepted. */
  lemma FinishedOutput(c: Config, s: Server, r: Client, tail: seq<byte>)
    requires Finished(c, s, r, tail)
    ensures if LeftOver(c) != 0 && FitsWindow(c)
            then |r.output| == PaddedLength(c) && r.output[..|c.file|] == c.file && r.output != c.file
            else r.output == if LeftOver(c) == 0 || tail != [] then c.file else c.file[..|c.file| - LeftOver(c)]
  {
    EofChunk(c);
    if LeftOver(c) != 0 && FitsWindow(c) {
      assert r.output[..|c.file|] == c.file;
    } else if tail == [] {
      assert r.output == c.file[..|c.file| - LeftOver(c)];
    } else {
      assert r.output == c.file;
    }
  }

  /**
   Completion by case. With a whole number of buffers the file arrives
   exactly. A short last chunk within the first window arrives padded to a full
   buffer. A short last chunk beyond it arrives exactly or not at all.
   */
  lemma CompletedOutput(c: Config, y: System)
    requires Reachable(c, y) && y.client.eof
    ensures ValidConfig(c)
    ensures LeftOver(c) == 0 ==> y.client.output == c.file
    ensures LeftOver(c) != 0 && FitsWindow(c) ==>
              |y.client.output| == PaddedLength(c) && y.client.output[..|c.file|] == c.file
    ensures LeftOver(c) != 0 && !FitsWindow(c) ==>
              y.client.output == c.file || y.client.output == c.file[..|c.file| - LeftOver(c)]
  {
    var tail := ReachableFinished(c, y);
    FinishedOutput(c, y.server, y.client, tail);
  }

  /**
   Which EOF decides: at the step that ends the transfer, the output becomes
   the file if and only if nothing was left over after whole buffers, or the
   EOF accepted was one that carried the left-over bytes.
   */
  lemma AcceptedEofDecides(c: Config, y: System, m: Msg)
    requires Reachable(c, y) && Shape(c, y) && Enabled(y, ClientGets(m))
    requires ClientReceive(c, y.client, m).client.eof
    ensures m.Eof? && m.seqNum == EofSeq(c) == y.client.expectedSeq
    ensures Next(c, y, ClientGets(m)).client.output == c.file
            <==> (LeftOver(c) == 0 || (!FitsWindow(c) && m.payload != []))
  {
    ReachableInv(c, y);
    var r := y.client.(attempts := 0);
    assert MsgOk(c, y.server, r.expectedSeq, m);
    AcceptEof(c, y.server, r, m.payload);
    FinishedOutput(c, y.server, r.(output := r.output + m.payload, eof := true), m.payload);
  }

  /** A new EOF message that carries bytes appears only in the step that first sends EOF. */
  lemma OnlyFirstEofCarriesBytes(c: Config, y: System, step: Step, m: Msg)
    requires Reachable(c, y) && Shape(c, y) && Enabled(y, step) && Clean(y, step)
    requires m in Next(c, y, step).toClient && m !in y.toClient && m.Eof? && m.payload != []
    ensures !y.server.eofSent && Next(c, y, step).server.eofSent
    ensures m == Eof(EofSeq(c), Chunk(c, EofSeq(c)))
  {
    ReachableInv(c, y);
    NextInv(c, y, step);
    assert MsgOk(c, Next(c, y, step).server, Next(c, y, step).client.expectedSeq, m);
  }

  /** Stale labels are harmless: a data packet not starting with its chunk is one the receiver no longer wants. */
  lemma StaleLabelsAreOld(c: Config, y: System, n: nat, payload: seq<byte>)
    requires Reachable(c, y)
    requires Data(n, payload) in y.toClient && !StartsWith(payload, Chunk(c, n))
    ensures n < y.client.expectedSeq
  {
    ReachableInv(c, y);
    assert MsgOk(c, y.server, y.client.expectedSeq, Data(n, payload));
  }

  /** The receiver's "outside window" branch is unreachable. */
  lemma NeverOutsideWindow(c: Config, y: System, n: nat, payload: seq<byte>)
    requires Reachable(c, y) && Data(n, payload) in y.toClient
    ensures n < y.client.expectedSeq + c.winSize
  {
    ReachableInv(c, y);
    assert MsgOk(c, y.server, y.client.expectedSeq, Data(n, payload));
  }

  /** The window edges stay ordered and in step with the base, and no uint32_t expression wraps. */
  lemma WindowOrdering(c: Config, y: System)
    requires Reachable(c, y)
    ensures var s, r := y.server, y.client;
            && s.base <= r.expectedSeq <= s.nextSeq && s.base < s.nextSeq
            && s.nextSeq <= s.base + c.winSize + 1
            && (s.nextSeq == s.base + c.winSize + 1 ==> s.eofSent && FitsWindow(c))
            && (s.eofSent ==> r.expectedSeq <= s.eofSeq == EofSeq(c) == s.nextSeq - 1)
            && s.lower == s.base && s.upper == s.base + c.winSize - 1
            && s.base + c.winSize < NO_SEQ && s.nextSeq < NO_SEQ && r.expectedSeq + c.winSize < NO_SEQ
  {
    ReachableInv(c, y);
    EofSeqBounds(c);
    if !y.server.eofSent { ReadBound(c, y.server.nextSeq); }
  }

  /** m is packet n of the transfer sent again: EOF without bytes, or a full buffer starting with n's chunk. */
  ghost predicate ResentWell(c: Config, s: Server, n: nat, m: Msg) {
    && m.seqNum == n
    && (m.Eof? <==> s.eofSent && n == s.eofSeq)
    && (m.Eof? ==> m.payload == [])
    && (m.Data? ==> |m.payload| == c.bufSize && StartsWith(m.payload, Chunk(c, n)))
  }

  lemma ResendForm(c: Config, s: Server, n: nat)
    requires ServerInv(c, s) && s.base <= n < s.nextSeq
    ensures ResentWell(c, s, n, Resend(c, s, n))
  {
    if !s.eofSent { ReadBound(c, s.nextSeq); }
    if !(s.eofSent && n == s.eofSeq) { assert Holds(c, s.panes, n); }
  }

  /**
   The sender's ring holds everything unacknowledged: a timeout sends exactly
   one message per unacknowledged sequence number, in order, each data packet
   starting with its own chunk and EOF empty.
   */
  lemma TimeoutResendsTheWindow(c: Config, y: System)
    requires Reachable(c, y) && Shape(c, y)
    ensures var s := y.server;
            var msgs := ServerTimeout(c, s).msgs;
            && |msgs| == s.nextSeq - s.base
            && forall i | 0 <= i < |msgs| :: ResentWell(c, s, s.base + i, msgs[i])
  {
    ReachableInv(c, y);
    WindowResent(c, y.server);
  }

  lemma WindowResent(c: Config, s: Server)
    requires ServerInv(c, s)
    ensures forall i | 0 <= i < s.nextSeq - s.base :: ResentWell(c, s, s.base + i, Retransmit(c, s, s.base)[i])
  {
    forall i | 0 <= i < s.nextSeq - s.base
      ensures ResentWell(c, s, s.base + i, Retransmit(c, s, s.base)[i])
    {
      ResendForm(c, s, s.base + i);
    }
  }

  /** The i-th buffer of the output, packet i's bytes. */
  ghost predicate BlockOf(c: Config, output: seq<byte>, i: nat) {
    && i * c.bufSize + c.bufSize <= |output|
    && StartsWith(output[i * c.bufSize..i * c.bufSize + c.bufSize], Chunk(c, i))
  }

  lemma OutputBlock(c: Config, output: seq<byte>, n: nat, i: nat)
    requires ValidConfig(c) && Agrees(c, output) && i < n <= EofSeq(c) && |output| >= n * c.bufSize
    ensures BlockOf(c, output, i)
  {
    Monotone(i + 1, n, c.bufSize);
    OffsetsOrdered(c, i);
    ChunkSizes(c, i);
    var from := i * c.bufSize;
    BlockAgrees(c, output, i, from);
  }

  lemma BlockAgrees(c: Config, output: seq<byte>, i: nat, from: nat)
    requires ValidConfig(c) && Agrees(c, output)
    requires Offset(c, i) == from <= |c.file| && from + c.bufSize <= |output|
    ensures StartsWith(output[from..from + c.bufSize], Chunk(c, i))
  {
    var block, chunk := output[from..from + c.bufSize], Chunk(c, i);
    forall k | 0 <= k < |chunk| ensures block[k] == chunk[k] {
      assert chunk[k] == c.file[from + k];
    }
  }

  /** One buffer for each data packet, in order, each starting with its chunk, then EOF's own bytes or none. */
  ghost predicate WrittenInOrder(c: Config, output: seq<byte>)
    requires ValidConfig(c)
  {
    && (forall i | 0 <= i < EofSeq(c) :: BlockOf(c, output, i))
    && EofSeq(c) * c.bufSize <= |output|
    && var tail := output[EofSeq(c) * c.bufSize..];
       tail == [] || tail == Chunk(c, EofSeq(c))
  }

  lemma FinishedBlocks(c: Config, s: Server, r: Client, tail: seq<byte>)
    requires Finished(c, s, r, tail)
    ensures WrittenInOrder(c, r.output)
  {
    forall i | 0 <= i < EofSeq(c)
      ensures BlockOf(c, r.output, i)
    {
      OutputBlock(c, r.output, EofSeq(c), i);
    }
    FinishedTail(c, s, r, tail);
  }

  lemma FinishedTail(c: Config, s: Server, r: Client, tail: seq<byte>)
    requires Finished(c, s, r, tail)
    ensures EofSeq(c) * c.bufSize <= |r.output| && r.output[EofSeq(c) * c.bufSize..] == tail
  {
    EofChunk(c);
    var from := EofSeq(c) * c.bufSize;
    forall k | 0 <= k < |tail| ensures r.output[from + k] == tail[k] {
      assert tail[k] == c.file[from + k];
    }
  }

  /**
   End agreement: when the server stops because EOF was acknowledged, the
   receiver has accepted it, and its output is one buffer for each data packet,
   in order, each starting with its chunk, followed by EOF's own bytes.
   */
  lemma EndAgreement(c: Config, y: System)
    requires Reachable(c, y) && y.server.eofAcked
    ensures y.client.eof && y.server.eofSent
    ensures ValidConfig(c) && y.client.expectedSeq == y.server.eofSeq == EofSeq(c)
    ensures WrittenInOrder(c, y.client.output)
  {
    var tail := ReachableFinished(c, y);
    FinishedBlocks(c, y.server, y.client, tail);
  }

  // ----- Clean SREJs -----

  ghost predicate SrejsSent(c: Config, y: System)
    requires ValidConfig(c)
  {
    forall a | a in y.toServer && a.SREJ? :: a.seqNum < y.server.nextSeq && a.seqNum < EofSeq(c)
  }

  lemma IntactStepKeepsSrejsSent(c: Config, y: System, step: Step)
    requires SystemInv(c, y) && SrejsSent(c, y) && Shape(c, y) && Enabled(y, step) && step != ClientGetsCorrupt
    ensures Clean(y, step) && SystemInv(c, Next(c, y, step)) && SrejsSent(c, Next(c, y, step))
  {
    NextInv(c, y, step);
    var z := Next(c, y, step);
    match step
    case ServerGets(a) =>
      ExpectedBounds(c, y);
      assert AckOk(y.client, a);
      ServerReceiveInv(c, y.server, y.client.expectedSeq, a);
    case ServerTimesOut => ServerTimeoutInv(c, y.server, y.client.expectedSeq);
    case ClientGets(m) => assert MsgOk(c, y.server, y.client.expectedSeq, m);
    case _ =>
  }

  lemma {:induction false} IntactRunFrom(c: Config, y: System, steps: seq<Step>)
    requires SystemInv(c, y) && SrejsSent(c, y) && Shape(c, y) && CanRun(c, y, steps) && Intact(steps)
    ensures CleanRun(c, y, steps) && SrejsSent(c, Run(c, y, steps))
    decreases |steps|
  {
    if steps != [] {
      IntactStepKeepsSrejsSent(c, y, steps[0]);
      IntactRunFrom(c, Next(c, y, steps[0]), steps[1..]);
    }
  }

  /**
   Clean SREJs are a theorem when no packet reaches the receiver corrupted:
   every SREJ ever sent names a packet already sent, and never EOF.
   */
  lemma IntactRunsAreClean(c: Config, serverPanes: seq<Pane>, clientPanes: seq<Pane>, steps: seq<Step>)
    requires Fresh(c, serverPanes, clientPanes)
    requires CanRun(c, Start(c, serverPanes, clientPanes), steps) && Intact(steps)
    ensures CleanRun(c, Start(c, serverPanes, clientPanes), steps)
    ensures var y := Run(c, Start(c, serverPanes, clientPanes), steps);
            && (forall a | a in y.toServer && a.SREJ? :: a.seqNum < y.server.nextSeq)
            && (forall a | a in y.toServer && a.SREJ? && y.server.eofSent :: a.seqNum < y.server.eofSeq)
  {
    StartInv(c, serverPanes, clientPanes);
    IntactRunFrom(c, Start(c, serverPanes, clientPanes), steps);
    RunInv(c, Start(c, serverPanes, clientPanes), steps);
  }

  lemma {:induction false} FittingRunFrom(c: Config, y: System, steps: seq<Step>)
    requires SystemInv(c, y) && Shape(c, y) && CanRun(c, y, steps) && FitsWindow(c)
    ensures CleanRun(c, y, steps)
    decreases |steps|
  {
    if steps != [] {
      ExpectedBounds(c, y);
      if steps[0].ServerGets? { assert AckOk(y.client, steps[0].ack); }
      NextInv(c, y, steps[0]);
      FittingRunFrom(c, Next(c, y, steps[0]), steps[1..]);
    }
  }
}
