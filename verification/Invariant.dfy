/** The inductive invariant over both ends and every message ever sent, and its preservation by every step. */
module Invariant {
  import opened Bytes
  import opened WindowBuffer
  import opened Protocol
  import opened Chunks

  // ----- The sending end -----

  /** Packet n sits in its own pane, which starts with its bytes. */
  ghost predicate Holds(c: Config, panes: seq<Pane>, n: nat)
    requires Ring(panes, c.winSize)
  {
    panes[n % c.winSize].seqNum == n && StartsWith(panes[n % c.winSize].data, Chunk(c, n))
  }

  /** Every unacknowledged data packet is still in the ring. */
  ghost predicate HoldsWindow(c: Config, s: Server)
    requires ServerShape(c, s)
  {
    forall n | s.base <= n < s.nextSeq && n < EofSeq(c) :: Holds(c, s.panes, n)
  }

  /** The server within a fill loop. */
  ghost predicate ServerFilling(c: Config, s: Server) {
    && ServerShape(c, s)
    && s.lower == s.base <= s.nextSeq
    && s.upper == s.base + c.winSize - 1
    && (!s.eofSent ==>
          && s.nextSeq <= s.base + c.winSize
          && s.pos == s.nextSeq * c.bufSize
          && !s.feof)
    && (s.eofSent ==>
          && s.eofSeq == EofSeq(c) && s.nextSeq == EofSeq(c) + 1
          && (FitsWindow(c) || s.nextSeq <= s.base + c.winSize))
    && HoldsWindow(c, s)
  }

  /** The server between steps. */
  ghost predicate ServerInv(c: Config, s: Server) {
    && ServerFilling(c, s)
    && s.base < s.nextSeq
    && (!s.eofSent ==> s.nextSeq == s.base + c.winSize && !FitsWindow(c))
  }

  /** Time only moves the server's edges forward. */
  ghost predicate ServerGrows(s: Server, t: Server) {
    && s.base <= t.base && s.nextSeq <= t.nextSeq && (s.eofSent ==> t.eofSent)
  }

  /**
   What is true of every message ever sent to the receiver: it is labelled
   within the window, and a data packet whose payload is not its chunk is
   below the sequence number the receiver expects.
   */
  ghost predicate MsgOk(c: Config, s: Server, expected: nat, m: Msg)
    requires ValidConfig(c)
  {
    match m
    case Data(n, payload) =>
      && n < s.nextSeq && n < EofSeq(c) && n < s.base + c.winSize
      && |payload| <= c.bufSize
      && (n >= expected ==> StartsWith(payload, Chunk(c, n)))
    case Eof(n, payload) =>
      && s.eofSent && n == EofSeq(c)
      && (payload == [] || payload == Chunk(c, n))
  }

  ghost predicate AllOk(c: Config, s: Server, expected: nat, msgs: seq<Msg>)
    requires ValidConfig(c)
  {
    forall i | 0 <= i < |msgs| :: MsgOk(c, s, expected, msgs[i])
  }

  lemma MsgOkMonotone(c: Config, s: Server, expected: nat, t: Server, expected': nat, m: Msg)
    requires ValidConfig(c) && ServerGrows(s, t) && expected <= expected'
    requires MsgOk(c, s, expected, m)
    ensures MsgOk(c, t, expected', m)
  {
  }

  lemma AllOkMonotone(c: Config, s: Server, t: Server, expected: nat, msgs: seq<Msg>)
    requires ValidConfig(c) && ServerGrows(s, t) && AllOk(c, s, expected, msgs)
    ensures AllOk(c, t, expected, msgs)
  {
  }

  /** Reading the next chunk fills its own pane and leaves the window's other panes alone. */
  lemma ReadPaneHolds(c: Config, s: Server)
    requires ServerShape(c, s) && s.pos == s.nextSeq * c.bufSize && HoldsWindow(c, s)
    requires s.nextSeq < s.base + c.winSize
    ensures var t := ReadPane(c, s);
            && Holds(c, t.panes, s.nextSeq)
            && t.panes[s.nextSeq % c.winSize].data[..|Chunk(c, s.nextSeq)|] == Chunk(c, s.nextSeq)
            && forall n | s.base <= n < s.nextSeq && n < EofSeq(c) :: Holds(c, t.panes, n)
  {
    ReadAt(c, s.nextSeq);
    forall n | s.base <= n < s.nextSeq && n < EofSeq(c)
      ensures Holds(c, ReadPane(c, s).panes, n)
    {
      assert Holds(c, s.panes, n);
      SlotsDiffer(n, s.nextSeq, c.winSize);
    }
  }

  lemma SendNextDataInv(c: Config, s: Server, expected: nat)
    requires ServerFilling(c, s) && !s.eofSent && !FitsWindow(c) && s.nextSeq < s.base + c.winSize
    requires s.base <= expected
    ensures var one := SendNextData(c, s);
            ServerFilling(c, one.server) && ServerGrows(s, one.server) && AllOk(c, one.server, expected, one.msgs)
  {
    ReadAt(c, s.nextSeq);
    ReadPaneHolds(c, s);
    ReadBound(c, s.nextSeq);
    EofSeqBounds(c);
    if |Chunk(c, s.nextSeq)| == c.bufSize { ReadBound(c, s.nextSeq + 1); }
  }

  lemma {:induction false} MainFillInv(c: Config, s: Server, expected: nat)
    requires ServerFilling(c, s) && (!s.eofSent ==> !FitsWindow(c)) && s.base <= expected
    requires s.eofSent ==> s.base < s.nextSeq
    ensures var all := MainFill(c, s);
            ServerInv(c, all.server) && ServerGrows(s, all.server) && AllOk(c, all.server, expected, all.msgs)
            && all.server.base == s.base && all.server.attempts == s.attempts && all.server.eofAcked == s.eofAcked
    decreases s.base + c.winSize - s.nextSeq
  {
    if s.nextSeq >= s.base + c.winSize || s.eofSent {
    } else {
      var one := SendNextData(c, s);
      SendNextDataInv(c, s, expected);
      MainFillInv(c, one.server, expected);
      AllOkMonotone(c, one.server, MainFill(c, one.server).server, expected, one.msgs);
    }
  }

  /** The server within the initial loop. */
  ghost predicate ServerStarting(c: Config, s: Server) {
    && ServerFilling(c, s) && s.base == 0 && !s.eofSent && !s.eofAcked && s.attempts == 0
  }

  /** The initial read that meets the end of the file. */
  lemma InitialEof(c: Config, s: Server)
    requires ServerStarting(c, s) && s.nextSeq < c.winSize
    requires s.nextSeq * c.bufSize <= |c.file| && |Chunk(c, s.nextSeq)| < c.bufSize
    ensures FitsWindow(c)
    ensures EofSeq(c) == s.nextSeq + if Chunk(c, s.nextSeq) == [] then 0 else 1
  {
    ReadAt(c, s.nextSeq);
    OffsetsOrdered(c, s.nextSeq);
    Monotone(s.nextSeq + 1, c.winSize, c.bufSize);
  }

  lemma InitialFull(c: Config, s: Server)
    requires ServerStarting(c, s) && s.nextSeq < c.winSize
    requires s.nextSeq * c.bufSize <= |c.file| && |Chunk(c, s.nextSeq)| == c.bufSize
    ensures var t := ReadPane(c, s).(nextSeq := s.nextSeq + 1);
            && ServerStarting(c, t) && ServerGrows(s, t)
            && MsgOk(c, t, 0, Packet(c, ReadPane(c, s), s.nextSeq, false, c.bufSize))
  {
    ReadAt(c, s.nextSeq);
    ReadPaneHolds(c, s);
    ReadBound(c, s.nextSeq + 1);
  }

  /** The initial window is out. */
  ghost predicate Launched(c: Config, s: Server, all: Sent) {
    && ServerInv(c, all.server) && ServerGrows(s, all.server) && AllOk(c, all.server, 0, all.msgs)
    && all.server.base == 0 && all.server.attempts == 0 && !all.server.eofAcked
    && (all.server.eofSent <==> FitsWindow(c))
  }

  lemma InitialShort(c: Config, s: Server)
    requires ServerStarting(c, s) && s.nextSeq < c.winSize
    requires s.nextSeq * c.bufSize <= |c.file| && |Chunk(c, s.nextSeq)| < c.bufSize
    ensures Launched(c, s, InitialFill(c, s))
  {
    ReadAt(c, s.nextSeq);
    ReadPaneHolds(c, s);
    InitialEof(c, s);
  }

  lemma LaunchOneMore(c: Config, s: Server, t: Server, m: Msg, rest: Sent)
    requires ServerStarting(c, t) && ServerGrows(s, t) && MsgOk(c, t, 0, m) && Launched(c, t, rest)
    ensures Launched(c, s, Sent(rest.server, [m] + rest.msgs))
  {
    MsgOkMonotone(c, t, 0, rest.server, 0, m);
  }

  lemma {:induction false} InitialFillInv(c: Config, s: Server)
    requires ServerStarting(c, s)
    ensures Launched(c, s, InitialFill(c, s))
    decreases c.winSize - s.nextSeq
  {
    if s.nextSeq < c.winSize {
      ReadAt(c, s.nextSeq);
      if |Chunk(c, s.nextSeq)| < c.bufSize {
        InitialShort(c, s);
      } else {
        InitialFull(c, s);
        var t := ReadPane(c, s).(nextSeq := s.nextSeq + 1);
        InitialFillInv(c, t);
        LaunchOneMore(c, s, t, Packet(c, ReadPane(c, s), s.nextSeq, false, c.bufSize), InitialFill(c, t));
      }
    }
  }

  lemma ResendOk(c: Config, s: Server, expected: nat, n: nat)
    requires ServerInv(c, s) && s.base <= expected && n < s.nextSeq
    ensures MsgOk(c, s, expected, Resend(c, s, n))
  {
    EofSeqBounds(c);
    if !s.eofSent { ReadBound(c, s.nextSeq); }
    if s.base <= n && n < EofSeq(c) { assert Holds(c, s.panes, n); }
  }

  lemma MoveWindowInv(c: Config, s: Server, expected: nat, ack: nat)
    requires ServerInv(c, s) && s.base < ack <= expected <= s.nextSeq && expected <= EofSeq(c)
    ensures var d := ack - s.base;
            var t := s.(lower := s.lower + d, upper := s.upper + d, base := ack);
            var all := MainFill(c, t);
            ServerInv(c, all.server) && ServerGrows(s, all.server) && AllOk(c, all.server, expected, all.msgs)
            && all.server.base == ack && all.server.attempts == s.attempts && all.server.eofAcked == s.eofAcked
  {
    MainFillInv(c, s.(lower := ack, upper := ack + c.winSize - 1, base := ack), expected);
  }

  /** The server handling a packet whose acknowledgement does not pass the receiver, and a clean SREJ. */
  lemma ServerReceiveInv(c: Config, s: Server, expected: nat, a: Ack)
    requires ServerInv(c, s) && s.base <= expected <= s.nextSeq && expected <= EofSeq(c)
    requires a.RR? ==> a.seqNum <= expected
    requires a.SREJ? ==> a.seqNum < s.nextSeq
    ensures var all := ServerReceive(c, s, a);
            ServerInv(c, all.server) && ServerGrows(s, all.server) && AllOk(c, all.server, expected, all.msgs)
            && all.server.base == (if a.RR? && a.seqNum > s.base then a.seqNum else s.base)
            && all.server.attempts == 0 && all.server.eofAcked == (s.eofAcked || a.EofAck?)
  {
    match a
    case RR(n) =>
      if n > s.base { MoveWindowInv(c, s.(attempts := 0), expected, n); }
    case SREJ(n) => ResendOk(c, s.(attempts := 0), expected, n);
    case EofAck =>
  }

  lemma ServerTimeoutInv(c: Config, s: Server, expected: nat)
    requires ServerInv(c, s) && s.base <= expected
    ensures var all := ServerTimeout(c, s);
            ServerInv(c, all.server) && ServerGrows(s, all.server) && AllOk(c, all.server, expected, all.msgs)
            && all.server.base == s.base && all.server.eofAcked == s.eofAcked
  {
    forall i | 0 <= i < |Retransmit(c, s, s.base)|
      ensures MsgOk(c, s, expected, Retransmit(c, s, s.base)[i])
    {
      ResendOk(c, s, expected, s.base + i);
    }
  }

  // ----- The receiving end -----

  /** Wherever the file has a byte, the output has the same one. */
  ghost predicate Agrees(c: Config, output: seq<byte>) {
    forall k | 0 <= k < |output| && k < |c.file| :: output[k] == c.file[k]
  }

  /** A pane is unused, or holds a packet the server sent, in its own slot, with its chunk if still to be written. */
  ghost predicate SlotOk(c: Config, s: Server, expected: nat, p: Pane, i: nat)
    requires ValidConfig(c)
  {
    p.seqNum == NO_SEQ
    || (&& p.seqNum % c.winSize == i
        && p.seqNum < s.nextSeq && p.seqNum < EofSeq(c) && p.seqNum < expected + c.winSize
        && (p.seqNum >= expected ==> StartsWith(p.data, Chunk(c, p.seqNum))))
  }

  /** The receiver within its flush loop. */
  ghost predicate ClientFlushing(c: Config, s: Server, r: Client) {
    && ClientShape(c, r)
    && r.expectedSeq <= s.nextSeq && r.expectedSeq <= EofSeq(c)
    && (forall i | 0 <= i < c.winSize :: SlotOk(c, s, r.expectedSeq, r.panes[i], i))
    && Agrees(c, r.output)
    && |r.output| == r.expectedSeq * c.bufSize
  }

  /** The expected packet is not lying in the ring. */
  ghost predicate Flushed(c: Config, r: Client)
    requires ClientShape(c, r)
  {
    r.panes[r.expectedSeq % c.winSize].seqNum != r.expectedSeq
  }

  /** What the receiver has once it accepted an EOF carrying tail. */
  ghost predicate Finished(c: Config, s: Server, r: Client, tail: seq<byte>) {
    && ClientShape(c, r) && s.eofSent
    && r.expectedSeq == EofSeq(c)
    && Agrees(c, r.output)
    && |r.output| == r.expectedSeq * c.bufSize + |tail|
    && (tail == [] || tail == Chunk(c, EofSeq(c)))
  }

  ghost predicate ClientInv(c: Config, s: Server, r: Client) {
    if r.eof then exists tail :: Finished(c, s, r, tail)
    else ClientFlushing(c, s, r) && Flushed(c, r)
  }

  lemma ClientInvMonotone(c: Config, s: Server, t: Server, r: Client)
    requires ClientInv(c, s, r) && ServerGrows(s, t)
    ensures ClientInv(c, t, r)
  {
    if r.eof {
      var tail :| Finished(c, s, r, tail);
      assert Finished(c, t, r, tail);
    }
  }

  /** Writing a pane that starts with the expected chunk keeps the output in step with the file. */
  lemma WriteAgrees(c: Config, output: seq<byte>, n: nat, data: seq<byte>)
    requires ValidConfig(c) && Agrees(c, output) && |output| == n * c.bufSize
    requires |data| == MAX_BUFFER && StartsWith(data, Chunk(c, n)) && n < EofSeq(c)
    ensures Agrees(c, output + data[..c.bufSize])
    ensures |output + data[..c.bufSize]| == (n + 1) * c.bufSize
  {
    OffsetsOrdered(c, n);
    ChunkSizes(c, n);
    var longer := output + data[..c.bufSize];
    forall k | 0 <= k < |longer| && k < |c.file| ensures longer[k] == c.file[k] {
      if k >= |output| {
        assert longer[k] == data[..|Chunk(c, n)|][k - n * c.bufSize];
      }
    }
  }

  lemma WriteInv(c: Config, s: Server, r: Client)
    requires ClientFlushing(c, s, r) && !Flushed(c, r)
    ensures var p := r.panes[r.expectedSeq % c.winSize];
            ClientFlushing(c, s, r.(expectedSeq := r.expectedSeq + 1, output := r.output + p.data[..c.bufSize]))
  {
    var p := r.panes[r.expectedSeq % c.winSize];
    EofSeqBounds(c);
    assert SlotOk(c, s, r.expectedSeq, p, r.expectedSeq % c.winSize);
    WriteAgrees(c, r.output, r.expectedSeq, p.data);
  }

  lemma {:induction false} FlushInv(c: Config, s: Server, r: Client)
    requires ClientFlushing(c, s, r)
    ensures var f := Flush(c, r);
            ClientFlushing(c, s, f) && Flushed(c, f) && r.expectedSeq <= f.expectedSeq
    decreases HighestSeq(r.panes) + 1 - r.expectedSeq
  {
    var p := r.panes[r.expectedSeq % c.winSize];
    if p.seqNum == r.expectedSeq {
      WriteInv(c, s, r);
      FlushInv(c, s, r.(expectedSeq := r.expectedSeq + 1, output := r.output + p.data[..c.bufSize]));
    }
  }

  /** Storing an acceptable packet disturbs no packet that is still needed. */
  lemma StoreInv(c: Config, s: Server, r: Client, n: nat, payload: seq<byte>)
    requires ClientFlushing(c, s, r) && MsgOk(c, s, r.expectedSeq, Data(n, payload))
    requires r.expectedSeq <= n < r.expectedSeq + c.winSize
    ensures ClientFlushing(c, s, StorePane(c, r, n, payload))
    ensures n != r.expectedSeq && Flushed(c, r) ==> Flushed(c, StorePane(c, r, n, payload))
  {
    var data := Overlay(payload, r.panes[n % c.winSize].data);
    assert data[..|Chunk(c, n)|] == payload[..|Chunk(c, n)|];
    if n > r.expectedSeq { SlotsDiffer(r.expectedSeq, n, c.winSize); }
  }

  lemma AcceptEof(c: Config, s: Server, r: Client, payload: seq<byte>)
    requires ClientFlushing(c, s, r) && MsgOk(c, s, r.expectedSeq, Eof(r.expectedSeq, payload))
    ensures Finished(c, s, r.(output := r.output + payload, eof := true), payload)
  {
    EofChunk(c);
  }

  lemma ClientReceiveInv(c: Config, s: Server, r: Client, m: Msg)
    requires ClientInv(c, s, r) && !r.eof && ClientShape(c, r) && MsgOk(c, s, r.expectedSeq, m)
    ensures var z := ClientReceive(c, r, m);
            && ClientInv(c, s, z.client) && r.expectedSeq <= z.client.expectedSeq
            && (z.ack.EofAck? ==> z.client.eof) && (!z.ack.EofAck? ==> z.ack.seqNum <= z.client.expectedSeq)
  {
    var r0 := r.(attempts := 0);
    match m
    case Eof(n, payload) =>
      if n == r.expectedSeq { AcceptEof(c, s, r0, payload); }
    case Data(n, payload) =>
      if r.expectedSeq <= n < r.expectedSeq + c.winSize {
        StoreInv(c, s, r0, n, payload);
        if n == r.expectedSeq { FlushInv(c, s, StorePane(c, r0, n, payload)); }
      }
  }

  // ----- The system -----

  ghost predicate AckOk(r: Client, a: Ack) {
    if a.EofAck? then r.eof else a.seqNum <= r.expectedSeq
  }

  ghost predicate SystemInv(c: Config, y: System) {
    && ServerInv(c, y.server) && ClientInv(c, y.server, y.client)
    && y.server.base <= y.client.expectedSeq
    && (forall m | m in y.toClient :: MsgOk(c, y.server, y.client.expectedSeq, m))
    && (forall a | a in y.toServer :: AckOk(y.client, a))
    && (y.server.eofAcked ==> y.client.eof)
  }

  lemma ExpectedBounds(c: Config, y: System)
    requires SystemInv(c, y)
    ensures y.client.expectedSeq <= y.server.nextSeq && y.client.expectedSeq <= EofSeq(c)
    ensures Shape(c, y)
  {
  }

  lemma ServerStepInv(c: Config, y: System, sent: Sent)
    requires SystemInv(c, y) && ServerInv(c, sent.server) && ServerGrows(y.server, sent.server)
    requires AllOk(c, sent.server, y.client.expectedSeq, sent.msgs)
    requires sent.server.base <= y.client.expectedSeq
    requires sent.server.eofAcked ==> y.client.eof
    ensures SystemInv(c, ServerStep(y, sent))
  {
    ClientInvMonotone(c, y.server, sent.server, y.client);
    forall m | m in ServerStep(y, sent).toClient
      ensures MsgOk(c, sent.server, y.client.expectedSeq, m)
    {
      if m in y.toClient {
        MsgOkMonotone(c, y.server, y.client.expectedSeq, sent.server, y.client.expectedSeq, m);
      }
    }
  }

  lemma ClientStepInv(c: Config, y: System, z: Replied)
    requires SystemInv(c, y) && ClientInv(c, y.server, z.client)
    requires y.client.expectedSeq <= z.client.expectedSeq && (y.client.eof ==> z.client.eof)
    requires AckOk(z.client, z.ack)
    ensures SystemInv(c, ClientStep(y, z))
  {
  }

  lemma ServerGetsInv(c: Config, y: System, a: Ack)
    requires SystemInv(c, y) && Shape(c, y) && Enabled(y, ServerGets(a)) && Clean(y, ServerGets(a))
    ensures SystemInv(c, ServerStep(y, ServerReceive(c, y.server, a)))
  {
    ExpectedBounds(c, y);
    assert AckOk(y.client, a);
    ServerReceiveInv(c, y.server, y.client.expectedSeq, a);
    ServerStepInv(c, y, ServerReceive(c, y.server, a));
  }

  lemma ClientGetsInv(c: Config, y: System, m: Msg)
    requires SystemInv(c, y) && Shape(c, y) && Enabled(y, ClientGets(m))
    ensures SystemInv(c, ClientStep(y, ClientReceive(c, y.client, m)))
  {
    ClientReceiveInv(c, y.server, y.client, m);
    ClientStepInv(c, y, ClientReceive(c, y.client, m));
  }

  lemma TimeoutsInv(c: Config, y: System)
    requires SystemInv(c, y) && Shape(c, y)
    ensures SystemInv(c, ServerStep(y, ServerTimeout(c, y.server)))
    ensures !y.client.eof ==> SystemInv(c, ClientStep(y, ClientTimeout(y.client)))
    ensures !y.client.eof ==> SystemInv(c, ClientStep(y, ClientCorrupt(y.client)))
    ensures SystemInv(c, y.(server := y.server.(attempts := 0)))
  {
    ServerTimeoutInv(c, y.server, y.client.expectedSeq);
    ServerStepInv(c, y, ServerTimeout(c, y.server));
    ClientInvMonotone(c, y.server, y.server.(attempts := 0), y.client);
  }

  /** The invariant is inductive: every clean step, corruption included, keeps it. */
  lemma NextInv(c: Config, y: System, step: Step)
    requires SystemInv(c, y) && Shape(c, y) && Enabled(y, step) && Clean(y, step)
    ensures SystemInv(c, Next(c, y, step))
  {
    match step
    case ServerGets(a) => ServerGetsInv(c, y, a);
    case ServerGetsCorrupt => TimeoutsInv(c, y);
    case ServerTimesOut => TimeoutsInv(c, y);
    case ClientGets(m) => ClientGetsInv(c, y, m);
    case ClientGetsCorrupt => TimeoutsInv(c, y);
    case ClientTimesOut => TimeoutsInv(c, y);
  }

  lemma StartInv(c: Config, serverPanes: seq<Pane>, clientPanes: seq<Pane>)
    requires Fresh(c, serverPanes, clientPanes)
    ensures SystemInv(c, Start(c, serverPanes, clientPanes))
  {
    InitialFillInv(c, NewServer(c, serverPanes));
    EofSeqBounds(c);
  }

  /** The invariant holds at the end of every clean run from a state where it holds. */
  lemma {:induction false} RunInv(c: Config, y: System, steps: seq<Step>)
    requires SystemInv(c, y) && Shape(c, y) && CleanRun(c, y, steps)
    ensures CanRun(c, y, steps) && SystemInv(c, Run(c, y, steps))
    decreases |steps|
  {
    if steps != [] {
      NextInv(c, y, steps[0]);
      RunInv(c, Next(c, y, steps[0]), steps[1..]);
    }
  }
}
