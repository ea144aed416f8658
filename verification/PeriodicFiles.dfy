/**
 Runs in which the server also acts on SREJs for packets it never sent: for
 exactly which files the bytes written still never disagree with the file.
 */
module PeriodicFiles {
  import opened Bytes
  import opened WindowBuffer
  import opened Protocol
  import opened Chunks
  import opened Invariant
  import opened Safety
  import opened Exactness

  ghost predicate HasPeriod(file: seq<byte>, period: nat) {
    forall j, k | 0 <= j < k < |file| && k == j + period :: file[j] == file[k]
  }

  /** The file repeats itself with the period of one whole window. */
  ghost predicate Periodic(c: Config) {
    HasPeriod(c.file, c.winSize * c.bufSize)
  }

  /** The position in the file of byte t of packet n. */
  function ByteOf(c: Config, n: nat, t: nat): nat {
    n * c.bufSize + t
  }

  /** As bytes of packet n, the first buffer of data agrees with the file wherever the file has a byte. */
  ghost predicate AgreesAt(c: Config, n: nat, data: seq<byte>) {
    forall t | 0 <= t < |data| && t < c.bufSize && ByteOf(c, n, t) < |c.file| :: data[t] == c.file[ByteOf(c, n, t)]
  }

  lemma {:induction false} PeriodsApart(file: seq<byte>, period: nat, p: nat, q: nat)
    requires HasPeriod(file, period) && period > 0 && 0 <= q * period && p + q * period < |file|
    ensures file[p] == file[p + q * period]
  {
    if q > 0 {
      assert q * period == (q - 1) * period + period;
      Monotone(0, q - 1, period);
      PeriodsApart(file, period, p, q - 1);
      assert file[p + (q - 1) * period] == file[p + q * period];
    }
  }

  lemma SlotOffset(n: nat, w: nat, b: nat)
    requires w > 0
    ensures n * b == n % w * b + n / w * (w * b)
  {
    DivBounds(n, w);
    assert (n / w * w + n % w) * b == n / w * w * b + n % w * b;
    assert n / w * w * b == n / w * (w * b);
  }

  lemma SlotPosition(c: Config, n: nat, t: nat) returns (q: nat, period: nat)
    requires ValidConfig(c)
    ensures period == c.winSize * c.bufSize && period > 0 && 0 <= q * period
    ensures ByteOf(c, n, t) == ByteOf(c, n % c.winSize, t) + q * period
  {
    q, period := n / c.winSize, c.winSize * c.bufSize;
    SlotOffset(n, c.winSize, c.bufSize);
    Monotone(1, c.winSize, c.bufSize);
    Monotone(0, q, period);
  }

  /** Packets that share a pane share their bytes in a periodic file. */
  lemma SlotByte(c: Config, n: nat, t: nat)
    requires ValidConfig(c) && Periodic(c) && ByteOf(c, n, t) < |c.file|
    ensures ByteOf(c, n % c.winSize, t) < |c.file|
    ensures c.file[ByteOf(c, n, t)] == c.file[ByteOf(c, n % c.winSize, t)]
  {
    var q, period := SlotPosition(c, n, t);
    PeriodsApart(c.file, period, ByteOf(c, n % c.winSize, t), q);
  }

  lemma AgreesInSlot(c: Config, n: nat, data: seq<byte>)
    requires ValidConfig(c) && Periodic(c) && AgreesAt(c, n % c.winSize, data)
    ensures AgreesAt(c, n, data)
  {
    forall t | 0 <= t < |data| && t < c.bufSize && ByteOf(c, n, t) < |c.file|
      ensures data[t] == c.file[ByteOf(c, n, t)]
    {
      SlotByte(c, n, t);
    }
  }

  /** Reading packet n into its pane keeps the pane in agreement with every packet that shares it. */
  lemma OverlayInSlot(c: Config, n: nat, bytes: seq<byte>, data: seq<byte>)
    requires ValidConfig(c) && Periodic(c) && AgreesAt(c, n % c.winSize, data) && |bytes| <= |data|
    requires |bytes| <= c.bufSize && ByteOf(c, n, |bytes|) <= |c.file| && AgreesAt(c, n, bytes)
    ensures AgreesAt(c, n % c.winSize, Overlay(bytes, data))
  {
    var slot := n % c.winSize;
    forall t | 0 <= t < |data| && t < c.bufSize && ByteOf(c, slot, t) < |c.file|
      ensures Overlay(bytes, data)[t] == c.file[ByteOf(c, slot, t)]
    {
      if t < |bytes| { SlotByte(c, n, t); }
    }
  }

  // ----- The invariant of any run over a periodic file longer than the window -----

  ghost predicate ServerAgrees(c: Config, s: Server) {
    && ServerShape(c, s)
    && (!s.eofSent ==> s.pos == s.nextSeq * c.bufSize)
    && forall i | 0 <= i < c.winSize :: AgreesAt(c, i, s.panes[i].data)
  }

  ghost predicate MsgAgrees(c: Config, m: Msg) {
    && AgreesAt(c, m.seqNum, m.payload) && |m.payload| <= c.bufSize
    && (m.Data? ==> |m.payload| == c.bufSize)
  }

  ghost predicate ClientAgrees(c: Config, r: Client) {
    && ClientShape(c, r)
    && Agrees(c, r.output)
    && (!r.eof ==> |r.output| == r.expectedSeq * c.bufSize)
    && forall i | 0 <= i < c.winSize :: AgreesAt(c, r.panes[i].seqNum, r.panes[i].data)
  }

  ghost predicate SystemAgrees(c: Config, y: System) {
    && ServerAgrees(c, y.server) && ClientAgrees(c, y.client)
    && forall m | m in y.toClient :: MsgAgrees(c, m)
  }

  lemma FreadAgrees(c: Config, n: nat)
    requires ValidConfig(c) && n * c.bufSize <= |c.file|
    ensures AgreesAt(c, n, Fread(c, n * c.bufSize)) && n * c.bufSize + |Fread(c, n * c.bufSize)| <= |c.file|
    ensures |Fread(c, n * c.bufSize)| == c.bufSize ==> (n + 1) * c.bufSize == n * c.bufSize + c.bufSize
  {
    OffsetsOrdered(c, n);
  }

  lemma SendNextAgrees(c: Config, s: Server)
    requires ServerAgrees(c, s) && Periodic(c) && !s.eofSent
    ensures var one := SendNextData(c, s);
            ServerAgrees(c, one.server) && MsgAgrees(c, one.msgs[0])
  {
    FreadAgrees(c, s.nextSeq);
    OverlayInSlot(c, s.nextSeq, Fread(c, s.pos), s.panes[s.nextSeq % c.winSize].data);
  }

  lemma {:induction false} MainFillAgrees(c: Config, s: Server)
    requires ServerAgrees(c, s) && Periodic(c)
    ensures var all := MainFill(c, s);
            ServerAgrees(c, all.server) && forall i | 0 <= i < |all.msgs| :: MsgAgrees(c, all.msgs[i])
    decreases s.base + c.winSize - s.nextSeq
  {
    if s.nextSeq < s.base + c.winSize && !s.eofSent {
      SendNextAgrees(c, s);
      MainFillAgrees(c, SendNextData(c, s).server);
    }
  }

  lemma ResendAgrees(c: Config, s: Server, n: nat)
    requires ServerAgrees(c, s) && Periodic(c)
    ensures MsgAgrees(c, Resend(c, s, n))
  {
    AgreesInSlot(c, n, s.panes[n % c.winSize].data);
  }

  lemma ServerReceiveAgrees(c: Config, s: Server, a: Ack)
    requires ServerAgrees(c, s) && Periodic(c)
    ensures var all := ServerReceive(c, s, a);
            ServerAgrees(c, all.server) && forall i | 0 <= i < |all.msgs| :: MsgAgrees(c, all.msgs[i])
  {
    var t := s.(attempts := 0);
    match a
    case RR(n) =>
      if n > s.base {
        var d := n - s.base;
        MainFillAgrees(c, t.(lower := t.lower + d, upper := t.upper + d, base := n));
      }
    case SREJ(n) => ResendAgrees(c, t, n);
    case EofAck =>
  }

  lemma AppendAgrees(c: Config, output: seq<byte>, n: nat, data: seq<byte>, size: nat)
    requires Agrees(c, output) && |output| == n * c.bufSize && AgreesAt(c, n, data)
    requires size <= |data| && size <= c.bufSize
    ensures Agrees(c, output + data[..size])
  {
  }

  lemma {:induction false} FlushAgrees(c: Config, r: Client)
    requires ClientAgrees(c, r) && !r.eof
    ensures ClientAgrees(c, Flush(c, r))
    decreases HighestSeq(r.panes) + 1 - r.expectedSeq
  {
    var p := r.panes[r.expectedSeq % c.winSize];
    if p.seqNum == r.expectedSeq {
      AppendAgrees(c, r.output, r.expectedSeq, p.data, c.bufSize);
      OffsetsOrdered(c, r.expectedSeq);
      FlushAgrees(c, r.(expectedSeq := r.expectedSeq + 1, output := r.output + p.data[..c.bufSize]));
    }
  }

  lemma ClientReceiveAgrees(c: Config, r: Client, m: Msg)
    requires ClientAgrees(c, r) && !r.eof && MsgAgrees(c, m)
    ensures ClientAgrees(c, ClientReceive(c, r, m).client)
  {
    var r0 := r.(attempts := 0);
    match m
    case Eof(n, payload) =>
      if n == r.expectedSeq {
        AppendAgrees(c, r.output, n, payload, |payload|);
        assert payload[..|payload|] == payload;
      }
    case Data(n, payload) =>
      if n == r.expectedSeq && c.winSize > 0 {
        FlushAgrees(c, StorePane(c, r0, n, payload));
      }
  }

  lemma ServerStepAgrees(c: Config, y: System, sent: Sent)
    requires SystemAgrees(c, y) && ServerAgrees(c, sent.server)
    requires forall i | 0 <= i < |sent.msgs| :: MsgAgrees(c, sent.msgs[i])
    ensures SystemAgrees(c, ServerStep(y, sent))
  {
  }

  lemma NextAgrees(c: Config, y: System, step: Step)
    requires SystemAgrees(c, y) && Periodic(c) && Shape(c, y) && Enabled(y, step)
    ensures SystemAgrees(c, Next(c, y, step))
  {
    match step
    case ServerGets(a) =>
      ServerReceiveAgrees(c, y.server, a);
      ServerStepAgrees(c, y, ServerReceive(c, y.server, a));
    case ServerTimesOut =>
      forall i | 0 <= i < |Retransmit(c, y.server, y.server.base)|
        ensures MsgAgrees(c, Retransmit(c, y.server, y.server.base)[i])
      {
        ResendAgrees(c, y.server, y.server.base + i);
      }
      ServerStepAgrees(c, y, ServerTimeout(c, y.server));
    case ClientGets(m) => ClientReceiveAgrees(c, y.client, m);
    case _ =>
  }

  lemma {:induction false} RunAgrees(c: Config, y: System, steps: seq<Step>)
    requires SystemAgrees(c, y) && Periodic(c) && Shape(c, y) && CanRun(c, y, steps)
    ensures SystemAgrees(c, Run(c, y, steps))
    decreases |steps|
  {
    if steps != [] {
      NextAgrees(c, y, steps[0]);
      RunAgrees(c, Next(c, y, steps[0]), steps[1..]);
    }
  }

  /** A payload that starts with a full chunk agrees with the file there. */
  lemma StartsWithAgrees(c: Config, n: nat, data: seq<byte>)
    requires ValidConfig(c) && n < |c.file| / c.bufSize && StartsWith(data, Chunk(c, n))
    ensures AgreesAt(c, n, data) && |Chunk(c, n)| == c.bufSize
  {
    DivBounds(|c.file|, c.bufSize);
    Monotone(n + 1, |c.file| / c.bufSize, c.bufSize);
    OffsetsOrdered(c, n);
    forall t | 0 <= t < |data| && t < c.bufSize && ByteOf(c, n, t) < |c.file|
      ensures data[t] == c.file[ByteOf(c, n, t)]
    {
      assert data[..|Chunk(c, n)|][t] == Chunk(c, n)[t];
    }
  }

  /** Unused panes agree vacuously: their number is beyond the file. */
  lemma UnusedAgrees(c: Config, data: seq<byte>)
    requires ValidConfig(c)
    ensures AgreesAt(c, NO_SEQ, data)
  {
    DivBounds(|c.file|, c.bufSize);
    Monotone(|c.file| / c.bufSize + 1, NO_SEQ, c.bufSize);
  }

  lemma SmallMod(i: nat, w: nat)
    requires i < w
    ensures i % w == i
  {
  }

  lemma HeldAgrees(c: Config, s: Server, i: nat)
    requires ServerShape(c, s) && HoldsWindow(c, s) && s.base == 0
    requires i < c.winSize && i < s.nextSeq && i < EofSeq(c) == |c.file| / c.bufSize
    ensures AgreesAt(c, i, s.panes[i].data)
  {
    assert Holds(c, s.panes, i);
    SmallMod(i, c.winSize);
    StartsWithAgrees(c, i, s.panes[i].data);
  }

  lemma FullWindowAgrees(c: Config, s: Server)
    requires ServerInv(c, s) && s.base == 0 && !s.eofSent
    ensures ServerAgrees(c, s)
  {
    EofSeqBounds(c);
    forall i | 0 <= i < c.winSize ensures AgreesAt(c, i, s.panes[i].data) {
      HeldAgrees(c, s, i);
    }
  }

  lemma StartAgrees(c: Config, sp: seq<Pane>, cp: seq<Pane>)
    requires Fresh(c, sp, cp) && !FitsWindow(c)
    ensures SystemAgrees(c, Start(c, sp, cp))
  {
    var sent := InitialFill(c, NewServer(c, sp));
    InitialFillInv(c, NewServer(c, sp));
    FullWindowAgrees(c, sent.server);
    EofSeqBounds(c);
    forall i | 0 <= i < |sent.msgs| ensures MsgAgrees(c, sent.msgs[i]) {
      assert MsgOk(c, sent.server, 0, sent.msgs[i]);
      StartsWithAgrees(c, sent.msgs[i].seqNum, sent.msgs[i].payload);
    }
    forall i | 0 <= i < c.winSize ensures AgreesAt(c, cp[i].seqNum, cp[i].data) {
      UnusedAgrees(c, cp[i].data);
    }
  }

  lemma AnyRunAgrees(c: Config, y: System)
    requires ReachableAnyhow(c, y) && Periodic(c)
    ensures Agrees(c, y.client.output)
  {
    var sp, cp, steps :| ReachedAnyhowBy(c, sp, cp, steps, y);
    if FitsWindow(c) {
      FittingIsClean(c, y);
      OutputAgreesWithFile(c, y);
    } else {
      StartAgrees(c, sp, cp);
      RunAgrees(c, Start(c, sp, cp), steps);
    }
  }

  /** Two bytes a period apart that differ give a run that writes a wrong byte. */
  lemma WrongByteWritten(c: Config, j: nat, k: nat) returns (z: System)
    requires ValidConfig(c) && k == j + c.winSize * c.bufSize && k < |c.file| && c.file[j] != c.file[k]
    ensures ReachableAnyhow(c, z) && !Agrees(c, z.client.output)
  {
    var n, b := k / c.bufSize, c.bufSize;
    DivBounds(k, b);
    Monotone(0, c.winSize, b);
    DivUniqueBelow(c, k);
    var y := ReachCaughtUp(c, n);
    z := StalePaneServed(c, y, n);
    WrongByteAt(c, y.client.output, z.client.output, j, k, n);
  }

  /** The packet that byte k belongs to is at least a window in, and at most EOF. */
  lemma DivUniqueBelow(c: Config, k: nat)
    requires ValidConfig(c) && c.winSize * c.bufSize <= k < |c.file|
    ensures !FitsWindow(c) && c.winSize <= k / c.bufSize <= EofSeq(c)
  {
    DivBounds(k, c.bufSize);
    EofSeqBounds(c);
    ReadBound(c, k / c.bufSize);
    if k / c.bufSize < c.winSize { Monotone(k / c.bufSize + 1, c.winSize, c.bufSize); }
  }

  lemma WrongByteAt(c: Config, before: seq<byte>, after: seq<byte>, j: nat, k: nat, n: nat)
    requires ValidConfig(c) && k == j + c.winSize * c.bufSize && k < |c.file| && c.file[j] != c.file[k]
    requires n == k / c.bufSize && n >= c.winSize && |before| == n * c.bufSize
    requires |Chunk(c, n - c.winSize)| == c.bufSize && before + Chunk(c, n - c.winSize) <= after
    ensures !Agrees(c, after)
  {
    var b := c.bufSize;
    DivBounds(k, b);
    assert (n - c.winSize) * b == n * b - c.winSize * b;
    var written := before + Chunk(c, n - c.winSize);
    assert written[k] == Chunk(c, n - c.winSize)[k - n * b] == c.file[j];
    assert after[k] == after[..|written|][k];
  }

  /**
   When the clean-SREJ hypothesis can be dropped, for the bytes: in every run
   at all the bytes written agree with the file if and only if the file repeats
   itself with the period of one window. A file that fits the window does so
   trivially.
   */
  lemma AlwaysAgreesIff(c: Config)
    requires ValidConfig(c)
    ensures (forall y :: ReachableAnyhow(c, y) ==> Agrees(c, y.client.output)) <==> Periodic(c)
  {
    if Periodic(c) {
      forall y | ReachableAnyhow(c, y) ensures Agrees(c, y.client.output) {
        AnyRunAgrees(c, y);
      }
    } else {
      var j, k :| 0 <= j < k < |c.file| && k == j + c.winSize * c.bufSize && c.file[j] != c.file[k];
      var z := WrongByteWritten(c, j, k);
      assert !Agrees(c, z.client.output);
    }
  }

  /** Two different bytes, one per packet, a window of one: a wrong byte gets written. */
  lemma StaleByteExample() returns (z: System)
    ensures ReachableAnyhow(Config([1, 2], 1, 1), z) && !Agrees(Config([1, 2], 1, 1), z.client.output)
  {
    z := WrongByteWritten(Config([1, 2], 1, 1), 0, 1);
  }
}
