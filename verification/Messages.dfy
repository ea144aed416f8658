/** Exactly which messages each operation of the server sends. */
module Messages {
  import opened Bytes
  import opened WindowBuffer
  import opened Protocol
  import opened Chunks
  import opened Invariant
  import opened Safety

  /** Packet n as the fill loop of the main phase first sends it: EOF carries the left-over bytes. */
  function FirstSend(c: Config, n: nat): Msg
    requires ValidConfig(c)
  {
    if n == EofSeq(c) then Eof(n, Chunk(c, n)) else Data(n, Chunk(c, n))
  }

  /** The messages first send packets n, n + 1, ... in order. */
  ghost predicate FirstSends(c: Config, msgs: seq<Msg>, n: nat)
    requires ValidConfig(c)
  {
    forall i | 0 <= i < |msgs| :: msgs[i] == FirstSend(c, n + i)
  }

  /** send_next_data sends the next chunk, and makes it the EOF exactly when it is the last. */
  lemma SendNextExactly(c: Config, s: Server)
    requires ServerFilling(c, s) && !s.eofSent && !FitsWindow(c) && s.nextSeq < s.base + c.winSize
    ensures var one := SendNextData(c, s);
            && one.msgs == [FirstSend(c, s.nextSeq)]
            && one.server.nextSeq == s.nextSeq + 1 && one.server.base == s.base
            && (one.server.eofSent <==> s.nextSeq == EofSeq(c))
            && ServerFilling(c, one.server)
  {
    SendNextDataInv(c, s, s.base);
    ReadAt(c, s.nextSeq);
    ReadPaneHolds(c, s);
    EofSeqBounds(c);
    if |Chunk(c, s.nextSeq)| == c.bufSize { ReadBound(c, s.nextSeq + 1); }
  }

  /** Where a fill loop that has not met the end of the file stops. */
  function FilledTo(c: Config, base: nat): nat
    requires ValidConfig(c)
  {
    if base + c.winSize <= EofSeq(c) then base + c.winSize else EofSeq(c) + 1
  }

  /** The fill loop's work from s: each new packet of the window once, in order. */
  ghost predicate FilledExactly(c: Config, s: Server, all: Sent)
    requires ValidConfig(c)
  {
    && all.server.base == s.base && all.server.nextSeq == FilledTo(c, s.base)
    && |all.msgs| == all.server.nextSeq - s.nextSeq
    && FirstSends(c, all.msgs, s.nextSeq)
  }

  /** A fill loop that has not met the end of the file. */
  ghost predicate Fillable(c: Config, s: Server) {
    ServerFilling(c, s) && !s.eofSent && !FitsWindow(c) && s.nextSeq <= EofSeq(c)
  }

  lemma FillOneMore(c: Config, s: Server, one: Sent, rest: Sent)
    requires ValidConfig(c) && one.msgs == [FirstSend(c, s.nextSeq)]
    requires one.server.base == s.base && one.server.nextSeq == s.nextSeq + 1
    requires FilledExactly(c, one.server, rest)
    ensures FilledExactly(c, s, Sent(rest.server, one.msgs + rest.msgs))
  {
    var msgs := one.msgs + rest.msgs;
    forall i | 0 <= i < |msgs| ensures msgs[i] == FirstSend(c, s.nextSeq + i) {
      if i > 0 { assert rest.msgs[i - 1] == FirstSend(c, s.nextSeq + 1 + (i - 1)); }
    }
  }

  lemma FillLast(c: Config, s: Server, one: Sent)
    requires ValidConfig(c) && s.nextSeq == EofSeq(c) < s.base + c.winSize
    requires one.msgs == [FirstSend(c, s.nextSeq)]
    requires one.server.base == s.base && one.server.nextSeq == s.nextSeq + 1
    ensures FilledExactly(c, s, one) && one.msgs + [] == one.msgs
  {
  }

  /** The fill loop sends each new packet of the window once, in order, EOF with the left-over bytes last. */
  lemma {:induction false} MainFillExactly(c: Config, s: Server)
    requires Fillable(c, s)
    ensures FilledExactly(c, s, MainFill(c, s))
    decreases s.base + c.winSize - s.nextSeq
  {
    if s.nextSeq < s.base + c.winSize {
      var one := SendNextData(c, s);
      SendNextExactly(c, s);
      if s.nextSeq < EofSeq(c) {
        MainFillExactly(c, one.server);
        FillOneMore(c, s, one, MainFill(c, one.server));
      } else {
        FillLast(c, s, one);
      }
    }
  }

  /** The reaction to an RR beyond the base. */
  ghost predicate MovedExactly(c: Config, s: Server, ack: nat, all: Sent)
    requires ValidConfig(c)
  {
    && all.server.base == ack
    && all.server.nextSeq == (if s.eofSent then s.nextSeq else FilledTo(c, ack))
    && |all.msgs| == all.server.nextSeq - s.nextSeq
    && FirstSends(c, all.msgs, s.nextSeq)
  }

  lemma OpenedFilling(c: Config, s: Server, ack: nat)
    requires ServerInv(c, s) && s.base < ack <= s.nextSeq && !s.eofSent
    ensures Fillable(c, s.(attempts := 0, lower := ack, upper := ack + c.winSize - 1, base := ack))
  {
    ReadBound(c, s.nextSeq);
    var t := s.(attempts := 0, lower := ack, upper := ack + c.winSize - 1, base := ack);
    forall n | t.base <= n < t.nextSeq && n < EofSeq(c) ensures Holds(c, t.panes, n) {
      assert Holds(c, s.panes, n);
    }
  }

  lemma ServerMovesExactly(c: Config, s: Server, ack: nat)
    requires ServerInv(c, s) && s.base < ack <= s.nextSeq
    ensures MovedExactly(c, s, ack, ServerReceive(c, s, RR(ack)))
  {
    var d := ack - s.base;
    var t := s.(attempts := 0, lower := s.lower + d, upper := s.upper + d, base := ack);
    if !s.eofSent {
      OpenedFilling(c, s, ack);
      MainFillExactly(c, t);
    }
  }

  /**
   An RR that moves the base sends the packets that have come into the window,
   each once and with its own bytes, EOF with the left-over bytes last, and
   nothing once EOF was sent.
   */
  lemma MovedWindowExactly(c: Config, y: System, ack: nat)
    requires Reachable(c, y) && RR(ack) in y.toServer && ack > y.server.base
    ensures ServerShape(c, y.server) && MovedExactly(c, y.server, ack, ServerReceive(c, y.server, RR(ack)))
  {
    ReachableInv(c, y);
    ExpectedBounds(c, y);
    assert AckOk(y.client, RR(ack));
    ServerMovesExactly(c, y.server, ack);
  }

  // ----- The initial window -----

  /** Data packets n, n + 1, ... with their chunks, then, for a file that fits the window, an empty EOF. */
  ghost predicate InitialSends(c: Config, msgs: seq<Msg>, n: nat)
    requires ValidConfig(c)
  {
    var last := if FitsWindow(c) then EofSeq(c) else c.winSize;
    && n <= last
    && |msgs| == last - n + (if FitsWindow(c) then 1 else 0)
    && (forall i | 0 <= i < last - n :: msgs[i] == Data(n + i, Chunk(c, n + i)))
    && (FitsWindow(c) ==> msgs[last - n] == Eof(EofSeq(c), []))
  }

  lemma OneMoreInitial(c: Config, n: nat, rest: seq<Msg>)
    requires ValidConfig(c) && InitialSends(c, rest, n + 1)
    ensures InitialSends(c, [Data(n, Chunk(c, n))] + rest, n)
  {
    var last := if FitsWindow(c) then EofSeq(c) else c.winSize;
    var msgs := [Data(n, Chunk(c, n))] + rest;
    forall i | 0 <= i < last - n ensures msgs[i] == Data(n + i, Chunk(c, n + i)) {
      if i > 0 { assert rest[i - 1] == Data(n + 1 + (i - 1), Chunk(c, n + 1 + (i - 1))); }
    }
  }

  /** The turn that meets the end of the file sends what it read as data, then the EOF. */
  lemma LastInitialTurn(c: Config, s: Server)
    requires ServerStarting(c, s) && s.nextSeq < c.winSize
    requires s.nextSeq * c.bufSize <= |c.file| && |Chunk(c, s.nextSeq)| < c.bufSize
    ensures InitialTurn(c, s).1 && InitialSends(c, InitialTurn(c, s).0.msgs, s.nextSeq)
  {
    ReadAt(c, s.nextSeq);
    ReadPaneHolds(c, s);
    InitialEof(c, s);
  }

  lemma FullInitialTurn(c: Config, s: Server)
    requires ServerStarting(c, s) && s.nextSeq < c.winSize
    requires s.nextSeq * c.bufSize <= |c.file| && |Chunk(c, s.nextSeq)| == c.bufSize
    ensures var one := InitialTurn(c, s);
            && !one.1 && one.0.msgs == [Data(s.nextSeq, Chunk(c, s.nextSeq))]
            && ServerStarting(c, one.0.server) && one.0.server.nextSeq == s.nextSeq + 1
  {
    ReadAt(c, s.nextSeq);
    ReadPaneHolds(c, s);
    InitialFull(c, s);
  }

  lemma {:induction false} InitialFillExactly(c: Config, s: Server)
    requires ServerStarting(c, s)
    ensures InitialSends(c, InitialFill(c, s).msgs, s.nextSeq)
    decreases c.winSize - s.nextSeq
  {
    if s.nextSeq < c.winSize {
      ReadAt(c, s.nextSeq);
      if |Chunk(c, s.nextSeq)| < c.bufSize {
        LastInitialTurn(c, s);
      } else {
        FullInitialTurn(c, s);
        var t := InitialTurn(c, s).0.server;
        InitialFillExactly(c, t);
        OneMoreInitial(c, s.nextSeq, InitialFill(c, t).msgs);
      }
    } else {
      EofSeqBounds(c);
    }
  }

  /**
   The initial window: from a new sender exactly Data(i, Chunk(i)) for
   i = 0 .. min(w, EofSeq) - 1, in order, followed by an empty EOF if and only
   if the file is shorter than a window of buffers.
   */
  lemma InitialWindowExactly(c: Config, panes: seq<Pane>)
    requires ValidConfig(c) && Ring(panes, c.winSize)
    ensures var msgs := InitialFill(c, NewServer(c, panes)).msgs;
            var k := if EofSeq(c) < c.winSize then EofSeq(c) else c.winSize;
            && k <= |msgs| && (forall i | 0 <= i < k :: msgs[i] == Data(i, Chunk(c, i)))
            && msgs[k..] == if FitsWindow(c) then [Eof(EofSeq(c), [])] else []
  {
    InitialFillExactly(c, NewServer(c, panes));
    EofSeqBounds(c);
  }

  // ----- Resends -----

  /** What is sent again under number n, whatever its pane holds: EOF empty, anything else a full buffer. */
  ghost predicate SentAgain(c: Config, s: Server, n: nat, m: Msg) {
    && m.seqNum == n
    && (m.Eof? <==> s.eofSent && n == s.eofSeq)
    && |m.payload| == if m.Eof? then 0 else c.bufSize
  }

  /**
   The reaction to an SREJ: exactly one message, numbered as asked, an empty
   EOF if and only if it is EOF's number, a full buffer otherwise; the packet's
   own bytes while it is unacknowledged.
   */
  lemma SrejAnsweredExactly(c: Config, s: Server, n: nat)
    requires ServerShape(c, s)
    ensures var all := ServerReceive(c, s, SREJ(n));
            && |all.msgs| == 1 && SentAgain(c, s, n, all.msgs[0])
            && (ServerInv(c, s) && s.base <= n < s.nextSeq ==> ResentWell(c, s, n, all.msgs[0]))
            && all.server == s.(attempts := 0)
  {
    if ServerInv(c, s) && s.base <= n < s.nextSeq { ResendForm(c, s.(attempts := 0), n); }
  }

  /**
   The reaction to a timeout, in any state of the right shape: one message for
   each number from base to nextSeq - 1, in order; with the invariant, each
   data packet starting with its own chunk.
   */
  lemma TimeoutAnsweredExactly(c: Config, s: Server)
    requires ServerShape(c, s)
    ensures var msgs := ServerTimeout(c, s).msgs;
            && |msgs| == (if s.base < s.nextSeq then s.nextSeq - s.base else 0)
            && (forall i | 0 <= i < |msgs| :: SentAgain(c, s, s.base + i, msgs[i]))
            && (ServerInv(c, s) ==> forall i | 0 <= i < |msgs| :: ResentWell(c, s, s.base + i, msgs[i]))
  {
    if ServerInv(c, s) { WindowResent(c, s); }
  }

  /** Nothing but an SREJ or an RR beyond the base makes the server send, or changes its window. */
  lemma OtherwiseSilent(c: Config, s: Server, a: Ack)
    requires ServerShape(c, s) && !a.SREJ? && (a.RR? ==> a.seqNum <= s.base)
    ensures var all := ServerReceive(c, s, a);
            all.msgs == [] && all.server == s.(attempts := 0, eofAcked := s.eofAcked || a.EofAck?)
  {
  }
}
