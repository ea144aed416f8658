/** The sending half of server.c, step by step, proved against the state machine of module Protocol. */
module Sender {
  import opened Bytes
  import opened WindowBuffer
  import opened Protocol
  import opened Loops

  // What a loop still has to do, as values: the state and output it is heading for.

  ghost predicate InitialPending(c: Config, goal: Sent, s: Server, sent: seq<Msg>) {
    ServerShape(c, s) && goal.server == InitialFill(c, s).server && goal.msgs == sent + InitialFill(c, s).msgs
  }

  lemma InitialStep(c: Config, goal: Sent, s: Server, sent: seq<Msg>)
    requires InitialPending(c, goal, s, sent) && s.nextSeq < c.winSize && !s.feof
    ensures var one := InitialTurn(c, s);
            if one.1 then goal == Sent(one.0.server, sent + one.0.msgs)
            else InitialPending(c, goal, one.0.server, sent + one.0.msgs)
  {
  }

  ghost predicate FillPending(c: Config, goal: Sent, s: Server, sent: seq<Msg>) {
    ServerShape(c, s) && goal.server == MainFill(c, s).server && goal.msgs == sent + MainFill(c, s).msgs
  }

  lemma FillStep(c: Config, goal: Sent, s: Server, sent: seq<Msg>)
    requires FillPending(c, goal, s, sent) && s.nextSeq < s.base + c.winSize && !s.eofSent
    ensures var one := SendNextData(c, s); FillPending(c, goal, one.server, sent + one.msgs)
  {
  }

  ghost predicate ResendPending(c: Config, goal: seq<Msg>, s: Server, i: nat, sent: seq<Msg>) {
    ServerShape(c, s) && goal == sent + Retransmit(c, s, i)
  }

  lemma ResendStep(c: Config, goal: seq<Msg>, s: Server, i: nat, sent: seq<Msg>)
    requires ResendPending(c, goal, s, i, sent) && i < s.nextSeq
    ensures ResendPending(c, goal, s, i + 1, sent + [Resend(c, s, i)])
  {
  }

  ghost predicate LoopPending(c: Config, goal: ServerLooped, s: Server, sent: seq<Msg>, turns: nat,
                              arrivals: seq<Arrival<Ack>>) {
    && ServerShape(c, s)
    && var rest := ServerLoop(c, s, arrivals);
       goal == ServerLooped(rest.server, sent + rest.msgs, turns + rest.turns)
  }

  lemma LoopStep(c: Config, goal: ServerLooped, s: Server, sent: seq<Msg>, turns: nat, arrivals: seq<Arrival<Ack>>)
    requires LoopPending(c, goal, s, sent, turns, arrivals) && ServerRunning(s)
    ensures var one := ServerTurn(c, s, if arrivals == [] then Timeout else arrivals[0]);
            LoopPending(c, goal, one.server, sent + one.msgs, turns + 1, if arrivals == [] then [] else arrivals[1..])
  {
  }

  /** The locals of transferData and the context fields it uses, with what it sent so far. */
  class Transfer {
    const c: Config
    const wb: WindowBuffer
    var pos: nat
    var feof: bool
    var base: nat
    var nextSeq: nat
    var eofSent: bool
    var eofSeq: nat
    var eofAcked: bool
    var attempts: nat
    var sent: seq<Msg>

    ghost function State(): Server
      reads this, wb, wb.panes
    {
      Server(wb.panes[..], wb.lower, wb.upper, pos, feof, base, nextSeq, eofSent, eofSeq, eofAcked, attempts)
    }

    ghost predicate Valid()
      reads this, wb, wb.panes
    {
      && ServerShape(c, State())
      && wb.window_size == c.winSize && wb.buffer_size == c.bufSize
    }

    /** The declarations at the head of transferData; garbage is what malloc leaves in the panes. */
    constructor (c: Config, garbage: seq<Pane>)
      requires ValidConfig(c) && Ring(garbage, c.winSize)
      ensures Valid() && fresh(wb) && fresh(wb.panes) && this.c == c
      ensures Unused(wb.panes[..]) && State() == NewServer(c, wb.panes[..]) && sent == []
    {
      this.c := c;
      wb := new WindowBuffer(c.winSize, c.bufSize, garbage);
      pos, feof := 0, false;
      base, nextSeq, eofSeq := 0, 0, 0;
      eofSent, eofAcked := false, false;
      attempts := 0;
      sent := [];
    }

    /** fread into the pane of a sequence number, and the label the pane gets. */
    method ReadIntoPane(seqNum: nat) returns (bytesRead: nat)
      requires Valid() && seqNum == nextSeq
      modifies this`pos, this`feof, wb.panes
      ensures Valid() && State() == ReadPane(c, old(State()))
      ensures bytesRead == |Fread(c, old(pos))|
    {
      var slot := seqNum % wb.window_size;
      var bytes := Fread(c, pos);
      bytesRead := |bytes|;
      wb.panes[slot] := wb.panes[slot].(data := Overlay(bytes, wb.panes[slot].data));
      pos := pos + bytesRead;
      feof := feof || bytesRead < wb.buffer_size;
      wb.panes[slot] := wb.panes[slot].(seqNum := seqNum);
    }

    method SendEofPacket(seqNum: nat)
      modifies this`sent
      ensures sent == old(sent) + [Eof(seqNum, [])]
    {
      sent := sent + [Eof(seqNum, [])];
    }

    method SendDataPacket(seqNum: nat, isEof: bool, bytesRead: nat)
      requires Valid() && bytesRead <= MAX_BUFFER
      modifies this`sent
      ensures sent == old(sent) + [Packet(c, State(), seqNum, isEof, bytesRead)]
    {
      var payload := wb.panes[seqNum % wb.window_size].data[..bytesRead];
      sent := sent + [if isEof then Eof(seqNum, payload) else Data(seqNum, payload)];
    }

    /** The body of the initial loop; it breaks once the end of the file was read. */
    method SendInitialPacket() returns (stop: bool)
      requires Valid()
      modifies this, wb.panes
      ensures Valid()
      ensures var one := InitialTurn(c, old(State()));
              State() == one.0.server && sent == old(sent) + one.0.msgs && stop == one.1
    {
      var bytesRead := ReadIntoPane(nextSeq);
      if bytesRead > 0 {
        SendDataPacket(nextSeq, eofSent, bytesRead);
        nextSeq := nextSeq + 1;
      }
      stop := bytesRead == 0 || feof;
      if stop {
        SendEofPacket(nextSeq);
        eofSent := true;
        eofSeq := nextSeq;
        nextSeq := nextSeq + 1;
      }
    }

    /** The initial loop of transferData. */
    method SendInitialWindow()
      requires Valid()
      modifies this, wb.panes
      ensures Valid()
      ensures var all := InitialFill(c, old(State()));
              State() == all.server && sent == old(sent) + all.msgs
    {
      ghost var goal := Sent(InitialFill(c, State()).server, sent + InitialFill(c, State()).msgs);
      while nextSeq < wb.window_size && !feof
        invariant Valid()
        invariant InitialPending(c, goal, State(), sent)
        decreases wb.window_size - nextSeq, !feof
      {
        InitialStep(c, goal, State(), sent);
        var stop := SendInitialPacket();
        if stop { return; }
      }
    }

    method SendNext()
      requires Valid()
      modifies this, wb.panes
      ensures Valid()
      ensures var one := SendNextData(c, old(State()));
              State() == one.server && sent == old(sent) + one.msgs
    {
      var bytesRead := ReadIntoPane(nextSeq);
      if bytesRead < wb.buffer_size || feof {
        eofSent := true;
        eofSeq := nextSeq;
      }
      SendDataPacket(nextSeq, eofSent && nextSeq == eofSeq, bytesRead);
      nextSeq := nextSeq + 1;
    }

    method RetransmitPackets()
      requires Valid()
      modifies this`sent
      ensures sent == old(sent) + Retransmit(c, State(), base)
    {
      ghost var goal := sent + Retransmit(c, State(), base);
      var i := base;
      while i < nextSeq
        invariant base <= i && ResendPending(c, goal, State(), i, sent)
      {
        ResendStep(c, goal, State(), i, sent);
        if eofSent && i == eofSeq {
          SendDataPacket(i, true, 0);
        } else {
          SendDataPacket(i, false, wb.buffer_size);
        }
        i := i + 1;
      }
    }

    /** The body of the main loop for an intact packet. */
    method HandlePacket(ack: Ack)
      requires Valid()
      modifies this, wb, wb.panes
      ensures Valid()
      ensures var all := ServerReceive(c, old(State()), ack);
              State() == all.server && sent == old(sent) + all.msgs
    {
      attempts := 0;
      match ack
      case RR(ackSeq) =>
        if ackSeq > base { MoveWindow(ackSeq); }
      case SREJ(ackSeq) =>
        Reject(ackSeq);
      case EofAck =>
        eofAcked := true;
    }

    /** An RR beyond the base slides the window and fills it. */
    method MoveWindow(ackSeq: nat)
      requires Valid() && ackSeq > base
      modifies this, wb, wb.panes
      ensures Valid()
      ensures var s, d := old(State()), ackSeq - old(base);
              var all := MainFill(c, s.(lower := s.lower + d, upper := s.upper + d, base := ackSeq));
              State() == all.server && sent == old(sent) + all.msgs
    {
      var _ := wb.SlideWindow(ackSeq - base);
      base := ackSeq;
      FillWindow();
    }

    /** An SREJ is answered with whatever pane it names, unchecked. */
    method Reject(ackSeq: nat)
      requires Valid()
      modifies this`sent
      ensures sent == old(sent) + [Resend(c, State(), ackSeq)]
    {
      var isEof := eofSent && ackSeq == eofSeq;
      SendDataPacket(ackSeq, isEof, if isEof then 0 else wb.buffer_size);
    }

    /** The loop that sends more packets once the window opened. */
    method FillWindow()
      requires Valid()
      modifies this, wb.panes
      ensures Valid()
      ensures var all := MainFill(c, old(State()));
              State() == all.server && sent == old(sent) + all.msgs
    {
      ghost var goal := Sent(MainFill(c, State()).server, sent + MainFill(c, State()).msgs);
      while nextSeq < base + wb.window_size && !eofSent
        invariant Valid()
        invariant FillPending(c, goal, State(), sent)
        decreases base + wb.window_size - nextSeq
      {
        FillStep(c, goal, State(), sent);
        SendNext();
      }
    }

    /** The main loop of transferData, on what poll and recvfrom give it. */
    method TransferData(arrivals: seq<Arrival<Ack>>) returns (turns: nat)
      requires Valid()
      modifies this, wb, wb.panes
      ensures Valid()
      ensures var all := ServerLoop(c, old(State()), arrivals);
              State() == all.server && sent == old(sent) + all.msgs && turns == all.turns
    {
      ghost var all := ServerLoop(c, State(), arrivals);
      ghost var goal := all.(msgs := sent + all.msgs);
      turns := 0;
      var i := 0;
      while !eofAcked && attempts < MAX_ATTEMPTS
        invariant Valid() && 0 <= i <= |arrivals|
        invariant LoopPending(c, goal, State(), sent, turns, arrivals[i..])
        decreases |arrivals| - i, MAX_ATTEMPTS - attempts
      {
        LoopStep(c, goal, State(), sent, turns, arrivals[i..]);
        ghost var left := arrivals[i..];
        var a := if i < |arrivals| then arrivals[i] else Timeout;
        Turn(a);
        turns := turns + 1;
        if i < |arrivals| { i := i + 1; }
        assert arrivals[i..] == if left == [] then [] else left[1..];
      }
    }

    method Turn(a: Arrival<Ack>)
      requires Valid()
      modifies this, wb, wb.panes
      ensures Valid()
      ensures var one := ServerTurn(c, old(State()), a);
              State() == one.server && sent == old(sent) + one.msgs
      ensures a.Timeout? ==> attempts == old(attempts) + 1
    {
      match a
      case Timeout =>
        attempts := attempts + 1;
        ghost var before := old(State());
        RetransmitPackets();
        SameRetransmit(c, before, State(), base);
      case Corrupt =>
        attempts := 0;
      case Intact(ack) =>
        HandlePacket(ack);
    }
  }
}
