/** The receiving half, stateFileReceive of rcopy.c, step by step, proved against the state machine of module Protocol. */
module Receiver {
  import opened Bytes
  import opened WindowBuffer
  import opened Protocol
  import opened Loops

  ghost predicate LoopPending(c: Config, goal: ClientLooped, r: Client, sent: seq<Ack>, turns: nat,
                              arrivals: seq<Arrival<Msg>>) {
    && ClientShape(c, r) && ArrivalsFit(arrivals)
    && var rest := ClientLoop(c, r, arrivals);
       goal == ClientLooped(rest.client, sent + rest.acks, turns + rest.turns)
  }

  lemma LoopStep(c: Config, goal: ClientLooped, r: Client, sent: seq<Ack>, turns: nat, arrivals: seq<Arrival<Msg>>)
    requires LoopPending(c, goal, r, sent, turns, arrivals) && ClientRunning(r)
    ensures var one := ClientTurn(c, r, if arrivals == [] then Timeout else arrivals[0]);
            LoopPending(c, goal, one.client, sent + [one.ack], turns + 1, if arrivals == [] then [] else arrivals[1..])
  {
  }

  /** The locals of stateFileReceive, the output file, and the answers sent so far. */
  class FileReceiver {
    ghost const c: Config
    const wb: WindowBuffer
    var expectedSeq: nat
    var eof: bool
    var attempts: nat
    var outputFile: seq<byte>
    var sent: seq<Ack>

    ghost function State(): Client
      reads this, wb, wb.panes
    {
      Client(wb.panes[..], expectedSeq, eof, attempts, outputFile)
    }

    ghost predicate Valid()
      reads this, wb, wb.panes
    {
      && ClientShape(c, State())
      && wb.window_size == c.winSize && wb.buffer_size == c.bufSize
    }

    constructor (windowsize: nat, buffersize: nat, garbage: seq<Pane>, ghost c: Config)
      requires ValidConfig(c) && c.winSize == windowsize && c.bufSize == buffersize && Ring(garbage, windowsize)
      ensures Valid() && fresh(wb) && fresh(wb.panes) && this.c == c
      ensures Unused(wb.panes[..]) && State() == NewClient(wb.panes[..]) && sent == []
    {
      this.c := c;
      wb := new WindowBuffer(windowsize, buffersize, garbage);
      expectedSeq := 0;
      eof := false;
      attempts := 0;
      outputFile := [];
      sent := [];
    }

    method Send(ack: Ack)
      modifies this`sent
      ensures sent == old(sent) + [ack]
    {
      sent := sent + [ack];
    }

    /** Writes the expected packet and every buffered one that follows it, at most a window of them. */
    method WriteContiguous()
      requires Valid()
      modifies this`expectedSeq, this`outputFile
      ensures State() == Flush(c, old(State()))
    {
      while wb.panes[expectedSeq % wb.window_size].seqNum == expectedSeq
        invariant Valid()
        invariant Flush(c, State()) == Flush(c, old(State()))
        decreases HighestSeq(wb.panes[..]) + 1 - expectedSeq
      {
        outputFile := outputFile + wb.panes[expectedSeq % wb.window_size].data[..wb.buffer_size];
        expectedSeq := expectedSeq + 1;
      }
    }

    /** The body of the main loop for an intact packet. */
    method HandlePacket(m: Msg)
      requires Valid() && |m.payload| <= MAX_PAYLOAD
      modifies this, wb.panes
      ensures Valid()
      ensures var z := ClientReceive(c, old(State()), m);
              State() == z.client && sent == old(sent) + [z.ack]
    {
      attempts := 0;
      var seqNum := m.seqNum;
      if m.Eof? {
        if seqNum == expectedSeq {
          outputFile := outputFile + m.payload;
          Send(EofAck);
          eof := true;
        } else {
          Send(SREJ(expectedSeq));
        }
      } else if seqNum >= expectedSeq && seqNum < expectedSeq + wb.window_size {
        var index := seqNum % wb.window_size;
        wb.panes[index] := wb.panes[index].(seqNum := seqNum);
        wb.panes[index] := wb.panes[index].(data := Overlay(m.payload, wb.panes[index].data));
        assert State() == StorePane(c, old(State()).(attempts := 0), seqNum, m.payload);
        if seqNum == expectedSeq {
          WriteContiguous();
          Send(RR(expectedSeq));
        } else {
          Send(SREJ(expectedSeq));
        }
      } else if seqNum < expectedSeq {
        Send(RR(expectedSeq));
      } else {
        Send(SREJ(expectedSeq));
      }
    }

    method Turn(a: Arrival<Msg>)
      requires Valid() && (a.Intact? ==> |a.packet.payload| <= MAX_PAYLOAD)
      modifies this, wb.panes
      ensures Valid()
      ensures var z := ClientTurn(c, old(State()), a);
              State() == z.client && sent == old(sent) + [z.ack]
    {
      match a
      case Timeout =>
        attempts := attempts + 1;
        Send(RR(expectedSeq));
      case Corrupt =>
        attempts := 0;
        Send(SREJ(expectedSeq));
      case Intact(m) =>
        HandlePacket(m);
    }

    /** The main loop of stateFileReceive, on what poll and recvfrom give it. */
    method StateFileReceive(arrivals: seq<Arrival<Msg>>) returns (turns: nat)
      requires Valid() && ArrivalsFit(arrivals)
      modifies this, wb.panes
      ensures Valid()
      ensures var all := ClientLoop(c, old(State()), arrivals);
              State() == all.client && sent == old(sent) + all.acks && turns == all.turns
    {
      ghost var all := ClientLoop(c, State(), arrivals);
      ghost var goal := all.(acks := sent + all.acks);
      turns := 0;
      var i := 0;
      while !eof && attempts < MAX_ATTEMPTS
        invariant Valid() && 0 <= i <= |arrivals|
        invariant LoopPending(c, goal, State(), sent, turns, arrivals[i..])
        decreases |arrivals| - i, MAX_ATTEMPTS - attempts
      {
        LoopStep(c, goal, State(), sent, turns, arrivals[i..]);
        ghost var left := arrivals[i..];
        var a := if i < |arrivals| then arrivals[i] else Timeout;
        Turn(a);
        turns := turns + 1;
        if i < |arrivals| { i := i + 1; }
        assert arrivals[i..] == if left == [] then [] else left[1..];
      }
    }
  }
}
