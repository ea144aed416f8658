/**
 The receiver's ring of w panes behaves exactly like a receiver with one pane
 for every sequence number, for any data packets whatsoever.
 */
module Refinement {
  import opened Bytes
  import opened WindowBuffer
  import opened Protocol

  type PaneMap = map<nat, seq<byte>>

  /**
   The reference: accepted maps every sequence number ever accepted to the
   bytes of its own, never recycled, pane.
   */
  datatype Unbounded = Unbounded(accepted: PaneMap, expectedSeq: nat)

  predicate FullPanes(accepted: PaneMap) {
    forall n | n in accepted :: |accepted[n]| == MAX_BUFFER
  }

  /** What a pane starts out with: the bytes of the pane a window earlier, or malloc's in the first window. */
  function Before(c: Config, malloced: seq<Pane>, accepted: PaneMap, n: nat): (r: seq<byte>)
    requires ValidConfig(c) && Ring(malloced, c.winSize) && FullPanes(accepted)
    ensures |r| == MAX_BUFFER
  {
    if n in accepted then accepted[n]
    else if n >= c.winSize && n - c.winSize in accepted then accepted[n - c.winSize]
    else malloced[n % c.winSize].data
  }

  function From(accepted: PaneMap, n: nat): set<nat> {
    set k | k in accepted && n <= k
  }

  lemma FromShrinks(accepted: PaneMap, n: nat)
    requires n in accepted
    ensures |From(accepted, n + 1)| < |From(accepted, n)|
  {
    assert From(accepted, n) == From(accepted, n + 1) + {n};
  }

  /** The least sequence number from n on that was never accepted. */
  function LeastMissing(accepted: PaneMap, n: nat): (m: nat)
    ensures n <= m && m !in accepted && forall k | n <= k < m :: k in accepted
    decreases |From(accepted, n)|
  {
    if n in accepted then
      FromShrinks(accepted, n);
      LeastMissing(accepted, n + 1)
    else n
  }

  /** The first n panes, a full buffer of each, in order. */
  function Written(c: Config, accepted: PaneMap, n: nat): seq<byte>
    requires ValidConfig(c) && FullPanes(accepted) && forall k | 0 <= k < n :: k in accepted
  {
    if n == 0 then [] else Written(c, accepted, n - 1) + accepted[n - 1][..c.bufSize]
  }

  /** The reference receiver on a data packet, and its answer. */
  function Accept(c: Config, malloced: seq<Pane>, u: Unbounded, n: nat, payload: seq<byte>): (r: (Unbounded, Ack))
    requires ValidConfig(c) && Ring(malloced, c.winSize) && FullPanes(u.accepted) && |payload| <= MAX_BUFFER
    ensures FullPanes(r.0.accepted)
  {
    if u.expectedSeq <= n < u.expectedSeq + c.winSize then
      var accepted := u.accepted[n := Overlay(payload, Before(c, malloced, u.accepted, n))];
      var next := LeastMissing(accepted, u.expectedSeq);
      (Unbounded(accepted, next), if n == u.expectedSeq then RR(next) else SREJ(next))
    else if n < u.expectedSeq then (u, RR(u.expectedSeq))
    else (u, SREJ(u.expectedSeq))
  }

  // ----- The simulation relation -----

  /** Pane i of the ring holds the newest accepted packet of its slot, or is as malloc left it. */
  ghost predicate Newest(c: Config, malloced: seq<Pane>, accepted: PaneMap, p: Pane, i: nat)
    requires ValidConfig(c) && Ring(malloced, c.winSize) && i < c.winSize
  {
    if p.seqNum == NO_SEQ then
      p.data == malloced[i].data && forall n | n in accepted :: n % c.winSize != i
    else
      && p.seqNum in accepted && p.seqNum % c.winSize == i && p.data == accepted[p.seqNum]
      && forall n | n in accepted && n % c.winSize == i :: n <= p.seqNum
  }

  /** The reference's own invariant: everything below expectedSeq was accepted, nothing a window beyond it. */
  ghost predicate Window(c: Config, accepted: PaneMap, expected: nat) {
    && FullPanes(accepted)
    && (forall k | 0 <= k < expected :: k in accepted)
    && (forall k | k in accepted :: k < expected + c.winSize)
  }

  /** The ring simulates the reference, apart from packets that wait to be flushed. */
  ghost predicate Simulating(c: Config, malloced: seq<Pane>, r: Client, accepted: PaneMap) {
    && ClientShape(c, r) && Ring(malloced, c.winSize) && !r.eof
    && Window(c, accepted, r.expectedSeq)
    && r.output == Written(c, accepted, r.expectedSeq)
    && forall i | 0 <= i < c.winSize :: Newest(c, malloced, accepted, r.panes[i], i)
  }

  ghost predicate Simulates(c: Config, malloced: seq<Pane>, r: Client, u: Unbounded) {
    && Simulating(c, malloced, r, u.accepted)
    && r.expectedSeq == u.expectedSeq && u.expectedSeq !in u.accepted
  }

  /** Numbers of one slot that are less than a window apart are the same number. */
  lemma SameSlotSame(a: nat, b: nat, w: nat)
    requires w > 0 && a % w == b % w && a < b + w && b < a + w
    ensures a == b
  {
    if a < b { SlotsDiffer(a, b, w); }
    if b < a { SlotsDiffer(b, a, w); }
  }

  /** The pane that a packet about to be accepted lands in holds what its own pane would start with. */
  lemma PaneHoldsBefore(c: Config, malloced: seq<Pane>, r: Client, accepted: PaneMap, n: nat)
    requires Simulating(c, malloced, r, accepted) && r.expectedSeq <= n < r.expectedSeq + c.winSize
    ensures r.panes[n % c.winSize].data == Before(c, malloced, accepted, n)
  {
    var w, slot := c.winSize, n % c.winSize;
    var p := r.panes[slot];
    assert Newest(c, malloced, accepted, p, slot);
    if n >= w { SameSlot(n, w); }
    if n in accepted {
      SameSlotSame(n, p.seqNum, w);
    } else if n >= w {
      assert n - w in accepted;
      if p.seqNum > n { SameSlotSame(n, p.seqNum, w); }
      SameSlotSame(n - w, p.seqNum, w);
    } else if p.seqNum != NO_SEQ {
      SameSlotSame(n, p.seqNum, w);
    }
  }

  lemma {:induction false} WrittenUnchanged(c: Config, accepted: PaneMap, n: nat, m: nat, data: seq<byte>)
    requires ValidConfig(c) && FullPanes(accepted) && |data| == MAX_BUFFER
    requires (forall k | 0 <= k < n :: k in accepted) && n <= m
    ensures Written(c, accepted, n) == Written(c, accepted[m := data], n)
  {
    if n > 0 {
      WrittenUnchanged(c, accepted, n - 1, m, data);
    }
  }

  /** Storing a packet in the ring is accepting it in the reference: no other packet is disturbed. */
  lemma StoreSimulates(c: Config, malloced: seq<Pane>, r: Client, accepted: PaneMap, n: nat, payload: seq<byte>)
    requires Simulating(c, malloced, r, accepted) && r.expectedSeq <= n < r.expectedSeq + c.winSize
    requires |payload| <= MAX_BUFFER && n < NO_SEQ
    ensures var data := Overlay(payload, Before(c, malloced, accepted, n));
            Simulating(c, malloced, StorePane(c, r, n, payload), accepted[n := data])
  {
    PaneHoldsBefore(c, malloced, r, accepted, n);
    var data := Overlay(payload, Before(c, malloced, accepted, n));
    var later := accepted[n := data];
    var stored := StorePane(c, r, n, payload);
    WrittenUnchanged(c, accepted, r.expectedSeq, n, data);
    forall i | 0 <= i < c.winSize ensures Newest(c, malloced, later, stored.panes[i], i) {
      assert Newest(c, malloced, accepted, r.panes[i], i);
      if i == n % c.winSize {
        NothingNewer(c, later, r.expectedSeq, n);
      }
    }
  }

  lemma NothingNewer(c: Config, accepted: PaneMap, expected: nat, n: nat)
    requires ValidConfig(c) && Window(c, accepted, expected) && n >= expected
    ensures forall k | k in accepted && k % c.winSize == n % c.winSize :: k <= n
  {
    forall k | k in accepted && k % c.winSize == n % c.winSize ensures k <= n {
      if k > n { SameSlotSame(n, k, c.winSize); }
    }
  }

  /** The expected packet is in the ring exactly when the reference accepted it. */
  lemma ExpectedInRingIff(c: Config, malloced: seq<Pane>, r: Client, accepted: PaneMap)
    requires Simulating(c, malloced, r, accepted) && r.expectedSeq < NO_SEQ
    ensures var p := r.panes[r.expectedSeq % c.winSize];
            (p.seqNum == r.expectedSeq <==> r.expectedSeq in accepted)
            && (r.expectedSeq in accepted ==> p.data == accepted[r.expectedSeq])
  {
    var slot := r.expectedSeq % c.winSize;
    var p := r.panes[slot];
    assert Newest(c, malloced, accepted, p, slot);
    if r.expectedSeq in accepted {
      SameSlotSame(r.expectedSeq, p.seqNum, c.winSize);
    }
  }

  /** The flush loop stops exactly at the least number never accepted, having written those panes. */
  lemma {:induction false} FlushSimulates(c: Config, malloced: seq<Pane>, r: Client, accepted: PaneMap)
    requires Simulating(c, malloced, r, accepted) && LeastMissing(accepted, r.expectedSeq) < NO_SEQ
    ensures var f := Flush(c, r);
            f.expectedSeq == LeastMissing(accepted, r.expectedSeq)
            && Simulates(c, malloced, f, Unbounded(accepted, f.expectedSeq))
    decreases LeastMissing(accepted, r.expectedSeq) - r.expectedSeq
  {
    ExpectedInRingIff(c, malloced, r, accepted);
    if r.expectedSeq in accepted {
      var p := r.panes[r.expectedSeq % c.winSize];
      FlushSimulates(c, malloced,
                     r.(expectedSeq := r.expectedSeq + 1, output := r.output + p.data[..c.bufSize]), accepted);
    }
  }

  /** One data packet: ring and reference answer alike and stay in step. */
  lemma DataSimulates(c: Config, malloced: seq<Pane>, r: Client, u: Unbounded, n: nat, payload: seq<byte>)
    requires Simulates(c, malloced, r, u) && |payload| <= MAX_BUFFER
    requires Accept(c, malloced, u, n, payload).0.expectedSeq + c.winSize < NO_SEQ
    ensures var z, v := ClientReceive(c, r, Data(n, payload)), Accept(c, malloced, u, n, payload);
            z.ack == v.1 && Simulates(c, malloced, z.client, v.0)
  {
    var r0 := r.(attempts := 0);
    if u.expectedSeq <= n < u.expectedSeq + c.winSize {
      var accepted := u.accepted[n := Overlay(payload, Before(c, malloced, u.accepted, n))];
      StoreSimulates(c, malloced, r0, u.accepted, n, payload);
      if n == u.expectedSeq {
        FlushSimulates(c, malloced, StorePane(c, r0, n, payload), accepted);
      }
    }
  }

  // ----- Sequences of packets -----

  /** The ring receiver on data packets in order of arrival, with its answers. */
  function RingReceives(c: Config, r: Client, msgs: seq<Msg>): (z: (Client, seq<Ack>))
    requires ClientShape(c, r) && forall i | 0 <= i < |msgs| :: |msgs[i].payload| <= MAX_BUFFER
    decreases |msgs|
  {
    if msgs == [] then (r, [])
    else
      var one := ClientReceive(c, r, msgs[0]);
      var rest := RingReceives(c, one.client, msgs[1..]);
      (rest.0, [one.ack] + rest.1)
  }

  function ReferenceReceives(c: Config, malloced: seq<Pane>, u: Unbounded, msgs: seq<Msg>): (z: (Unbounded, seq<Ack>))
    requires ValidConfig(c) && Ring(malloced, c.winSize) && FullPanes(u.accepted)
    requires forall i | 0 <= i < |msgs| :: |msgs[i].payload| <= MAX_BUFFER
    ensures FullPanes(z.0.accepted)
    decreases |msgs|
  {
    if msgs == [] then (u, [])
    else
      var one := Accept(c, malloced, u, msgs[0].seqNum, msgs[0].payload);
      var rest := ReferenceReceives(c, malloced, one.0, msgs[1..]);
      (rest.0, [one.1] + rest.1)
  }

  function Upto(n: nat): (r: set<nat>)
    ensures |r| == n && forall k :: k in r <==> 0 <= k < n
  {
    if n == 0 then {} else Upto(n - 1) + {n - 1}
  }

  lemma SubsetSize(a: set<nat>, b: set<nat>)
    requires a <= b
    ensures |a| <= |b|
  {
    assert b == a + (b - a);
  }

  /** The receiver cannot be further along than the number of packets it accepted. */
  lemma ExpectedWithinAccepted(accepted: PaneMap, n: nat)
    requires forall k | 0 <= k < n :: k in accepted
    ensures n <= |accepted|
  {
    SubsetSize(Upto(n), accepted.Keys);
  }

  lemma {:induction false} SequenceSimulates(c: Config, malloced: seq<Pane>, r: Client, u: Unbounded, msgs: seq<Msg>)
    requires Simulates(c, malloced, r, u)
    requires forall i | 0 <= i < |msgs| :: msgs[i].Data? && |msgs[i].payload| <= MAX_BUFFER
    requires |u.accepted| + |msgs| + c.winSize < NO_SEQ
    ensures var z, v := RingReceives(c, r, msgs), ReferenceReceives(c, malloced, u, msgs);
            z.1 == v.1 && Simulates(c, malloced, z.0, v.0)
    decreases |msgs|
  {
    if msgs != [] {
      var one := Accept(c, malloced, u, msgs[0].seqNum, msgs[0].payload);
      ExpectedWithinAccepted(one.0.accepted, one.0.expectedSeq);
      DataSimulates(c, malloced, r, u, msgs[0].seqNum, msgs[0].payload);
      SequenceSimulates(c, malloced, ClientReceive(c, r, msgs[0]).client, one.0, msgs[1..]);
    }
  }

  /**
   Receiver refinement: for every sequence of data packets, well labelled or
   not, the ring and the reference give the same answers, and the ring's
   output is the reference's panes below its expectedSeq, the least sequence
   number never accepted.
   */
  lemma RingRefinesUnbounded(c: Config, malloced: seq<Pane>, msgs: seq<Msg>)
    requires ValidConfig(c) && Ring(malloced, c.winSize) && Unused(malloced)
    requires forall i | 0 <= i < |msgs| :: msgs[i].Data? && |msgs[i].payload| <= MAX_BUFFER
    requires |msgs| + c.winSize < NO_SEQ
    ensures var z, v := RingReceives(c, NewClient(malloced), msgs),
                        ReferenceReceives(c, malloced, Unbounded(map[], 0), msgs);
            && z.1 == v.1
            && z.0.expectedSeq == v.0.expectedSeq == LeastMissing(v.0.accepted, 0)
            && z.0.output == Written(c, v.0.accepted, v.0.expectedSeq)
  {
    SequenceSimulates(c, malloced, NewClient(malloced), Unbounded(map[], 0), msgs);
    var v := ReferenceReceives(c, malloced, Unbounded(map[], 0), msgs).0;
    LeastIs(v.accepted, v.expectedSeq);
  }

  lemma LeastIs(accepted: PaneMap, m: nat)
    requires m !in accepted && forall k | 0 <= k < m :: k in accepted
    ensures LeastMissing(accepted, 0) == m
  {
    var l := LeastMissing(accepted, 0);
    assert !(l < m) && !(m < l);
  }

  /** The flush loop writes at most one window of panes, whatever the ring holds. */
  lemma FlushWithinWindow(c: Config, r: Client)
    requires ClientShape(c, r)
    ensures Flush(c, r).expectedSeq <= r.expectedSeq + c.winSize
  {
    FlushedPanesMatch(c, r);
    if Flush(c, r).expectedSeq > r.expectedSeq + c.winSize {
      SameSlot(r.expectedSeq + c.winSize, c.winSize);
    }
  }

  lemma {:induction false} FlushedPanesMatch(c: Config, r: Client)
    requires ClientShape(c, r)
    ensures forall k | r.expectedSeq <= k < Flush(c, r).expectedSeq :: r.panes[k % c.winSize].seqNum == k
    decreases HighestSeq(r.panes) + 1 - r.expectedSeq
  {
    var p := r.panes[r.expectedSeq % c.winSize];
    if p.seqNum == r.expectedSeq {
      FlushedPanesMatch(c, r.(expectedSeq := r.expectedSeq + 1, output := r.output + p.data[..c.bufSize]));
    }
  }
}
