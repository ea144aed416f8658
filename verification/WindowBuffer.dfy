/** The ring of panes of windowBuffer.c, shared by both ends. */
module WindowBuffer {
  import opened Bytes

  const MAX_BUFFER := 1400
  /** MAX_INT_32: the sequence number of a pane that was never filled. */
  const NO_SEQ := 0xFFFF_FFFF

  datatype Pane = Pane(seqNum: nat, data: seq<byte>)

  /** A ring of w panes, each with the full data array. */
  ghost predicate Ring(panes: seq<Pane>, w: nat) {
    && 0 < w == |panes|
    && forall i | 0 <= i < |panes| :: |panes[i].data| == MAX_BUFFER
  }

  /** Two sequence numbers less than a window apart never share a pane. */
  lemma SlotsDiffer(a: nat, b: nat, w: nat)
    requires a < b < a + w
    ensures a % w != b % w
  {
    if a % w == b % w {
      assert a == w * (a / w) + a % w && b == w * (b / w) + b % w;
      assert b - a == w * (b / w - a / w);
      Scaled(w, b / w - a / w);
      assert false;
    }
  }

  lemma Scaled(w: nat, k: int)
    ensures k >= 1 ==> w * k >= w
    ensures k <= 0 ==> w * k <= 0
  {
  }

  /** A packet and the one a window earlier do. */
  lemma SameSlot(n: nat, w: nat)
    requires 0 < w <= n
    ensures n % w == (n - w) % w
  {
    assert n == n / w * w + n % w && n - w == (n - w) / w * w + (n - w) % w;
    var d := n / w - (n - w) / w - 1;
    assert d * w == (n - w) % w - n % w;
    Scaled(w, d);
    Scaled(w, -d);
  }

  /** The panes that malloc returns hold arbitrary bytes; init_window only marks them unused. */
  ghost predicate Unused(panes: seq<Pane>) {
    forall i | 0 <= i < |panes| :: panes[i].seqNum == NO_SEQ
  }

  class WindowBuffer {
    const panes: array<Pane>
    var window_size: nat
    var buffer_size: nat
    var lower: nat
    var currIndex: nat
    var upper: nat

    ghost predicate Valid()
      reads this, panes
    {
      Ring(panes[..], window_size)
    }

    /** init_window; garbage is what malloc left in the data arrays. */
    constructor (windowSize: nat, bufferSize: nat, garbage: seq<Pane>)
      requires Ring(garbage, windowSize)
      ensures Valid() && fresh(panes)
      ensures window_size == windowSize && buffer_size == bufferSize
      ensures lower == 0 && currIndex == 0 && upper == windowSize - 1
      ensures Unused(panes[..])
      ensures forall i | 0 <= i < windowSize :: panes[i].data == garbage[i].data
    {
      window_size := windowSize;
      lower := 0;
      currIndex := 0;
      upper := windowSize - 1;
      buffer_size := bufferSize;
      panes := new Pane[windowSize](i requires 0 <= i < |garbage| => garbage[i]);
      new;
      for i := 0 to windowSize
        modifies panes
        invariant forall k | 0 <= k < i :: panes[k] == garbage[k].(seqNum := NO_SEQ)
        invariant forall k | i <= k < windowSize :: panes[k] == garbage[k]
      {
        panes[i] := panes[i].(seqNum := NO_SEQ);
      }
    }

    method SlideWindow(length: nat) returns (result: int)
      modifies this`lower, this`upper
      ensures lower == old(lower) + length && upper == old(upper) + length && result == 0
    {
      lower := lower + length;
      upper := upper + length;
      return 0;
    }
  }
}
