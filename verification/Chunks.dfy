/** How the file is cut into packets. */
module Chunks {
  import opened Bytes
  import opened WindowBuffer
  import opened Protocol

  function Offset(c: Config, i: nat): (r: nat)
    ensures r <= |c.file|
  {
    if i * c.bufSize <= |c.file| then i * c.bufSize else |c.file|
  }

  lemma OffsetsOrdered(c: Config, i: nat)
    ensures Offset(c, i) <= Offset(c, i + 1) <= Offset(c, i) + c.bufSize
    ensures (i + 1) * c.bufSize == i * c.bufSize + c.bufSize
  {
  }

  /** The bytes of the file that packet i is for: a full buffer, fewer at the end, none beyond it. */
  function Chunk(c: Config, i: nat): (r: seq<byte>)
    ensures |r| <= c.bufSize
  {
    OffsetsOrdered(c, i);
    c.file[Offset(c, i)..Offset(c, i + 1)]
  }

  /**
   The sequence number of EOF. A short last chunk read in the initial fill is
   a data packet of its own; one read later rides in the EOF.
   */
  function EofSeq(c: Config): nat
    requires ValidConfig(c)
  {
    if |c.file| % c.bufSize != 0 && |c.file| < c.winSize * c.bufSize
    then |c.file| / c.bufSize + 1
    else |c.file| / c.bufSize
  }

  /** The whole file goes out in the initial fill. */
  predicate FitsWindow(c: Config) {
    |c.file| < c.winSize * c.bufSize
  }

  lemma DivUnique(l: nat, b: nat, q: nat)
    requires b > 0 && q * b <= l < q * b + b
    ensures l / b == q && l % b == l - q * b
  {
    DivBounds(l, b);
    var d := l / b - q;
    assert d * b == l / b * b - q * b;
    if d >= 1 {
      Monotone(1, d, b);
    } else if d <= -1 {
      Monotone(d, -1, b);
    }
  }

  lemma Monotone(a: int, b: int, k: nat)
    requires a <= b
    ensures a * k <= b * k
  {
  }

  lemma DivBounds(l: nat, b: nat)
    requires b > 0
    ensures l == l / b * b + l % b && l % b < b
    ensures 0 <= l / b * b && l % b <= l
  {
    Monotone(0, l / b, b);
  }

  /** The bytes left over after the last full buffer of the file. */
  function LeftOver(c: Config): (r: nat)
    requires ValidConfig(c)
    ensures r < c.bufSize && r <= |c.file|
  {
    DivBounds(|c.file|, c.bufSize);
    |c.file| % c.bufSize
  }

  /** The length of the file rounded up to the next multiple of the buffer size above it. */
  function PaddedLength(c: Config): (r: nat)
    requires ValidConfig(c)
    ensures |c.file| < r == |c.file| - LeftOver(c) + c.bufSize
  {
    DivBounds(|c.file|, c.bufSize);
    (|c.file| / c.bufSize + 1) * c.bufSize
  }

  /** What fread returns once n full buffers have been read. */
  lemma ReadAt(c: Config, n: nat)
    requires ValidConfig(c) && n * c.bufSize <= |c.file|
    ensures Fread(c, n * c.bufSize) == Chunk(c, n)
    ensures |Chunk(c, n)| == c.bufSize ==> (n + 1) * c.bufSize == n * c.bufSize + c.bufSize <= |c.file|
    ensures |Chunk(c, n)| < c.bufSize ==>
              && |c.file| / c.bufSize == n
              && |c.file| % c.bufSize == |Chunk(c, n)| == |c.file| - n * c.bufSize
  {
    OffsetsOrdered(c, n);
    if |Chunk(c, n)| < c.bufSize {
      DivUnique(|c.file|, c.bufSize, n);
    }
  }

  /** Full buffers read so far never pass the packet count. */
  lemma ReadBound(c: Config, n: nat)
    requires ValidConfig(c) && n * c.bufSize <= |c.file|
    ensures n <= |c.file| / c.bufSize <= EofSeq(c)
  {
    DivBounds(|c.file|, c.bufSize);
    if n >= |c.file| / c.bufSize + 1 {
      Monotone(|c.file| / c.bufSize + 1, n, c.bufSize);
    }
  }

  /** EOF leaves with the initial fill exactly when its number is within one window of zero. */
  lemma EofSeqBounds(c: Config)
    requires ValidConfig(c)
    ensures EofSeq(c) + c.winSize + 1 < NO_SEQ
    ensures FitsWindow(c) ==> EofSeq(c) <= c.winSize
    ensures !FitsWindow(c) ==> c.winSize <= EofSeq(c) == |c.file| / c.bufSize
  {
    DivBounds(|c.file|, c.bufSize);
    if FitsWindow(c) {
      if |c.file| / c.bufSize >= c.winSize {
        Monotone(c.winSize, |c.file| / c.bufSize, c.bufSize);
      }
    } else {
      ReadBound(c, c.winSize);
    }
  }

  /** Every packet before EOF but possibly the last is a full buffer. */
  lemma ChunkSizes(c: Config, i: nat)
    requires ValidConfig(c) && i < EofSeq(c)
    ensures i * c.bufSize <= |c.file|
    ensures i < |c.file| / c.bufSize ==> |Chunk(c, i)| == c.bufSize && (i + 1) * c.bufSize <= |c.file|
    ensures i == |c.file| / c.bufSize ==> EofSeq(c) == i + 1
  {
    DivBounds(|c.file|, c.bufSize);
    Monotone(i, |c.file| / c.bufSize, c.bufSize);
    if i < |c.file| / c.bufSize {
      Monotone(i + 1, |c.file| / c.bufSize, c.bufSize);
    }
  }

  /** EOF's own bytes: the rest of the file, when it is not a data packet of its own. */
  lemma EofChunk(c: Config)
    requires ValidConfig(c)
    ensures if LeftOver(c) != 0 && FitsWindow(c)
            then Chunk(c, EofSeq(c)) == [] && EofSeq(c) * c.bufSize == PaddedLength(c)
            else EofSeq(c) * c.bufSize == |c.file| - LeftOver(c)
                 && Chunk(c, EofSeq(c)) == c.file[|c.file| - LeftOver(c)..]
  {
    var l, b := |c.file|, c.bufSize;
    DivBounds(l, b);
    OffsetsOrdered(c, EofSeq(c));
    assert (l / b + 1) * b == l / b * b + b;
  }
}
