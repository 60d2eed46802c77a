/**
  The circular buffer functions, `arm_circularWrite_*` and `arm_circularRead_*`. The f32, q15
  and q7 variants have the same text for different element types, so they are one generic
  method each.

  An offset is advanced by an increment and wrapped when it passes the top. With unit
  increments the buffer is a ring that holds the most recent samples of the whole history.
*/
module Circular {
  import opened MachineInt
  import opened Sequences

  /** The offset after one sample: wrapped at the top, and only there. */
  function Advance(off: int, inc: int, L: int): int
  {
    if off + inc >= L then off + inc - L else off + inc
  }

  /** The offset of sample number k of a call. */
  function OffsetAt(off: int, inc: int, L: int, k: nat): int
  {
    if k == 0 then off else Advance(OffsetAt(off, inc, L, k - 1), inc, L)
  }

  /** Every sample of a call of n lands inside a buffer of the given length. */
  ghost predicate InBounds(off: int, inc: int, L: int, n: nat, length: nat)
  {
    forall k :: 0 <= k < n ==> 0 <= OffsetAt(off, inc, L, k) < length
  }

  /** The buffer after writing the samples one after the other. */
  function Written<T>(buf: seq<T>, off: int, inc: int, L: int, xs: seq<T>): (r: seq<T>)
    requires InBounds(off, inc, L, |xs|, |buf|)
    ensures |r| == |buf|
  {
    var n := |xs|;
    if n == 0 then buf else Written(buf, off, inc, L, xs[..n - 1])[OffsetAt(off, inc, L, n - 1) := xs[n - 1]]
  }

  /** The position of sample number k behind a source pointer that moves by a stride. */
  function SrcAt(pos: int, inc: int, k: nat): int
  {
    if k == 0 then pos else SrcAt(pos, inc, k - 1) + inc
  }

  lemma {:induction false} SrcIsStrided(pos: int, inc: int, k: nat)
    ensures SrcAt(pos, inc, k) == pos + k * inc
  {
    if k > 0 {
      SrcIsStrided(pos, inc, k - 1);
      assert k * inc == (k - 1) * inc + inc;
    }
  }

  ghost predicate Readable(length: nat, pos: int, inc: int, n: nat)
  {
    forall k :: 0 <= k < n ==> 0 <= SrcAt(pos, inc, k) < length
  }

  function Visited<T>(src: seq<T>, pos: int, inc: int, n: nat): (r: seq<T>)
    requires Readable(|src|, pos, inc, n)
    ensures |r| == n
  {
    if n == 0 then [] else Visited(src, pos, inc, n - 1) + [src[SrcAt(pos, inc, n - 1)]]
  }

  lemma {:induction false} VisitedAt<T>(src: seq<T>, pos: int, inc: int, n: nat, k: nat)
    requires k < n && Readable(|src|, pos, inc, n)
    ensures Visited(src, pos, inc, n)[k] == src[SrcAt(pos, inc, k)]
  {
    if k < n - 1 {
      VisitedAt(src, pos, inc, n - 1, k);
    }
  }

  /** The samples of a call lie a stride apart in the source. */
  lemma StridedSamples<T>(src: seq<T>, pos: int, inc: int, n: nat, k: nat)
    requires k < n && Readable(|src|, pos, inc, n)
    ensures 0 <= pos + k * inc < |src| && Visited(src, pos, inc, n)[k] == src[pos + k * inc]
  {
    SrcIsStrided(pos, inc, k);
    VisitedAt(src, pos, inc, n, k);
  }

  lemma WriteNext<T>(buf: seq<T>, off: int, inc: int, L: int, xs: seq<T>, k: nat)
    requires k < |xs| && InBounds(off, inc, L, |xs|, |buf|)
    ensures 0 <= OffsetAt(off, inc, L, k) < |buf|
    ensures Written(buf, off, inc, L, xs[..k + 1])
     == Written(buf, off, inc, L, xs[..k])[OffsetAt(off, inc, L, k) := xs[k]]
  {
    assert xs[..k + 1][..k] == xs[..k];
  }

  /** The buffer after copying samples within it: each is read when its turn comes. */
  function SelfWritten<T>(buf: seq<T>, off: int, inc: int, L: int, pos: int, sinc: int, n: nat): (r: seq<T>)
    requires InBounds(off, inc, L, n, |buf|) && Readable(|buf|, pos, sinc, n)
    ensures |r| == |buf|
  {
    if n == 0 then buf
    else
      var b := SelfWritten(buf, off, inc, L, pos, sinc, n - 1);
      b[OffsetAt(off, inc, L, n - 1) := b[SrcAt(pos, sinc, n - 1)]]
  }

  /** Copying within the buffer is writing the samples it held before, if none of them is
      overwritten before its turn. */
  lemma {:induction false} SelfWriteIsWrite<T>(buf: seq<T>, off: int, inc: int, L: int, pos: int, sinc: int, n: nat)
    requires InBounds(off, inc, L, n, |buf|) && Readable(|buf|, pos, sinc, n)
    requires forall j, k :: 0 <= j < k < n ==> OffsetAt(off, inc, L, j) != SrcAt(pos, sinc, k)
    ensures SelfWritten(buf, off, inc, L, pos, sinc, n) == Written(buf, off, inc, L, Visited(buf, pos, sinc, n))
  {
    if n > 0 {
      SelfWriteIsWrite(buf, off, inc, L, pos, sinc, n - 1);
      var xs := Visited(buf, pos, sinc, n);
      assert xs[..n - 1] == Visited(buf, pos, sinc, n - 1);
      var j := SrcAt(pos, sinc, n - 1);
      assert xs[n - 1] == buf[j];
      UnwrittenKept(buf, off, inc, L, xs[..n - 1], j);
    }
  }

  lemma {:induction false} UnwrittenKept<T>(buf: seq<T>, off: int, inc: int, L: int, xs: seq<T>, j: int)
    requires InBounds(off, inc, L, |xs|, |buf|) && 0 <= j < |buf|
    requires forall k :: 0 <= k < |xs| ==> OffsetAt(off, inc, L, k) != j
    ensures Written(buf, off, inc, L, xs)[j] == buf[j]
  {
    if xs != [] {
      UnwrittenKept(buf, off, inc, L, xs[..|xs| - 1], j);
    }
  }

  /** For any increment: a slot keeps the last sample written to it, and one that no sample hits
      (`UnwrittenKept`) its old content. */
  lemma {:induction false} LastWriteStays<T>(buf: seq<T>, off: int, inc: int, L: int, xs: seq<T>, k: nat)
    requires InBounds(off, inc, L, |xs|, |buf|) && k < |xs|
    requires forall j :: k < j < |xs| ==> OffsetAt(off, inc, L, j) != OffsetAt(off, inc, L, k)
    ensures 0 <= OffsetAt(off, inc, L, k) < |buf|
    ensures Written(buf, off, inc, L, xs)[OffsetAt(off, inc, L, k)] == xs[k]
  {
    if k < |xs| - 1 {
      LastWriteStays(buf, off, inc, L, xs[..|xs| - 1], k);
    }
  }

  /** Each sample is what the samples before it left where it is read from. */
  ghost predicate Replays<T(!new)>(buf: seq<T>, off: int, inc: int, L: int, pos: int, sinc: int, xs: seq<T>)
    requires InBounds(off, inc, L, |xs|, |buf|) && Readable(|buf|, pos, sinc, |xs|)
  {
    forall k :: 0 <= k < |xs| ==> xs[k] == Written(buf, off, inc, L, xs[..k])[SrcAt(pos, sinc, k)]
  }

  /** Copying within the buffer is writing samples that replay; that determines them all. */
  lemma {:induction false} SelfWriteReplays<T(!new)>(buf: seq<T>, off: int, inc: int, L: int,
                                                     pos: int, sinc: int, n: nat)
    returns (xs: seq<T>)
    requires InBounds(off, inc, L, n, |buf|) && Readable(|buf|, pos, sinc, n)
    ensures |xs| == n && Replays(buf, off, inc, L, pos, sinc, xs)
    ensures SelfWritten(buf, off, inc, L, pos, sinc, n) == Written(buf, off, inc, L, xs)
  {
    if n == 0 {
      xs := [];
    } else {
      var ys := SelfWriteReplays(buf, off, inc, L, pos, sinc, n - 1);
      xs := ys + [Written(buf, off, inc, L, ys)[SrcAt(pos, sinc, n - 1)]];
      assert xs[..n - 1] == ys;
      ReplayExtends(buf, off, inc, L, pos, sinc, ys, xs);
    }
  }

  lemma ReplayExtends<T(!new)>(buf: seq<T>, off: int, inc: int, L: int, pos: int, sinc: int, ys: seq<T>, xs: seq<T>)
    requires InBounds(off, inc, L, |xs|, |buf|) && Readable(|buf|, pos, sinc, |xs|)
    requires |xs| == |ys| + 1 && ys == xs[..|ys|] && Replays(buf, off, inc, L, pos, sinc, ys)
    requires xs[|ys|] == Written(buf, off, inc, L, ys)[SrcAt(pos, sinc, |ys|)]
    ensures Replays(buf, off, inc, L, pos, sinc, xs)
  {
    forall k | 0 <= k < |xs|
      ensures xs[k] == Written(buf, off, inc, L, xs[..k])[SrcAt(pos, sinc, k)]
    {
      if k < |ys| {
        assert xs[..k] == ys[..k] && xs[k] == ys[k];
      }
    }
  }

  /** `arm_circularWrite_*`. The offset is read from and stored to 16 bits. The source may be the
      buffer itself. */
  method CircularWrite<T>(circBuffer: array<T>, L: int, writeOffset: U16, bufferInc: int,
                          src: array<T>, srcPos: int, srcInc: int, blockSize: U32) returns (newOffset: U16)
    requires InBounds(writeOffset, bufferInc, L, blockSize, circBuffer.Length)
    requires Readable(src.Length, srcPos, srcInc, blockSize)
    modifies circBuffer
    ensures src != circBuffer ==>
              circBuffer[..] ==
                Written(old(circBuffer[..]), writeOffset, bufferInc, L, Visited(src[..], srcPos, srcInc, blockSize))
    ensures src == circBuffer ==>
              circBuffer[..] == SelfWritten(old(circBuffer[..]), writeOffset, bufferInc, L, srcPos, srcInc, blockSize)
    ensures newOffset == ToU16(OffsetAt(writeOffset, bufferInc, L, blockSize))
  {
    ghost var before, xs := circBuffer[..], Visited(src[..], srcPos, srcInc, blockSize);
    ghost var k: nat := 0;
    var wOffset: int := writeOffset;
    var p := srcPos;
    var i := blockSize;
    while i > 0
      invariant 0 <= i && k + i == blockSize
      invariant wOffset == OffsetAt(writeOffset, bufferInc, L, k)
      invariant p == SrcAt(srcPos, srcInc, k)
      invariant src != circBuffer ==> xs == Visited(src[..], srcPos, srcInc, blockSize)
      invariant src != circBuffer ==> circBuffer[..] == Written(before, writeOffset, bufferInc, L, xs[..k])
      invariant src == circBuffer ==>
                  circBuffer[..] == SelfWritten(before, writeOffset, bufferInc, L, srcPos, srcInc, k)
    {
      if src != circBuffer {
        VisitedAt(src[..], srcPos, srcInc, blockSize, k);
      }
      WriteNext(before, writeOffset, bufferInc, L, xs, k);
      assert 0 <= SrcAt(srcPos, srcInc, k) < src.Length;
      circBuffer[wOffset] := src[p];
      assert src != circBuffer ==> circBuffer[..] == Written(before, writeOffset, bufferInc, L, xs[..k + 1]);
      assert src == circBuffer ==>
             circBuffer[..] == SelfWritten(before, writeOffset, bufferInc, L, srcPos, srcInc, k + 1);
      p := p + srcInc;
      wOffset := wOffset + bufferInc;
      if wOffset >= L {
        wOffset := wOffset - L;
      }
      i, k := i - 1, k + 1;
    }
    assert xs[..k] == xs;
    newOffset := ToU16(wOffset);
  }

  /** The destination pointer of a read wraps only when it meets the end exactly. */
  function DstAdvance(pos: int, inc: int, length: int): int
  {
    if pos + inc == length then 0 else pos + inc
  }

  function DstAt(pos: int, inc: int, length: int, k: nat): int
  {
    if k == 0 then pos else DstAdvance(DstAt(pos, inc, length, k - 1), inc, length)
  }

  ghost predicate DstInBounds(pos: int, inc: int, length: int, n: nat, size: nat)
  {
    forall k :: 0 <= k < n ==> 0 <= DstAt(pos, inc, length, k) < size
  }

  lemma {:induction false} DstRestarts(pos: int, inc: int, length: int, j: nat, k: nat)
    ensures DstAt(DstAt(pos, inc, length, j), inc, length, k) == DstAt(pos, inc, length, j + k)
  {
    if k > 0 {
      DstRestarts(pos, inc, length, j, k - 1);
    }
  }

  /** Until it meets the end, and for good if it never does, the pointer just strides on. */
  lemma {:induction false} DstStrides(pos: int, inc: int, length: int, k: nat)
    requires 0 <= pos < length && inc > 0
    requires (length - pos) % inc != 0 || k * inc < length - pos
    ensures DstAt(pos, inc, length, k) == pos + k * inc
  {
    if k > 0 {
      assert k * inc == (k - 1) * inc + inc;
      DstStrides(pos, inc, length, k - 1);
      if k * inc == length - pos {
        DivModUnique(length - pos, inc, k, 0);
      }
    }
  }

  /** A stride that divides both the way to the end and the ring never leaves it. */
  lemma {:induction false} DstAligned(pos: int, inc: int, length: int, k: nat)
    requires 0 <= pos < length && inc > 0 && (length - pos) % inc == 0 && length % inc == 0
    ensures 0 <= DstAt(pos, inc, length, k) < length && (length - DstAt(pos, inc, length, k)) % inc == 0
  {
    if k > 0 {
      DstAligned(pos, inc, length, k - 1);
      var left := length - DstAt(pos, inc, length, k - 1);
      DivAddMultiple(left, -1, inc);
      Recompose(left, inc);
      if left < inc {
        MulOrder(left / inc, 0, inc);
      }
    }
  }

  /** The destination pointer stays in its ring exactly while it has not reached the end, or if it
      meets the end exactly and then, from the start, the same holds of the whole ring. */
  lemma DstStrideInBoundsIff(pos: int, inc: int, length: nat, n: nat)
    requires 0 <= pos < length && inc > 0 && n > 0
    ensures DstInBounds(pos, inc, length, n, length) <==>
              || pos + (n - 1) * inc < length
              || ((length - pos) % inc == 0 && (length % inc == 0 || (n - 1 - (length - pos) / inc) * inc < length))
  {
    if pos + (n - 1) * inc < length {
      StraightInBounds(pos, inc, length, n);
    } else if (length - pos) % inc != 0 {
      DstStrides(pos, inc, length, n - 1);
    } else {
      var m := MeetsEnd(pos, inc, length, n);
      SecondLap(pos, inc, length, n, m);
      if length % inc == 0 {
        AlignedInBounds(0, inc, length, n - m);
      } else if (n - 1 - m) * inc < length {
        StraightInBounds(0, inc, length, n - m);
      } else {
        DstStrides(0, inc, length, n - 1 - m);
      }
    }
  }

  /** Where the destination pointer is after k samples, for every stride: it strides on until it
      meets the end exactly; from then on it starts over, and keeps to the ring if the stride
      divides it. */
  lemma DstPosition(pos: int, inc: int, length: nat, k: nat)
    requires 0 <= pos < length
    ensures var meets := inc > 0 && (length - pos) % inc == 0 && k >= (length - pos) / inc;
            && (!meets ==> DstAt(pos, inc, length, k) == pos + k * inc)
            && (meets ==>
                  var again := (k - (length - pos) / inc) * inc;
                  DstAt(pos, inc, length, k) == if length % inc == 0 then again % length else again)
  {
    if inc <= 0 {
      DstFalls(pos, inc, length, k);
    } else if (length - pos) % inc != 0 {
      DstStrides(pos, inc, length, k);
    } else {
      FirstLap(pos, inc, length, k);
      if k >= (length - pos) / inc {
        LaterLaps(pos, inc, length, k, (length - pos) / inc);
      }
    }
  }

  lemma {:induction false} DstFalls(pos: int, inc: int, length: int, k: nat)
    requires pos < length && inc <= 0
    ensures DstAt(pos, inc, length, k) == pos + k * inc <= pos
  {
    if k > 0 {
      DstFalls(pos, inc, length, k - 1);
      assert k * inc == (k - 1) * inc + inc;
    }
  }

  lemma FirstLap(pos: int, inc: int, length: nat, k: nat)
    requires 0 <= pos < length && inc > 0 && (length - pos) % inc == 0
    ensures k < (length - pos) / inc ==> DstAt(pos, inc, length, k) == pos + k * inc
  {
    var m := (length - pos) / inc;
    Recompose(length - pos, inc);
    if k < m {
      MulStrict(k, m, inc);
      DstStrides(pos, inc, length, k);
    }
  }

  lemma LaterLaps(pos: int, inc: int, length: nat, k: nat, m: int)
    requires 0 <= pos < length && inc > 0 && (length - pos) % inc == 0 && k >= m == (length - pos) / inc
    ensures var again := (k - m) * inc;
            DstAt(pos, inc, length, k) == if length % inc == 0 then again % length else again
  {
    Recompose(length - pos, inc);
    var m' := MeetsEnd(pos, inc, length, m + 1);
    DstRestarts(pos, inc, length, m', k - m');
    if length % inc == 0 {
      LapsFromStart(inc, length, k - m');
    } else {
      DstStrides(0, inc, length, k - m');
    }
  }

  lemma {:induction false} LapsFromStart(inc: int, length: nat, k: nat)
    requires inc > 0 && length > 0 && length % inc == 0
    ensures DstAt(0, inc, length, k) == k * inc % length
  {
    if k == 0 {
      DivModUnique(0, length, 0, 0);
    } else {
      LapsFromStart(inc, length, k - 1);
      DstAligned(0, inc, length, k - 1);
      StrideFits(DstAt(0, inc, length, k - 1), inc, length);
      assert k * inc == (k - 1) * inc + inc;
      Recompose((k - 1) * inc, length);
      var q := (k - 1) * inc / length;
      if DstAt(0, inc, length, k - 1) + inc == length {
        assert (q + 1) * length == q * length + length;
        DivModUnique(k * inc, length, q + 1, 0);
      } else {
        DivModUnique(k * inc, length, q, DstAt(0, inc, length, k - 1) + inc);
      }
    }
  }

  lemma StrideFits(d: int, inc: int, length: int)
    requires inc > 0 && d < length && (length - d) % inc == 0
    ensures d + inc <= length
  {
    Recompose(length - d, inc);
    var q := (length - d) / inc;
    if q <= 0 {
      MulOrder(q, 0, inc);
    } else {
      MulOrder(1, q, inc);
    }
  }

  lemma AlignedInBounds(pos: int, inc: int, length: nat, n: nat)
    requires 0 <= pos < length && inc > 0 && (length - pos) % inc == 0 && length % inc == 0
    ensures DstInBounds(pos, inc, length, n, length)
  {
    forall k | 0 <= k < n
      ensures 0 <= DstAt(pos, inc, length, k) < length
    {
      DstAligned(pos, inc, length, k);
    }
  }

  lemma StraightInBounds(pos: int, inc: int, length: nat, n: nat)
    requires 0 <= pos < length && inc > 0 && pos + (n - 1) * inc < length
    ensures DstInBounds(pos, inc, length, n, length)
  {
    forall k | 0 <= k < n
      ensures 0 <= DstAt(pos, inc, length, k) < length
    {
      MulOrder(k, n - 1, inc);
      MulOrder(0, k, inc);
      DstStrides(pos, inc, length, k);
    }
  }

  /** The first lap: it ends at the start of the ring, and every step before that is inside. */
  lemma MeetsEnd(pos: int, inc: int, length: nat, n: nat) returns (m: nat)
    requires 0 <= pos < length && inc > 0 && (length - pos) % inc == 0 && pos + (n - 1) * inc >= length
    ensures 0 < m == (length - pos) / inc < n && DstAt(pos, inc, length, m) == 0
    ensures DstInBounds(pos, inc, length, m, length)
  {
    var k := (length - pos) / inc;
    Recompose(length - pos, inc);
    if k <= 0 {
      MulOrder(k, 0, inc);
    }
    assert n * inc == (n - 1) * inc + inc;
    if k >= n {
      MulOrder(n, k, inc);
    }
    m := k;
    assert m * inc == (m - 1) * inc + inc;
    DstStrides(pos, inc, length, m - 1);
    StraightInBounds(pos, inc, length, m);
  }

  lemma SecondLap(pos: int, inc: int, length: nat, n: nat, m: nat)
    requires m < n && DstAt(pos, inc, length, m) == 0 && DstInBounds(pos, inc, length, m, length)
    ensures DstInBounds(pos, inc, length, n, length) <==> DstInBounds(0, inc, length, n - m, length)
  {
    forall k: nat
      ensures DstAt(0, inc, length, k) == DstAt(pos, inc, length, m + k)
    {
      DstRestarts(pos, inc, length, m, k);
    }
    if DstInBounds(0, inc, length, n - m, length) {
      forall k | 0 <= k < n
        ensures 0 <= DstAt(pos, inc, length, k) < length
      {
        if k >= m {
          assert 0 <= DstAt(0, inc, length, k - m) < length;
        }
      }
    }
  }

  /** The destination after reading n samples. */
  function ReadOut<T>(buf: seq<T>, off: int, inc: int, L: int,
                      dst: seq<T>, pos: int, dinc: int, dlen: int, n: nat): (r: seq<T>)
    requires InBounds(off, inc, L, n, |buf|) && DstInBounds(pos, dinc, dlen, n, |dst|)
    ensures |r| == |dst|
  {
    if n == 0 then dst
    else ReadOut(buf, off, inc, L, dst, pos, dinc, dlen, n - 1)
        [DstAt(pos, dinc, dlen, n - 1) := buf[OffsetAt(off, inc, L, n - 1)]]
  }

  /** For any increments: a destination cell keeps the last sample copied to it, and one that no
      sample hits (`UnreadKept`) its old content. */
  lemma {:induction false} LastReadStays<T>(buf: seq<T>, off: int, inc: int, L: int, dst: seq<T>,
                                            pos: int, dinc: int, dlen: int, n: nat, k: nat)
    requires InBounds(off, inc, L, n, |buf|) && DstInBounds(pos, dinc, dlen, n, |dst|) && k < n
    requires forall j :: k < j < n ==> DstAt(pos, dinc, dlen, j) != DstAt(pos, dinc, dlen, k)
    ensures 0 <= DstAt(pos, dinc, dlen, k) < |dst| && 0 <= OffsetAt(off, inc, L, k) < |buf|
    ensures ReadOut(buf, off, inc, L, dst, pos, dinc, dlen, n)[DstAt(pos, dinc, dlen, k)] ==
            buf[OffsetAt(off, inc, L, k)]
  {
    if k < n - 1 {
      LastReadStays(buf, off, inc, L, dst, pos, dinc, dlen, n - 1, k);
    }
  }

  /** The buffer after reading n samples of it into itself. */
  function SelfRead<T>(buf: seq<T>, off: int, inc: int, L: int, pos: int, dinc: int, dlen: int, n: nat): (r: seq<T>)
    requires InBounds(off, inc, L, n, |buf|) && DstInBounds(pos, dinc, dlen, n, |buf|)
    ensures |r| == |buf|
  {
    if n == 0 then buf
    else
      var b := SelfRead(buf, off, inc, L, pos, dinc, dlen, n - 1);
      b[DstAt(pos, dinc, dlen, n - 1) := b[OffsetAt(off, inc, L, n - 1)]]
  }

  /** Reading the buffer into itself copies what it held before, if no slot is overwritten before
      it is read. */
  lemma {:induction false} SelfReadIsRead<T>(buf: seq<T>, off: int, inc: int, L: int,
                     pos: int, dinc: int, dlen: int, n: nat)
    requires InBounds(off, inc, L, n, |buf|) && DstInBounds(pos, dinc, dlen, n, |buf|)
    requires forall j, k :: 0 <= j < k < n ==> DstAt(pos, dinc, dlen, j) != OffsetAt(off, inc, L, k)
    ensures SelfRead(buf, off, inc, L, pos, dinc, dlen, n) == ReadOut(buf, off, inc, L, buf, pos, dinc, dlen, n)
  {
    if n > 0 {
      SelfReadIsRead(buf, off, inc, L, pos, dinc, dlen, n - 1);
      UnreadKept(buf, off, inc, L, buf, pos, dinc, dlen, n - 1, OffsetAt(off, inc, L, n - 1));
    }
  }

  lemma {:induction false} UnreadKept<T>(buf: seq<T>, off: int, inc: int, L: int,
                     dst: seq<T>, pos: int, dinc: int, dlen: int, n: nat, j: int)
    requires InBounds(off, inc, L, n, |buf|) && DstInBounds(pos, dinc, dlen, n, |dst|) && 0 <= j < |dst|
    requires forall k :: 0 <= k < n ==> DstAt(pos, dinc, dlen, k) != j
    ensures ReadOut(buf, off, inc, L, dst, pos, dinc, dlen, n)[j] == dst[j]
  {
    if n > 0 {
      UnreadKept(buf, off, inc, L, dst, pos, dinc, dlen, n - 1, j);
    }
  }

  /** `arm_circularRead_*`, with dst_base at index 0 of the destination, which may be the buffer
      itself. */
  method CircularRead<T>(circBuffer: array<T>, L: int, readOffset: Q31, bufferInc: int,
                         dst: array<T>, dstPos: int, dst_length: int, dstInc: int, blockSize: U32)
    returns (newOffset: int)
    requires InBounds(readOffset, bufferInc, L, blockSize, circBuffer.Length)
    requires DstInBounds(dstPos, dstInc, dst_length, blockSize, dst.Length)
    modifies dst
    ensures dst != circBuffer ==>
              dst[..] ==
                ReadOut(circBuffer[..], readOffset, bufferInc, L, old(dst[..]), dstPos, dstInc, dst_length, blockSize)
    ensures dst == circBuffer ==>
              dst[..] == SelfRead(old(dst[..]), readOffset, bufferInc, L, dstPos, dstInc, dst_length, blockSize)
    ensures newOffset == OffsetAt(readOffset, bufferInc, L, blockSize)
  {
    ghost var before, ring := dst[..], circBuffer[..];
    newOffset := readOffset;
    var p := dstPos;
    var i := blockSize;
    while i > 0
      invariant 0 <= i <= blockSize
      invariant newOffset == OffsetAt(readOffset, bufferInc, L, blockSize - i)
      invariant p == DstAt(dstPos, dstInc, dst_length, blockSize - i)
      invariant dst != circBuffer ==> circBuffer[..] == ring
      invariant dst != circBuffer ==>
                  dst[..] == ReadOut(ring, readOffset, bufferInc, L, before, dstPos, dstInc, dst_length, blockSize - i)
      invariant dst == circBuffer ==>
                  dst[..] == SelfRead(before, readOffset, bufferInc, L, dstPos, dstInc, dst_length, blockSize - i)
    {
      ghost var k: nat := blockSize - i;
      assert p == DstAt(dstPos, dstInc, dst_length, k);
      dst[p] := circBuffer[newOffset];
      p := p + dstInc;
      if p == dst_length {
        p := 0;
      }
      newOffset := newOffset + bufferInc;
      if newOffset >= L {
        newOffset := newOffset - L;
      }
      i := i - 1;
    }
  }

  // ----- offsets

  /** For increments from 0 to L the offset is the running sum modulo L, inside the ring. */
  lemma {:induction false} OffsetIsModular(off: int, inc: int, L: int, k: nat)
    requires 0 <= off < L && 0 <= inc <= L
    ensures OffsetAt(off, inc, L, k) == (off + k * inc) % L
    ensures 0 <= OffsetAt(off, inc, L, k) < L
  {
    if k == 0 {
      DivModUnique(off, L, 0, off);
    } else {
      OffsetIsModular(off, inc, L, k - 1);
      var a := off + (k - 1) * inc;
      assert off + k * inc == a + inc;
      ModStep(a, inc, L);
    }
  }

  lemma ModStep(a: int, inc: int, L: int)
    requires L > 0 && 0 <= inc <= L
    ensures (a + inc) % L == Advance(a % L, inc, L)
  {
    Recompose(a, L);
    var q := a / L;
    if a % L + inc >= L {
      assert (q + 1) * L == q * L + L;
      DivModUnique(a + inc, L, q + 1, a % L + inc - L);
    } else {
      DivModUnique(a + inc, L, q, a % L + inc);
    }
  }

  lemma RingInBounds(off: int, inc: int, L: int, n: nat, length: nat)
    requires 0 <= off < L <= length && 0 <= inc <= L
    ensures InBounds(off, inc, L, n, length)
  {
    forall k | 0 <= k < n
      ensures 0 <= OffsetAt(off, inc, L, k) < length
    {
      OffsetIsModular(off, inc, L, k);
    }
  }

  /** A comment in the loop promises care for positive and negative values, but only the top
      wraps, and by one turn. For every increment the offset after n samples is the ring position
      it stands for exactly when a negative one never has to wrap and one above L does not climb
      out by its surplus. */
  lemma OffsetIsRingIff(off: int, inc: int, L: int, n: nat)
    requires 0 <= off < L
    ensures OffsetAt(off, inc, L, n) == (off + n * inc) % L
            <==> (inc < 0 ==> off + n * inc >= 0) && (inc > L ==> off + n * (inc - L) < L)
  {
    if inc < 0 {
      NegativeOffset(off, inc, L, n);
      InsideIffRemainder(off + n * inc, L);
    } else if inc > L {
      SteepOffset(off, inc, L, n);
      assert n * inc == n * (inc - L) + n * L;
      DivAddMultiple(off + n * (inc - L), n, L);
      InsideIffRemainder(off + n * (inc - L), L);
    } else {
      OffsetIsModular(off, inc, L, n);
    }
  }

  lemma InsideIffRemainder(v: int, L: int)
    requires L > 0
    ensures v == v % L <==> 0 <= v < L
  {
    if 0 <= v < L {
      DivModUnique(v, L, 0, v);
    }
  }

  /** The offset a write stores, for every increment: it is the ring position exactly when it is a
      slot and the turns of 2^16 the store takes off are whole turns of the ring. */
  lemma StoredOffsetIsRingIff(off: int, inc: int, L: int, n: nat)
    requires L > 0
    ensures var v := OffsetAt(off, inc, L, n);
            ToU16(v) == (off + n * inc) % L <==> ToU16(v) < L && v / 0x1_0000 * 0x1_0000 % L == 0
  {
    var v := OffsetAt(off, inc, L, n);
    var turns := OffsetTurns(off, inc, L, n);
    DivAddMultiple(v, turns, L);
    var u, w := ToU16(v), v / 0x1_0000 * 0x1_0000;
    assert v == u + w;
    Recompose(v, L);
    if u == v % L {
      DivModUnique(w, L, v / L, 0);
    } else if u < L && w % L == 0 {
      Recompose(w, L);
      DivModUnique(v, L, w / L, u);
    }
  }

  /** The offset is the running sum less some turns. */
  lemma {:induction false} OffsetTurns(off: int, inc: int, L: int, n: nat) returns (turns: int)
    ensures off + n * inc == OffsetAt(off, inc, L, n) + turns * L
  {
    if n == 0 {
      turns := 0;
    } else {
      turns := OffsetTurns(off, inc, L, n - 1);
      assert n * inc == (n - 1) * inc + inc;
      if OffsetAt(off, inc, L, n - 1) + inc >= L {
        assert (turns + 1) * L == turns * L + L;
        turns := turns + 1;
      }
    }
  }

  /** For a negative increment above -L, once every sample of the call landed in the buffer: the
      last update did not have to wrap either, or the 16-bit store is the ring's own wrap. */
  lemma NegativeStoredIsRingIff(off: int, inc: int, L: int, n: nat)
    requires 0 <= off < L <= 0x1_0000 && -L < inc < 0 && n > 0 && off + (n - 1) * inc >= 0
    ensures ToU16(OffsetAt(off, inc, L, n)) == (off + n * inc) % L <==> off + n * inc >= 0 || L == 0x1_0000
  {
    NegativeOffset(off, inc, L, n);
    assert n * inc == (n - 1) * inc + inc;
    var v := off + n * inc;
    DivModUnique(v, L, if v < 0 then -1 else 0, if v < 0 then v + L else v);
    DivModUnique(v, 0x1_0000, if v < 0 then -1 else 0, if v < 0 then v + 0x1_0000 else v);
  }

  /** One step back from slot 0 of a ring of four: the sample lands in the buffer, the offset
      stored is 65535 instead of 3, and the next call writes outside. */
  lemma NegativeIncrementFails()
    ensures InBounds(0, -1, 4, 1, 4) && (0 + 1 * -1) % 4 == 3
    ensures ToU16(OffsetAt(0, -1, 4, 1)) == 65535 && !InBounds(65535, -1, 4, 1, 4)
  {
    NegativeOffset(0, -1, 4, 1);
    OutsideAtOnce(65535, -1, 4, 1, 4);
  }

  lemma OutsideAtOnce(off: int, inc: int, L: int, n: nat, length: nat)
    requires n > 0 && off >= length
    ensures !InBounds(off, inc, L, n, length)
  {
    assert OffsetAt(off, inc, L, 0) == off;
  }

  /** The accesses of one call with a negative increment: they stay in the buffer exactly when no
      update before the last has to wrap. */
  lemma NegativeIncrementInBoundsIff(off: int, inc: int, L: int, n: nat, length: nat)
    requires 0 <= off < L <= length && inc < 0 && n > 0
    ensures InBounds(off, inc, L, n, length) <==> off + (n - 1) * inc >= 0
  {
    forall k: nat
      ensures OffsetAt(off, inc, L, k) == off + k * inc <= off
    {
      NegativeOffset(off, inc, L, k);
    }
    if off + (n - 1) * inc >= 0 {
      forall k | 0 <= k < n
        ensures 0 <= OffsetAt(off, inc, L, k) < length
      {
        NegativeOffset(off, inc, L, k);
        MulOrder(k, n - 1, -inc);
        assert k * -inc == -(k * inc) && (n - 1) * -inc == -((n - 1) * inc);
      }
    }
  }

  /** The accesses of one call with an increment above L, in a buffer that may be longer. */
  lemma SteepIncrementInBoundsIff(off: int, inc: int, L: int, n: nat, length: nat)
    requires 0 <= off < L <= length && inc > L && n > 0
    ensures InBounds(off, inc, L, n, length) <==> off + (n - 1) * (inc - L) < length
  {
    forall k: nat
      ensures OffsetAt(off, inc, L, k) == off + k * (inc - L) >= off
    {
      SteepOffset(off, inc, L, k);
    }
    if off + (n - 1) * (inc - L) < length {
      forall k | 0 <= k < n
        ensures 0 <= OffsetAt(off, inc, L, k) < length
      {
        MulOrder(k, n - 1, inc - L);
      }
    } else {
      assert OffsetAt(off, inc, L, n - 1) >= length;
    }
  }

  lemma {:induction false} SteepOffset(off: int, inc: int, L: int, k: nat)
    requires 0 <= off < L && inc > L
    ensures OffsetAt(off, inc, L, k) == off + k * (inc - L) >= off
  {
    if k > 0 {
      SteepOffset(off, inc, L, k - 1);
      assert k * (inc - L) == (k - 1) * (inc - L) + (inc - L);
    }
  }

  /** From any offset, inside the ring or not, an update adds the increment and takes off one L
      exactly when the sum reaches L. */
  lemma OffsetStep(off: int, inc: int, L: int, k: nat)
    ensures OffsetAt(off, inc, L, k + 1) - OffsetAt(off, inc, L, k)
         == inc - if OffsetAt(off, inc, L, k) + inc >= L then L else 0
  {
  }

  lemma {:induction false} NegativeOffset(off: int, inc: int, L: int, k: nat)
    requires 0 <= off < L && inc < 0
    ensures OffsetAt(off, inc, L, k) == off + k * inc <= off
  {
    if k > 0 {
      NegativeOffset(off, inc, L, k - 1);
      assert k * inc == (k - 1) * inc + inc;
    }
  }

  /** Sixteen bits hold every offset of a ring exactly when it has at most 2^16 slots. */
  lemma OffsetStorableIff(L: int)
    requires L > 0
    ensures (forall off :: 0 <= off < L ==> ToU16(off) == off) <==> L <= 0x1_0000
  {
    if L > 0x1_0000 {
      assert ToU16(0x1_0000) == 0;
    }
  }

  // ----- calls in sequence

  lemma {:induction false} OffsetsAdd(off: int, inc: int, L: int, j: nat, k: nat)
    ensures OffsetAt(OffsetAt(off, inc, L, j), inc, L, k) == OffsetAt(off, inc, L, j + k)
  {
    if k > 0 {
      OffsetsAdd(off, inc, L, j, k - 1);
    }
  }

  /** One call with two blocks is two calls, the second from where the first stopped. The store
      between them loses nothing: if the second call has a sample, its offset is a slot. */
  lemma {:induction false} WriteSplits<T>(buf: seq<T>, off: int, inc: int, L: int, xs: seq<T>, ys: seq<T>)
    requires InBounds(off, inc, L, |xs + ys|, |buf|)
    ensures InBounds(off, inc, L, |xs|, |buf|) && InBounds(OffsetAt(off, inc, L, |xs|), inc, L, |ys|, |buf|)
    ensures Written(buf, off, inc, L, xs + ys)
     == Written(Written(buf, off, inc, L, xs), OffsetAt(off, inc, L, |xs|), inc, L, ys)
    ensures ys != [] && |buf| <= 0x1_0000 ==> ToU16(OffsetAt(off, inc, L, |xs|)) == OffsetAt(off, inc, L, |xs|)
  {
    if ys != [] {
      assert 0 <= OffsetAt(off, inc, L, |xs|) < |buf|;
    }
    forall k | 0 <= k < |ys|
      ensures 0 <= OffsetAt(OffsetAt(off, inc, L, |xs|), inc, L, k) < |buf|
    {
      OffsetsAdd(off, inc, L, |xs|, k);
    }
    var m := |ys|;
    if m == 0 {
      assert xs + ys == xs;
    } else {
      var all := xs + ys;
      assert all[..|all| - 1] == xs + ys[..m - 1];
      WriteSplits(buf, off, inc, L, xs, ys[..m - 1]);
      OffsetsAdd(off, inc, L, |xs|, m - 1);
    }
  }

  /** The ring after a sequence of calls with unit increment: buffer and stored offset. */
  function RunCalls<T>(buf: seq<T>, off: int, L: int, blocks: seq<seq<T>>): (r: (seq<T>, int))
    requires 0 <= off < L <= |buf| && L <= 0x1_0000
    ensures |r.0| == |buf| && 0 <= r.1 < L
  {
    if blocks == [] then (buf, off)
    else
      var (b, o) := RunCalls(buf, off, L, blocks[..|blocks| - 1]);
      var xs := blocks[|blocks| - 1];
      RingInBounds(o, 1, L, |xs|, |buf|);
      OffsetIsModular(o, 1, L, |xs|);
      (Written(b, o, 1, L, xs), ToU16(OffsetAt(o, 1, L, |xs|)))
  }

  /** How a history is cut into calls does not matter. */
  lemma {:induction false} CallsAreOneWrite<T>(buf: seq<T>, off: int, L: int, blocks: seq<seq<T>>)
    requires 0 <= off < L <= |buf| && L <= 0x1_0000
    ensures InBounds(off, 1, L, |Flatten(blocks)|, |buf|)
    ensures RunCalls(buf, off, L, blocks)
     == (Written(buf, off, 1, L, Flatten(blocks)), OffsetAt(off, 1, L, |Flatten(blocks)|))
  {
    RingInBounds(off, 1, L, |Flatten(blocks)|, |buf|);
    if blocks == [] {
    } else {
      var n := |blocks|;
      CallsAreOneWrite(buf, off, L, blocks[..n - 1]);
      var h, xs := Flatten(blocks[..n - 1]), blocks[n - 1];
      var (b, o) := RunCalls(buf, off, L, blocks[..n - 1]);
      assert b == Written(buf, off, 1, L, h) && o == OffsetAt(off, 1, L, |h|);
      WriteSplits(buf, off, 1, L, h, xs);
      OffsetsAdd(off, 1, L, |h|, |xs|);
      OffsetIsModular(off, 1, L, |h| + |xs|);
      StoredOffset(OffsetAt(o, 1, L, |xs|));
    }
  }

  lemma StoredOffset(off: int)
    requires 0 <= off < 0x1_0000
    ensures ToU16(off) == off
  {
  }

  // ----- the ring as a history

  /** The last of n running numbers that is congruent to r modulo L. */
  function LastCongruent(n: nat, r: nat, L: int): int
    requires L > 0
  {
    n - 1 - (n - 1 - r) % L
  }

  /** Slot j holds the most recent sample whose running number is congruent to its distance from
      the start, and its old content if there is none; slots beyond the ring are untouched. */
  function Expected<T>(buf: seq<T>, off: int, L: int, xs: seq<T>, j: nat): T
    requires L > 0 && j < |buf|
  {
    if j < L && (j - off) % L < |xs| then SampleFor(xs, (j - off) % L, L) else buf[j]
  }

  ghost predicate HoldsHistory<T>(r: seq<T>, buf: seq<T>, off: int, L: int, xs: seq<T>)
    requires 0 <= off < L <= |buf| && |r| == |buf|
  {
    forall j :: 0 <= j < |buf| ==> r[j] == Expected(buf, off, L, xs, j)
  }

  function SampleFor<T>(xs: seq<T>, r: nat, L: int): T
    requires 0 <= r < |xs| && r < L
  {
    LastCongruentRange(|xs|, r, L);
    xs[LastCongruent(|xs|, r, L)]
  }

  lemma LastCongruentRange(n: nat, r: nat, L: int)
    requires r < n && r < L
    ensures r <= LastCongruent(n, r, L) < n && (LastCongruent(n, r, L) - r) % L == 0
    ensures n <= L ==> LastCongruent(n, r, L) == r
  {
    var d := n - 1 - r;
    Recompose(d, L);
    DivModUnique(d - d % L, L, d / L, 0);
    QuotientNonNegative(d, L);
    if n <= L {
      DivModUnique(d, L, 0, d);
    }
  }

  lemma QuotientNonNegative(d: nat, L: int)
    requires L > 0
    ensures d / L * L >= 0
  {
  }

  lemma {:induction false} RingHoldsHistory<T>(buf: seq<T>, off: int, L: int, xs: seq<T>)
    requires 0 <= off < L <= |buf|
    ensures InBounds(off, 1, L, |xs|, |buf|)
    ensures HoldsHistory(Written(buf, off, 1, L, xs), buf, off, L, xs)
  {
    RingInBounds(off, 1, L, |xs|, |buf|);
    var n := |xs|;
    if n == 0 {
    } else {
      var prev := xs[..n - 1];
      RingHoldsHistory(buf, off, L, prev);
      OffsetIsModular(off, 1, L, n - 1);
      var r := Written(buf, off, 1, L, xs);
      forall j | 0 <= j < |buf|
        ensures r[j] == Expected(buf, off, L, xs, j)
      {
        ExpectedStep(buf, off, L, xs, j);
      }
    }
  }

  lemma ExpectedStep<T>(buf: seq<T>, off: int, L: int, xs: seq<T>, j: nat)
    requires 0 <= off < L <= |buf| && |xs| > 0 && j < |buf|
    ensures Expected(buf, off, L, xs, j)
         == if j == (off + (|xs| - 1) * 1) % L then xs[|xs| - 1] else Expected(buf, off, L, xs[..|xs| - 1], j)
  {
    var n := |xs|;
    if j < L {
      var d := (j - off) % L;
      Recompose(j - off, L);
      NewestSample(off, L, n, j, d);
      if d < n - 1 {
        SampleStep(xs, d, L);
      }
    } else {
      Recompose(off + (n - 1) * 1, L);
    }
  }

  lemma SampleStep<T>(xs: seq<T>, d: nat, L: int)
    requires d < |xs| - 1 && d < L
    ensures LastCongruent(|xs|, d, L) == LastCongruent(|xs| - 1, d, L) ==>
              SampleFor(xs, d, L) == SampleFor(xs[..|xs| - 1], d, L)
  {
    LastCongruentRange(|xs| - 1, d, L);
  }

  /** Sample n-1 goes to the slot at its distance, where it becomes the newest; for every other
      slot the newest stays what it was. */
  lemma NewestSample(off: int, L: int, n: nat, j: int, d: int)
    requires 0 <= off < L && n > 0 && 0 <= j < L && d == (j - off) % L && 0 <= d < L
    ensures if j == (off + (n - 1) * 1) % L then d < n && LastCongruent(n, d, L) == n - 1
            else (d < n <==> d < n - 1) && (d < n - 1 ==> LastCongruent(n, d, L) == LastCongruent(n - 1, d, L))
  {
    var m := n - 1;
    Recompose(j - off, L);
    Recompose(m - d, L);
    SlotOrNot(off, L, m, j, d, (j - off) / L, (m - d) % L, (m - d) / L);
  }

  lemma SlotOrNot(off: int, L: int, m: nat, j: int, d: int, q: int, e: int, t: int)
    requires 0 <= off < L && 0 <= j < L && 0 <= d < L && 0 <= e < L
    requires j - off == q * L + d && m - d == t * L + e && e == (m - d) % L
    ensures if j == (off + m * 1) % L then d <= m && e == 0
            else (d <= m <==> d < m) && e > 0 && (m - 1 - d) % L == e - 1
  {
    assert off + m == j + e + (t - q) * L by {
      assert (t - q) * L == t * L - q * L;
    }
    if e == 0 {
      DivModUnique(off + m, L, t - q, j);
      DistanceReached(m, d, t, L);
    } else {
      OffHit(off + m, j, e, t - q, L);
      DivModUnique(m - 1 - d, L, t, e - 1);
      if d == m {
        DivModUnique(0, L, 0, 0);
      }
    }
  }

  lemma DistanceReached(m: int, d: int, t: int, L: int)
    requires m >= 0 && 0 <= d < L && m - d == t * L
    ensures d <= m
  {
    if t < 0 {
      MulOrder(t, -1, L);
    }
  }

  lemma OffHit(a: int, j: int, e: int, k: int, L: int)
    requires 0 <= j < L && 0 < e < L && a == j + e + k * L
    ensures a % L != j
  {
    if j + e < L {
      DivModUnique(a, L, k, j + e);
    } else {
      assert (k + 1) * L == k * L + L;
      DivModUnique(a, L, k + 1, j + e - L);
    }
  }

  /** The law of the ring over any sequence of calls on a cleared offset: the offset counts the
      samples modulo L, and the slots hold the history. */
  lemma RunHoldsHistory<T>(buf: seq<T>, L: int, blocks: seq<seq<T>>)
    requires 0 < L <= |buf| && L <= 0x1_0000
    ensures var (b, o) := RunCalls(buf, 0, L, blocks);
            o == |Flatten(blocks)| % L && HoldsHistory(b, buf, 0, L, Flatten(blocks))
  {
    CallsAreOneWrite(buf, 0, L, blocks);
    RingHoldsHistory(buf, 0, L, Flatten(blocks));
    OffsetIsModular(0, 1, L, |Flatten(blocks)|);
  }

  // ----- round trip

  lemma {:induction false} DstIsRing(pos: int, length: int, k: nat)
    requires 0 <= pos < length
    ensures DstAt(pos, 1, length, k) == OffsetAt(pos, 1, length, k) && 0 <= DstAt(pos, 1, length, k) < length
  {
    OffsetIsModular(pos, 1, length, k);
    if k > 0 {
      DstIsRing(pos, length, k - 1);
    }
  }

  /** With unit increments a read is a ring write of what the reader sees. */
  lemma {:induction false} ReadIsWrite<T>(buf: seq<T>, off: int, L: int, dst: seq<T>, pos: int, dlen: int, seen: seq<T>)
    requires 0 <= off < L <= |buf| && 0 <= pos < dlen <= |dst|
    requires forall k :: 0 <= k < |seen| ==>
               0 <= OffsetAt(off, 1, L, k) < |buf| && seen[k] == buf[OffsetAt(off, 1, L, k)]
    ensures InBounds(off, 1, L, |seen|, |buf|) && DstInBounds(pos, 1, dlen, |seen|, |dst|)
    ensures InBounds(pos, 1, dlen, |seen|, |dst|)
    ensures ReadOut(buf, off, 1, L, dst, pos, 1, dlen, |seen|) == Written(dst, pos, 1, dlen, seen)
  {
    RingInBounds(pos, 1, dlen, |seen|, |dst|);
    forall k | 0 <= k < |seen|
      ensures 0 <= DstAt(pos, 1, dlen, k) < |dst|
    {
      DstIsRing(pos, dlen, k);
    }
    var n := |seen|;
    if n > 0 {
      ReadIsWrite(buf, off, L, dst, pos, dlen, seen[..n - 1]);
      DstIsRing(pos, dlen, n - 1);
    }
  }

  /** Slot number k of a fresh block reads back as sample k. */
  lemma FreshSlot<T>(buf: seq<T>, off: int, L: int, xs: seq<T>, k: nat)
    requires 0 <= off < L <= |buf| && k < |xs| <= L
    ensures InBounds(off, 1, L, |xs|, |buf|) && 0 <= OffsetAt(off, 1, L, k) < L
    ensures Written(buf, off, 1, L, xs)[OffsetAt(off, 1, L, k)] == xs[k]
  {
    RingHoldsHistory(buf, off, L, xs);
    OffsetIsModular(off, 1, L, k);
    var j := (off + k * 1) % L;
    DistanceOfSlot(off, k, L);
    LastCongruentRange(|xs|, k, L);
    assert Written(buf, off, 1, L, xs)[j] == Expected(buf, off, L, xs, j);
  }

  lemma DistanceOfSlot(off: int, k: int, L: int)
    requires 0 <= k < L
    ensures ((off + k * 1) % L - off) % L == k
  {
    Recompose(off + k, L);
    var q := (off + k) / L;
    assert (off + k) % L - off == -q * L + k;
    DivModUnique((off + k) % L - off, L, -q, k);
  }

  lemma EndOffset(off: int, L: int, n: nat)
    requires 0 <= off < L
    ensures OffsetAt(off, 1, L, n) == (off + n) % L
    ensures ToU16(OffsetAt(off, 1, L, n)) == OffsetAt(off, 1, L, n) <==> (off + n) % L < 0x1_0000
  {
    OffsetIsModular(off, 1, L, n);
    InsideIffRemainder((off + n) % L, 0x1_0000);
  }

  /** The block stands in order in the destination ring from `pos` on, and every cell outside it
      is what it was. */
  ghost predicate Arrived<T>(got: seq<T>, xs: seq<T>, dst: seq<T>, pos: int, dlen: int)
    requires dlen > 0
  {
    && |got| == |dst|
    && (forall k :: 0 <= k < |xs| ==> 0 <= DstAt(pos, 1, dlen, k) < |dst| && got[DstAt(pos, 1, dlen, k)] == xs[k])
    && (forall j :: 0 <= j < |dst| && (j >= dlen || (j - pos) % dlen >= |xs|) ==> got[j] == dst[j])
  }

  /** Writing a block of at most L samples anywhere and reading as many from the same place into
      a destination ring at least as long reproduces the block in order across both wrap points
      and touches no other destination cell. Both calls end at the same ring position; the 16-bit
      store of the write keeps it exactly when it is below 2^16. */
  lemma RingRoundTrip<T>(buf: seq<T>, off: int, L: int, xs: seq<T>, dst: seq<T>, pos: int, dlen: int)
    requires 0 <= off < L <= |buf| && |xs| <= L
    requires 0 <= pos < dlen <= |dst| && |xs| <= dlen
    ensures InBounds(off, 1, L, |xs|, |buf|) && DstInBounds(pos, 1, dlen, |xs|, |dst|)
    ensures Arrived(ReadOut(Written(buf, off, 1, L, xs), off, 1, L, dst, pos, 1, dlen, |xs|), xs, dst, pos, dlen)
    ensures var last := OffsetAt(off, 1, L, |xs|);
            last == (off + |xs|) % L && (ToU16(last) == last <==> (off + |xs|) % L < 0x1_0000)
  {
    BlockArrives(buf, off, L, xs, dst, pos, dlen);
    EndOffset(off, L, |xs|);
  }

  lemma BlockArrives<T>(buf: seq<T>, off: int, L: int, xs: seq<T>, dst: seq<T>, pos: int, dlen: int)
    requires 0 <= off < L <= |buf| && |xs| <= L
    requires 0 <= pos < dlen <= |dst| && |xs| <= dlen
    ensures InBounds(off, 1, L, |xs|, |buf|) && DstInBounds(pos, 1, dlen, |xs|, |dst|)
    ensures Arrived(ReadOut(Written(buf, off, 1, L, xs), off, 1, L, dst, pos, 1, dlen, |xs|), xs, dst, pos, dlen)
  {
    RingInBounds(off, 1, L, |xs|, |buf|);
    var ring := Written(buf, off, 1, L, xs);
    forall k | 0 <= k < |xs|
      ensures 0 <= OffsetAt(off, 1, L, k) < |ring| && xs[k] == ring[OffsetAt(off, 1, L, k)]
    {
      FreshSlot(buf, off, L, xs, k);
    }
    ReadIsWrite(ring, off, L, dst, pos, dlen, xs);
    RingHoldsHistory(dst, pos, dlen, xs);
    forall k | 0 <= k < |xs|
      ensures 0 <= DstAt(pos, 1, dlen, k) < |dst| && Written(dst, pos, 1, dlen, xs)[DstAt(pos, 1, dlen, k)] == xs[k]
    {
      DstIsRing(pos, dlen, k);
      FreshSlot(dst, pos, dlen, xs, k);
    }
  }

  /** The two calls of a round trip on the heap: the block arrives in order and the stored offsets
      are equal. */
  method WriteThenRead<T>(circBuffer: array<T>, L: int, offset: U16, src: array<T>, srcPos: int, srcInc: int,
                          dst: array<T>, dstPos: int, dst_length: int, blockSize: U32)
    returns (writeOffset: U16, readOffset: int)
    requires src != circBuffer && dst != circBuffer && src != dst
    requires offset < L <= circBuffer.Length && L <= 0x1_0000 && blockSize <= L
    requires 0 <= dstPos < dst_length <= dst.Length && blockSize <= dst_length
    requires Readable(src.Length, srcPos, srcInc, blockSize)
    modifies circBuffer, dst
    ensures writeOffset == readOffset == (offset + blockSize) % L
    ensures Arrived(dst[..], Visited(src[..], srcPos, srcInc, blockSize), old(dst[..]), dstPos, dst_length)
  {
    ghost var xs := Visited(src[..], srcPos, srcInc, blockSize);
    EndOffset(offset, L, blockSize);
    RoundTripInBounds(offset, L, blockSize, circBuffer.Length, dstPos, dst_length, dst.Length);
    writeOffset := CircularWrite(circBuffer, L, offset, 1, src, srcPos, srcInc, blockSize);
    readOffset := CircularRead(circBuffer, L, offset, 1, dst, dstPos, dst_length, 1, blockSize);
    BlockArrives(old(circBuffer[..]), offset, L, xs, old(dst[..]), dstPos, dst_length);
  }

  lemma RoundTripInBounds(off: int, L: int, n: nat, length: nat, pos: int, dlen: int, size: nat)
    requires 0 <= off < L <= length && 0 <= pos < dlen <= size
    ensures InBounds(off, 1, L, n, length) && DstInBounds(pos, 1, dlen, n, size)
  {
    RingInBounds(off, 1, L, n, length);
    forall k | 0 <= k < n
      ensures 0 <= DstAt(pos, 1, dlen, k) < size
    {
      DstIsRing(pos, dlen, k);
    }
  }
}
