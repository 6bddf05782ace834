/** The circular buffer reads and writes of CMSIS/arm_math.h (Q15 form).
    A pointer that walks through an array is an index into it. */
module CircularBuffer {
  import opened Words

  // ---- Specification ----

  /** Offset after `i` steps. */
  function Offset(start: nat, inc: nat, L: nat, i: nat): (k: nat)
    requires L > 0
    ensures k < L
  {
    (start + i * inc) % L
  }

  /** Buffer contents after writing the samples in order. */
  function Written(buf: seq<Q15>, start: nat, inc: nat, samples: seq<Q15>): (r: seq<Q15>)
    requires buf != []
    ensures |r| == |buf|
  {
    if samples == [] then buf
    else
      var n := |samples| - 1;
      Written(buf, start, inc, samples[..n])[Offset(start, inc, |buf|, n) := samples[n]]
  }

  /** The samples read from `n` successive offsets. */
  function ReadOut(buf: seq<Q15>, start: nat, inc: nat, n: nat): (r: seq<Q15>)
    requires buf != []
    ensures |r| == n
  {
    seq(n, i requires 0 <= i < n => buf[Offset(start, inc, |buf|, i)])
  }

  /** The loops' update of an offset: one conditional subtraction. */
  function Advance(offset: int, inc: int, L: int): int {
    if offset + inc >= L then offset + inc - L else offset + inc
  }

  /** The update keeps every offset inside the buffer exactly for increments from zero to the
      buffer length; negative increments, which the source's comment mentions, leave it. */
  lemma AdvanceStaysInsideIff(inc: int, L: int)
    requires 0 < L
    ensures (forall offset | 0 <= offset < L :: 0 <= Advance(offset, inc, L) < L) <==> 0 <= inc <= L
  {
    assert inc < 0 ==> Advance(0, inc, L) < 0;
    assert inc > L ==> Advance(L - 1, inc, L) >= L;
  }

  /** For those increments the update computes the offset modulo the buffer length. */
  lemma AdvanceMod(start: nat, inc: nat, L: nat, i: nat)
    requires 0 < L && inc <= L
    ensures Offset(start, inc, L, i + 1) == Advance(Offset(start, inc, L, i), inc, L)
  {
    MulDistributes(i, 1, inc);
    ModStep(start + i * inc, inc, L);
  }

  lemma ModStep(x: nat, inc: nat, L: nat)
    requires 0 < L && inc <= L
    ensures (x + inc) % L == Advance(x % L, inc, L)
  {
    DivModIdentity(x, L);
    var next := x % L + inc;
    if next >= L {
      MulDistributes(x / L, 1, L);
      DivModUnique(x + inc, L, x / L + 1, next - L);
    } else {
      DivModUnique(x + inc, L, x / L, next);
    }
  }

  // ---- The two loops ----

  /** Positions of the source pointer stay inside the source block. */
  ghost predicate SourceInRange(src: seq<Q15>, start: int, inc: int, n: nat) {
    forall i: nat | i < n :: 0 <= start + i * inc < |src|
  }

  function Gather(src: seq<Q15>, start: int, inc: int, n: nat): (r: seq<Q15>)
    requires SourceInRange(src, start, inc, n)
    ensures |r| == n
  {
    seq(n, i requires 0 <= i < n => src[start + i * inc])
  }

  /** One more sample goes to the next offset. */
  lemma WrittenNext(buf: seq<Q15>, start: nat, inc: nat, samples: seq<Q15>, x: Q15)
    requires buf != []
    ensures Written(buf, start, inc, samples + [x])
         == Written(buf, start, inc, samples)[Offset(start, inc, |buf|, |samples|) := x]
  {
    assert (samples + [x])[..|samples|] == samples;
  }

  /** Buffer `now`, which was `was`: step `i` of `n` stored its source sample unless a later step
      reached the same cell, and cells that no step reached are unchanged. */
  ghost predicate HoldsSource(now: seq<Q15>, was: seq<Q15>, from: nat, inc: nat, src: seq<Q15>, start: int,
                              srcInc: int, n: nat)
    requires |now| == |was| > 0 && SourceInRange(src, start, srcInc, n)
  {
    var L := |was|;
    && (forall i: nat | i < n && (forall j: nat | i < j < n :: (from + j * inc) % L != (from + i * inc) % L) ::
          now[(from + i * inc) % L] == src[start + i * srcInc])
    && (forall k: nat | k < L && (forall j: nat | j < n :: (from + j * inc) % L != k) :: now[k] == was[k])
  }

  lemma WrittenHolds(was: seq<Q15>, from: nat, inc: nat, src: seq<Q15>, start: int, srcInc: int, n: nat)
    requires was != [] && SourceInRange(src, start, srcInc, n)
    ensures HoldsSource(Written(was, from, inc, Gather(src, start, srcInc, n)), was, from, inc, src, start, srcInc, n)
  {
    hide Written;
    var L, samples := |was|, Gather(src, start, srcInc, n);
    forall i: nat | i < n && (forall j: nat | i < j < n :: (from + j * inc) % L != (from + i * inc) % L)
      ensures Written(was, from, inc, samples)[(from + i * inc) % L] == src[start + i * srcInc]
    {
      LastWritten(was, from, inc, samples, i);
    }
    forall k: nat | k < L && (forall j: nat | j < n :: (from + j * inc) % L != k)
      ensures Written(was, from, inc, samples)[k] == was[k]
    {
      Unwritten(was, from, inc, samples, k);
    }
  }

  method Write(circBuffer: array<Q15>, L: Q31, writeOffset: U16, bufferInc: Q31,
               src: seq<Q15>, srcStart: int, srcInc: int, blockSize: U32) returns (newOffset: U16)
    requires 0 < L <= 0x1_0000 && circBuffer.Length == L
    requires writeOffset < L && 0 <= bufferInc <= L
    requires SourceInRange(src, srcStart, srcInc, blockSize)
    modifies circBuffer
    ensures circBuffer[..] == Written(old(circBuffer[..]), writeOffset, bufferInc,
                                      Gather(src, srcStart, srcInc, blockSize))
    ensures newOffset == Offset(writeOffset, bufferInc, L, blockSize)
  {
    var wOffset: int := writeOffset;
    var position := srcStart;
    var i: int := blockSize;
    ghost var was := circBuffer[..];
    DivZero(writeOffset, L);
    assert Written(was, writeOffset, bufferInc, Gather(src, srcStart, srcInc, 0)) == was;
    assert Offset(writeOffset, bufferInc, L, 0) == writeOffset;
    hide Written, Gather, Offset;
    while i > 0
      invariant 0 <= i <= blockSize
      invariant wOffset == Offset(writeOffset, bufferInc, L, blockSize - i)
      invariant position == srcStart + (blockSize - i) * srcInc
      invariant circBuffer[..] == Written(was, writeOffset, bufferInc, Gather(src, srcStart, srcInc, blockSize - i))
      decreases i
    {
      ghost var done: nat := blockSize - i;
      GatherNext(src, srcStart, srcInc, done);
      WrittenNext(was, writeOffset, bufferInc, Gather(src, srcStart, srcInc, done), src[position]);
      AdvanceMod(writeOffset, bufferInc, L, done);
      ghost var before := circBuffer[..];
      circBuffer[wOffset] := src[position];
      assert circBuffer[..] == before[wOffset := src[position]];
      position := position + srcInc;
      wOffset := wOffset + bufferInc;
      if wOffset >= L {
        wOffset := wOffset - L;
      }
      i := i - 1;
    }
    newOffset := wOffset % 0x1_0000;
  }

  lemma GatherNext(src: seq<Q15>, start: int, inc: int, n: nat)
    requires SourceInRange(src, start, inc, n + 1)
    ensures Gather(src, start, inc, n + 1) == Gather(src, start, inc, n) + [src[start + n * inc]]
    ensures start + n * inc + inc == start + (n + 1) * inc
  {
    MulDistributes(n, 1, inc);
  }

  /** Position of the destination pointer after `i` steps: it returns to the base exactly when
      it meets the end. */
  function Destination(start: int, inc: int, length: int, i: nat): int {
    if i == 0 then start
    else
      var next := Destination(start, inc, length, i - 1) + inc;
      if next == length then 0 else next
  }

  /** Destination contents after storing the samples at successive positions. */
  function Scattered(dst: seq<Q15>, start: int, inc: int, samples: seq<Q15>): (r: seq<Q15>)
    requires forall i: nat | i < |samples| :: 0 <= Destination(start, inc, |dst|, i) < |dst|
    ensures |r| == |dst|
  {
    if samples == [] then dst
    else
      var n := |samples| - 1;
      Scattered(dst, start, inc, samples[..n])[Destination(start, inc, |dst|, n) := samples[n]]
  }

  /** With increment one the pointer runs round the destination from any start. */
  lemma {:induction false} DestinationRing(start: nat, length: nat, i: nat)
    requires start < length
    ensures Destination(start, 1, length, i) == (start + i) % length
  {
    if i == 0 {
      DivZero(start, length);
    } else {
      DestinationRing(start, length, i - 1);
      ModStep(start + i - 1, 1, length);
    }
  }

  /** Samples stored on the way round keep their place until the pointer has passed a whole
      destination length; cells that it has not reached are unchanged. */
  lemma {:induction false} ScatteredRing(dst: seq<Q15>, start: nat, samples: seq<Q15>, i: nat)
    requires start < |dst| && |samples| <= |dst| && i < |dst|
    requires forall j: nat | j < |samples| :: 0 <= Destination(start, 1, |dst|, j) < |dst|
    ensures Scattered(dst, start, 1, samples)[(start + i) % |dst|]
         == if i < |samples| then samples[i] else dst[(start + i) % |dst|]
  {
    if samples == [] {
    } else {
      var n := |samples| - 1;
      ScatteredRing(dst, start, samples[..n], i);
      DestinationRing(start, |dst|, n);
      if i != n {
        NearDiffer(start, |dst|, i, n);
      }
    }
  }

  lemma NearDiffer(start: nat, length: nat, i: nat, j: nat)
    requires i < length && j < length && i != j
    ensures (start + i) % length != (start + j) % length
  {
    if (start + i) % length == (start + j) % length {
      SameRemainder(start + i, start + j, length);
      MultipleBetween((start + j) / length - (start + i) / length, length);
    }
  }

  /** Destination `now`, which was `was`, holds `n` samples of the buffer one after the other from
      `start` on, wrapping at its end, and is otherwise unchanged. */
  ghost predicate HoldsRing(now: seq<Q15>, was: seq<Q15>, start: nat, cells: seq<Q15>, from: nat, inc: nat, n: nat)
    requires |now| == |was| > 0 && cells != []
  {
    forall i: nat | i < |was| ::
      now[(start + i) % |was|] == if i < n then cells[(from + i * inc) % |cells|] else was[(start + i) % |was|]
  }

  lemma ReadRing(was: seq<Q15>, start: nat, cells: seq<Q15>, from: nat, inc: nat, n: nat)
    requires start < |was| && n <= |was| && cells != []
    requires forall j: nat | j < n :: 0 <= Destination(start, 1, |was|, j) < |was|
    ensures HoldsRing(Scattered(was, start, 1, ReadOut(cells, from, inc, n)), was, start, cells, from, inc, n)
  {
    hide Scattered, ReadOut;
    var samples := ReadOut(cells, from, inc, n);
    var now := Scattered(was, start, 1, samples);
    forall i: nat | i < |was|
      ensures now[(start + i) % |was|]
           == if i < n then cells[(from + i * inc) % |cells|] else was[(start + i) % |was|]
    {
      ScatteredRing(was, start, samples, i);
      if i < n {
        ReadAt(cells, from, inc, n, i);
      }
    }
  }

  lemma ReadAt(cells: seq<Q15>, from: nat, inc: nat, n: nat, i: nat)
    requires cells != [] && i < n
    ensures ReadOut(cells, from, inc, n)[i] == cells[(from + i * inc) % |cells|]
  {
  }

  method Read(circBuffer: array<Q15>, L: Q31, readOffset: Q31, bufferInc: Q31,
              dst: array<Q15>, dstStart: int, dstInc: int, blockSize: U32) returns (newOffset: Q31)
    requires 0 < L <= 0x1_0000 && circBuffer.Length == L && dst != circBuffer
    requires 0 <= readOffset < L && 0 <= bufferInc <= L
    requires forall i: nat | i < blockSize :: 0 <= Destination(dstStart, dstInc, dst.Length, i) < dst.Length
    modifies dst
    ensures dst[..] == Scattered(old(dst[..]), dstStart, dstInc,
                                 ReadOut(circBuffer[..], readOffset, bufferInc, blockSize))
    ensures newOffset == Offset(readOffset, bufferInc, L, blockSize)
    ensures dstInc == 1 && 0 <= dstStart < dst.Length && blockSize <= dst.Length ==>
      HoldsRing(dst[..], old(dst[..]), dstStart, circBuffer[..], readOffset, bufferInc, blockSize)
  {
    var rOffset: int := readOffset;
    var position := dstStart;
    var i: int := blockSize;
    ghost var was := dst[..];
    DivZero(readOffset, L);
    assert Offset(readOffset, bufferInc, L, 0) == readOffset;
    hide HoldsRing, Offset;
    while i > 0
      invariant 0 <= i <= blockSize
      invariant rOffset == Offset(readOffset, bufferInc, L, blockSize - i)
      invariant position == Destination(dstStart, dstInc, dst.Length, blockSize - i)
      invariant dst[..] == Scattered(was, dstStart, dstInc,
                                     ReadOut(circBuffer[..], readOffset, bufferInc, blockSize - i))
      decreases i
    {
      ghost var done: nat := blockSize - i;
      AdvanceMod(readOffset, bufferInc, L, done);
      ghost var before := dst[..];
      dst[position] := circBuffer[rOffset];
      assert dst[..] == before[position := circBuffer[rOffset]];
      ghost var samples := ReadOut(circBuffer[..], readOffset, bufferInc, done + 1);
      assert samples[..done] == ReadOut(circBuffer[..], readOffset, bufferInc, done);
      position := position + dstInc;
      if position == dst.Length {
        position := 0;
      }
      rOffset := rOffset + bufferInc;
      if rOffset >= L {
        rOffset := rOffset - L;
      }
      i := i - 1;
    }
    newOffset := rOffset;
    if dstInc == 1 && 0 <= dstStart < dst.Length && blockSize <= dst.Length {
      ReadRing(was, dstStart, circBuffer[..], readOffset, bufferInc, blockSize);
    }
  }

  /** A block that fits a contiguous destination is stored in order from its start. */
  lemma {:induction false} ScatteredContiguous(dst: seq<Q15>, samples: seq<Q15>)
    requires |samples| <= |dst|
    ensures forall i: nat | i < |samples| :: Destination(0, 1, |dst|, i) == i
    ensures Scattered(dst, 0, 1, samples) == samples + dst[|samples|..]
  {
    hide Destination;
    forall i: nat | i < |samples|
      ensures Destination(0, 1, |dst|, i) == i
    {
      DestinationRing(0, |dst|, i);
      DivZero(i, |dst|);
    }
    if samples == [] {
    } else {
      var n := |samples| - 1;
      ScatteredContiguous(dst, samples[..n]);
      assert samples[..n] + [samples[n]] == samples;
    }
  }

  // ---- What a buffer cell holds ----

  /** A cell holds the last sample written to it. */
  lemma {:induction false} LastWritten(buf: seq<Q15>, start: nat, inc: nat, samples: seq<Q15>, i: nat)
    requires buf != [] && i < |samples|
    requires forall j | i < j < |samples| :: Offset(start, inc, |buf|, j) != Offset(start, inc, |buf|, i)
    ensures Written(buf, start, inc, samples)[Offset(start, inc, |buf|, i)] == samples[i]
  {
    var n := |samples| - 1;
    if i == n {
    } else {
      LastWritten(buf, start, inc, samples[..n], i);
      assert Offset(start, inc, |buf|, n) != Offset(start, inc, |buf|, i);
    }
  }

  /** Cells that no step reaches keep their contents. */
  lemma {:induction false} Unwritten(buf: seq<Q15>, start: nat, inc: nat, samples: seq<Q15>, k: nat)
    requires k < |buf|
    requires forall j | 0 <= j < |samples| :: Offset(start, inc, |buf|, j) != k
    ensures Written(buf, start, inc, samples)[k] == buf[k]
  {
    if samples == [] {
    } else {
      var n := |samples| - 1;
      Unwritten(buf, start, inc, samples[..n], k);
      assert Offset(start, inc, |buf|, n) != k;
    }
  }

  // ---- Round trip: write n samples, read n samples from the same start ----

  function Gcd(a: nat, b: nat): (g: nat)
    ensures a > 0 || b > 0 ==> g > 0
    decreases b
  {
    if b == 0 then a else Gcd(b, a % b)
  }

  /** The greatest common divisor divides both numbers and is a combination of them. */
  lemma {:induction false} Bezout(a: nat, b: nat) returns (x: int, y: int, l: nat, m: nat)
    requires a > 0
    ensures var g := Gcd(a, b); g > 0 && a == g * l && b == g * m && a * x + b * y == g
    decreases b
  {
    if b == 0 {
      x, y, l, m := 1, 0, 1, 0;
    } else {
      var x', y', l', m' := Bezout(b, a % b);
      var q := a / b;
      DivModIdentity(a, b);
      Unfold(a, b, q, a % b, x', y', Gcd(b, a % b), l', m');
      MulMonotone(0, q, l');
      x, y, l, m := y', x' - q * y', q * l' + m', l';
    }
  }

  lemma Unfold(a: int, b: int, q: int, r: int, x: int, y: int, g: int, l: int, m: int)
    requires a == q * b + r && b * x + r * y == g && b == g * l && r == g * m
    ensures a * y + b * (x - q * y) == g
    ensures a == g * (q * l + m)
  {
    MulDistributes(q * b, r, y);
    MulDistributes(x, -(q * y), b);
    MulAssociates(b, q, y);
    MulDistributes(q * l, m, g);
    MulAssociates(g, q, l);
  }

  /** The number of cells that an increment reaches. */
  function Period(L: nat, inc: nat): nat
    requires L > 0
  {
    L / Gcd(L, inc)
  }

  /** Two steps less than a period apart reach different cells. */
  lemma OffsetsDiffer(start: nat, inc: nat, L: nat, i: nat, j: nat)
    requires 0 < L && i < j < i + Period(L, inc)
    ensures Offset(start, inc, L, i) != Offset(start, inc, L, j)
  {
    var x, y, l, m := Bezout(L, inc);
    PeriodIs(L, inc, l);
    if Offset(start, inc, L, i) == Offset(start, inc, L, j) {
      var k := Distance(start, inc, L, i, j);
      var c := DividesDistance(j - i, k, Gcd(L, inc), l, m, x, y, L, inc);
      MultipleBetween(c, l);
    }
  }

  lemma Distance(start: nat, inc: nat, L: nat, i: nat, j: nat) returns (k: int)
    requires 0 < L && Offset(start, inc, L, i) == Offset(start, inc, L, j)
    ensures (j - i) * inc == k * L
  {
    k := (start + j * inc) / L - (start + i * inc) / L;
    SameRemainder(start + i * inc, start + j * inc, L);
    MulDistributes(j - i, i, inc);
  }

  lemma PeriodIs(L: nat, inc: nat, l: nat)
    requires L > 0 && L == Gcd(L, inc) * l
    ensures Period(L, inc) == l > 0
  {
    DivModUnique(L, Gcd(L, inc), l, 0);
  }

  /** If d steps of g*m advance by whole multiples of g*l, with l and m coprime, then l divides d. */
  lemma DividesDistance(d: int, k: int, g: int, l: int, m: int, x: int, y: int, a: int, b: int) returns (c: int)
    requires d * b == k * a && g > 0 && a == g * l && b == g * m && a * x + b * y == g
    ensures d == c * l
  {
    CommonFactor(d, k, g, l, m);
    Coprime(x, y, l, m, g, a, b);
    c := MultipleOf(d, k, l, m, x, y);
  }

  lemma SameRemainder(a: int, b: int, L: int)
    requires L > 0 && a % L == b % L
    ensures b - a == (b / L - a / L) * L
  {
    DivModIdentity(a, L);
    DivModIdentity(b, L);
    MulDistributes(b / L, -(a / L), L);
  }

  lemma CommonFactor(d: int, k: int, g: int, l: int, m: int)
    requires g > 0 && d * (g * m) == k * (g * l)
    ensures d * m == k * l
  {
    MulAssociates(d, g, m);
    MulAssociates(k, g, l);
    MulAssociates(g, d, m);
    MulAssociates(g, k, l);
    CancelFactor(g, d * m, k * l);
  }

  lemma CancelFactor(g: int, a: int, b: int)
    requires g > 0 && g * a == g * b
    ensures a == b
  {
    MulDistributes(a, -b, g);
    MultipleBetween(a - b, g);
  }

  lemma Coprime(x: int, y: int, l: int, m: int, g: int, a: int, b: int)
    requires g > 0 && a == g * l && b == g * m && a * x + b * y == g
    ensures l * x + m * y == 1
  {
    MulAssociates(g, l, x);
    MulAssociates(g, m, y);
    MulDistributes(l * x, m * y, g);
    CancelFactor(g, l * x + m * y, 1);
  }

  /** A number whose multiple by a factor coprime to `l` is a multiple of `l` is one itself. */
  lemma MultipleOf(d: int, k: int, l: int, m: int, x: int, y: int) returns (c: int)
    requires d * m == k * l && l * x + m * y == 1
    ensures d == c * l
  {
    c := d * x + k * y;
    MulDistributes(l * x, m * y, d);
    MulAssociates(d, m, y);
    MulAssociates(d, l, x);
    MulAssociates(k, l, y);
    MulDistributes(d * x, k * y, l);
  }

  /** After a period the offset is back at the start. */
  lemma OffsetReturns(start: nat, inc: nat, L: nat)
    requires 0 < L
    ensures Period(L, inc) > 0
    ensures Offset(start, inc, L, Period(L, inc)) == Offset(start, inc, L, 0)
  {
    var x, y, l, m := Bezout(L, inc);
    PeriodIs(L, inc, l);
    MulAssociates(l, Gcd(L, inc), m);
    DivModIdentity(start, L);
    MulDistributes(start / L, m, L);
    DivModUnique(start + l * inc, L, start / L + m, start % L);
  }

  ghost predicate RoundTrips(buf: seq<Q15>, start: nat, inc: nat, n: nat)
    requires buf != []
  {
    forall samples: seq<Q15> | |samples| == n ::
      ReadOut(Written(buf, start, inc, samples), start, inc, n) == samples
  }

  lemma RoundTrip(buf: seq<Q15>, start: nat, inc: nat, samples: seq<Q15>)
    requires buf != [] && |samples| <= Period(|buf|, inc)
    ensures ReadOut(Written(buf, start, inc, samples), start, inc, |samples|) == samples
  {
    forall i: nat | i < |samples|
      ensures Written(buf, start, inc, samples)[Offset(start, inc, |buf|, i)] == samples[i]
    {
      forall j | i < j < |samples|
        ensures Offset(start, inc, |buf|, j) != Offset(start, inc, |buf|, i)
      {
        OffsetsDiffer(start, inc, |buf|, i, j);
      }
      LastWritten(buf, start, inc, samples, i);
    }
  }

  /** Longer blocks overwrite their own beginning. */
  lemma NoRoundTrip(buf: seq<Q15>, start: nat, inc: nat, n: nat)
    requires buf != [] && n > Period(|buf|, inc)
    ensures !RoundTrips(buf, start, inc, n)
  {
    var period := Period(|buf|, inc);
    OffsetReturns(start, inc, |buf|);
    var samples: seq<Q15> := seq(n, i => if i == 0 then 0 else 1);
    var back := ReadOut(Written(buf, start, inc, samples), start, inc, n);
    assert back[0] == back[period] && samples[0] != samples[period];
    assert |samples| == n && back != samples;
  }

  /** Reading back from the start of a write returns every block of n samples exactly when n is
      at most L / gcd(L, inc), the number of cells the increment reaches. */
  lemma RoundTripIff(buf: seq<Q15>, start: nat, inc: nat, n: nat)
    requires buf != []
    ensures RoundTrips(buf, start, inc, n) <==> n <= Period(|buf|, inc)
  {
    if n <= Period(|buf|, inc) {
      forall samples: seq<Q15> | |samples| == n
        ensures ReadOut(Written(buf, start, inc, samples), start, inc, n) == samples
      {
        RoundTrip(buf, start, inc, samples);
      }
    } else {
      NoRoundTrip(buf, start, inc, n);
    }
  }

  // ---- A run of writes as a stream ----

  function Concat(blocks: seq<seq<Q15>>): seq<Q15> {
    if blocks == [] then [] else Concat(blocks[..|blocks| - 1]) + blocks[|blocks| - 1]
  }

  /** Buffer and offset after a run of write calls with increment one. */
  function WriteAll(buf: seq<Q15>, start: nat, blocks: seq<seq<Q15>>): (r: (seq<Q15>, nat))
    requires buf != [] && start < |buf|
    ensures |r.0| == |buf| && r.1 < |buf|
  {
    if blocks == [] then (buf, start)
    else
      var (before, offset) := WriteAll(buf, start, blocks[..|blocks| - 1]);
      var last := blocks[|blocks| - 1];
      (Written(before, offset, 1, last), Offset(offset, 1, |buf|, |last|))
  }

  lemma OffsetAdds(start: nat, L: nat, i: nat, j: nat)
    requires L > 0
    ensures Offset(Offset(start, 1, L, i), 1, L, j) == Offset(start, 1, L, i + j)
  {
    ModTwice(start + i, j, L);
  }

  lemma ModTwice(x: nat, j: nat, L: nat)
    requires L > 0
    ensures (x % L + j) % L == (x + j) % L
  {
    DivModIdentity(x, L);
    var q, r := x / L, x % L;
    DivModIdentity(r + j, L);
    MulDistributes(q, (r + j) / L, L);
    DivModUnique(x + j, L, q + (r + j) / L, (r + j) % L);
  }

  /** Writing two blocks one after the other is writing their concatenation. */
  lemma {:induction false} WrittenConcat(buf: seq<Q15>, start: nat, s: seq<Q15>, t: seq<Q15>)
    requires buf != []
    ensures Written(buf, start, 1, s + t)
         == Written(Written(buf, start, 1, s), Offset(start, 1, |buf|, |s|), 1, t)
  {
    if t == [] {
      assert s + t == s;
    } else {
      var n := |t| - 1;
      WrittenConcat(buf, start, s, t[..n]);
      assert (s + t)[..|s| + n] == s + t[..n];
      OffsetAdds(start, |buf|, |s|, n);
    }
  }

  lemma {:induction false} WriteAllIsStream(buf: seq<Q15>, start: nat, blocks: seq<seq<Q15>>)
    requires buf != [] && start < |buf|
    ensures var stream := Concat(blocks);
            WriteAll(buf, start, blocks)
            == (Written(buf, start, 1, stream), Offset(start, 1, |buf|, |stream|))
  {
    if blocks == [] {
      DivZero(start, |buf|);
    } else {
      var before, last := blocks[..|blocks| - 1], blocks[|blocks| - 1];
      WriteAllIsStream(buf, start, before);
      WrittenConcat(buf, start, Concat(before), last);
      OffsetAdds(start, |buf|, |Concat(before)|, |last|);
    }
  }

  lemma NearOffsetsDiffer(start: nat, L: nat, i: nat, j: nat)
    requires 0 < L && i < j < i + L
    ensures Offset(start, 1, L, i) != Offset(start, 1, L, j)
  {
    if Offset(start, 1, L, i) == Offset(start, 1, L, j) {
      SameRemainder(start + i, start + j, L);
      MultipleBetween((start + j) / L - (start + i) / L, L);
    }
  }

  /** After any run of writes of any block sizes the buffer is a window on the stream: the cell
      k + 1 places behind the write offset holds the k-th most recent sample ever written. */
  lemma MostRecent(buf: seq<Q15>, start: nat, blocks: seq<seq<Q15>>, k: nat)
    requires buf != [] && start < |buf| && k < |buf| && k < |Concat(blocks)|
    ensures var stream := Concat(blocks);
            var (cells, offset) := WriteAll(buf, start, blocks);
            cells[(offset + |buf| - 1 - k) % |buf|] == stream[|stream| - 1 - k]
  {
    var stream, L := Concat(blocks), |buf|;
    WriteAllIsStream(buf, start, blocks);
    var i := |stream| - 1 - k;
    forall j | i < j < |stream|
      ensures Offset(start, 1, L, j) != Offset(start, 1, L, i)
    {
      NearOffsetsDiffer(start, L, i, j);
    }
    LastWritten(buf, start, 1, stream, i);
    StepBack(start, L, |stream|, k + 1);
  }

  lemma StepBack(start: nat, L: nat, n: nat, k: nat)
    requires 0 < L && 0 < k <= L && k <= n
    ensures (Offset(start, 1, L, n) + L - k) % L == Offset(start, 1, L, n - k)
  {
    OffsetAdds(start, L, n, L - k);
    DivModIdentity(start + n - k, L);
    var q := (start + n - k) / L;
    MulDistributes(q, 1, L);
    DivModUnique(start + n + L - k, L, q + 1, (start + n - k) % L);
  }
}
