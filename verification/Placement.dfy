/** Where a range read starts and how far it reads (`records_request` of src/reader.rs), in the
    64-bit saturating arithmetic the reader uses. */
module Placement {
  import opened Bytes
  import opened Frames

  const USIZE_MAX: nat := 0xFFFF_FFFF_FFFF_FFFF
  const U32_MAX: nat := 0xFFFF_FFFF

  function SatMul(a: nat, b: nat): nat {
    if a * b <= USIZE_MAX then a * b else USIZE_MAX
  }

  function SatAdd(a: nat, b: nat): nat {
    if a + b <= USIZE_MAX then a + b else USIZE_MAX
  }

  /** A frame's start and length in the decompressed stream. */
  datatype Extent = Extent(start: nat, len: nat)

  datatype Request = Request(start: nat, len: nat, skip: nat)

  /** The frame a record index is divided into: `frames.len().saturating_mul(i) / total`. */
  function FrameOf(frameCount: nat, perFrame: nat, i: nat): nat
    requires frameCount > 0 && perFrame > 0
  {
    TotalPositive(frameCount, perFrame);
    SatMul(frameCount, i) / (perFrame * frameCount)
  }

  lemma TotalPositive(frameCount: nat, perFrame: nat)
    requires frameCount > 0 && perFrame > 0
    ensures perFrame * frameCount > 0
  {
  }

  /** The saturated quotient never passes the exact one, and grows with the index. */
  lemma FrameOfBelow(f: nat, n: nat, i: nat, j: nat)
    requires f > 0 && n > 0 && i <= j
    ensures FrameOf(f, n, i) * n <= i
    ensures FrameOf(f, n, i) <= FrameOf(f, n, j)
  {
    CancelFactor(f, n, i);
    DivMonotone(SatMul(f, i), f * i, n * f);
    SatMulMonotone(f, i, j);
    DivMonotone(SatMul(f, i), SatMul(f, j), n * f);
    assert (i / n) * n <= i;
    ScaleAtMost(n, FrameOf(f, n, i), i / n);
  }

  lemma SatMulMonotone(f: nat, i: nat, j: nat)
    requires i <= j
    ensures SatMul(f, i) <= SatMul(f, j)
  {
    ScaleAtMost(f, i, j);
  }

  lemma ScaleAtMost(n: nat, a: nat, b: nat)
    requires a <= b
    ensures a * n <= b * n && n * a <= n * b
  {
  }

  /** The frame list of a file: consecutive extents. */
  predicate Consecutive(frames: seq<Extent>) {
    forall i, j :: 0 <= i <= j < |frames| ==> frames[i].start <= frames[j].start
  }

  /** The bytes to decode for `cnt` records from `from`, and the records to skip inside them.
      `None` is the refusal of a record past the last frame. */
  function RecordsRequest(frames: seq<Extent>, perFrame: nat, from: nat, cnt: nat): Option<Request>
    requires frames != [] && perFrame > 0 && Consecutive(frames)
  {
    var total := perFrame * |frames|;
    var guess := FrameOf(|frames|, perFrame, from);
    var k := if guess == |frames| && from == total then guess - 1 else guess;
    if k >= |frames| then None
    else
      var end := SatAdd(SatAdd(from, cnt), 1);
      var e := Min(FrameOf(|frames|, perFrame, end), |frames| - 1);
      PlacedInFrames(|frames|, perFrame, from, cnt);
      Some(Request(frames[k].start, frames[e].start + frames[e].len - frames[k].start, from - k * perFrame))
  }

  lemma PlacedInFrames(f: nat, n: nat, from: nat, cnt: nat)
    requires f > 0 && n > 0
    ensures var guess := FrameOf(f, n, from);
            var k := if guess == f && from == n * f then guess - 1 else guess;
            var e := Min(FrameOf(f, n, SatAdd(SatAdd(from, cnt), 1)), f - 1);
            k < f ==> k * n <= from && (from <= USIZE_MAX ==> k <= e)
  {
    var end := SatAdd(SatAdd(from, cnt), 1);
    FrameOfBelow(f, n, from, from);
    if from <= USIZE_MAX {
      FrameOfBelow(f, n, from, end);
    }
    if from == n * f && FrameOf(f, n, from) == f {
      ScaleAtMost(n, f - 1, f);
    }
  }

  // ---------------------------------------------------------------- the division is exact

  lemma CancelFactor(f: nat, n: nat, i: nat)
    requires f > 0 && n > 0
    ensures n * f > 0 && (f * i) / (n * f) == i / n
  {
    TotalPositive(f, n);
    var q, r := i / n, i % n;
    assert f * i == (n * f) * q + f * r by {
      assert i == n * q + r;
      Distribute(f, n, q, r);
    }
    assert 0 <= f * r < n * f by { ScaleBelow(f, r, n); }
    DivUnique(f * i, n * f, q, f * r);
  }

  lemma Distribute(f: nat, n: nat, q: nat, r: nat)
    ensures f * (n * q + r) == (n * f) * q + f * r
  {
  }

  lemma ScaleBelow(f: nat, r: nat, n: nat)
    requires f > 0 && r < n
    ensures f * r < n * f
  {
  }

  lemma DivUnique(x: nat, d: nat, q: nat, r: nat)
    requires d > 0 && x == d * q + r && r < d
    ensures x / d == q
  {
    FirstRecordIsProduct(d, q);
    FrameOfIndex(x, d, q, r);
  }

  lemma DivMonotone(x: nat, y: nat, d: nat)
    requires d > 0 && x <= y
    ensures x / d <= y / d
  {
    Divided(x, d);
    Divided(y, d);
    if x / d > y / d {
      FirstRecordMonotone(d, y / d, x / d);
    }
  }

  /** Where `n` records in each of `f` frames fit the arithmetic, saturating changes nothing: an
      index is divided as it would be exactly, or is past every frame either way. */
  lemma DivisionIsExact(f: nat, n: nat, i: nat)
    requires f > 0 && n > 0 && n * f * f <= USIZE_MAX
    ensures i / n < f ==> FrameOf(f, n, i) == i / n
    ensures i / n >= f ==> FrameOf(f, n, i) >= f
    ensures i == n * f ==> FrameOf(f, n, i) == f
  {
    CancelFactor(f, n, i);
    DivUnique(n * f * f, n * f, f, 0);
    if f * i > USIZE_MAX {
      DivMonotone(n * f * f, USIZE_MAX, n * f);
      DivMonotone(n * f * f, f * i, n * f);
    }
    if i == n * f {
      assert f * i == n * f * f by { Reorder(f, n); }
    }
  }

  lemma Reorder(f: nat, n: nat)
    ensures f * (n * f) == n * f * f
  {
  }

  /** Whether index `i` is divided into the frame it is in. */
  predicate InItsFrame(f: nat, n: nat, i: nat)
    requires f > 0 && n > 0
  {
    FrameOf(f, n, i) == i / n
  }

  /** Every index of a file is divided into its frame exactly where the first of the last frame, times
      the frames, is a `usize`. */
  lemma AllInTheirFramesIff(f: nat, n: nat)
    requires f > 0 && n > 0
    ensures (forall i: nat :: i < n * f ==> InItsFrame(f, n, i)) <==> n * f * (f - 1) <= USIZE_MAX
  {
    if n * f * (f - 1) <= USIZE_MAX {
      forall i: nat | i < n * f
        ensures InItsFrame(f, n, i)
      {
        SaturatedInItsFrame(f, n, i);
      }
    } else {
      FarIsMisplaced(f, n);
      ScaleBelow(n, f - 1, f);
      assert !InItsFrame(f, n, n * (f - 1));
    }
  }

  lemma SaturatedInItsFrame(f: nat, n: nat, i: nat)
    requires f > 0 && n > 0 && n * f * (f - 1) <= USIZE_MAX && i < n * f
    ensures InItsFrame(f, n, i)
  {
    CancelFactor(f, n, i);
    if f * i > USIZE_MAX {
      FirstRecordIsProduct(n, f);
      DividedBelow(i, n, f);
      LastQuotient(n * f, f - 1, f * i, i / n);
    }
  }

  /** Between the last whole multiple and what it is cut down from, the quotient stays. */
  lemma LastQuotient(d: nat, k: nat, x: nat, q: nat)
    requires d > 0 && d * k <= USIZE_MAX < x && x / d == q <= k
    ensures USIZE_MAX / d == q
  {
    DivUnique(d * k, d, k, 0);
    DivMonotone(d * k, USIZE_MAX, d);
    DivMonotone(USIZE_MAX, x, d);
  }

  /** Otherwise the first record of the last frame is looked for in one before it. */
  lemma FarIsMisplaced(f: nat, n: nat)
    requires f > 0 && n > 0 && n * f * (f - 1) > USIZE_MAX
    ensures n * (f - 1) / n == f - 1 && FrameOf(f, n, n * (f - 1)) < f - 1
  {
    DivUnique(n * (f - 1), n, f - 1, 0);
    ReorderLast(f, n);
    FirstRecordIsProduct(n * f, f - 1);
    DividedBelow(USIZE_MAX, n * f, f - 1);
  }

  /** Four million frames of two million records each are as many as it takes. */
  lemma FarIsReached()
    ensures !InItsFrame(0x40_0000, 0x20_0000, 0x20_0000 * 0x3F_FFFF)
  {
    FarIsMisplaced(0x40_0000, 0x20_0000);
  }

  lemma ReorderLast(f: nat, n: nat)
    requires f > 0
    ensures f * (n * (f - 1)) == n * f * (f - 1)
  {
  }

  /** `n` records in each of `f` frames fit the arithmetic: `n * f * f`, the largest product a
      division by it saturates at, is a `usize`. */
  predicate Fits(n: nat, f: nat) {
    FirstRecord(FirstRecord(n, f), f) <= USIZE_MAX
  }

  lemma FitsMeans(n: nat, f: nat)
    ensures Fits(n, f) <==> n * f * f <= USIZE_MAX
  {
    FirstRecordIsProduct(n, f);
    FirstRecordIsProduct(n * f, f);
  }

  // ---------------------------------------------------------------- the request on a uniform file

  /** The frame list `from_reader` builds: each frame where it starts, and its length. */
  function Extents(contents: seq<Bytes>): (frames: seq<Extent>)
    ensures |frames| == |contents|
  {
    seq(|contents|, i requires 0 <= i < |contents| => Extent(StartOf(contents, i), |contents[i]|))
  }

  lemma ExtentsConsecutive(contents: seq<Bytes>)
    ensures Consecutive(Extents(contents))
  {
    forall i, j | 0 <= i <= j < |contents|
      ensures StartOf(contents, i) <= StartOf(contents, j)
    {
      SpanIsFrames(contents, i, j);
    }
  }

  /** The frame a request starts in and the one its span ends with, divided exactly. */
  function FirstFrame(frameCount: nat, perFrame: nat, from: nat): nat
    requires perFrame > 0
  {
    if from == perFrame * frameCount && frameCount > 0 then frameCount - 1 else from / perFrame
  }

  function LastFrame(frameCount: nat, perFrame: nat, from: nat, cnt: nat): nat
    requires perFrame > 0 && frameCount > 0
  {
    if (from + cnt + 1) / perFrame < frameCount - 1 then (from + cnt + 1) / perFrame else frameCount - 1
  }

  /** Range placement is exact: whenever `n` records in each of the frames fit the arithmetic, the
      request starts at the frame `from` is in, skips what precedes it there, and spans whole frames
      out to the one the range can reach; and it is refused exactly when `from` is past them all. */
  lemma RequestIsExact(contents: seq<Bytes>, n: nat, from: nat, cnt: nat)
    requires contents != [] && n > 0 && Fits(n, |contents|) && from <= USIZE_MAX
    ensures Consecutive(Extents(contents))
    ensures var r := RecordsRequest(Extents(contents), n, from, cnt);
            var k := FirstFrame(|contents|, n, from);
            var e := LastFrame(|contents|, n, from, cnt);
            && (r.None? <==> k >= |contents|)
            && (r.Some? ==>
                  && k <= e < |contents| && FirstRecord(n, k) <= from
                  && r.value.start == StartOf(contents, k)
                  && r.value.start + r.value.len == StartOf(contents, e + 1)
                  && r.value.skip == from - FirstRecord(n, k))
  {
    ExtentsConsecutive(contents);
    FitsMeans(n, |contents|);
    var f := |contents|;
    var end := SatAdd(SatAdd(from, cnt), 1);
    DivisionIsExact(f, n, from);
    EndIsExact(f, n, from, cnt);
    PlacedInFrames(f, n, from, cnt);
    var k := FirstFrame(f, n, from);
    var e := LastFrame(f, n, from, cnt);
    if from == n * f {
      FirstRecordIsProduct(n, f);
      FrameOfIndex(from, n, f, 0);
    }
    if k < f {
      FirstRecordIsProduct(n, k);
      StartStep(contents, e);
    }
  }

  /** Where the product saturates, a request names the one frame the saturated quotient does. */
  lemma FarRequest(contents: seq<Bytes>, n: nat, from: nat, cnt: nat, q: nat)
    requires contents != [] && n > 0 && from <= USIZE_MAX && from != n * |contents|
    requires |contents| * from > USIZE_MAX && n * |contents| > 0 && q == USIZE_MAX / (n * |contents|)
    requires q < |contents|
    ensures Consecutive(Extents(contents)) && FirstRecord(n, q) <= from
    ensures RecordsRequest(Extents(contents), n, from, cnt)
            == Some(Request(StartOf(contents, q), |contents[q]|, from - FirstRecord(n, q)))
  {
    ExtentsConsecutive(contents);
    FarFrames(|contents|, n, from, SatAdd(SatAdd(from, cnt), 1), q);
    FirstRecordIsProduct(n, q);
  }

  /** Every index from the first that saturates on is divided into the same frame. */
  lemma FarFrames(f: nat, n: nat, from: nat, end: nat, q: nat)
    requires f > 0 && n > 0 && f * from > USIZE_MAX && from <= end
    requires n * f > 0 && q == USIZE_MAX / (n * f)
    ensures FrameOf(f, n, from) == q && FrameOf(f, n, end) == q && q * n <= from
  {
    FrameOfBelow(f, n, from, end);
    ScaleAtMost(f, from, end);
  }

  /** The span ends with the frame the exact end falls in, saturated or not. */
  lemma EndIsExact(f: nat, n: nat, from: nat, cnt: nat)
    requires f > 0 && n > 0 && n * f * f <= USIZE_MAX && from <= USIZE_MAX
    ensures Min(FrameOf(f, n, SatAdd(SatAdd(from, cnt), 1)), f - 1) == LastFrame(f, n, from, cnt)
  {
    var end := SatAdd(SatAdd(from, cnt), 1);
    DivisionIsExact(f, n, end);
    if from + cnt + 1 > USIZE_MAX {
      DivMonotone(end, from + cnt + 1, n);
      PastEvery(f, n);
    }
  }

  lemma PastEvery(f: nat, n: nat)
    requires f > 0 && n > 0 && n * f * f <= USIZE_MAX
    ensures USIZE_MAX / n >= f - 1
  {
    ScaleAtMost(n * f, 1, f);
    DivMonotone(n * f, USIZE_MAX, n);
    DivUnique(n * f, n, f, 0);
  }
}
