/** The framing every fast path divides by (docs/format.md): every frame but the last holds exactly
    `n` whole records and nothing else; the last holds at most `n`, and may end in a fragment. */
module Frames {
  import opened Bytes
  import opened Seqs
  import opened Records

  /** A frame of exactly `n` whole records and no fragment. */
  ghost predicate Full(find: Finder, frame: Bytes, n: nat) {
    |RecordsOf(find, frame)| == n && FragmentOf(find, frame) == []
  }

  ghost predicate AllFull(find: Finder, frames: seq<Bytes>, n: nat) {
    forall i :: 0 <= i < |frames| ==> Full(find, frames[i], n)
  }

  ghost predicate Uniform(find: Finder, frames: seq<Bytes>, n: nat) {
    && frames != [] && n > 0
    && AllFull(find, frames[..|frames| - 1], n)
    && |RecordsOf(find, frames[|frames| - 1])| <= n
  }

  /** The index of the first record of frame `k`, `n` records to a frame: `n * k`. */
  function FirstRecord(n: nat, k: nat): nat {
    if k == 0 then 0 else FirstRecord(n, k - 1) + n
  }

  /** Where frame `k` starts in the decompressed stream. */
  function StartOf(frames: seq<Bytes>, k: nat): nat
    requires k <= |frames|
  {
    |Flatten(frames[..k])|
  }

  // ---------------------------------------------------------------- frames and offsets

  lemma StartStep(frames: seq<Bytes>, k: nat)
    requires k < |frames|
    ensures StartOf(frames, k + 1) == StartOf(frames, k) + |frames[k]|
  {
    FlattenTake(frames, k);
  }

  /** The bytes from the start of frame `j` to the start of frame `k` are the frames between. */
  lemma SpanIsFrames(frames: seq<Bytes>, j: nat, k: nat)
    requires j <= k <= |frames|
    ensures StartOf(frames, j) <= StartOf(frames, k) <= |Flatten(frames)|
    ensures Flatten(frames)[StartOf(frames, j)..StartOf(frames, k)] == Flatten(frames[j..k])
    ensures StartOf(frames, k) == StartOf(frames, j) + |Flatten(frames[j..k])|
  {
    FlattenSplit(frames, k);
    FlattenSplit(frames[..k], j);
    TakeOfTake(frames, j, k);
    DropOfTake(frames, j, k);
    var a, b, c := Flatten(frames[..j]), Flatten(frames[j..k]), Flatten(frames[k..]);
    JoinParts(a, b);
    JoinParts(a + b, c);
    SliceOfJoinLeft(a + b, c, |a|, |a + b|);
    Whole(a + b);
  }

  lemma FrameIsSpan(frames: seq<Bytes>, k: nat)
    requires k < |frames|
    ensures StartOf(frames, k) + |frames[k]| <= |Flatten(frames)|
    ensures Flatten(frames)[StartOf(frames, k)..StartOf(frames, k) + |frames[k]|] == frames[k]
  {
    SpanIsFrames(frames, k, k + 1);
    assert frames[k..k + 1] == [frames[k]];
    FlattenOne(frames[k]);
  }

  // ---------------------------------------------------------------- the records of the frames

  /** Full frames hold `n` records each, found by dividing. */
  lemma {:induction false} FullFramesHold(find: Finder, frames: seq<Bytes>, n: nat)
    requires AllFull(find, frames, n)
    ensures |RecordsOf(find, Flatten(frames))| == FirstRecord(n, |frames|)
    ensures FragmentOf(find, Flatten(frames)) == []
  {
    if frames == [] {
      FinderOnEmpty(find);
      assert Flatten(frames) == [];
    } else {
      AllFullTail(find, frames, n);
      FullFramesHold(find, frames[1..], n);
      WholeJoins(find, frames[0], Flatten(frames[1..]));
    }
  }

  lemma AllFullTail(find: Finder, frames: seq<Bytes>, n: nat)
    requires frames != [] && AllFull(find, frames, n)
    ensures Full(find, frames[0], n) && AllFull(find, frames[1..], n)
  {
    forall i | 0 <= i < |frames[1..]|
      ensures Full(find, frames[1..][i], n)
    {
      assert frames[1..][i] == frames[i + 1];
    }
  }

  /** The records of a uniform file up to frame `k`, those of frame `k`, and what follows. */
  lemma SplitAtFrame(find: Finder, frames: seq<Bytes>, n: nat, k: nat)
    requires k <= |frames| && AllFull(find, frames[..k], n)
    ensures var whole := RecordsOf(find, Flatten(frames));
            && FirstRecord(n, k) <= |whole|
            && whole[..FirstRecord(n, k)] == RecordsOf(find, Flatten(frames[..k]))
            && whole[FirstRecord(n, k)..] == RecordsOf(find, Flatten(frames[k..]))
    ensures FragmentOf(find, Flatten(frames)) == FragmentOf(find, Flatten(frames[k..]))
  {
    FlattenSplit(frames, k);
    FullFramesHold(find, frames[..k], n);
    WholeJoins(find, Flatten(frames[..k]), Flatten(frames[k..]));
    JoinParts(RecordsOf(find, Flatten(frames[..k])), RecordsOf(find, Flatten(frames[k..])));
  }

  lemma UniformPrefix(find: Finder, frames: seq<Bytes>, n: nat, k: nat)
    requires Uniform(find, frames, n) && k < |frames|
    ensures AllFull(find, frames[..k], n)
  {
    var body := frames[..|frames| - 1];
    forall i | 0 <= i < k
      ensures Full(find, frames[..k][i], n)
    {
      assert frames[..k][i] == body[i];
    }
  }

  lemma UniformSuffix(find: Finder, frames: seq<Bytes>, n: nat, k: nat)
    requires Uniform(find, frames, n) && k < |frames|
    ensures Uniform(find, frames[k..], n)
  {
    var body := frames[..|frames| - 1];
    var rest := frames[k..];
    var front := rest[..|rest| - 1];
    forall i | 0 <= i < |front|
      ensures Full(find, front[i], n)
    {
      assert front[i] == body[k + i];
    }
  }

  /** A full frame before a uniform file makes a uniform file. */
  lemma UniformCons(find: Finder, first: Bytes, frames: seq<Bytes>, n: nat)
    requires Full(find, first, n) && Uniform(find, frames, n)
    ensures Uniform(find, [first] + frames, n)
  {
    var all := [first] + frames;
    var body, rest := all[..|all| - 1], frames[..|frames| - 1];
    forall i | 0 <= i < |body|
      ensures Full(find, body[i], n)
    {
      if i > 0 { assert body[i] == rest[i - 1]; }
    }
  }

  /** The records of frame `k` of a uniform file, within the records of the file. */
  lemma FrameRecords(find: Finder, frames: seq<Bytes>, n: nat, k: nat)
    requires Uniform(find, frames, n) && k < |frames|
    ensures var whole := RecordsOf(find, Flatten(frames));
            var here := RecordsOf(find, frames[k]);
            && FirstRecord(n, k) + |here| <= |whole|
            && here == whole[FirstRecord(n, k)..FirstRecord(n, k) + |here|]
            && |here| <= n
            && (k + 1 < |frames| ==> Full(find, frames[k], n))
            && (k + 1 == |frames| ==> |whole| == FirstRecord(n, k) + |here|
                                      && FragmentOf(find, frames[k]) == FragmentOf(find, Flatten(frames)))
  {
    UniformPrefix(find, frames, n, k);
    SplitAtFrame(find, frames, n, k);
    var rest := frames[k..];
    DropCons(frames, k);
    FlattenCons(frames[k], frames[k + 1..]);
    var whole := RecordsOf(find, Flatten(frames));
    if k + 1 < |frames| {
      assert frames[..|frames| - 1][k] == frames[k];
      WholeJoins(find, frames[k], Flatten(frames[k + 1..]));
      JoinParts(RecordsOf(find, frames[k]), RecordsOf(find, Flatten(frames[k + 1..])));
    } else {
      EmptyJoins(frames[k]);
      Whole(whole[FirstRecord(n, k)..]);
    }
    var len := |RecordsOf(find, frames[k])|;
    assert whole[FirstRecord(n, k)..][..len] == RecordsOf(find, frames[k]);
    TakeOfDrop(whole, FirstRecord(n, k), len);
  }

  // ---------------------------------------------------------------- the arithmetic of dividing

  lemma {:induction false} FirstRecordIsProduct(n: nat, k: nat)
    ensures FirstRecord(n, k) == n * k
  {
    if k > 0 {
      FirstRecordIsProduct(n, k - 1);
    }
  }

  lemma {:induction false} FirstRecordMonotone(n: nat, j: nat, k: nat)
    requires j <= k
    ensures FirstRecord(n, j) <= FirstRecord(n, k)
    ensures j < k ==> FirstRecord(n, j) + n <= FirstRecord(n, k)
  {
    if j < k {
      FirstRecordMonotone(n, j, k - 1);
    }
  }

  /** Dividing a record index finds its frame, and the remainder its place there. */
  lemma Divided(i: nat, n: nat)
    requires n > 0
    ensures i / n >= 0 && 0 <= i % n < n
    ensures i == FirstRecord(n, i / n) + i % n
  {
    FirstRecordIsProduct(n, i / n);
  }

  /** Dividing by `n` stays below `k` exactly as far as the first `k` times `n`. */
  lemma DividedBelow(i: nat, n: nat, k: nat)
    requires n > 0
    ensures i / n < k <==> i < FirstRecord(n, k)
  {
    Divided(i, n);
    if i / n < k {
      FirstRecordMonotone(n, i / n, k);
    } else {
      FirstRecordMonotone(n, k, i / n);
    }
  }

  lemma FrameOfIndex(i: nat, n: nat, k: nat, j: nat)
    requires j < n && i == FirstRecord(n, k) + j
    ensures i / n == k && i % n == j
  {
    Divided(i, n);
    if i / n < k {
      FirstRecordMonotone(n, i / n, k);
    } else if i / n > k {
      FirstRecordMonotone(n, k, i / n);
    }
  }

  // ---------------------------------------------------------------- records by division

  /** A record index below the count falls in a frame that holds it. */
  lemma IndexPlaced(find: Finder, frames: seq<Bytes>, n: nat, k: nat, j: nat)
    requires Uniform(find, frames, n) && j < n
    requires FirstRecord(n, k) + j < |RecordsOf(find, Flatten(frames))|
    ensures k < |frames| && j < |RecordsOf(find, frames[k])|
  {
    var last := |frames| - 1;
    FrameRecords(find, frames, n, last);
    if k > last {
      FirstRecordMonotone(n, last, k);
      assert false;
    }
    FrameRecords(find, frames, n, k);
  }

  lemma InFrame(find: Finder, frames: seq<Bytes>, n: nat, k: nat, j: nat)
    requires Uniform(find, frames, n) && k < |frames| && j < |RecordsOf(find, frames[k])|
    ensures FirstRecord(n, k) + j < |RecordsOf(find, Flatten(frames))|
    ensures RecordsOf(find, frames[k])[j] == RecordsOf(find, Flatten(frames))[FirstRecord(n, k) + j]
  {
    FrameRecords(find, frames, n, k);
  }

  /** Record `i` of a uniform file is record `i % n` of frame `i / n`. */
  lemma RecordByDivision(find: Finder, frames: seq<Bytes>, n: nat, i: nat) returns (k: nat, j: nat)
    requires Uniform(find, frames, n) && i < |RecordsOf(find, Flatten(frames))|
    ensures k == i / n && j == i % n
    ensures k < |frames| && j < |RecordsOf(find, frames[k])|
    ensures RecordsOf(find, frames[k])[j] == RecordsOf(find, Flatten(frames))[i]
  {
    Divided(i, n);
    k, j := i / n, i % n;
    IndexPlaced(find, frames, n, k, j);
    InFrame(find, frames, n, k, j);
  }

  // ---------------------------------------------------------------- spans of frames

  /** The records of the frames from `j` up to `k` are the records of the file from the first of
      frame `j` on; a span that stops short of the last frame ends whole. */
  lemma SpanRecords(find: Finder, frames: seq<Bytes>, n: nat, j: nat, k: nat)
    requires Uniform(find, frames, n) && j < k <= |frames|
    ensures var whole := RecordsOf(find, Flatten(frames));
            var here := RecordsOf(find, Flatten(frames[j..k]));
            && FirstRecord(n, j) + |here| <= |whole|
            && here == whole[FirstRecord(n, j)..FirstRecord(n, j) + |here|]
            && (k < |frames| ==> FirstRecord(n, j) + |here| == FirstRecord(n, k)
                                 && FragmentOf(find, Flatten(frames[j..k])) == [])
            && (k == |frames| ==> FirstRecord(n, j) + |here| == |whole|
                                  && FragmentOf(find, Flatten(frames[j..k]))
                                     == FragmentOf(find, Flatten(frames)))
  {
    if k == |frames| {
      SpanToEnd(find, frames, n, j);
      assert frames[j..k] == frames[j..];
    } else {
      SpanInside(find, frames, n, j, k);
    }
  }

  lemma SpanToEnd(find: Finder, frames: seq<Bytes>, n: nat, j: nat)
    requires Uniform(find, frames, n) && j < |frames|
    ensures var whole := RecordsOf(find, Flatten(frames));
            var here := RecordsOf(find, Flatten(frames[j..]));
            && FirstRecord(n, j) + |here| == |whole|
            && here == whole[FirstRecord(n, j)..FirstRecord(n, j) + |here|]
            && FragmentOf(find, Flatten(frames[j..])) == FragmentOf(find, Flatten(frames))
  {
    var whole := RecordsOf(find, Flatten(frames));
    UniformPrefix(find, frames, n, j);
    SplitAtFrame(find, frames, n, j);
    assert whole[FirstRecord(n, j)..] == whole[FirstRecord(n, j)..|whole|];
  }

  lemma SpanInside(find: Finder, frames: seq<Bytes>, n: nat, j: nat, k: nat)
    requires Uniform(find, frames, n) && j < k < |frames|
    ensures var whole := RecordsOf(find, Flatten(frames));
            var here := RecordsOf(find, Flatten(frames[j..k]));
            && FirstRecord(n, j) + |here| == FirstRecord(n, k) <= |whole|
            && here == whole[FirstRecord(n, j)..FirstRecord(n, k)]
            && FragmentOf(find, Flatten(frames[j..k])) == []
  {
    var whole := RecordsOf(find, Flatten(frames));
    UniformPrefix(find, frames, n, k);
    SplitAtFrame(find, frames, n, k);
    FullPrefixSpan(find, frames[..k], n, j);
    DropOfTake(frames, j, k);
    DropOfTake(whole, FirstRecord(n, j), FirstRecord(n, k));
  }

  lemma FullPrefixSpan(find: Finder, frames: seq<Bytes>, n: nat, j: nat)
    requires AllFull(find, frames, n) && j <= |frames|
    ensures var whole := RecordsOf(find, Flatten(frames));
            && FirstRecord(n, j) <= FirstRecord(n, |frames|) == |whole|
            && whole[FirstRecord(n, j)..] == RecordsOf(find, Flatten(frames[j..]))
            && FragmentOf(find, Flatten(frames[j..])) == []
  {
    FullFramesHold(find, frames, n);
    FirstRecordMonotone(n, j, |frames|);
    assert AllFull(find, frames[..j], n);
    SplitAtFrame(find, frames, n, j);
  }
}
