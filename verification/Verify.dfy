/** What a verifying read of a whole file proves (`RecordReaderVerify` of src/reader.rs, over the
    watched walk of src/record.rs), however the walk divides the records into runs. */
module Verify {
  import opened Bytes
  import opened Seqs
  import opened Records
  import opened Frames
  import opened Window
  import opened Cursor
  import opened Watch
  import opened Placement

  /** Where each of the first `k` frames ends (`frame_ends_from`, from the first frame on). */
  function EndsOf(contents: seq<Bytes>, k: nat): seq<nat>
    requires k <= |contents|
  {
    if k == 0 then [] else EndsOf(contents, k - 1) + [StartOf(contents, k)]
  }

  function FrameEnds(contents: seq<Bytes>): seq<nat> {
    EndsOf(contents, |contents|)
  }

  lemma {:induction false} EndsAre(contents: seq<Bytes>, k: nat)
    requires k <= |contents|
    ensures |EndsOf(contents, k)| == k
    ensures forall i :: 0 <= i < k ==> EndsOf(contents, k)[i] == StartOf(contents, i + 1)
  {
    if k > 0 { EndsAre(contents, k - 1); }
  }

  lemma FrameEndsInRegion(contents: seq<Bytes>)
    requires contents != [] && contents[0] != []
    ensures |FrameEnds(contents)| == |contents|
    ensures forall i :: 0 <= i < |contents| ==> FrameEnds(contents)[i] == StartOf(contents, i + 1)
    ensures InRegion(FrameEnds(contents), |Flatten(contents)|)
  {
    EndsAre(contents, |contents|);
    var at := FrameEnds(contents);
    forall i, j | 0 <= i <= j < |at|
      ensures 0 < at[i] <= at[j] <= |Flatten(contents)|
    {
      StartsRise(contents, i + 1, j + 1);
    }
  }

  lemma StartsRise(contents: seq<Bytes>, j: nat, k: nat)
    requires contents != [] && contents[0] != [] && 0 < j <= k <= |contents|
    ensures 0 < StartOf(contents, j) <= StartOf(contents, k) <= |Flatten(contents)|
  {
    StartStep(contents, 0);
    SpanIsFrames(contents, 1, j);
    SpanIsFrames(contents, j, k);
  }

  // ---------------------------------------------------------------- what is judged

  /** What the offsets say of frame `i`, the frames before it ending whole: how many records it holds
      and whether it ends whole. */
  lemma OffsetsTellFrame(find: Finder, contents: seq<Bytes>, i: nat)
    requires contents != [] && contents[0] != [] && i < |contents|
    requires FragmentOf(find, Flatten(contents[..i])) == []
    ensures |FrameEnds(contents)| == |contents| && InRegion(FrameEnds(contents), |Flatten(contents)|)
    ensures var at, region := FrameEnds(contents), Flatten(contents);
            && CountTo(find, region, at, i + 1) - CountTo(find, region, at, i) == |RecordsOf(find, contents[i])|
            && (WholeAt(find, region, at, i) <==> FragmentOf(find, contents[i]) == [])
            && FragmentOf(find, Flatten(contents[..i + 1])) == FragmentOf(find, contents[i])
  {
    FrameEndsInRegion(contents);
    PrefixIsFrames(contents, i);
    PrefixIsFrames(contents, i + 1);
    FlattenTake(contents, i);
    WholeJoins(find, Flatten(contents[..i]), contents[i]);
    EndsAreCuts(find, Flatten(contents[..i]));
    EndsAreCuts(find, Flatten(contents[..i + 1]));
  }

  lemma PrefixIsFrames(contents: seq<Bytes>, i: nat)
    requires i <= |contents|
    ensures StartOf(contents, i) <= |Flatten(contents)|
    ensures Flatten(contents)[..StartOf(contents, i)] == Flatten(contents[..i])
  {
    FlattenSplit(contents, i);
    JoinParts(Flatten(contents[..i]), Flatten(contents[i..]));
  }

  lemma AllFullSnoc(find: Finder, contents: seq<Bytes>, n: nat, i: nat)
    requires i < |contents|
    ensures AllFull(find, contents[..i + 1], n) <==> AllFull(find, contents[..i], n) && Full(find, contents[i], n)
  {
    var longer, shorter := contents[..i + 1], contents[..i];
    if AllFull(find, longer, n) {
      assert longer[i] == contents[i];
      forall j | 0 <= j < i
        ensures Full(find, shorter[j], n)
      {
        assert longer[j] == shorter[j];
      }
    }
    if AllFull(find, shorter, n) && Full(find, contents[i], n) {
      forall j | 0 <= j < |longer|
        ensures Full(find, longer[j], n)
      {
        if j < i { assert longer[j] == shorter[j]; }
      }
    }
  }

  lemma AcceptedIsFullFrame(find: Finder, contents: seq<Bytes>, region: Bytes, at: seq<nat>, judge: Judge,
                            n: nat, i: nat)
    requires contents != [] && contents[0] != [] && i + 1 < |contents|
    requires region == Flatten(contents) && at == FrameEnds(contents) && judge == Judge(|contents| - 1, n)
    requires AllFull(find, contents[..i], n)
    ensures |at| == |contents| && InRegion(at, |region|)
    ensures Accepted(find, region, at, 0, judge, i) <==> Full(find, contents[i], n)
  {
    FullFramesHold(find, contents[..i], n);
    OffsetsTellFrame(find, contents, i);
  }

  /** The offsets of the frames before the last are all accepted exactly when those frames are
      full. */
  lemma AcceptedIsFull(find: Finder, contents: seq<Bytes>, n: nat, i: nat)
    requires contents != [] && contents[0] != [] && i < |contents|
    ensures |FrameEnds(contents)| == |contents| && InRegion(FrameEnds(contents), |Flatten(contents)|)
    ensures AllAccepted(find, Flatten(contents), FrameEnds(contents), 0, Judge(|contents| - 1, n), i)
            <==> AllFull(find, contents[..i], n)
  {
    FrameEndsInRegion(contents);
    AcceptedUpTo(find, contents, Flatten(contents), FrameEnds(contents), Judge(|contents| - 1, n), n, i);
  }

  lemma {:induction false} AcceptedUpTo(find: Finder, contents: seq<Bytes>, region: Bytes, at: seq<nat>, judge: Judge,
                                        n: nat, i: nat)
    requires contents != [] && contents[0] != [] && i < |contents|
    requires region == Flatten(contents) && at == FrameEnds(contents) && judge == Judge(|contents| - 1, n)
    requires |at| == |contents| && InRegion(at, |region|)
    ensures AllAccepted(find, region, at, 0, judge, i) <==> AllFull(find, contents[..i], n)
    decreases i
  {
    if i > 0 {
      AcceptedUpTo(find, contents, region, at, judge, n, i - 1);
      AllFullSnoc(find, contents, n, i - 1);
      if AllFull(find, contents[..i - 1], n) {
        AcceptedIsFullFrame(find, contents, region, at, judge, n, i - 1);
      }
    }
  }

  /** Every offset is accepted exactly when the file is uniform. */
  lemma AcceptedIffUniform(find: Finder, contents: seq<Bytes>, n: nat)
    requires contents != [] && contents[0] != [] && n > 0
    ensures |FrameEnds(contents)| == |contents| && InRegion(FrameEnds(contents), |Flatten(contents)|)
    ensures AllAccepted(find, Flatten(contents), FrameEnds(contents), 0, Judge(|contents| - 1, n), |contents|)
            <==> Uniform(find, contents, n)
  {
    var last := |contents| - 1;
    AcceptedIsFull(find, contents, n, last);
    if AllFull(find, contents[..last], n) {
      FullFramesHold(find, contents[..last], n);
      OffsetsTellFrame(find, contents, last);
    }
  }

  lemma {:induction false} AcceptedBefore(find: Finder, region: Bytes, at: seq<nat>, judge: Judge, j: nat, p: nat)
    requires p <= |at| && InRegion(at, |region|) && AllAccepted(find, region, at, 0, judge, p)
    ensures j <= p ==> AllAccepted(find, region, at, 0, judge, j)
    ensures j < p ==> Accepted(find, region, at, 0, judge, j)
    decreases p
  {
    if j < p {
      AcceptedBefore(find, region, at, judge, j, p - 1);
    }
  }

  // ---------------------------------------------------------------- the watched walk

  /** Where the last whole record ends. */
  function LastEnd(find: Finder, region: Bytes): (b: nat)
    ensures b <= |region|
  {
    LastFrom(find, region, 0)
  }

  /** How many of the offsets whole records reach. */
  function Reached(find: Finder, region: Bytes, at: seq<nat>): nat {
    PartitionPoint(at, LastEnd(find, region))
  }

  lemma ReachedSplits(find: Finder, region: Bytes, at: seq<nat>, p: nat)
    requires InRegion(at, |region|) && p <= |at|
    requires p > 0 ==> at[p - 1] <= LastEnd(find, region)
    requires p < |at| ==> LastEnd(find, region) < at[p]
    ensures p == Reached(find, region, at)
  {
    PartitionPointSplits(at, LastEnd(find, region));
  }

  /** The offset no whole record reaches is judged as if it were where the walk stopped, `leftOver`
      saying whether bytes were left there. */
  ghost predicate StopAccepted(find: Finder, region: Bytes, at: seq<nat>, judge: Judge, p: nat, leftOver: bool)
    requires p <= |at| && InRegion(at, |region|)
  {
    p < |at| ==> && CountAccepted(judge, p, Count(find, region) - CountTo(find, region, at, p))
                 && EndAccepted(judge, p, !leftOver)
  }

  /** What a watched walk of a region comes to, decided by the region and the offsets alone. */
  ghost predicate Comes(find: Finder, region: Bytes, at: seq<nat>, judge: Judge, tail: Tail,
                        r: Result<Bytes, ReadError>)
    requires InRegion(at, |region|) && Reached(find, region, at) <= |at|
  {
    var p, rest := Reached(find, region, at), FragmentOf(find, region);
    if !AllAccepted(find, region, at, 0, judge, p) then
      && r.Err? && r.error.FrameRefused? && r.error.frame < p
      && AllAccepted(find, region, at, 0, judge, r.error.frame)
      && !Accepted(find, region, at, 0, judge, r.error.frame)
    else if rest != [] && tail == AsError then r == Err(IncompleteFinalRecord)
    else if !StopAccepted(find, region, at, judge, p, rest != [] && tail == Ignored) then r == Err(FrameRefused(p))
    else r == Ok(if tail == Ignored then region[..LastEnd(find, region)] else region)
  }

  lemma RefusedEarly(find: Finder, region: Bytes, at: seq<nat>, judge: Judge, tail: Tail, j: nat)
    requires InRegion(at, |region|) && j < |at| && at[j] <= LastEnd(find, region)
    requires AllAccepted(find, region, at, 0, judge, j) && !Accepted(find, region, at, 0, judge, j)
    ensures Reached(find, region, at) <= |at|
    ensures Comes(find, region, at, judge, tail, Err(FrameRefused(j)))
  {
    PartitionPointSplits(at, LastEnd(find, region));
    var p := Reached(find, region, at);
    if AllAccepted(find, region, at, 0, judge, p) {
      AcceptedBefore(find, region, at, judge, j, p);
    }
  }

  /** The guard stops a read at `x`, one of the `ends` counted from `base`: the first `p` offsets lie
      before it and are accepted, and none of those from there up to `x` is a record end. */
  ghost predicate Halts(find: Finder, region: Bytes, at: seq<nat>, judge: Judge, ends: seq<nat>, base: nat,
                        p: nat, x: nat)
    requires InRegion(at, |region|)
  {
    && p <= |at| && 0 < x <= |region| && base + x in ends && AllAccepted(find, region, at, 0, judge, p)
    && (forall q :: 0 <= q < p ==> at[q] < x)
    && (forall q :: p <= q < |at| && at[q] <= x ==> at[q] !in Bounds(find, region))
  }

  /** Offset `j` is the first that is not accepted, and no frame end up to it is inside a record. */
  ghost predicate RefusedClean(find: Finder, region: Bytes, at: seq<nat>, judge: Judge, ends: seq<nat>, base: nat,
                               j: nat)
    requires InRegion(at, |region|)
  {
    && j < |at| && AllAccepted(find, region, at, 0, judge, j) && !Accepted(find, region, at, 0, judge, j)
    && forall i :: 0 <= i < |ends| && base < ends[i] <= base + at[j] ==> ends[i] - base in Bounds(find, region)
  }

  /** How the runs of a watched walk end early: the guard stops the reads, or the watch refuses. */
  ghost predicate EndedEarly(w: Window, find: Finder, watch: Watch, error: ReadError)
    reads w, watch
  {
    var base := w.frameEndBase + w.start;
    && InRegion(watch.at, |w.region|)
    && if error == IncompleteAtFrameEnd
       then !w.clean && exists p, x :: Halts(find, w.region, watch.at, watch.judge, w.frameEnds, base, p, x)
       else watch.Refused(find, w.region, LastEnd(find, w.region), error)
            && RefusedClean(find, w.region, watch.at, watch.judge, w.frameEnds, base, error.frame)
  }

  /** What ended the runs early, in terms of the region alone. */
  lemma EarlyMeans(w: Window, find: Finder, watch: Watch, error: ReadError, ends: seq<nat>, base: nat)
    requires EndedEarly(w, find, watch, error) && ends == w.frameEnds && base == w.frameEndBase + w.start
    ensures InRegion(watch.at, |w.region|)
    ensures error == IncompleteAtFrameEnd ==>
              exists p, x :: Halts(find, w.region, watch.at, watch.judge, ends, base, p, x)
    ensures error != IncompleteAtFrameEnd ==>
              error.FrameRefused? && RefusedClean(find, w.region, watch.at, watch.judge, ends, base, error.frame)
  {
  }

  lemma HaltedHere(w: Window, find: Finder, watch: Watch) returns (x: nat)
    requires w.Valid(find) && w.Broken() && watch.Valid(find, w.region, w.walked) && watch.first == 0
    ensures Halts(find, w.region, watch.at, watch.judge, w.frameEnds, w.frameEndBase + w.start, watch.next, x)
  {
    w.Opened();
    x := w.Loaded();
    HaltsAt(find, w.region, watch.at, watch.judge, w.frameEnds, w.frameEndBase + w.start, w.walked, watch.next, x);
  }

  lemma HaltsAt(find: Finder, region: Bytes, at: seq<nat>, judge: Judge, ends: seq<nat>, base: nat, k: nat, p: nat,
                x: nat)
    requires InRegion(at, |region|) && p <= |at| && x <= |region| && base + x in ends
    requires k < |Bounds(find, region)| && Bounds(find, region)[k] < x && NoEndBy(Bounds(find, region), k, x)
    requires AllAccepted(find, region, at, 0, judge, p) && (p > 0 ==> at[p - 1] <= Bounds(find, region)[k])
    requires p < |at| ==> Bounds(find, region)[k] < at[p]
    ensures Halts(find, region, at, judge, ends, base, p, x)
  {
    NoEndsBetween(find, region, at, k, p, x);
  }

  lemma NoEndsBetween(find: Finder, region: Bytes, at: seq<nat>, k: nat, p: nat, x: nat)
    requires k < |Bounds(find, region)| && Bounds(find, region)[k] < x && NoEndBy(Bounds(find, region), k, x)
    requires InOrder(at) && p <= |at| && (p < |at| ==> Bounds(find, region)[k] < at[p])
    ensures forall q :: p <= q < |at| && at[q] <= x ==> at[q] !in Bounds(find, region)
  {
    forall q | p <= q < |at| && at[q] <= x
      ensures at[q] !in Bounds(find, region)
    {
      NoBoundBetween(find, region, k, at[q]);
    }
  }

  lemma RefusedHere(w: Window, find: Finder, watch: Watch, error: ReadError)
    requires w.Valid(find) && InRegion(watch.at, |w.region|) && watch.first == 0
    requires watch.Refused(find, w.region, w.bounds[w.walked], error)
    ensures EndedEarly(w, find, watch, error)
  {
    BoundsReach(find, w.region, w.walked);
    PassedClean(w, find, watch.at[error.frame]);
  }

  lemma PassedClean(w: Window, find: Finder, x: nat)
    requires w.Valid(find) && x <= w.bounds[w.walked]
    ensures var base := w.frameEndBase + w.start;
            forall i :: 0 <= i < |w.frameEnds| && base < w.frameEnds[i] <= base + x ==>
                          w.frameEnds[i] - base in Bounds(find, w.region)
  {
    var base := w.frameEndBase + w.start;
    forall i | 0 <= i < |w.frameEnds| && base < w.frameEnds[i] <= base + x
      ensures w.frameEnds[i] - base in Bounds(find, w.region)
    {
      w.WalkedIsClean(i);
    }
  }

  /** One run of a watched walk, of any size, told to the watch before it goes out. */
  method WatchedRun(w: Window, find: Finder, watch: Watch) returns (r: Result<Option<Bytes>, ReadError>)
    requires w.Valid(find) && !w.TailTaken()
    requires watch.Valid(find, w.region, w.walked) && watch.first == 0
    modifies w, w.source, watch
    ensures w.Valid(find) && w.Where() == old(w.Where())
    ensures r.Ok? ==> !w.TailTaken() && watch.Valid(find, w.region, w.walked)
    ensures r.Ok? && r.value.Some? ==> && old(w.walked) < w.walked
                                       && r.value.value == Cut(w.region, w.bounds[old(w.walked)], w.bounds[w.walked])
    ensures r.Ok? && r.value.None? ==> w.RanOut() && w.walked == old(w.walked)
    ensures r.Err? ==> EndedEarly(w, find, watch, r.error)
  {
    var some: bool, most: nat := *, *;
    ghost var k := w.walked;
    var run := w.Next(find, if some then Some(most + 1) else None);
    if run.Err? {
      ghost var x := HaltedHere(w, find, watch);
      return Err(run.error);
    }
    if run.value.None? { return Ok(None); }
    r := Tell(w, find, watch, run.value.value, k);
  }

  /** Tells the watch of a run that begins at record `k`. */
  method Tell(w: Window, find: Finder, watch: Watch, run: Run, ghost k: nat)
    returns (r: Result<Option<Bytes>, ReadError>)
    requires w.Valid(find) && w.Holds(run, k) && watch.Valid(find, w.region, k) && watch.first == 0
    modifies watch
    ensures r.Ok? ==> watch.Valid(find, w.region, w.walked)
                      && r.value == Some(Cut(w.region, w.bounds[k], w.bounds[w.walked]))
    ensures r.Err? ==> EndedEarly(w, find, watch, r.error)
  {
    var bytes := w.BytesOf(run);
    var told := watch.Saw(find, w.region, w.walked - run.count, bytes, run.count);
    if told.Err? {
      RefusedHere(w, find, watch, told.error);
      return Err(told.error);
    }
    return Ok(Some(bytes));
  }

  /** The runs of a watched walk: every whole record, each offset they reach accepted. */
  method WatchedRuns(w: Window, find: Finder, watch: Watch) returns (r: Result<Bytes, ReadError>)
    requires w.Valid(find) && w.walked == 0 && !w.TailTaken()
    requires watch.Valid(find, w.region, 0) && watch.first == 0
    modifies w, w.source, watch
    ensures w.Valid(find) && w.Where() == old(w.Where())
    ensures r.Ok? ==> w.RanOut() && !w.TailTaken() && watch.Valid(find, w.region, w.walked)
                      && r.value == Cut(w.region, 0, w.bounds[w.walked])
    ensures r.Err? ==> EndedEarly(w, find, watch, r.error)
  {
    var out: Bytes := [];
    while true
      invariant w.Valid(find) && w.Where() == old(w.Where()) && !w.TailTaken()
      invariant watch.Valid(find, w.region, w.walked)
      invariant out == Cut(w.region, 0, w.bounds[w.walked])
      decreases |w.bounds| - w.walked
    {
      ghost var k := w.walked;
      var run := WatchedRun(w, find, watch);
      if run.Err? { return Err(run.error); }
      if run.value.None? { return Ok(out); }
      CutOn(find, w.region, k, w.walked);
      out := out + run.value.value;
    }
  }

  lemma CutOn(find: Finder, region: Bytes, j: nat, k: nat)
    requires j < k < |Bounds(find, region)|
    ensures var bounds := Bounds(find, region);
            Cut(region, 0, bounds[j]) + Cut(region, bounds[j], bounds[k]) == Cut(region, 0, bounds[k])
  {
    BoundsRise(find, region, j, k);
    BoundWithin(find, region, k);
    Slices(region, 0, Bounds(find, region)[j], Bounds(find, region)[k]);
  }

  lemma BoundsReach(find: Finder, region: Bytes, k: nat)
    requires k < |Bounds(find, region)|
    ensures Bounds(find, region)[k] <= LastEnd(find, region)
  {
    LastBound(find, region);
    if k < |RecordsOf(find, region)| {
      BoundsRise(find, region, k, |RecordsOf(find, region)|);
    }
  }

  /** A watched read of a whole region: what comes of it depends on the region and the offsets, not on
      how the walk divided it into runs. */
  method WatchedWalk(w: Window, find: Finder, watch: Watch, tail: Tail) returns (r: Result<Bytes, ReadError>)
    requires w.Valid(find) && w.walked == 0 && !w.TailTaken()
    requires watch.Valid(find, w.region, 0) && watch.first == 0
    modifies w, w.source, watch
    ensures w.Where() == old(w.Where())
    ensures InRegion(watch.at, |w.region|) && Reached(find, w.region, watch.at) <= |watch.at|
    ensures r != Err(IncompleteAtFrameEnd) ==>
              && Comes(find, w.region, watch.at, watch.judge, tail, r)
              && (w.clean || (r.Err? && EndedEarly(w, find, watch, r.error)))
    ensures r == Err(IncompleteAtFrameEnd) ==> EndedEarly(w, find, watch, r.error)
  {
    PartitionPointSplits(watch.at, LastEnd(find, w.region));
    r := WatchedRuns(w, find, watch);
    if r.Err? && r.error == IncompleteAtFrameEnd { return; }
    if r.Err? {
      RefusedEarly(find, w.region, watch.at, watch.judge, tail, r.error.frame);
      return;
    }
    RunsEnded(w, find, watch);
    w.SpentIsClean();
    r := WatchedTail(w, find, watch, tail, r.value);
  }

  /** The end of a watched walk: the bytes after the last record, and the offset no record reached. */
  method WatchedTail(w: Window, find: Finder, watch: Watch, tail: Tail, written: Bytes)
    returns (r: Result<Bytes, ReadError>)
    requires w.Valid(find) && w.RanOut() && w.Remainder() == FragmentOf(find, w.region)
    requires w.walked == Count(find, w.region) && watch.Judged(find, w.region) && watch.first == 0
    requires written == w.region[..LastEnd(find, w.region)]
    requires written + FragmentOf(find, w.region) == w.region
    requires watch.next == Reached(find, w.region, watch.at)
    modifies w`pos, watch
    ensures w.Where() == old(w.Where()) && Comes(find, w.region, watch.at, watch.judge, tail, r)
    ensures r != Err(IncompleteAtFrameEnd)
  {
    EmptyJoins(written);
    if tail == AsError && w.Remainder() != [] {
      return Err(IncompleteFinalRecord);
    }
    var all := written;
    if tail == AsRecord {
      var last := w.FinalRecord();
      if last.Some? { all := all + w.BytesOf(last.value); }
    }
    var told := watch.Spent(w.walked, w.Remainder() == []);
    return if told.Err? then Err(told.error) else Ok(all);
  }

  /** Where the runs ended: every offset they reach accepted, the fragment left in hand. */
  lemma RunsEnded(w: Window, find: Finder, watch: Watch)
    requires w.Valid(find) && w.RanOut() && !w.TailTaken() && watch.Valid(find, w.region, w.walked)
    ensures w.Remainder() == FragmentOf(find, w.region) && w.walked == Count(find, w.region)
    ensures watch.next == Reached(find, w.region, watch.at)
    ensures Cut(w.region, 0, w.bounds[w.walked]) == w.region[..LastEnd(find, w.region)]
    ensures w.region[..LastEnd(find, w.region)] + FragmentOf(find, w.region) == w.region
  {
    RestIsFragment(find, w.region);
    LastBound(find, w.region);
    EndsAreCuts(find, w.region);
    SplitAt(w.region, LastEnd(find, w.region));
    TakeThenSlice(w.region, 0, LastEnd(find, w.region));
    if watch.at != [] {
      ReachedSplits(find, w.region, watch.at, watch.next);
    }
  }

  // ---------------------------------------------------------------- what it proves of a file

  /** `r` is what a verifying read of the whole file comes to. */
  ghost predicate FileComes(find: Finder, contents: seq<Bytes>, n: nat, tail: Tail, r: Result<Bytes, ReadError>)
    requires contents != [] && contents[0] != []
  {
    FrameEndsInRegion(contents);
    PartitionPointSplits(FrameEnds(contents), LastEnd(find, Flatten(contents)));
    Comes(find, Flatten(contents), FrameEnds(contents), Judge(|contents| - 1, n), tail, r)
  }

  lemma EndOfFile(contents: seq<Bytes>)
    ensures StartOf(contents, |contents|) == |Flatten(contents)|
  {
    assert contents[..|contents|] == contents;
  }

  lemma FragmentLength(find: Finder, region: Bytes)
    ensures LastEnd(find, region) + |FragmentOf(find, region)| == |region|
  {
  }

  lemma ReachedAll(find: Finder, contents: seq<Bytes>)
    requires contents != [] && contents[0] != [] && FragmentOf(find, Flatten(contents)) == []
    ensures Reached(find, Flatten(contents), FrameEnds(contents)) == |contents|
  {
    FrameEndsInRegion(contents);
    EndOfFile(contents);
    FragmentLength(find, Flatten(contents));
    ReachedSplits(find, Flatten(contents), FrameEnds(contents), |contents|);
  }

  /** Sound and complete: where the contents end at a record end, a verifying read of everything
      raises nothing exactly when the file is uniform, and then it writes the file. */
  lemma WholeFileVerified(find: Finder, contents: seq<Bytes>, n: nat, tail: Tail, r: Result<Bytes, ReadError>)
    requires contents != [] && contents[0] != [] && n > 0
    requires FragmentOf(find, Flatten(contents)) == [] && FileComes(find, contents, n, tail, r)
    ensures r.Ok? <==> Uniform(find, contents, n)
    ensures r.Ok? ==> r.value == Flatten(contents)
  {
    ReachedAll(find, contents);
    AcceptedIffUniform(find, contents, n);
    Whole(Flatten(contents));
  }

  /** A prefix that ends whole ends at or before the last record end. */
  lemma WholePrefixReached(find: Finder, region: Bytes, x: nat)
    requires x <= |region| && FragmentOf(find, region[..x]) == []
    ensures x <= LastEnd(find, region)
  {
    WholeUpToIsBound(find, region, x);
    BoundsReach(find, region, |RecordsOf(find, region[..x])|);
  }

  /** A uniform file reaches into its last frame with whole records. */
  lemma UniformReachesLast(find: Finder, contents: seq<Bytes>, n: nat)
    requires Uniform(find, contents, n) && contents[0] != []
    ensures StartOf(contents, |contents| - 1) <= LastEnd(find, Flatten(contents))
  {
    var last := |contents| - 1;
    FullFramesHold(find, contents[..last], n);
    PrefixIsFrames(contents, last);
    WholePrefixReached(find, Flatten(contents), StartOf(contents, last));
  }

  /** Where the last whole record ends short of the end of the file, only the last frame's end is
      past it exactly when it reaches the start of that frame. */
  lemma ReachedButLast(find: Finder, contents: seq<Bytes>)
    requires contents != [] && contents[0] != [] && FragmentOf(find, Flatten(contents)) != []
    ensures Reached(find, Flatten(contents), FrameEnds(contents)) < |contents|
    ensures Reached(find, Flatten(contents), FrameEnds(contents)) == |contents| - 1
            <==> StartOf(contents, |contents| - 1) <= LastEnd(find, Flatten(contents))
  {
    FrameEndsInRegion(contents);
    EndOfFile(contents);
    FragmentLength(find, Flatten(contents));
    var at, last := FrameEnds(contents), |contents| - 1;
    assert last > 0 ==> at[last - 1] == StartOf(contents, last);
    EndsPartition(at, LastEnd(find, Flatten(contents)), last);
  }

  lemma EndsPartition(at: seq<nat>, b: nat, last: nat)
    requires InOrder(at) && last + 1 == |at| && b < at[last]
    ensures PartitionPoint(at, b) <= last
    ensures PartitionPoint(at, b) == last <==> last == 0 || at[last - 1] <= b
  {
    PartitionPointSplits(at, b);
  }

  lemma StopIsLast(find: Finder, contents: seq<Bytes>, n: nat, leftOver: bool)
    requires contents != [] && contents[0] != [] && n > 0
    requires AllFull(find, contents[..|contents| - 1], n)
    ensures |FrameEnds(contents)| == |contents| && InRegion(FrameEnds(contents), |Flatten(contents)|)
    ensures StopAccepted(find, Flatten(contents), FrameEnds(contents), Judge(|contents| - 1, n), |contents| - 1,
                         leftOver)
            <==> |RecordsOf(find, contents[|contents| - 1])| <= n
  {
    var last := |contents| - 1;
    FullFramesHold(find, contents[..last], n);
    OffsetsTellFrame(find, contents, last);
    Whole(contents);
    Whole(Flatten(contents));
    assert contents[..|contents|] == contents;
  }

  /** No uniform file is refused for its frames, whatever is left after its last record. */
  lemma UniformIsNeverRefused(find: Finder, contents: seq<Bytes>, n: nat, tail: Tail, r: Result<Bytes, ReadError>)
    requires Uniform(find, contents, n) && contents[0] != [] && FileComes(find, contents, n, tail, r)
    ensures r == if FragmentOf(find, Flatten(contents)) != [] && tail == AsError then Err(IncompleteFinalRecord)
                 else if tail == Ignored then Ok(Flatten(contents)[..LastEnd(find, Flatten(contents))])
                 else Ok(Flatten(contents))
  {
    if FragmentOf(find, Flatten(contents)) == [] {
      ReachedAll(find, contents);
      AcceptedIffUniform(find, contents, n);
    } else {
      UniformReachesLast(find, contents, n);
      ReachedButLast(find, contents);
      AcceptedIsFull(find, contents, n, |contents| - 1);
      StopIsLast(find, contents, n, tail == Ignored);
    }
  }

  /** Where an unterminated record follows the last whole one, a read that raises nothing proves the
      file uniform exactly when that record begins in the last frame: no frame end it crosses is
      judged. */
  lemma TailVerified(find: Finder, contents: seq<Bytes>, n: nat, r: Result<Bytes, ReadError>)
    requires contents != [] && contents[0] != [] && n > 0
    requires FragmentOf(find, Flatten(contents)) != [] && FileComes(find, contents, n, AsRecord, r)
    requires r.Ok?
    ensures Uniform(find, contents, n) <==> StartOf(contents, |contents| - 1) <= LastEnd(find, Flatten(contents))
  {
    if Uniform(find, contents, n) {
      UniformReachesLast(find, contents, n);
    }
    if StartOf(contents, |contents| - 1) <= LastEnd(find, Flatten(contents)) {
      ReachedIsUniform(find, contents, n, r);
    }
  }

  lemma ReachedIsUniform(find: Finder, contents: seq<Bytes>, n: nat, r: Result<Bytes, ReadError>)
    requires contents != [] && contents[0] != [] && n > 0
    requires FragmentOf(find, Flatten(contents)) != [] && FileComes(find, contents, n, AsRecord, r) && r.Ok?
    requires StartOf(contents, |contents| - 1) <= LastEnd(find, Flatten(contents))
    ensures Uniform(find, contents, n)
  {
    FrameEndsInRegion(contents);
    ReachedButLast(find, contents);
    LastIsReached(find, contents, Flatten(contents), FrameEnds(contents), Judge(|contents| - 1, n), n,
                  |contents| - 1, r);
  }

  lemma LastIsReached(find: Finder, contents: seq<Bytes>, region: Bytes, at: seq<nat>, judge: Judge, n: nat,
                      last: nat, r: Result<Bytes, ReadError>)
    requires contents != [] && contents[0] != [] && n > 0 && last == |contents| - 1
    requires region == Flatten(contents) && at == FrameEnds(contents) && judge == Judge(last, n)
    requires InRegion(at, |region|) && Reached(find, region, at) == last < |at|
    requires Comes(find, region, at, judge, AsRecord, r) && r.Ok?
    ensures Uniform(find, contents, n)
  {
    RaisesNothing(find, region, at, judge, last, r);
    AcceptedIsFull(find, contents, n, last);
    StopIsLast(find, contents, n, false);
  }

  /** A read that raises nothing, the bytes after the last record taken for one, was refused at none of
      the offsets its records reach, nor where it stopped. */
  lemma RaisesNothing(find: Finder, region: Bytes, at: seq<nat>, judge: Judge, p: nat, r: Result<Bytes, ReadError>)
    requires InRegion(at, |region|) && Reached(find, region, at) == p <= |at|
    requires Comes(find, region, at, judge, AsRecord, r) && r.Ok?
    ensures AllAccepted(find, region, at, 0, judge, p) && StopAccepted(find, region, at, judge, p, false)
  {
  }

  /** One that begins earlier is let through: here it spans the end of the frame before the last, and
      the file is not uniform. */
  lemma StraddlingTailIsAccepted(find: Finder, record: Bytes, c: Bytes, d: Bytes)
    requires IsRecord(find, record) && c != [] && d != [] && find(c + d) == None
    ensures Flatten([record, record + c, d]) == record + record + (c + d)
    ensures record != [] && FileComes(find, [record, record + c, d], 1, AsRecord, Ok(record + record + (c + d)))
    ensures !Uniform(find, [record, record + c, d], 1)
  {
    var contents := [record, record + c, d];
    Straddles(find, record, c, d);
    FrameEndsInRegion(contents);
    var at := FrameEnds(contents);
    StartStep(contents, 0);
    StartStep(contents, 1);
    StartStep(contents, 2);
    ReachedSplits(find, Flatten(contents), at, 1);
    OneRecord(find, record);
    assert contents[..1] == [record];
    AcceptedIsFull(find, contents, 1, 1);
    FullFramesHold(find, contents[..1], 1);
    PrefixIsFrames(contents, 1);
    EndsAreCuts(find, Flatten(contents[..1]));
    EndsAreCuts(find, Flatten(contents));
    assert CountTo(find, Flatten(contents), at, 1) == 1;
    assert contents[..2][1] == record + c;
  }

  lemma Straddles(find: Finder, record: Bytes, c: Bytes, d: Bytes)
    requires IsRecord(find, record) && c != [] && find(c + d) == None
    ensures var region := Flatten([record, record + c, d]);
            && region == record + record + (c + d)
            && |RecordsOf(find, region)| == 2 && FragmentOf(find, region) == c + d
            && LastEnd(find, region) == 2 * |record|
    ensures FragmentOf(find, record + c) == c
  {
    FlattenCons(record, [record + c, d]);
    FlattenCons(record + c, [d]);
    FlattenOne(d);
    Assoc(record, record + c, d);
    Assoc(record, record, c + d);
    assert record + c + d == record + (c + d);
    assert Agrees(find, c, c + d);
    OneRecord(find, record);
    NoRecord(find, c + d);
    NoRecord(find, c);
    WholeJoins(find, record, c + d);
    WholeJoins(find, record, record + (c + d));
    WholeJoins(find, record, c);
    var region := record + (record + (c + d));
    assert |FragmentOf(find, region)| == |region| - LastEnd(find, region);
  }

  lemma NoRecord(find: Finder, data: Bytes)
    requires find(data) == None
    ensures RecordsOf(find, data) == [] && FragmentOf(find, data) == data
  {
    Whole(data);
  }

  /** A refusal names the first frame that is not full, or a last frame that holds too much. */
  lemma RefusalNamesFrame(find: Finder, contents: seq<Bytes>, n: nat, tail: Tail, r: Result<Bytes, ReadError>)
    requires contents != [] && contents[0] != [] && n > 0
    requires FragmentOf(find, Flatten(contents)) == [] && FileComes(find, contents, n, tail, r)
    requires r.Err? && r.error.FrameRefused?
    ensures r.error.frame < |contents| && AllFull(find, contents[..r.error.frame], n)
    ensures if r.error.frame + 1 < |contents| then !Full(find, contents[r.error.frame], n)
            else |RecordsOf(find, contents[r.error.frame])| > n
  {
    FrameEndsInRegion(contents);
    ReachedAll(find, contents);
    var j := r.error.frame;
    AcceptedIsFull(find, contents, n, j);
    if j + 1 < |contents| {
      AcceptedIsFullFrame(find, contents, Flatten(contents), FrameEnds(contents), Judge(|contents| - 1, n), n, j);
    } else {
      FullFramesHold(find, contents[..j], n);
      OffsetsTellFrame(find, contents, j);
    }
  }

  // ---------------------------------------------------------------- the read of a file

  /** Where the frames from `first` on end, counted from `start`, as far as `len` (`frame_ends_from`). */
  function FrameEndsFrom(frames: seq<Extent>, first: nat, start: nat, len: nat): seq<nat>
    requires first <= |frames|
    decreases |frames| - first
  {
    if first == |frames| then []
    else
      var end := frames[first].start + frames[first].len;
      if end < start || end - start > len then [] else [end - start] + FrameEndsFrom(frames, first + 1, start, len)
  }

  lemma {:induction false} FrameEndsListed(contents: seq<Bytes>, i: nat)
    requires contents != [] && contents[0] != [] && i <= |contents|
    ensures |FrameEnds(contents)| == |contents|
    ensures FrameEndsFrom(Extents(contents), i, 0, |Flatten(contents)|) == FrameEnds(contents)[i..]
    decreases |contents| - i
  {
    FrameEndsInRegion(contents);
    if i < |contents| {
      FrameEndsListed(contents, i + 1);
      StartStep(contents, i);
      DropCons(FrameEnds(contents), i);
    }
  }

  /** A window on everything, which no frame end guards: a verifying reader leaves that to the
      watch. */
  method WindowOnAll(find: Finder, source: Source, end: nat) returns (w: Window)
    requires source.Valid() && source.region == [] && source.at == 0 && end == |source.content|
    modifies source
    ensures fresh(w) && w.source == source && w.Valid(find) && w.region == source.content
    ensures w.walked == 0 && !w.TailTaken() && w.clean
  {
    w := new Window(source, [], 0, 0);
    Whole(source.content);
    w.SeekTo(find, 0, end, source.content);
  }

  lemma LastExtent(contents: seq<Bytes>)
    requires contents != []
    ensures var last := Extents(contents)[|contents| - 1]; last.start + last.len == |Flatten(contents)|
  {
    EndOfFile(contents);
    StartStep(contents, |contents| - 1);
  }

  lemma AllListed(contents: seq<Bytes>, frames: seq<Extent>, end: nat)
    requires contents != [] && contents[0] != [] && frames == Extents(contents)
    requires end == frames[|frames| - 1].start + frames[|frames| - 1].len
    ensures FrameEndsFrom(frames, 0, 0, end) == FrameEnds(contents)
  {
    FrameEndsListed(contents, 0);
    LastExtent(contents);
    Whole(FrameEnds(contents));
  }

  method WatchAll(find: Finder, frames: seq<Extent>, n: nat, ghost contents: seq<Bytes>) returns (watch: Watch)
    requires contents != [] && contents[0] != [] && frames == Extents(contents)
    ensures fresh(watch) && watch.first == 0 && watch.judge == Judge(|contents| - 1, n)
    ensures watch.at == FrameEnds(contents) && watch.Valid(find, Flatten(contents), 0)
  {
    FrameEndsInRegion(contents);
    var last := frames[|frames| - 1];
    AllListed(contents, frames, last.start + last.len);
    watch := new Watch(FrameEndsFrom(frames, 0, 0, last.start + last.len), 0, Judge(|frames| - 1, n));
  }

  /** A verifying reader's read of everything, from record 0. */
  method VerifyFile(find: Finder, source: Source, frames: seq<Extent>, n: nat, tail: Tail, ghost contents: seq<Bytes>)
    returns (r: Result<Bytes, ReadError>)
    requires contents != [] && contents[0] != [] && frames == Extents(contents)
    requires source.Valid() && source.region == [] && source.at == 0 && source.content == Flatten(contents)
    modifies source
    ensures FileComes(find, contents, n, tail, r)
  {
    LastExtent(contents);
    var last := frames[|frames| - 1];
    var window := WindowOnAll(find, source, last.start + last.len);
    var watch := WatchAll(find, frames, n, contents);
    r := WatchedWalk(window, find, watch, tail);
  }
}
