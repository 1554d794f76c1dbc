/** Verifying reads of a reader opened from a later frame (`watch_verified_span` of src/reader.rs): what
    is judged are the frames of the file, whatever groups they are read in. */
module VerifyFrom {
  import opened Bytes
  import opened Seqs
  import opened Records
  import opened Frames
  import opened Window
  import opened Cursor
  import opened Watch
  import opened Verify
  import opened Ranges
  import opened Reader
  import opened Reopen

  /** The frame ends a span of `len` bytes from `start` reaches, counted from `start`: those of `ends`
      past it, and then the last one. */
  function PhysicalEnds(ends: seq<nat>, finalEnd: nat, start: nat, len: nat): seq<nat> {
    var next := PartitionPoint(ends, start);
    if next <= |ends| then TakeWithin(ends[next..] + [finalEnd], start, len) else []
  }

  /** As many of `ends` as lie within `len` bytes from `start`, counted from there. */
  function TakeWithin(ends: seq<nat>, start: nat, len: nat): seq<nat> {
    if ends == [] || ends[0] > start + len || ends[0] < start then []
    else [ends[0] - start] + TakeWithin(ends[1..], start, len)
  }

  lemma {:induction false} AllWithin(ends: seq<nat>, at: seq<nat>, start: nat, len: nat)
    requires |ends| == |at|
    requires forall i :: 0 <= i < |ends| ==> ends[i] == start + at[i] && at[i] <= len
    ensures TakeWithin(ends, start, len) == at
  {
    if ends != [] {
      forall i | 0 <= i < |ends[1..]|
        ensures ends[1..][i] == start + at[1..][i] && at[1..][i] <= len
      {
        assert ends[1..][i] == ends[i + 1] && at[1..][i] == at[i + 1];
      }
      AllWithin(ends[1..], at[1..], start, len);
      HeadAndTail(at);
    }
  }

  /** Where frame `s + i` of the file ends. */
  lemma EndFrom(contents: seq<Bytes>, s: nat, i: nat)
    requires s + i < |contents|
    ensures StartOf(contents, s) + StartOf(contents[s..], i + 1) == StartOf(contents, s + i + 1)
  {
    SuffixSpan(contents, s, i + 1, i + 1);
  }

  /** The first end past the start of frame `s` is its own. */
  lemma PassedAre(contents: seq<Bytes>, s: nat)
    requires s < |contents| && contents[s] != []
    ensures PartitionPoint(NonfinalEnds(contents), StartOf(contents, s)) == s
  {
    var ends, next := NonfinalEnds(contents), PartitionPoint(NonfinalEnds(contents), StartOf(contents, s));
    NonfinalEndsInOrder(contents);
    PartitionPointSplits(ends, StartOf(contents, s));
    if next < s {
      EndsPassed(contents, s, next);
    } else if s < next {
      NonfinalEndAt(contents, s);
      StartStep(contents, s);
    }
  }

  lemma LastAt(ends: seq<nat>, s: nat, last: nat, i: nat)
    requires s + i <= |ends|
    ensures (ends[s..] + [last])[i] == if s + i < |ends| then ends[s + i] else last
  {
  }

  /** Where frame `j` ends, out of the nonfinal ends and the last one. */
  lemma EndAt(contents: seq<Bytes>, j: nat)
    requires j < |contents|
    ensures StartOf(contents, j + 1)
            == if j < |NonfinalEnds(contents)| then NonfinalEnds(contents)[j] else |Flatten(contents)|
  {
    if j + 1 < |contents| {
      NonfinalEndAt(contents, j);
    } else {
      EndOfFile(contents);
    }
  }

  lemma PastAt(contents: seq<Bytes>, rest: seq<Bytes>, s: nat, ends: seq<nat>, finalEnd: nat, base: nat, i: nat)
    requires s + i < |contents| && rest == contents[s..] && base == StartOf(contents, s)
    requires ends == NonfinalEnds(contents) && finalEnd == |Flatten(contents)|
    ensures (ends[s..] + [finalEnd])[i] == base + StartOf(rest, i + 1)
  {
    EndFrom(contents, s, i);
    EndAt(contents, s + i);
    LastAt(ends, s, finalEnd, i);
  }

  /** What a read of everything from frame `s` on is judged by: the ends of the frames of the file. */
  lemma PhysicalEndsAre(contents: seq<Bytes>, rest: seq<Bytes>, s: nat, ends: seq<nat>, finalEnd: nat, base: nat,
                        len: nat)
    requires s < |contents| && rest == contents[s..] && rest[0] != []
    requires ends == NonfinalEnds(contents) && finalEnd == |Flatten(contents)|
    requires base == StartOf(contents, s) && len == |Flatten(rest)|
    ensures PhysicalEnds(ends, finalEnd, base, len) == FrameEnds(rest)
  {
    var past := ends[s..] + [finalEnd];
    PassedAre(contents, s);
    FrameEndsInRegion(rest);
    forall i | 0 <= i < |past|
      ensures past[i] == base + FrameEnds(rest)[i] && FrameEnds(rest)[i] <= len
    {
      PastAt(contents, rest, s, ends, finalEnd, base, i);
    }
    AllWithin(past, FrameEnds(rest), base, len);
  }

  /** Everything from frame `s` on, read by a verifying reader of the groups: its window is guarded by
      the frame ends of the file, and its watch judges by them. */
  method VerifyRest(find: Finder, source: Source, ends: seq<nat>, base: nat, finalEnd: nat, s: nat, n: nat, tail: Tail,
                    ghost contents: seq<Bytes>)
    returns (r: Result<Bytes, ReadError>)
    requires s < |contents| && contents[s] != [] && ends == NonfinalEnds(contents)
    requires base == StartOf(contents, s) && finalEnd == |Flatten(contents)|
    requires source.Valid() && source.region == [] && source.at == 0 && source.content == Flatten(contents[s..])
    modifies source
    ensures RestComes(find, contents, s, n, tail, r)
  {
    var window := WindowOnRest(find, source, ends, base, s, contents);
    RestIsJudged(contents, contents[s..], s, ends, base, finalEnd);
    var watch := new Watch(PhysicalEnds(ends, finalEnd, base, finalEnd - base), 0, Judge(|ends| - s, n));
    r := WalkRest(find, window, watch, tail, ends, base, s, n, contents);
  }

  lemma RestIsJudged(contents: seq<Bytes>, rest: seq<Bytes>, s: nat, ends: seq<nat>, base: nat, finalEnd: nat)
    requires s < |contents| && rest == contents[s..] && rest[0] != [] && ends == NonfinalEnds(contents)
    requires base == StartOf(contents, s) && finalEnd == |Flatten(contents)|
    ensures base <= finalEnd && PhysicalEnds(ends, finalEnd, base, finalEnd - base) == FrameEnds(rest)
    ensures InRegion(FrameEnds(rest), |Flatten(rest)|) && |ends| - s == |rest| - 1
  {
    RestLength(contents, s);
    PhysicalEndsAre(contents, rest, s, ends, finalEnd, base, finalEnd - base);
    FrameEndsInRegion(rest);
  }

  lemma RestLength(contents: seq<Bytes>, s: nat)
    requires s <= |contents|
    ensures |Flatten(contents)| - StartOf(contents, s) == |Flatten(contents[s..])|
  {
    SpanIsFrames(contents, s, |contents|);
    EndOfFile(contents);
    assert contents[s..|contents|] == contents[s..];
  }

  method WalkRest(find: Finder, window: Window, watch: Watch, tail: Tail, ghost ends: seq<nat>, ghost base: nat,
                  ghost s: nat, ghost n: nat, ghost contents: seq<Bytes>)
    returns (r: Result<Bytes, ReadError>)
    requires s < |contents| && contents[s] != [] && ends == NonfinalEnds(contents) && base == StartOf(contents, s)
    requires window.Valid(find) && window.walked == 0 && !window.TailTaken()
    requires window.region == Flatten(contents[s..]) && window.frameEnds == ends
    requires window.frameEndBase + window.start == base
    requires window.clean == EndsOnRecords(Bounds(find, window.region), |window.region|, base, ends)
    requires watch.Valid(find, window.region, 0) && watch.first == 0
    requires watch.at == FrameEnds(contents[s..]) && watch.judge == Judge(|contents[s..]| - 1, n)
    modifies window, window.source, watch
    ensures RestComes(find, contents, s, n, tail, r)
  {
    r := WatchedWalk(window, find, watch, tail);
    if r.Err? && (r.error == IncompleteAtFrameEnd || !window.clean) {
      EarlyMeans(window, find, watch, r.error, ends, base);
    }
    RestIs(find, contents, s, n, tail, r, window.region, watch.at, watch.judge, window.clean, ends, base);
  }

  /** The first of the frames that is not full holds bytes after its last record, and is not the last. */
  ghost predicate StopsShort(find: Finder, frames: seq<Bytes>, n: nat) {
    exists k :: FirstIsTorn(find, frames, n, k)
  }

  ghost predicate FirstIsTorn(find: Finder, frames: seq<Bytes>, n: nat, k: nat) {
    Torn(find, frames, k) && AllFull(find, frames[..k], n)
  }

  lemma RestIs(find: Finder, contents: seq<Bytes>, s: nat, n: nat, tail: Tail, r: Result<Bytes, ReadError>,
               region: Bytes, at: seq<nat>, judge: Judge, clean: bool, ends: seq<nat>, base: nat)
    requires s < |contents| && contents[s] != [] && region == Flatten(contents[s..])
    requires at == FrameEnds(contents[s..]) && judge == Judge(|contents[s..]| - 1, n)
    requires ends == NonfinalEnds(contents) && base == StartOf(contents, s)
    requires clean == EndsOnRecords(Bounds(find, region), |region|, base, ends)
    requires InRegion(at, |region|) && Reached(find, region, at) <= |at|
    requires r == Err(IncompleteAtFrameEnd) ==> exists p, x :: Halts(find, region, at, judge, ends, base, p, x)
    requires r != Err(IncompleteAtFrameEnd) ==>
               && Comes(find, region, at, judge, tail, r)
               && (clean || (r.Err? && r.error.FrameRefused?
                             && RefusedClean(find, region, at, judge, ends, base, r.error.frame)))
    ensures RestComes(find, contents, s, n, tail, r)
  {
    if r == Err(IncompleteAtFrameEnd) {
      var p, x :| Halts(find, region, at, judge, ends, base, p, x);
      HaltedIsTorn(find, contents, s, n, region, at, judge, ends, base, p, x);
    } else {
      forall k: nat
        ensures !FirstIsTorn(find, contents[s..], n, k)
      {
        if clean {
          CleanIsNotTorn(find, contents, s, n, region, at, judge, ends, base, k);
        } else {
          PassedIsNotTorn(find, contents, s, n, region, at, judge, ends, base, r.error.frame, k);
        }
      }
    }
  }

  /** The frame ends of the file and those judged are the same but for the last. */
  lemma EndsMatch(contents: seq<Bytes>, s: nat, ends: seq<nat>, base: nat, at: seq<nat>, k: nat)
    requires s + k + 1 < |contents| && contents[s] != []
    requires ends == NonfinalEnds(contents) && base == StartOf(contents, s) && at == FrameEnds(contents[s..])
    ensures s + k < |ends| && k < |at| && ends[s + k] == base + at[k] && 0 < at[k] <= |Flatten(contents[s..])|
  {
    EndFrom(contents, s, k);
    NonfinalEndAt(contents, s + k);
    FrameEndsInRegion(contents[s..]);
  }

  /** The end of a torn frame after full ones is accepted by no judge and is no record end. */
  lemma TornIsUnclean(find: Finder, contents: seq<Bytes>, s: nat, n: nat, region: Bytes, at: seq<nat>, judge: Judge,
                      k: nat)
    requires s < |contents| && contents[s] != [] && region == Flatten(contents[s..])
    requires at == FrameEnds(contents[s..]) && judge == Judge(|contents[s..]| - 1, n)
    requires FirstIsTorn(find, contents[s..], n, k)
    ensures InRegion(at, |region|) && k < |at| && at[k] <= |region| && at[k] !in Bounds(find, region)
    ensures AllAccepted(find, region, at, 0, judge, k) && !Accepted(find, region, at, 0, judge, k)
  {
    var rest := contents[s..];
    FrameEndsInRegion(rest);
    AcceptedIsFull(find, rest, n, k);
    AcceptedIsFullFrame(find, rest, Flatten(rest), FrameEnds(rest), Judge(|rest| - 1, n), n, k);
    FullFramesHold(find, rest[..k], n);
    OffsetsTellFrame(find, rest, k);
    WholeUpToIffBound(find, region, at[k]);
  }

  lemma CleanIsNotTorn(find: Finder, contents: seq<Bytes>, s: nat, n: nat, region: Bytes, at: seq<nat>, judge: Judge,
                       ends: seq<nat>, base: nat, k: nat)
    requires s < |contents| && contents[s] != [] && region == Flatten(contents[s..])
    requires at == FrameEnds(contents[s..]) && judge == Judge(|contents[s..]| - 1, n)
    requires ends == NonfinalEnds(contents) && base == StartOf(contents, s)
    requires EndsOnRecords(Bounds(find, region), |region|, base, ends)
    ensures !FirstIsTorn(find, contents[s..], n, k)
  {
    if FirstIsTorn(find, contents[s..], n, k) {
      EndsMatch(contents, s, ends, base, at, k);
      assert EndIsClean(Bounds(find, region), |region|, base, ends, s + k);
      TornIsUnclean(find, contents, s, n, region, at, judge, k);
      assert false;
    }
  }

  lemma PassedIsNotTorn(find: Finder, contents: seq<Bytes>, s: nat, n: nat, region: Bytes, at: seq<nat>, judge: Judge,
                        ends: seq<nat>, base: nat, j: nat, k: nat)
    requires s < |contents| && contents[s] != [] && region == Flatten(contents[s..])
    requires at == FrameEnds(contents[s..]) && judge == Judge(|contents[s..]| - 1, n)
    requires ends == NonfinalEnds(contents) && base == StartOf(contents, s)
    requires InRegion(at, |region|) && RefusedClean(find, region, at, judge, ends, base, j)
    ensures !FirstIsTorn(find, contents[s..], n, k)
  {
    if FirstIsTorn(find, contents[s..], n, k) {
      EndsMatch(contents, s, ends, base, at, k);
      TornIsUnclean(find, contents, s, n, region, at, judge, k);
      if j < k {
        AcceptedBefore(find, region, at, judge, j, k);
      } else if k < j {
        AcceptedBefore(find, region, at, judge, k, j);
      }
      assert false;
    }
  }

  /** Where the guard stops a read, the first frame that is not full is torn. */
  lemma HaltedIsTorn(find: Finder, contents: seq<Bytes>, s: nat, n: nat, region: Bytes, at: seq<nat>, judge: Judge,
                     ends: seq<nat>, base: nat, p: nat, x: nat)
    requires s < |contents| && contents[s] != [] && region == Flatten(contents[s..])
    requires at == FrameEnds(contents[s..]) && judge == Judge(|contents[s..]| - 1, n)
    requires ends == NonfinalEnds(contents) && base == StartOf(contents, s)
    requires InRegion(at, |region|) && Halts(find, region, at, judge, ends, base, p, x)
    ensures FirstIsTorn(find, contents[s..], n, p)
  {
    HaltIsBeforeLast(contents, s, at, ends, base, x);
    FrameEndsInRegion(contents[s..]);
    OpenEndIsTorn(find, contents[s..], n, region, at, judge, p);
  }

  lemma HaltIsBeforeLast(contents: seq<Bytes>, s: nat, at: seq<nat>, ends: seq<nat>, base: nat, x: nat)
    requires s < |contents| && contents[s] != [] && at == FrameEnds(contents[s..])
    requires ends == NonfinalEnds(contents) && base == StartOf(contents, s) && x > 0 && base + x in ends
    ensures exists m :: 0 <= m < |at| && m + 1 < |contents[s..]| && at[m] == x
  {
    var i :| 0 <= i < |ends| && ends[i] == base + x;
    EndsPassed(contents, s, i);
    EndsMatch(contents, s, ends, base, at, i - s);
  }

  lemma OpenEndIsTorn(find: Finder, rest: seq<Bytes>, n: nat, region: Bytes, at: seq<nat>, judge: Judge, p: nat)
    requires rest != [] && rest[0] != [] && region == Flatten(rest) && at == FrameEnds(rest)
    requires judge == Judge(|rest| - 1, n) && p + 1 < |rest| && |at| == |rest| && InRegion(at, |region|)
    requires AllAccepted(find, region, at, 0, judge, p) && at[p] !in Bounds(find, region)
    ensures FirstIsTorn(find, rest, n, p)
  {
    AcceptedIsFull(find, rest, n, p);
    FullFramesHold(find, rest[..p], n);
    OffsetsTellFrame(find, rest, p);
    WholeUpToIffBound(find, region, at[p]);
  }

  method WindowOnRest(find: Finder, source: Source, ends: seq<nat>, base: nat, s: nat, ghost contents: seq<Bytes>)
    returns (w: Window)
    requires s < |contents| && ends == NonfinalEnds(contents) && base == StartOf(contents, s)
    requires source.Valid() && source.region == [] && source.at == 0 && source.content == Flatten(contents[s..])
    modifies source
    ensures fresh(w) && w.source == source && w.Valid(find) && w.region == source.content
    ensures w.walked == 0 && !w.TailTaken() && w.frameEnds == ends && w.frameEndBase + w.start == base
    ensures w.clean == EndsOnRecords(Bounds(find, w.region), |w.region|, base, ends)
  {
    NonfinalEndsInOrder(contents);
    forall i | 0 <= i < |ends|
      ensures if i < s then ends[i] <= base else base <= ends[i]
    {
      EndsPassed(contents, s, i);
    }
    w := new Window(source, ends, base, s);
    Whole(source.content);
    w.SeekTo(find, 0, |source.content|, source.content);
  }

  /** What such a read comes to: the guard stops it exactly where the first frame that is not full is
      torn; otherwise it comes to what a verifying read of those frames alone does. */
  ghost predicate RestComes(find: Finder, contents: seq<Bytes>, s: nat, n: nat, tail: Tail, r: Result<Bytes, ReadError>)
    requires s < |contents| && contents[s] != []
  {
    if StopsShort(find, contents[s..], n) then r == Err(IncompleteAtFrameEnd)
    else r != Err(IncompleteAtFrameEnd) && FileComes(find, contents[s..], n, tail, r)
  }

  /** Sound and complete for every grouping: where the file ends at a record end, the read raises
      nothing exactly when the frames of the file from `s` on are uniform. */
  lemma RestVerified(find: Finder, contents: seq<Bytes>, s: nat, n: nat, tail: Tail, r: Result<Bytes, ReadError>)
    requires s < |contents| && contents[s] != [] && n > 0
    requires FragmentOf(find, Flatten(contents[s..])) == [] && RestComes(find, contents, s, n, tail, r)
    ensures r.Ok? <==> Uniform(find, contents[s..], n)
    ensures r.Ok? ==> r.value == Flatten(contents[s..])
  {
    if StopsShort(find, contents[s..], n) {
      StoppedIsNotUniform(find, contents[s..], n);
    } else {
      WholeFileVerified(find, contents[s..], n, tail, r);
    }
  }

  lemma StoppedIsNotUniform(find: Finder, frames: seq<Bytes>, n: nat)
    requires StopsShort(find, frames, n)
    ensures !Uniform(find, frames, n)
  {
    var k :| FirstIsTorn(find, frames, n, k);
    if Uniform(find, frames, n) {
      UniformIsNotTorn(find, frames, n, k);
    }
  }
}
