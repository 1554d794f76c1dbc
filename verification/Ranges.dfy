/** What a range read of a uniform file writes (`records_to` of src/reader.rs): the span a request
    names, the walk of it, and the records of the file. */
module Ranges {
  import opened Bytes
  import opened Seqs
  import opened Records
  import opened Frames
  import opened Window
  import opened Cursor
  import opened Placement

  /** Where every frame but the last ends: what an unfinished record must not cross. */
  function NonfinalEnds(contents: seq<Bytes>): (ends: seq<nat>)
    ensures |ends| == if contents == [] then 0 else |contents| - 1
  {
    if contents == [] then []
    else seq(|contents| - 1, i requires 0 <= i < |contents| - 1 => StartOf(contents, i + 1))
  }

  lemma NonfinalEndAt(contents: seq<Bytes>, i: nat)
    requires i + 1 < |contents|
    ensures NonfinalEnds(contents)[i] == StartOf(contents, i + 1)
  {
  }

  /** Every frame end inside a span of a uniform file is a record end. */
  lemma SpanIsClean(find: Finder, contents: seq<Bytes>, n: nat, j: nat, k: nat, region: Bytes)
    requires Uniform(find, contents, n) && j < k <= |contents| && region == Flatten(contents[j..k])
    ensures EndsOnRecords(Bounds(find, region), |region|, StartOf(contents, j), NonfinalEnds(contents))
  {
    forall i | 0 <= i < |NonfinalEnds(contents)|
      ensures EndIsClean(Bounds(find, region), |region|, StartOf(contents, j), NonfinalEnds(contents), i)
    {
      SpanEndIsClean(find, contents, n, j, k, region, i);
    }
  }

  lemma SpanEndIsClean(find: Finder, contents: seq<Bytes>, n: nat, j: nat, k: nat, region: Bytes, i: nat)
    requires Uniform(find, contents, n) && j < k <= |contents| && region == Flatten(contents[j..k])
    requires i < |NonfinalEnds(contents)|
    ensures EndIsClean(Bounds(find, region), |region|, StartOf(contents, j), NonfinalEnds(contents), i)
  {
    NonfinalEndAt(contents, i);
    var x := NonfinalEnds(contents)[i] - StartOf(contents, j);
    if 0 < x <= |region| {
      SpanEndIsBound(find, contents, n, j, k, i + 1, region, x);
    }
  }

  lemma SpanEndIsBound(find: Finder, contents: seq<Bytes>, n: nat, j: nat, k: nat, m: nat, region: Bytes, x: nat)
    requires Uniform(find, contents, n) && j < k <= |contents| && m < |contents|
    requires region == Flatten(contents[j..k]) && 0 < x <= |region|
    requires StartOf(contents, m) == StartOf(contents, j) + x
    ensures x in Bounds(find, region)
  {
    WholeUpToIffBound(find, region, x);
    if m <= j {
      SpanIsFrames(contents, m, j);
    } else if m <= k {
      SpanRecords(find, contents, n, j, m);
      PrefixSpan(contents, j, m, k);
    } else {
      PastSpan(contents, j, k, m, x);
      SpanRecords(find, contents, n, j, k);
      Whole(region);
    }
  }

  lemma PastSpan(contents: seq<Bytes>, j: nat, k: nat, m: nat, x: nat)
    requires j <= k <= m <= |contents| && x <= |Flatten(contents[j..k])|
    requires StartOf(contents, m) == StartOf(contents, j) + x
    ensures x == |Flatten(contents[j..k])|
  {
    SpanIsFrames(contents, j, k);
    SpanIsFrames(contents, k, m);
  }

  lemma PrefixSpan(contents: seq<Bytes>, j: nat, m: nat, k: nat)
    requires j <= m <= k <= |contents|
    ensures StartOf(contents, j) <= StartOf(contents, m)
    ensures StartOf(contents, m) - StartOf(contents, j) <= |Flatten(contents[j..k])|
    ensures Flatten(contents[j..k])[..StartOf(contents, m) - StartOf(contents, j)] == Flatten(contents[j..m])
  {
    SpanIsFrames(contents, j, m);
    FlattenSplit(contents[j..k], m - j);
    TakeOfSlice(contents, j, k, m - j);
    JoinParts(Flatten(contents[j..m]), Flatten(contents[j..k][m - j..]));
  }

  // ---------------------------------------------------------------- the records a range writes

  /** Every record of a file that holds `whole` and then `rest`: bytes after the last separator are
      a record, bytes a finder ends nothing in are not. */
  function AllRecords(whole: seq<Bytes>, rest: Bytes, tailIsRecord: bool): seq<Bytes> {
    whole + if tailIsRecord && rest != [] then [rest] else []
  }

  /** What a read of `cnt` records from `from` writes of a uniform file, once it is placed. */
  function Written(whole: seq<Bytes>, rest: Bytes, tailIsRecord: bool, from: nat, cnt: nat)
    : Result<Bytes, ReadError>
  {
    if from > |whole| then Err(SkipRanOut)
    else if from + cnt <= |whole| then Ok(Flatten(whole[from..from + cnt]))
    else if rest != [] && !tailIsRecord then Err(IncompleteFinalRecord)
    else Ok(Flatten(whole[from..]) + if tailIsRecord then rest else [])
  }

  /** Whether a read can be placed: in a frame, or in the slot after them when it is a record. */
  predicate Placeable(whole: seq<Bytes>, rest: Bytes, places: nat, tailIsRecord: bool, from: nat) {
    from < places || (from == places == |whole| && tailIsRecord && rest != [])
  }

  /** A range of a file of `frameCount` frames of `n` records each. */
  function RangeOf(whole: seq<Bytes>, rest: Bytes, frameCount: nat, n: nat, tailIsRecord: bool,
                   from: nat, cnt: nat)
    : Result<Bytes, ReadError>
  {
    if Placeable(whole, rest, FirstRecord(n, frameCount), tailIsRecord, from) then
      Written(whole, rest, tailIsRecord, from, cnt)
    else Err(PastTheEnd)
  }

  /** From any record of the file, the range is exactly the records from there on, as many as asked
      for or as there are; only a finder's unfinished last record refuses one that would reach it. */
  lemma WrittenIsRecords(whole: seq<Bytes>, rest: Bytes, tailIsRecord: bool, from: nat, cnt: nat)
    requires from < |AllRecords(whole, rest, tailIsRecord)|
    ensures var all := AllRecords(whole, rest, tailIsRecord);
            Written(whole, rest, tailIsRecord, from, cnt) ==
            if rest != [] && !tailIsRecord && from + cnt > |all| then Err(IncompleteFinalRecord)
            else Ok(Flatten(all[from..Min(from + cnt, |all|)]))
  {
    if tailIsRecord && rest != [] {
      var upto := Min(from + cnt, |whole|);
      SliceOfJoinLeft(whole, [rest], from, upto);
      if from + cnt > |whole| {
        FlattenSnoc(whole[from..], rest);
        WholeFrom(whole + [rest], from);
      }
    } else {
      EmptyJoins(whole);
      WholeFrom(whole, from);
      EmptyJoins(Flatten(whole[from..]));
    }
  }

  lemma WholeFrom<T>(s: seq<T>, i: nat)
    requires i <= |s|
    ensures s[i..|s|] == s[i..]
  {
  }

  /** Every record of a uniform file can be placed. */
  lemma RecordsArePlaceable(find: Finder, contents: seq<Bytes>, n: nat, tailIsRecord: bool, from: nat)
    requires Uniform(find, contents, n)
    requires var data := Flatten(contents);
             from < |AllRecords(RecordsOf(find, data), FragmentOf(find, data), tailIsRecord)|
    ensures var data := Flatten(contents);
            Placeable(RecordsOf(find, data), FragmentOf(find, data), FirstRecord(n, |contents|), tailIsRecord, from)
  {
    FrameRecords(find, contents, n, |contents| - 1);
  }

  // ---------------------------------------------------------------- the walk of the span

  /** What a span holding `held` and then `tail` has, as far as a range of `cnt` records from `from`
      is concerned: its records are those of the file from `first` on, and every one asked for is
      among them or the span reaches the end of the file. */
  ghost predicate Covers(whole: seq<Bytes>, rest: Bytes, first: nat, held: seq<Bytes>, tail: Bytes,
                         from: nat, cnt: nat)
  {
    && first <= from && first + |held| <= |whole|
    && held == whole[first..first + |held|]
    && (from + cnt < first + |held| || (first + |held| == |whole| && tail == rest))
  }

  lemma SpanCovers(find: Finder, contents: seq<Bytes>, n: nat, from: nat, cnt: nat, k: nat, e: nat)
    requires Uniform(find, contents, n) && k <= e < |contents| && FirstRecord(n, k) <= from
    requires e + 1 < |contents| ==> from + cnt < FirstRecord(n, e + 1)
    ensures var data, region := Flatten(contents), Flatten(contents[k..e + 1]);
            && Covers(RecordsOf(find, data), FragmentOf(find, data), FirstRecord(n, k),
                      RecordsOf(find, region), FragmentOf(find, region), from, cnt)
            && (e + 1 < |contents| ==> FragmentOf(find, region) == [])
  {
    SpanRecords(find, contents, n, k, e + 1);
  }

  /** A span that stops before the last frame is past every record asked for. */
  lemma ShortSpanHolds(f: nat, n: nat, from: nat, cnt: nat)
    requires n > 0 && f > 0 && LastFrame(f, n, from, cnt) + 1 < f
    ensures from + cnt < FirstRecord(n, LastFrame(f, n, from, cnt) + 1)
  {
    Divided(from + cnt + 1, n);
  }

  lemma AllFit(n: nat, f: nat)
    requires Fits(n, f) && f > 0
    ensures FirstRecord(n, f) <= USIZE_MAX
  {
    FirstRecordMonotone(FirstRecord(n, f), 1, f);
    assert FirstRecord(FirstRecord(n, f), 1) == FirstRecord(n, f);
  }

  /** So a span placed for as many records as there can be reaches the last frame. */
  lemma RestReachesEnd(f: nat, n: nat, e: nat, from: nat)
    requires n > 0 && Fits(n, f) && e < f
    requires e + 1 < f ==> from + USIZE_MAX < FirstRecord(n, e + 1)
    ensures e + 1 == f
  {
    FirstRecordMonotone(n, e + 1, f);
    AllFit(n, f);
  }

  function HeldRange(held: seq<Bytes>, rest: Bytes, skip: nat, cnt: nat, tail: Tail): Result<Bytes, ReadError> {
    if skip > |held| then Err(SkipRanOut)
    else if skip + cnt <= |held| then Ok(Flatten(held[skip..skip + cnt]))
    else if rest != [] && tail == AsError then Err(IncompleteFinalRecord)
    else Ok(Flatten(held[skip..]) + if tail == AsRecord then rest else [])
  }

  /** A range within the walk of a region, in terms of the records it holds. */
  lemma RangeIsHeld(find: Finder, region: Bytes, bounds: seq<nat>, held: seq<Bytes>, rest: Bytes,
                    skip: nat, cnt: nat, tail: Tail)
    requires bounds == Bounds(find, region) && held == RecordsOf(find, region)
    ensures bounds != []
    ensures RangeAnswer(region, bounds, rest, skip, cnt, tail) ==
            HeldRange(held, rest, skip, cnt, tail)
  {
    LastBound(find, region);
    if skip <= |held| {
      BytesBetweenBounds(find, region, skip, Min(skip + cnt, |held|));
      WholeFrom(held, skip);
    }
  }

  /** So the walk of a span that covers the range writes it. */
  lemma HeldIsWritten(whole: seq<Bytes>, rest: Bytes, tailIsRecord: bool, from: nat, cnt: nat,
                      first: nat, held: seq<Bytes>, tailBytes: Bytes, tail: Tail)
    requires Covers(whole, rest, first, held, tailBytes, from, cnt)
    requires tailBytes != [] ==> tail == if tailIsRecord then AsRecord else AsError
    ensures Written(whole, rest, tailIsRecord, from, cnt) == HeldRange(held, tailBytes, from - first, cnt, tail)
  {
    var skip := from - first;
    if skip <= |held| {
      SliceOfSlice(whole, first, first + |held|, skip, Min(skip + cnt, |held|));
      if skip + cnt > |held| {
        DropOfSlice(whole, first, first + |held|, skip);
        WholeFrom(whole, from);
        EmptyJoins(Flatten(held[skip..]));
      }
    }
  }

  lemma CoveredIsWritten(find: Finder, region: Bytes, bounds: seq<nat>, held: seq<Bytes>, tailBytes: Bytes,
                         first: nat, whole: seq<Bytes>, rest: Bytes, tailIsRecord: bool, from: nat, cnt: nat,
                         tail: Tail)
    requires bounds == Bounds(find, region) && held == RecordsOf(find, region)
    requires Covers(whole, rest, first, held, tailBytes, from, cnt)
    requires tailBytes != [] ==> tail == if tailIsRecord then AsRecord else AsError
    ensures bounds != []
    ensures RangeAnswer(region, bounds, tailBytes, from - first, cnt, tail) ==
            Written(whole, rest, tailIsRecord, from, cnt)
  {
    RangeIsHeld(find, region, bounds, held, tailBytes, from - first, cnt, tail);
    HeldIsWritten(whole, rest, tailIsRecord, from, cnt, first, held, tailBytes, tail);
  }
}
