/** What truncating, copying a range and appending frames decide from the counts of the frames
    (src/edit.rs), and what of the framing the decisions keep. */
module EditPlan {
  import opened Bytes
  import opened Seqs
  import opened Records
  import opened Frames
  import opened Placement
  import opened FrameReader
  import opened AppendPlan

  const U64_MAX: nat := 0xFFFF_FFFF_FFFF_FFFF

  datatype EditError =
    | NotValidated(refusal: Refusal)
    | NoRecordsKept
    | PastTotal
    | OffBoundary
    | TargetEndsInFragment
    | TargetNotFull
    | OneDataFrame
    | NoRecordInFrame0
    | Frame0NotWhole
    | TwoDataFrames
    | CountsNotEqual
    | CountsNotSame
    | StartsInsideFrame
    | StartsPastEnd
    | EndsInsideFrame
    | FrameHolds(frame: nat)
    | NothingToCopy
    | LastNotFull

  // ---------------------------------------------------------------- truncate

  /** How many frames are kept (`truncate_records`). */
  function KeptByTruncate(find: Finder, contents: seq<Bytes>, len: nat): Result<nat, EditError> {
    var validated := SeparatorCount(find, contents);
    if validated.Err? then Err(NotValidated(validated.error))
    else
      var n, last := validated.value, Walked(find, contents[|contents| - 1]).0;
      if len == 0 then Err(NoRecordsKept)
      else if len > n * (|contents| - 1) + last then Err(PastTotal)
      else
        var k := len / n;
        if len % n != 0 || (k >= |contents| && last != n) then Err(OffBoundary) else Ok(k)
  }

  /** A truncation keeps at least one frame and no more than there are, and they are as many frames
      as the records asked for fill. */
  lemma TruncateKeeps(find: Finder, contents: seq<Bytes>, len: nat)
    requires KeptByTruncate(find, contents, len).Ok?
    ensures var k, n := KeptByTruncate(find, contents, len).value, Walked(find, contents[0]).0;
            |contents| >= 3 && n > 0 && 1 <= k <= |contents| && len == FirstRecord(n, k)
            && (k == |contents| ==> Walked(find, contents[k - 1]).0 == n)
  {
    var k, n := KeptByTruncate(find, contents, len).value, Walked(find, contents[0]).0;
    Divided(len, n);
    var f, last := |contents|, Walked(find, contents[|contents| - 1]).0;
    FirstRecordIsProduct(n, f - 1);
    PastLast(n, f, k);
  }

  lemma PastLast(n: nat, f: nat, k: nat)
    requires n > 0 && f > 0
    ensures k > f ==> FirstRecord(n, k) > FirstRecord(n, f - 1) + n
  {
    if k > f { FirstRecordMonotone(n, f, k); }
  }

  /** Of a uniform file it keeps exactly the first `len` records, in full frames, but for the
      fragment behind the last where everything is kept. */
  lemma TruncateIsPrefix(find: Finder, contents: seq<Bytes>, n: nat, len: nat)
    requires Uniform(find, contents, n) && KeptByTruncate(find, contents, len).Ok?
    ensures KeptByTruncate(find, contents, len).value <= |contents| && len <= |RecordsOf(find, Flatten(contents))|
    ensures var k := KeptByTruncate(find, contents, len).value;
            && RecordsOf(find, Flatten(contents[..k])) == RecordsOf(find, Flatten(contents))[..len]
            && (k < |contents| ==> AllFull(find, contents[..k], n) && FragmentOf(find, Flatten(contents[..k])) == [])
  {
    var k := KeptByTruncate(find, contents, len).value;
    TruncateKeeps(find, contents, len);
    FrameRecords(find, contents, n, 0);
    if k < |contents| {
      PrefixOfUniform(find, contents, n, k);
    } else {
      FrameRecords(find, contents, n, k - 1);
      EverythingIsPrefix(find, contents);
    }
  }

  lemma PrefixOfUniform(find: Finder, contents: seq<Bytes>, n: nat, k: nat)
    requires Uniform(find, contents, n) && k < |contents|
    ensures FirstRecord(n, k) <= |RecordsOf(find, Flatten(contents))|
    ensures RecordsOf(find, Flatten(contents[..k])) == RecordsOf(find, Flatten(contents))[..FirstRecord(n, k)]
    ensures AllFull(find, contents[..k], n) && FragmentOf(find, Flatten(contents[..k])) == []
  {
    UniformPrefix(find, contents, n, k);
    SplitAtFrame(find, contents, n, k);
    FullFramesHold(find, contents[..k], n);
  }

  lemma EverythingIsPrefix(find: Finder, contents: seq<Bytes>)
    ensures var whole := RecordsOf(find, Flatten(contents));
            RecordsOf(find, Flatten(contents[..|contents|])) == whole[..|whole|]
  {
    Whole(contents);
    Whole(RecordsOf(find, Flatten(contents)));
    assert contents[..|contents|] == contents;
  }

  // ---------------------------------------------------------------- the count of an input

  /** `records_per_frame`: frame 0's, and where two frames are to be compared the one before the last
      data frame as well. */
  function InputCount(find: Finder, contents: seq<Bytes>, last: nat, twoFrames: bool): Result<nat, EditError>
    requires last < |contents|
  {
    var first := Walked(find, contents[0]);
    if last == 0 then Err(OneDataFrame)
    else if first.0 == 0 then Err(NoRecordInFrame0)
    else if !first.1 then Err(Frame0NotWhole)
    else if twoFrames && last == 1 then Err(TwoDataFrames)
    else if twoFrames && Walked(find, contents[last - 1]).0 != first.0 then Err(CountsNotEqual)
    else Ok(first.0)
  }

  // ---------------------------------------------------------------- a range of frames

  /** The frames that hold a range, and the count of the last where the range reaches it. */
  datatype Range = Range(from: nat, upto: nat, tail: Option<nat>)

  /** `frame_range`, for 64-bit `from` and `cnt`. */
  function FrameRange(find: Finder, contents: seq<Bytes>, last: nat, n: nat, from: nat, cnt: Option<nat>)
    : Result<Range, EditError>
    requires last < |contents| && n > 0
  {
    if from % n != 0 then Err(StartsInsideFrame)
    else if from / n > last then Err(StartsPastEnd)
    else
      var k := from / n;
      var end := if cnt.Some? && from + cnt.value <= U64_MAX then Some(from + cnt.value) else None;
      if end.Some? && end.value % n == 0 && end.value / n <= last then Ok(Range(k, end.value / n, None))
      else
        var tail := Walked(find, contents[last]).0;
        if cnt.Some? && SatAdd(from, cnt.value) != n * last + tail then Err(EndsInsideFrame)
        else Ok(Range(k, last + 1, Some(tail)))
  }

  /** What a caller may ask for: from the first record of a frame, to the first record of one or to
      the end of the file. */
  predicate Askable(n: nat, last: nat, total: nat, from: nat, cnt: Option<nat>)
    requires n > 0
  {
    && from % n == 0 && from / n <= last
    && match cnt
       case None => true
       case Some(c) => ((from + c) % n == 0 && (from + c) / n <= last) || from + c == total
  }

  /** The range is accepted exactly when it may be asked for; a range whose end passes 64 bits is
      taken to end at the last 64-bit number, and so is accepted only where the file does. */
  lemma RangeIsExact(find: Finder, contents: seq<Bytes>, last: nat, n: nat, from: nat, cnt: Option<nat>)
    requires last < |contents| && n > 0 && from <= U64_MAX
    requires n * last + Walked(find, contents[last]).0 <= U64_MAX
    ensures var total := n * last + Walked(find, contents[last]).0;
            FrameRange(find, contents, last, n, from, cnt).Ok? <==>
            || Askable(n, last, total, from, cnt)
            || (from % n == 0 && from / n <= last && cnt.Some? && from + cnt.value > U64_MAX && total == U64_MAX)
  {
    if cnt.Some? && from + cnt.value > U64_MAX {
      var total := n * last + Walked(find, contents[last]).0;
      if (from + cnt.value) / n <= last {
        Divided(from + cnt.value, n);
        FirstRecordMonotone(n, (from + cnt.value) / n, last);
        FirstRecordIsProduct(n, last);
      }
    }
  }

  /** A record takes a byte at the least. */
  lemma {:induction false} BoundIsPast(find: Finder, data: Bytes, k: nat)
    requires k < |Bounds(find, data)|
    ensures k <= Bounds(find, data)[k] <= |data|
  {
    BoundWithin(find, data, k);
    if k > 0 {
      BoundIsPast(find, data, k - 1);
      BoundsRise(find, data, k - 1, k);
    }
  }

  lemma NoMoreThanBytes(find: Finder, content: Bytes)
    ensures |RecordsOf(find, content)| <= |content|
  {
    LastBound(find, content);
    BoundIsPast(find, content, |RecordsOf(find, content)|);
  }

  /** The frames a seek table can tell of: 32 bits of them, each of a size of 32 bits. */
  ghost predicate InTable(contents: seq<Bytes>) {
    |contents| <= U32_MAX && forall i :: 0 <= i < |contents| ==> |contents[i]| <= U32_MAX
  }

  /** The records of such a file never come to the last 64-bit number. */
  lemma TotalFits(find: Finder, contents: seq<Bytes>, last: nat, n: nat)
    requires last < |contents| && InTable(contents) && n == Walked(find, contents[0]).0
    ensures n * last + Walked(find, contents[last]).0 < U64_MAX
  {
    NoMoreThanBytes(find, contents[0]);
    NoMoreThanBytes(find, contents[last]);
    ScaleAtMost(last, n, U32_MAX);
    ScaleAtMost(U32_MAX, last, U32_MAX - 1);
  }

  /** So of a file a seek table can tell of, at the count its frame 0 holds, a range is accepted exactly
      when it may be asked for. */
  lemma RangeIsAskable(find: Finder, contents: seq<Bytes>, last: nat, n: nat, from: nat, cnt: Option<nat>)
    requires last < |contents| && InTable(contents) && n == Walked(find, contents[0]).0 && n > 0 && from <= U64_MAX
    ensures FrameRange(find, contents, last, n, from, cnt).Ok? <==>
            Askable(n, last, n * last + Walked(find, contents[last]).0, from, cnt)
  {
    TotalFits(find, contents, last, n);
    RangeIsExact(find, contents, last, n, from, cnt);
  }

  /** Where a range ends: a sum past 64 bits is accepted only of a file as long as can be told, and
      then reaches its end. */
  function RangeEnd(from: nat, cnt: Option<nat>, total: nat): nat {
    if cnt.Some? && from + cnt.value <= U64_MAX then from + cnt.value else total
  }

  /** The frames a range names hold exactly the records asked for, on a file whose data frames are
      uniform. */
  lemma RangeHolds(find: Finder, contents: seq<Bytes>, last: nat, n: nat, from: nat, cnt: Option<nat>)
    requires last < |contents| && Uniform(find, contents[..last + 1], n)
    requires FrameRange(find, contents, last, n, from, cnt).Ok?
    ensures var range := FrameRange(find, contents, last, n, from, cnt).value;
            var whole := RecordsOf(find, Flatten(contents[..last + 1]));
            && range.from <= range.upto <= last + 1
            && (range.from < range.upto ==>
                  && from <= RangeEnd(from, cnt, |whole|) <= |whole|
                  && RecordsOf(find, Flatten(contents[range.from..range.upto]))
                     == whole[from..RangeEnd(from, cnt, |whole|)])
  {
    var range := FrameRange(find, contents, last, n, from, cnt).value;
    RangePlaced(find, contents, last, n, from, cnt);
    var data := contents[..last + 1];
    if range.from < range.upto {
      SliceOfTake(contents, range.from, range.upto, last + 1);
      SpanRecords(find, data, n, range.from, range.upto);
      FrameRecords(find, data, n, last);
      FirstRecordIsProduct(n, last);
    }
  }

  lemma RangePlaced(find: Finder, contents: seq<Bytes>, last: nat, n: nat, from: nat, cnt: Option<nat>)
    requires last < |contents| && n > 0 && FrameRange(find, contents, last, n, from, cnt).Ok?
    ensures var range := FrameRange(find, contents, last, n, from, cnt).value;
            && range.from <= range.upto <= last + 1 && from == FirstRecord(n, range.from)
            && match range.tail
               case None => && cnt.Some? && from + cnt.value == FirstRecord(n, range.upto) <= U64_MAX
                            && range.upto <= last
               case Some(tail) =>
                 && range.upto == last + 1 && tail == Walked(find, contents[last]).0
                 && (cnt.Some? ==> RangeEnd(from, cnt, n * last + tail) == n * last + tail)
  {
    Divided(from, n);
    if cnt.Some? {
      var end := from + cnt.value;
      Divided(end, n);
      if end / n < from / n {
        FirstRecordMonotone(n, end / n + 1, from / n);
      }
    }
  }

  /** The frames before the end of the data are full. */
  lemma RangeIsFull(find: Finder, contents: seq<Bytes>, last: nat, n: nat, k: nat, j: nat)
    requires last < |contents| && Uniform(find, contents[..last + 1], n) && k <= j <= last + 1
    ensures j <= last ==> AllFull(find, contents[k..j], n)
    ensures j == last + 1 && k < j ==>
              Uniform(find, contents[k..j], n)
              && (AllFull(find, contents[k..j], n) <==> Full(find, contents[last], n))
  {
    var data := contents[..last + 1];
    if j <= last {
      UniformPrefix(find, data, n, j);
      forall i | 0 <= i < |contents[k..j]|
        ensures Full(find, contents[k..j][i], n)
      {
        assert data[..j][k + i] == contents[k..j][i];
      }
    } else if k < j {
      UniformSuffix(find, data, n, k);
      assert data[k..] == contents[k..j];
      UniformIsFull(find, contents[k..j], n);
      assert contents[k..j][j - k - 1] == contents[last];
    }
  }

  lemma UniformIsFull(find: Finder, frames: seq<Bytes>, n: nat)
    requires Uniform(find, frames, n)
    ensures AllFull(find, frames, n) <==> Full(find, frames[|frames| - 1], n)
  {
    var last := |frames| - 1;
    if Full(find, frames[last], n) {
      forall i | 0 <= i < |frames|
        ensures Full(find, frames[i], n)
      {
        if i < last { assert frames[..last][i] == frames[i]; }
      }
    }
  }

  // ---------------------------------------------------------------- copying a range

  /** `copy_range_with`: the frames copied. */
  function RangeCopied(find: Finder, contents: seq<Bytes>, last: nat, from: nat, cnt: Option<nat>, required: bool,
                       twoFrames: bool)
    : Result<Range, EditError>
    requires last < |contents|
  {
    var n := InputCount(find, contents, last, twoFrames);
    if n.Err? then Err(n.error)
    else
      var range := FrameRange(find, contents, last, n.value, from, cnt);
      if range.Err? then Err(range.error)
      else if cnt == Some(0) then Err(NothingToCopy)
      else if range.value.tail.Some? && range.value.tail.value != n.value && required then Err(LastNotFull)
      else range
  }

  lemma InputCountIsCount(find: Finder, contents: seq<Bytes>, last: nat, n: nat, twoFrames: bool)
    requires last < |contents| && Uniform(find, contents[..last + 1], n)
    requires InputCount(find, contents, last, twoFrames).Ok?
    ensures InputCount(find, contents, last, twoFrames) == Ok(n)
  {
    assert contents[..last + 1][..last][0] == contents[0];
  }

  /** A copy of a range of a uniform file is a uniform file whose records are that slice; where
      alignment is required every frame of it holds the count, and it is full but for a fragment at
      the end of the file. */
  lemma CopyIsSlice(find: Finder, contents: seq<Bytes>, last: nat, n: nat, from: nat, cnt: Option<nat>, required: bool,
                    twoFrames: bool)
    requires last < |contents| && Uniform(find, contents[..last + 1], n)
    requires RangeCopied(find, contents, last, from, cnt, required, twoFrames).Ok?
    ensures var range := RangeCopied(find, contents, last, from, cnt, required, twoFrames).value;
            var whole := RecordsOf(find, Flatten(contents[..last + 1]));
            && range.from < range.upto <= last + 1
            && from <= RangeEnd(from, cnt, |whole|) <= |whole|
            && RecordsOf(find, Flatten(contents[range.from..range.upto]))
               == whole[from..RangeEnd(from, cnt, |whole|)]
            && (required && range.upto == last + 1 ==> |RecordsOf(find, contents[last])| == n)
            && (required ==>
                  (AllFull(find, contents[range.from..range.upto], n)
                   <==> range.upto <= last || FragmentOf(find, contents[last]) == []))
  {
    InputCountIsCount(find, contents, last, n, twoFrames);
    var range := FrameRange(find, contents, last, n, from, cnt).value;
    RangePlaced(find, contents, last, n, from, cnt);
    RangeHolds(find, contents, last, n, from, cnt);
    RangeIsFull(find, contents, last, n, range.from, range.upto);
  }

  // ---------------------------------------------------------------- appending frames

  /** `check_range_uniform`: the first of the frames `i` up to `j` that holds another count. Only one
      that ends both the range and the data may hold fewer. */
  function RangeUneven(find: Finder, contents: seq<Bytes>, last: nat, n: nat, i: nat, j: nat): Option<nat>
    requires i <= j <= |contents|
    decreases j - i
  {
    if i == j then None
    else
      var held := Walked(find, contents[i]).0;
      if held == n || (i == j - 1 && i == last && held < n) then RangeUneven(find, contents, last, n, i + 1, j)
      else Some(i)
  }

  /** What is taken of the input, the file it goes to holding `n` records to a frame. */
  function RangeTaken(find: Finder, input: seq<Bytes>, inLast: nat, n: nat, from: nat, cnt: Option<nat>, every: bool)
    : Result<Range, EditError>
    requires inLast < |input| && n > 0
  {
    var inCount := InputCount(find, input, inLast, false);
    if inCount.Err? then Err(inCount.error)
    else if inCount.value != n then Err(CountsNotSame)
    else
      var range := FrameRange(find, input, inLast, n, from, cnt);
      if range.Err? then Err(range.error)
      else if range.value.from < range.value.upto <= |input| && every
              && RangeUneven(find, input, inLast, n, range.value.from, range.value.upto).Some?
      then Err(FrameHolds(RangeUneven(find, input, inLast, n, range.value.from, range.value.upto).value))
      else range
  }

  /** `append_frames_with`: the frames taken of the input, none where the range is empty. */
  function FramesTaken(find: Finder, contents: seq<Bytes>, last: nat, input: seq<Bytes>, inLast: nat, from: nat,
                       cnt: Option<nat>, every: bool)
    : Result<Range, EditError>
    requires last < |contents| && inLast < |input|
  {
    var validated, held := SeparatorCount(find, contents), Walked(find, contents[last]);
    if validated.Err? then Err(NotValidated(validated.error))
    else if !held.1 then Err(TargetEndsInFragment)
    else if held.0 != validated.value then Err(TargetNotFull)
    else
      RangeTaken(find, input, inLast, validated.value, from, cnt, every)
  }

  /** What the check of every frame is passed by: the counts, and nothing about where frames end. */
  lemma {:induction false} UnevenMeans(find: Finder, contents: seq<Bytes>, last: nat, n: nat, i: nat, j: nat)
    requires i <= j <= |contents|
    ensures RangeUneven(find, contents, last, n, i, j).None? <==>
            forall m :: i <= m < j ==> EvenAt(find, contents, last, n, j, m)
    decreases j - i
  {
    if i < j {
      UnevenMeans(find, contents, last, n, i + 1, j);
      assert EvenAt(find, contents, last, n, j, i) <==>
             (Walked(find, contents[i]).0 == n || (i == j - 1 && i == last && Walked(find, contents[i]).0 < n));
    }
  }

  ghost predicate EvenAt(find: Finder, contents: seq<Bytes>, last: nat, n: nat, j: nat, m: nat)
    requires m < |contents|
  {
    var held := Walked(find, contents[m]).0;
    held == n || (m == j - 1 && m == last && held < n)
  }

  lemma UnevenOn(find: Finder, contents: seq<Bytes>, last: nat, n: nat, i: nat, j: nat)
    requires i < j <= |contents|
    ensures RangeUneven(find, contents, last, n, i, j)
            == if EvenAt(find, contents, last, n, j, i) then RangeUneven(find, contents, last, n, i + 1, j) else Some(i)
  {
  }

  /** A frame before the last of those copied that holds bytes after its last record. */
  ghost predicate TornAt(find: Finder, input: seq<Bytes>, m: nat) {
    m < |input| && FragmentOf(find, input[m]) != []
  }

  /** Frames whose counts pass the check leave the target uniform exactly when every one of them but
      the last ends whole, which the check does not ask. */
  lemma CheckedIsUniformIff(find: Finder, target: seq<Bytes>, input: seq<Bytes>, last: nat, n: nat, k: nat, j: nat)
    requires n > 0 && AllFull(find, target, n) && k < j <= |input|
    requires RangeUneven(find, input, last, n, k, j).None?
    ensures Uniform(find, target + input[k..j], n) <==> forall m :: k <= m < j - 1 ==> !TornAt(find, input, m)
  {
    UnevenMeans(find, input, last, n, k, j);
    assert EvenAt(find, input, last, n, j, j - 1);
    if forall m :: k <= m < j - 1 ==> !TornAt(find, input, m) {
      forall m | k <= m < j - 1
        ensures Full(find, input[m], n)
      {
        assert EvenAt(find, input, last, n, j, m) && !TornAt(find, input, m);
      }
      FullThenLast(find, target, input, n, k, j);
    }
    if Uniform(find, target + input[k..j], n) {
      forall m | k <= m < j - 1
        ensures !TornAt(find, input, m)
      {
        UniformHasFull(find, target, input, n, k, j, m);
      }
    }
  }

  lemma FullThenLast(find: Finder, target: seq<Bytes>, input: seq<Bytes>, n: nat, k: nat, j: nat)
    requires n > 0 && AllFull(find, target, n) && k < j <= |input|
    requires forall m :: k <= m < j - 1 ==> Full(find, input[m], n)
    requires |RecordsOf(find, input[j - 1])| <= n
    ensures Uniform(find, target + input[k..j], n)
  {
    var slice := input[k..j];
    var body := slice[..|slice| - 1];
    forall i | 0 <= i < |body|
      ensures Full(find, body[i], n)
    {
      assert body[i] == input[k + i];
    }
    FullThenUniform(find, target, slice, n);
  }

  lemma UniformHasFull(find: Finder, target: seq<Bytes>, input: seq<Bytes>, n: nat, k: nat, j: nat, m: nat)
    requires k <= m < j - 1 && j <= |input| && Uniform(find, target + input[k..j], n)
    ensures Full(find, input[m], n)
  {
    var all, i := target + input[k..j], |target| + m - k;
    assert all[..|all| - 1][i] == all[i] == input[m];
  }

  lemma OneAndFragment(find: Finder, record: Bytes, c: Bytes)
    requires IsRecord(find, record) && c != [] && find(c) == None
    ensures Walked(find, record) == (1, true) && Full(find, record, 1)
    ensures Walked(find, record + c) == (1, false) && FragmentOf(find, record + c) != []
  {
    OneRecord(find, record);
    Whole(c);
    WholeJoins(find, record, c);
  }

  /** An input whose counts are even but whose second frame does not end whole passes the check of
      every frame, and its frames do not fit. */
  lemma TornFrameIsTaken(find: Finder, record: Bytes, c: Bytes)
    requires IsRecord(find, record) && c != [] && find(c) == None
    ensures var target, input := [record, record, record], [record, record + c, record];
            && FramesTaken(find, target, 2, input, 2, 1, None, true) == Ok(Range(1, 3, Some(1)))
            && !Uniform(find, target + input[1..3], 1)
  {
    var target, input := [record, record, record], [record, record + c, record];
    OneAndFragment(find, record, c);
    UnevenMeans(find, input, 2, 1, 1, 3);
    assert forall m :: 1 <= m < 3 ==> EvenAt(find, input, 2, 1, 3, m);
    assert SeparatorCount(find, target) == Ok(1) && InputCount(find, input, 2, false) == Ok(1);
    assert FrameRange(find, input, 2, 1, 1, None) == Ok(Range(1, 3, Some(1)));
    assert AllFull(find, target, 1) && TornAt(find, input, 1);
    CheckedIsUniformIff(find, target, input, 2, 1, 1, 3);
  }

  /** Frames taken of a uniform input leave a uniform target uniform, and add exactly their records. */
  lemma TakenIsUniform(find: Finder, target: seq<Bytes>, input: seq<Bytes>, inLast: nat, n: nat, k: nat, j: nat)
    requires n > 0 && AllFull(find, target, n) && inLast < |input| && Uniform(find, input[..inLast + 1], n)
    requires k < j <= inLast + 1
    ensures Uniform(find, target + input[k..j], n)
    ensures RecordsOf(find, Flatten(target + input[k..j]))
            == RecordsOf(find, Flatten(target)) + RecordsOf(find, Flatten(input[k..j]))
  {
    var data := input[..inLast + 1];
    SliceOfTake(input, k, j, inLast + 1);
    SliceIsUniform(find, data, n, k, j);
    FullThenUniform(find, target, input[k..j], n);
    FlattenConcat(target, input[k..j]);
    FullFramesHold(find, target, n);
    WholeJoins(find, Flatten(target), Flatten(input[k..j]));
  }

  lemma SliceIsUniform(find: Finder, frames: seq<Bytes>, n: nat, k: nat, j: nat)
    requires Uniform(find, frames, n) && k < j <= |frames|
    ensures Uniform(find, frames[k..j], n)
  {
    var slice, front := frames[k..j], frames[..|frames| - 1];
    var body := slice[..|slice| - 1];
    if j < |frames| { assert front[j - 1] == frames[j - 1]; }
    forall i | 0 <= i < |body|
      ensures Full(find, body[i], n)
    {
      assert body[i] == front[k + i];
    }
  }

  // ---------------------------------------------------------------- divide and rejoin

  ghost predicate NoneEmpty(contents: seq<Bytes>) {
    forall i :: 0 <= i < |contents| ==> contents[i] != []
  }

  lemma UniformWalks(find: Finder, contents: seq<Bytes>, n: nat, i: nat)
    requires Uniform(find, contents, n) && i < |contents| && contents[i] != []
    ensures i + 1 < |contents| ==> Walked(find, contents[i]) == (n, true)
    ensures Walked(find, contents[i]).0 <= n
  {
    FrameRecords(find, contents, n, i);
  }

  lemma UniformIsValidated(find: Finder, contents: seq<Bytes>, n: nat)
    requires Uniform(find, contents, n) && |contents| >= 3
    ensures SeparatorCount(find, contents) == Ok(n)
  {
    FrameRecords(find, contents, n, 0);
    FrameRecords(find, contents, n, |contents| - 2);
  }

  /** Enough full frames on each side of a frame boundary, and none empty: the tail can be copied, the
      file truncated there, and the frames copied put back, and each step takes exactly the frames on
      its side. */
  lemma CopyGoesThrough(find: Finder, contents: seq<Bytes>, n: nat, k: nat)
    requires Uniform(find, contents, n) && 0 < k < |contents| && contents[0] != []
    ensures RangeCopied(find, contents, |contents| - 1, FirstRecord(n, k), None, false, false)
            == Ok(Range(k, |contents|, Some(Walked(find, contents[|contents| - 1]).0)))
  {
    UniformWalks(find, contents, n, 0);
    FrameOfIndex(FirstRecord(n, k), n, k, 0);
  }

  lemma TruncateGoesThrough(find: Finder, contents: seq<Bytes>, n: nat, k: nat)
    requires Uniform(find, contents, n) && 3 <= |contents| && 0 < k < |contents|
    ensures KeptByTruncate(find, contents, FirstRecord(n, k)) == Ok(k)
  {
    UniformIsValidated(find, contents, n);
    FrameOfIndex(FirstRecord(n, k), n, k, 0);
    FirstRecordMonotone(n, k, |contents| - 1);
    FirstRecordMonotone(n, 0, k);
    FirstRecordIsProduct(n, |contents| - 1);
  }

  /** The frames of a uniform file from `k` on pass the check of every frame. */
  lemma NoneUneven(find: Finder, contents: seq<Bytes>, n: nat, k: nat)
    requires Uniform(find, contents, n) && NoneEmpty(contents) && k < |contents|
    ensures var input := contents[k..];
            RangeUneven(find, input, |input| - 1, n, 0, |input|).None?
  {
    var input := contents[k..];
    var count := |input|;
    var last := count - 1;
    UnevenMeans(find, input, last, n, 0, count);
    forall m | 0 <= m < count
      ensures EvenAt(find, input, last, n, count, m)
    {
      UniformWalks(find, contents, n, k + m);
      assert input[m] == contents[k + m];
    }
  }

  lemma RejoinGoesThrough(find: Finder, contents: seq<Bytes>, n: nat, k: nat, every: bool)
    requires Uniform(find, contents, n) && 3 <= k && k + 2 <= |contents|
    requires NoneEmpty(contents)
    ensures FramesTaken(find, contents[..k], k - 1, contents[k..], |contents| - k - 1, 0, None, every)
            == Ok(Range(0, |contents| - k, Some(Walked(find, contents[|contents| - 1]).0)))
  {
    var target, input := contents[..k], contents[k..];
    SliceIsUniform(find, contents, n, 0, k);
    assert contents[0..k] == target;
    UniformIsValidated(find, target, n);
    UniformSuffix(find, contents, n, k);
    UniformWalks(find, contents, n, k - 1);
    UniformWalks(find, contents, n, k);
    assert input[0] == contents[k] && target[k - 1] == contents[k - 1];
    assert input[|input| - 1] == contents[|contents| - 1];
    NoneUneven(find, contents, n, k);
    FrameOfIndex(0, n, 0, 0);
  }
}
