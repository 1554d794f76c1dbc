/** Cutting and joining files at frame boundaries, no frame being decoded but to be counted
    (`truncate_records`, `copy_range_with` and `append_frames_with` of src/edit.rs). */
module Edit {
  import opened Bytes
  import opened Seqs
  import opened Records
  import opened Frames
  import opened Window
  import opened Placement
  import opened SeekableFile
  import opened FrameReader
  import opened AppendPlan
  import opened Append
  import opened EditPlan

  /** The rows of the frames from `k` up to `j` describe the frames from `k` up to `j`, and their bytes
      are those between where the table places the two. */
  lemma SlicePlaced(codec: Codec, parts: seq<Bytes>, k: nat, j: nat)
    requires k <= j <= |parts|
    ensures var table := TableOf(codec, parts);
            && TableOf(codec, parts[k..j]) == table[k..j]
            && CompStart(table, k) <= CompStart(table, j) <= |Flatten(parts)|
            && Flatten(parts)[CompStart(table, k)..CompStart(table, j)] == Flatten(parts[k..j])
    ensures CompStart(TableOf(codec, parts), k) == |Flatten(parts[..k])|
    ensures parts[0..k] == parts[..k] && TableOf(codec, parts)[0..k] == TableOf(codec, parts)[..k]
  {
    ContentsSlice(codec, parts, k, j);
    StartsArePlaces(codec, parts, k);
    StartsArePlaces(codec, parts, j);
    SpanIsFrames(parts, k, j);
  }

  /** Keeps the first `k` frames and the rows of those. */
  method KeepFrames(codec: Codec, file: File, k: nat)
    requires file.Valid(codec) && k <= |file.parts|
    modifies file
    ensures file.Valid(codec) && file.parts == old(file.parts)[..k]
  {
    var table := file.table.value;
    SlicePlaced(codec, file.parts, 0, k);
    SlicePlaced(codec, file.parts, k, |file.parts|);
    file.CutAt(CompStart(table, k), k);
    file.WriteTable(table[..k]);
  }

  // ---------------------------------------------------------------- truncate

  method TruncateRecords(codec: Codec, file: File, find: Finder, len: nat) returns (r: Result<nat, EditError>)
    requires file.Valid(codec)
    modifies file
    ensures file.Valid(codec) && r == KeptByTruncate(find, Contents(codec, old(file.parts)), len)
    ensures r.Err? ==> unchanged(file)
    ensures r.Ok? ==> r.value <= |old(file.parts)| && file.parts == old(file.parts)[..r.value]
  {
    var table := file.table.value;
    var reader := new FrameReader(codec, find, file);
    var validated := ReadSeparatorCount(reader);
    if validated.Err? { return Err(NotValidated(validated.error)); }
    var n := validated.value;
    var last, _ := reader.Walk(|table| - 1);
    var total := n * (|table| - 1) + last;
    if len == 0 { return Err(NoRecordsKept); }
    if len > total { return Err(PastTotal); }
    var k := len / n;
    if len % n != 0 || (k >= |table| && last != n) { return Err(OffBoundary); }
    TruncateKeeps(find, Contents(codec, file.parts), len);
    KeepFrames(codec, file, k);
    return Ok(k);
  }

  // ---------------------------------------------------------------- reading an input

  /** `records_per_frame`. */
  method ReadInputCount(reader: FrameReader, last: nat, twoFrames: bool) returns (r: Result<nat, EditError>)
    requires reader.Valid() && last < |reader.table|
    modifies reader.window, reader.window.source
    ensures reader.Valid() && r == InputCount(reader.find, reader.contents, last, twoFrames)
  {
    if last == 0 { return Err(OneDataFrame); }
    var n, whole := reader.Walk(0);
    if n == 0 { return Err(NoRecordInFrame0); }
    if !whole { return Err(Frame0NotWhole); }
    if twoFrames {
      if last == 1 { return Err(TwoDataFrames); }
      var second, _ := reader.Walk(last - 1);
      if second != n { return Err(CountsNotEqual); }
    }
    return Ok(n);
  }

  /** `frame_range`. */
  method ReadFrameRange(reader: FrameReader, last: nat, n: nat, from: nat, cnt: Option<nat>)
    returns (r: Result<Range, EditError>)
    requires reader.Valid() && last < |reader.table| && n > 0
    modifies reader.window, reader.window.source
    ensures reader.Valid() && r == FrameRange(reader.find, reader.contents, last, n, from, cnt)
  {
    if from % n != 0 { return Err(StartsInsideFrame); }
    if from / n > last { return Err(StartsPastEnd); }
    var k := from / n;
    if cnt.Some? && from + cnt.value <= U64_MAX {
      var end := from + cnt.value;
      if end % n == 0 && end / n <= last { return Ok(Range(k, end / n, None)); }
    }
    var tail, _ := reader.Walk(last);
    var total := n * last + tail;
    if cnt.Some? && SatAdd(from, cnt.value) != total { return Err(EndsInsideFrame); }
    return Ok(Range(k, last + 1, Some(tail)));
  }

  /** `check_range_uniform`: the counts are taken first, and judged in order. */
  method ReadUneven(reader: FrameReader, last: nat, n: nat, k: nat, j: nat) returns (r: Option<nat>)
    requires reader.Valid() && k <= j <= |reader.table|
    modifies reader.window, reader.window.source
    ensures reader.Valid() && r == RangeUneven(reader.find, reader.contents, last, n, k, j)
  {
    var i := k;
    while i < j
      invariant reader.Valid() && k <= i <= j
      invariant RangeUneven(reader.find, reader.contents, last, n, k, j)
                == RangeUneven(reader.find, reader.contents, last, n, i, j)
    {
      UnevenOn(reader.find, reader.contents, last, n, i, j);
      var even := ReadEven(reader, last, n, j, i);
      if !even { return Some(i); }
      i := i + 1;
    }
    return None;
  }

  method ReadEven(reader: FrameReader, last: nat, n: nat, j: nat, i: nat) returns (even: bool)
    requires reader.Valid() && i < j <= |reader.table|
    modifies reader.window, reader.window.source
    ensures reader.Valid() && (even <==> EvenAt(reader.find, reader.contents, last, n, j, i))
  {
    var held, _ := reader.Walk(i);
    return held == n || (i == j - 1 && i == last && held < n);
  }

  // ---------------------------------------------------------------- copy

  /** Copies the frames of a range of records as they are to a file of their own. */
  method CopyRange(codec: Codec, input: File, find: Finder, from: nat, cnt: Option<nat>, required: bool,
                   twoFrames: bool)
    returns (r: Result<Range, EditError>, output: File)
    requires input.Valid(codec) && input.parts != []
    ensures fresh(output)
    ensures r == RangeCopied(find, Contents(codec, input.parts), LastData(TableOf(codec, input.parts)), from, cnt,
                             required, twoFrames)
    ensures r.Ok? && r.value.from <= r.value.upto <= |input.parts| ==>
              output.Valid(codec) && output.parts == input.parts[r.value.from..r.value.upto]
    ensures r.Err? ==> output.parts == [] && output.body == [] && output.table == None
  {
    output := new File();
    var table := input.table.value;
    var last := LastData(table);
    var reader := new FrameReader(codec, find, input);
    var n := ReadInputCount(reader, last, twoFrames);
    if n.Err? { return Err(n.error), output; }
    var range := ReadFrameRange(reader, last, n.value, from, cnt);
    if range.Err? { return Err(range.error), output; }
    if cnt == Some(0) { return Err(NothingToCopy), output; }
    if range.value.tail.Some? && range.value.tail.value != n.value && required { return Err(LastNotFull), output; }
    if range.value.from <= range.value.upto <= |table| {
      CopyFrames(codec, input, output, [], range.value.from, range.value.upto);
    }
    return range, output;
  }

  /** Copies the frames from `k` up to `j` behind what `output` holds, and writes the table. */
  method CopyFrames(codec: Codec, input: File, output: File, out: seq<Entry>, k: nat, j: nat)
    requires input.Valid(codec) && k <= j <= |input.parts| && input != output
    requires output.Holds(output.parts) && out == TableOf(codec, output.parts)
    modifies output
    ensures output.Valid(codec) && output.parts == old(output.parts) + input.parts[k..j]
  {
    var table := input.table.value;
    SlicePlaced(codec, input.parts, k, j);
    ContentsConcat(codec, output.parts, input.parts[k..j]);
    EmptyJoins(input.parts[k..j]);
    output.Write(input.body[CompStart(table, k)..CompStart(table, j)], input.parts[k..j]);
    output.WriteTable(out + table[k..j]);
  }

  // ---------------------------------------------------------------- append frames

  /** Puts the frames of a range of another file's records behind the last data frame. */
  method AppendFrames(codec: Codec, file: File, input: File, find: Finder, from: nat, cnt: Option<nat>, every: bool)
    returns (r: Result<Range, EditError>)
    requires file.Valid(codec) && input.Valid(codec) && file != input && file.parts != [] && input.parts != []
    modifies file
    ensures file.Valid(codec)
    ensures r == FramesTaken(find, Contents(codec, old(file.parts)), LastData(TableOf(codec, old(file.parts))),
                             Contents(codec, input.parts), LastData(TableOf(codec, input.parts)), from, cnt, every)
    ensures r.Ok? && r.value.from < r.value.upto <= |input.parts| ==>
              file.parts == old(file.parts)[..LastData(TableOf(codec, old(file.parts))) + 1]
                            + input.parts[r.value.from..r.value.upto]
    ensures r.Err? || !(r.value.from < r.value.upto <= |input.parts|) ==> unchanged(file)
  {
    var last, inLast := LastData(file.table.value), LastData(input.table.value);
    var reader := new FrameReader(codec, find, file);
    var validated := ReadSeparatorCount(reader);
    if validated.Err? { return Err(NotValidated(validated.error)); }
    var held, whole := reader.Walk(last);
    if !whole { return Err(TargetEndsInFragment); }
    if held != validated.value { return Err(TargetNotFull); }
    r := ReadTaken(codec, input, find, inLast, validated.value, from, cnt, every);
    if r.Ok? && r.value.from < r.value.upto <= |input.table.value| {
      KeepFrames(codec, file, last + 1);
      CopyFrames(codec, input, file, file.table.value, r.value.from, r.value.upto);
    }
  }

  method ReadTaken(codec: Codec, input: File, find: Finder, inLast: nat, n: nat, from: nat, cnt: Option<nat>,
                   every: bool)
    returns (r: Result<Range, EditError>)
    requires input.Valid(codec) && inLast < |input.parts| && n > 0
    ensures r == RangeTaken(find, Contents(codec, input.parts), inLast, n, from, cnt, every)
  {
    var reader := new FrameReader(codec, find, input);
    var inCount := ReadInputCount(reader, inLast, false);
    if inCount.Err? { return Err(inCount.error); }
    if inCount.value != n { return Err(CountsNotSame); }
    r := ReadFrameRange(reader, inLast, n, from, cnt);
    if r.Err? { return; }
    if r.value.from < r.value.upto <= |input.table.value| && every {
      var uneven := ReadUneven(reader, inLast, n, r.value.from, r.value.upto);
      if uneven.Some? { return Err(FrameHolds(uneven.value)); }
    }
  }

  // ---------------------------------------------------------------- divide and rejoin

  /** Copies the tail of a file from a frame boundary, and truncates the file there. */
  method Divide(codec: Codec, file: File, find: Finder, ghost n: nat, ghost k: nat, boundary: nat) returns (tail: File)
    requires file.Valid(codec) && Uniform(find, Contents(codec, file.parts), n)
    requires 3 <= k && k + 2 <= |file.parts| && boundary == FirstRecord(n, k)
    requires NoneEmpty(Contents(codec, file.parts))
    modifies file
    ensures file.Valid(codec) && file.parts == old(file.parts)[..k]
    ensures fresh(tail) && tail.Valid(codec) && tail.parts == old(file.parts)[k..]
  {
    ghost var contents := Contents(codec, file.parts);
    tail := CopyTail(codec, file, find, n, k, boundary);
    TruncateGoesThrough(find, contents, n, k);
    var kept := TruncateRecords(codec, file, find, boundary);
  }

  method CopyTail(codec: Codec, file: File, find: Finder, ghost n: nat, ghost k: nat, boundary: nat)
    returns (tail: File)
    requires file.Valid(codec) && Uniform(find, Contents(codec, file.parts), n)
    requires 0 < k < |file.parts| && boundary == FirstRecord(n, k)
    requires NoneEmpty(Contents(codec, file.parts))
    ensures fresh(tail) && tail.Valid(codec) && tail.parts == file.parts[k..]
  {
    ghost var contents := Contents(codec, file.parts);
    CopyGoesThrough(find, contents, n, k);
    LastDataIsLast(codec, file.parts);
    assert file.parts[k..|file.parts|] == file.parts[k..];
    var copied;
    copied, tail := CopyRange(codec, file, find, boundary, None, false, false);
  }

  /** Everything of the copied tail is taken. */
  lemma TailIsTaken(codec: Codec, find: Finder, a: seq<Bytes>, b: seq<Bytes>, heldA: seq<Bytes>, lastA: nat,
                    heldB: seq<Bytes>, lastB: nat, n: nat, every: bool)
    returns (taken: Range)
    requires |a| >= 3 && |b| >= 2
    requires heldA == Contents(codec, a) && lastA == LastData(TableOf(codec, a))
    requires heldB == Contents(codec, b) && lastB == LastData(TableOf(codec, b))
    requires Uniform(find, Contents(codec, a + b), n) && NoneEmpty(Contents(codec, a + b))
    ensures lastA < |heldA| && lastB < |heldB|
    ensures FramesTaken(find, heldA, lastA, heldB, lastB, 0, None, every) == Ok(taken)
    ensures taken.from == 0 && taken.upto == |b|
    ensures a[..lastA + 1] + b[taken.from..taken.upto] == a + b
  {
    ContentsConcat(codec, a, b);
    SidesEndWithData(codec, a, b);
    taken := SplitIsTaken(find, Contents(codec, a + b), heldA, lastA, heldB, lastB, n, every);
    AllJoined(a, b, lastA, taken.from, taken.upto);
  }

  lemma SplitIsTaken(find: Finder, all: seq<Bytes>, a: seq<Bytes>, lastA: nat, b: seq<Bytes>, lastB: nat, n: nat,
                     every: bool)
    returns (taken: Range)
    requires all == a + b && |a| >= 3 && |b| >= 2 && lastA == |a| - 1 && lastB == |b| - 1
    requires Uniform(find, all, n) && NoneEmpty(all)
    ensures FramesTaken(find, a, lastA, b, lastB, 0, None, every) == Ok(taken)
    ensures taken.from == 0 && taken.upto == |b|
  {
    JoinParts(a, b);
    RejoinGoesThrough(find, all, n, |a|, every);
    taken := Range(0, |b|, Some(Walked(find, all[|all| - 1]).0));
  }

  /** Puts the frames copied back. */
  method Rejoin(codec: Codec, file: File, tail: File, find: Finder, every: bool, ghost n: nat)
    requires file.Valid(codec) && tail.Valid(codec) && file != tail && |file.parts| >= 3 && |tail.parts| >= 2
    requires Uniform(find, Contents(codec, file.parts + tail.parts), n)
    requires NoneEmpty(Contents(codec, file.parts + tail.parts))
    modifies file
    ensures file.Valid(codec) && file.parts == old(file.parts) + tail.parts
  {
    ghost var taken := TailIsTaken(codec, find, file.parts, tail.parts, Contents(codec, file.parts),
                                   LastData(TableOf(codec, file.parts)), Contents(codec, tail.parts),
                                   LastData(TableOf(codec, tail.parts)), n, every);
    var joined := AppendFrames(codec, file, tail, find, 0, None, every);
  }

  lemma AllJoined(a: seq<Bytes>, b: seq<Bytes>, last: nat, from: nat, upto: nat)
    requires last + 1 == |a| && from == 0 && upto == |b|
    ensures a[..last + 1] + b[from..upto] == a + b
  {
    Whole(a);
    Whole(b);
  }

  lemma SidesEndWithData(codec: Codec, a: seq<Bytes>, b: seq<Bytes>)
    requires a != [] && b != [] && NoneEmpty(Contents(codec, a + b))
    ensures LastData(TableOf(codec, a)) == |a| - 1 && LastData(TableOf(codec, b)) == |b| - 1
  {
    ContentsConcat(codec, a, b);
    assert Contents(codec, a + b)[|a| - 1] == Contents(codec, a)[|a| - 1];
    assert Contents(codec, a + b)[|a| + |b| - 1] == Contents(codec, b)[|b| - 1];
    LastDataIsLast(codec, a);
    LastDataIsLast(codec, b);
  }

  /** Copying the tail of a uniform file from a frame boundary, truncating the file there and putting
      the copied frames back gives the file back, byte for byte, seek table and all. */
  method DivideAndRejoin(codec: Codec, file: File, find: Finder, ghost n: nat, ghost k: nat, boundary: nat, every: bool)
    requires file.Valid(codec) && Uniform(find, Contents(codec, file.parts), n)
    requires 3 <= k && k + 2 <= |file.parts| && boundary == FirstRecord(n, k)
    requires NoneEmpty(Contents(codec, file.parts))
    modifies file
    ensures file.Valid(codec)
    ensures file.parts == old(file.parts) && file.body == old(file.body) && file.table == old(file.table)
  {
    SplitAt(file.parts, k);
    var tail := Divide(codec, file, find, n, k, boundary);
    Rejoin(codec, file, tail, find, every, n);
  }

  lemma LastDataIsLast(codec: Codec, parts: seq<Bytes>)
    requires parts != [] && Contents(codec, parts)[|parts| - 1] != []
    ensures LastData(TableOf(codec, parts)) == |parts| - 1
  {
    ContentAt(codec, parts, |parts| - 1);
  }
}
