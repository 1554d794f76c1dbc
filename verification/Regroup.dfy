/** Opening a file from a later frame (`open_from_frame` of src/reader.rs): the frames from there on
    are read as fewer, larger ones, and records are numbered anew. */
module Regroup {
  import opened Bytes
  import opened Seqs
  import opened Records
  import opened Frames
  import opened Placement

  /** Every `g` frames joined into one, the last group taking what is left. */
  function Groups(frames: seq<Bytes>, g: nat): seq<Bytes>
    requires g > 0
    decreases |frames|
  {
    if frames == [] then []
    else if |frames| <= g then [Flatten(frames)]
    else [Flatten(frames[..g])] + Groups(frames[g..], g)
  }

  /** The frame that group `k` begins with, of `count` frames. */
  function BeginsAt(count: nat, g: nat, k: nat): nat {
    Min(FirstRecord(g, k), count)
  }

  lemma GroupsStep(frames: seq<Bytes>, g: nat)
    requires frames != [] && g > 0
    ensures var end := Min(g, |frames|);
            Groups(frames, g) == [Flatten(frames[..end])] + Groups(frames[end..], g)
  {
    if |frames| <= g {
      assert frames[..|frames|] == frames && frames[|frames|..] == [];
      EmptyJoins([Flatten(frames)]);
    }
  }

  /** Group `k` begins where frame `k * g` does, and there are groups as long as there are frames. */
  lemma {:induction false} GroupsBegin(frames: seq<Bytes>, g: nat, k: nat)
    requires g > 0 && k <= |Groups(frames, g)|
    ensures Flatten(Groups(frames, g)[..k]) == Flatten(frames[..BeginsAt(|frames|, g, k)])
    ensures k < |Groups(frames, g)| <==> FirstRecord(g, k) < |frames|
    decreases k
  {
    if k > 0 {
      var end, rest := Min(g, |frames|), frames[Min(g, |frames|)..];
      GroupsStep(frames, g);
      GroupsBegin(rest, g, k - 1);
      FirstRecordMonotone(g, 0, k - 1);
      FirstAndGroups(frames, end, BeginsAt(|rest|, g, k - 1), Groups(rest, g), k - 1);
    }
  }

  lemma FirstAndGroups(frames: seq<Bytes>, end: nat, c: nat, groups: seq<Bytes>, k: nat)
    requires end + c <= |frames| && k <= |groups| && Flatten(groups[..k]) == Flatten(frames[end..][..c])
    ensures Flatten(([Flatten(frames[..end])] + groups)[..k + 1]) == Flatten(frames[..end + c])
  {
    TakeOfCons(Flatten(frames[..end]), groups, k);
    FlattenCons(Flatten(frames[..end]), groups[..k]);
    TakeOfDrop(frames, end, c);
    TakeThenSlice(frames, end, end + c);
    FlattenConcat(frames[..end], frames[end..][..c]);
  }

  lemma AllGroups(frames: seq<Bytes>, g: nat)
    requires g > 0
    ensures Flatten(Groups(frames, g)) == Flatten(frames)
    ensures FirstRecord(g, |Groups(frames, g)|) >= |frames|
  {
    GroupsBegin(frames, g, |Groups(frames, g)|);
    Whole(Groups(frames, g));
    Whole(frames);
  }

  lemma BeginsInOrder(count: nat, g: nat, j: nat, k: nat)
    requires j <= k
    ensures BeginsAt(count, g, j) <= BeginsAt(count, g, k) <= count
  {
    FirstRecordMonotone(g, j, k);
  }

  /** The groups from `j` up to `k` are the frames those groups begin with, and start where they do. */
  lemma GroupSpan(frames: seq<Bytes>, g: nat, j: nat, k: nat)
    requires g > 0 && j <= k <= |Groups(frames, g)|
    ensures BeginsAt(|frames|, g, j) <= BeginsAt(|frames|, g, k) <= |frames|
    ensures StartOf(Groups(frames, g), j) == StartOf(frames, BeginsAt(|frames|, g, j))
    ensures Flatten(Groups(frames, g)[j..k])
            == Flatten(frames[BeginsAt(|frames|, g, j)..BeginsAt(|frames|, g, k)])
  {
    GroupsBegin(frames, g, j);
    GroupsBegin(frames, g, k);
    BeginsInOrder(|frames|, g, j, k);
    SpanIsFrames(Groups(frames, g), j, k);
    SpanIsFrames(frames, BeginsAt(|frames|, g, j), BeginsAt(|frames|, g, k));
    AllGroups(frames, g);
  }

  /** Both halves of the file fall into as many groups. */
  lemma {:induction false} SameGroups(a: seq<Bytes>, b: seq<Bytes>, g: nat)
    requires g > 0 && |a| == |b|
    ensures |Groups(a, g)| == |Groups(b, g)|
    decreases |a|
  {
    if |a| > g { SameGroups(a[g..], b[g..], g); }
  }

  /** Grouping a uniform file gives a uniform file. */
  lemma {:induction false} GroupsAreUniform(find: Finder, contents: seq<Bytes>, n: nat, g: nat)
    requires Uniform(find, contents, n) && g > 0
    ensures Uniform(find, Groups(contents, g), FirstRecord(n, g))
    decreases |contents|
  {
    FirstRecordMonotone(n, 0, g);
    if |contents| <= g {
      FrameRecords(find, contents, n, |contents| - 1);
      FirstRecordMonotone(n, |contents|, g);
    } else {
      UniformPrefix(find, contents, n, g);
      FullFramesHold(find, contents[..g], n);
      UniformSuffix(find, contents, n, g);
      GroupsAreUniform(find, contents[g..], n, g);
      UniformCons(find, Flatten(contents[..g]), Groups(contents[g..], g), FirstRecord(n, g));
    }
  }

  // ---------------------------------------------------------------- the seek table of the groups

  /** A row of a seek table: the size of a frame, compressed and not. */
  datatype Row = Row(comp: nat, decomp: nat)

  datatype Grouping = Grouping(rows: seq<Row>, frames: seq<Extent>, perFrame: nat)

  datatype OpenRefusal = OutOfRange | RowTooBig | CountOverflow

  function RowsOf(packed: seq<Bytes>, contents: seq<Bytes>): (rows: seq<Row>)
    requires |packed| == |contents|
    ensures |rows| == |packed|
  {
    if packed == [] then [] else [Row(|packed[0]|, |contents[0]|)] + RowsOf(packed[1..], contents[1..])
  }

  lemma {:induction false} RowsSnoc(packed: seq<Bytes>, contents: seq<Bytes>, p: Bytes, c: Bytes)
    requires |packed| == |contents|
    ensures RowsOf(packed + [p], contents + [c]) == RowsOf(packed, contents) + [Row(|p|, |c|)]
  {
    if packed != [] {
      JoinTail(packed, [p]);
      JoinTail(contents, [c]);
      RowsSnoc(packed[1..], contents[1..], p, c);
      Assoc([Row(|packed[0]|, |contents[0]|)], RowsOf(packed[1..], contents[1..]), [Row(|p|, |c|)]);
    }
  }

  lemma ExtentsSnoc(contents: seq<Bytes>, c: Bytes)
    ensures Extents(contents + [c]) == Extents(contents) + [Extent(|Flatten(contents)|, |c|)]
  {
    forall i | 0 <= i <= |contents|
      ensures Extents(contents + [c])[i] == (Extents(contents) + [Extent(|Flatten(contents)|, |c|)])[i]
    {
      SliceOfJoinLeft(contents, [c], 0, i);
      assert (contents + [c])[..i] == contents[..i];
      Whole(contents);
    }
  }

  /** The size of the longest frame. */
  function Longest(frames: seq<Bytes>): nat {
    if frames == [] then 0
    else
      var rest := Longest(frames[..|frames| - 1]);
      var last := |frames[|frames| - 1]|;
      if rest < last then last else rest
  }

  lemma {:induction false} LongestIsLongest(frames: seq<Bytes>, i: nat)
    requires i < |frames|
    ensures |frames[i]| <= Longest(frames)
  {
    if i + 1 < |frames| {
      LongestIsLongest(frames[..|frames| - 1], i);
    }
  }

  lemma {:induction false} LongestWithin(frames: seq<Bytes>, limit: nat)
    requires forall i :: 0 <= i < |frames| ==> |frames[i]| <= limit
    ensures Longest(frames) <= limit
  {
    if frames != [] {
      LongestWithin(frames[..|frames| - 1], limit);
    }
  }

  /** As many frames of the longest size as fit hold any as many. */
  lemma {:induction false} FlattenWithin(frames: seq<Bytes>, all: seq<Bytes>, from: nat, g: nat)
    requires from + |frames| <= |all| && frames == all[from..from + |frames|] && |frames| <= g
    ensures |Flatten(frames)| <= FirstRecord(Longest(all), g)
  {
    if frames == [] {
      assert Flatten(frames) == [];
    } else {
      var last := |frames| - 1;
      FlattenWithin(frames[..last], all, from, g - 1);
      FlattenTake(frames, last);
      Whole(frames);
      LongestIsLongest(all, from + last);
      assert frames[..last + 1] == frames;
    }
  }

  function EndOfList(frames: seq<Extent>): nat
    requires frames != []
  {
    var last := frames[|frames| - 1];
    last.start + last.len
  }

  /** The longest frame, as `seek_table_decomp_frames_with` is told of the frames one by one. */
  method Measure(frames: seq<Extent>, ghost contents: seq<Bytes>) returns (longest: nat)
    requires frames == Extents(contents)
    ensures longest == Longest(contents)
  {
    longest := 0;
    for i := 0 to |frames|
      invariant longest == Longest(contents[..i])
    {
      assert contents[..i + 1][..i] == contents[..i];
      if longest < frames[i].len { longest := frames[i].len; }
    }
    Whole(contents);
  }

  /** The longest frames, measured only where the file is too long for one row (`from_reader`). */
  method MeasureBoth(table: seq<Extent>, frames: seq<Extent>, ghost packed: seq<Bytes>, ghost contents: seq<Bytes>)
    returns (maxComp: nat, maxDecomp: nat)
    requires table == Extents(packed) && frames == Extents(contents) && packed != [] && contents != []
    ensures EndOfList(table) > U32_MAX || EndOfList(frames) > U32_MAX ==>
              maxComp == Longest(packed) && maxDecomp == Longest(contents)
  {
    if EndOfList(table) <= U32_MAX && EndOfList(frames) <= U32_MAX { return 0, 0; }
    maxComp := Measure(table, packed);
    maxDecomp := Measure(frames, contents);
  }

  /** A seek table row holds 32-bit sizes, and a frame 0 that holds a record is not empty. */
  ghost predicate Tabled(frames: seq<Bytes>) {
    && frames != [] && frames[0] != []
    && forall i :: 0 <= i < |frames| ==> |frames[i]| <= U32_MAX
  }

  /** `g` is how many frames of the longest size always fit a row of each kind. */
  ghost predicate MostThatFit(packed: seq<Bytes>, contents: seq<Bytes>, g: nat) {
    && FirstRecord(Longest(packed), g) <= U32_MAX && FirstRecord(Longest(contents), g) <= U32_MAX
    && (U32_MAX < FirstRecord(Longest(packed), g + 1) || U32_MAX < FirstRecord(Longest(contents), g + 1))
  }

  lemma QuotientFits(longest: nat, g: nat)
    requires longest > 0
    ensures g <= U32_MAX / longest <==> FirstRecord(longest, g) <= U32_MAX
  {
    FirstRecordIsProduct(longest, g);
    if g <= U32_MAX / longest {
      ScaleAtMost(longest, g, U32_MAX / longest);
    } else {
      ScaleAtMost(longest, U32_MAX / longest + 1, g);
    }
  }

  lemma TabledLongest(frames: seq<Bytes>)
    requires Tabled(frames)
    ensures 0 < Longest(frames) <= U32_MAX && 1 <= U32_MAX / Longest(frames)
  {
    LongestIsLongest(frames, 0);
    LongestWithin(frames, U32_MAX);
    FirstRecordIsProduct(Longest(frames), 1);
    QuotientFits(Longest(frames), 1);
  }

  function Max(a: nat, b: nat): nat {
    if a < b then b else a
  }

  /** How many frames make a group: all that are left where they fit a row, and otherwise as many as
      always do. */
  method GroupSize(remaining: nat, compLen: nat, decompLen: nat, maxComp: nat, maxDecomp: nat,
                   ghost packed: seq<Bytes>, ghost contents: seq<Bytes>)
    returns (g: nat)
    requires Tabled(packed) && Tabled(contents) && remaining > 0
    requires compLen > U32_MAX || decompLen > U32_MAX ==>
               maxComp == Longest(packed) && maxDecomp == Longest(contents)
    ensures 0 < g
    ensures if compLen <= U32_MAX && decompLen <= U32_MAX then g == remaining else MostThatFit(packed, contents, g)
  {
    if compLen <= U32_MAX && decompLen <= U32_MAX { return remaining; }
    TabledLongest(packed);
    TabledLongest(contents);
    var byComp, byDecomp := U32_MAX / maxComp, U32_MAX / maxDecomp;
    g := if byComp <= byDecomp then byComp else byDecomp;
    QuotientFits(maxComp, g);
    QuotientFits(maxDecomp, g);
    QuotientFits(maxComp, g + 1);
    QuotientFits(maxDecomp, g + 1);
    g := Max(g, 1);
  }

  // ---------------------------------------------------------------- the loop over the groups

  /** The groups up to frame `at` of those from frame `s` on, and the ones still to come. */
  ghost predicate Grouped(all: seq<Bytes>, s: nat, g: nat, at: nat, done: seq<Bytes>)
    requires g > 0
  {
    && s <= at <= |all|
    && done + Groups(all[at..], g) == Groups(all[s..], g)
    && Flatten(done) == Flatten(all[s..at])
  }

  lemma GroupedStart(all: seq<Bytes>, s: nat, g: nat)
    requires g > 0 && s <= |all|
    ensures Grouped(all, s, g, s, [])
  {
    EmptyJoins(Groups(all[s..], g));
  }

  lemma GroupedStep(all: seq<Bytes>, s: nat, g: nat, at: nat, done: seq<Bytes>)
    requires g > 0 && at < |all| && Grouped(all, s, g, at, done)
    ensures var end := Min(at + g, |all|);
            Grouped(all, s, g, end, done + [Flatten(all[at..end])])
  {
    var end := Min(at + g, |all|);
    GroupsStep(all[at..], g);
    TakeOfDrop(all, at, end - at);
    DropOfDrop(all, at, end - at);
    Assoc(done, [Flatten(all[at..end])], Groups(all[end..], g));
    FlattenSnoc(done, Flatten(all[at..end]));
    Slices(all, s, at, end);
    FlattenConcat(all[s..at], all[at..end]);
  }

  lemma GroupedEnd(all: seq<Bytes>, s: nat, g: nat, done: seq<Bytes>)
    requires g > 0 && Grouped(all, s, g, |all|, done)
    ensures done == Groups(all[s..], g)
  {
    Whole(all);
    EmptyJoins(done);
  }

  /** Where a span of frames starts and ends, out of the frame list. */
  lemma SpanInList(all: seq<Bytes>, j: nat, k: nat)
    requires j < k <= |all|
    ensures Extents(all)[j].start == StartOf(all, j) && Position(Extents(all), k) == StartOf(all, k)
    ensures StartOf(all, k) - StartOf(all, j) == |Flatten(all[j..k])|
  {
    SpanIsFrames(all, j, k);
    StartStep(all, |all| - 1);
  }

  /** Where frame `k` starts, or where the last one ends. */
  function Position(frames: seq<Extent>, k: nat): nat
    requires frames != [] && k <= |frames|
  {
    if k == |frames| then EndOfList(frames) else frames[k].start
  }

  /** A group of no more frames than fit, fits. */
  lemma GroupFits(all: seq<Bytes>, s: nat, at: nat, end: nat, g: nat)
    requires s <= at <= end <= |all| && end - at <= g
    requires FirstRecord(Longest(all), g) <= U32_MAX || |Flatten(all[s..])| <= U32_MAX
    ensures |Flatten(all[at..end])| <= U32_MAX
  {
    FlattenWithin(all[at..end], all, at, g);
    SpanIsFrames(all, s, at);
    SpanIsFrames(all, at, end);
    SpanIsFrames(all, end, |all|);
    SpanIsFrames(all, s, |all|);
    assert all[s..|all|] == all[s..];
  }

  ghost predicate RowsFit(rows: seq<Row>) {
    forall i :: 0 <= i < |rows| ==> rows[i].comp <= U32_MAX && rows[i].decomp <= U32_MAX
  }

  /** Every group fits its row, so no row is ever refused. */
  ghost predicate SizeFits(packed: seq<Bytes>, contents: seq<Bytes>, s: nat, g: nat)
    requires s <= |packed| && s <= |contents|
  {
    MostThatFit(packed, contents, g)
    || (|Flatten(packed[s..])| <= U32_MAX && |Flatten(contents[s..])| <= U32_MAX)
  }

  /** The group that frame `at` begins, and what its row and its place in the frame list are. */
  lemma GroupAt(packed: seq<Bytes>, contents: seq<Bytes>, s: nat, g: nat, at: nat, end: nat,
                  packs: seq<Bytes>, done: seq<Bytes>)
    returns (p: Bytes, c: Bytes)
    requires |packed| == |contents| && at < |contents| && g > 0 && end == Min(at + g, |contents|)
    requires Grouped(packed, s, g, at, packs) && Grouped(contents, s, g, at, done)
    requires |packs| == |done| && SizeFits(packed, contents, s, g)
    ensures Grouped(packed, s, g, end, packs + [p]) && Grouped(contents, s, g, end, done + [c])
    ensures Position(Extents(packed), end) - Extents(packed)[at].start == |p| <= U32_MAX
    ensures Position(Extents(contents), end) - Extents(contents)[at].start == |c| <= U32_MAX
    ensures RowsOf(packs + [p], done + [c]) == RowsOf(packs, done) + [Row(|p|, |c|)]
    ensures Extents(contents)[s].start <= Extents(contents)[at].start
    ensures Extents(done + [c])
            == Extents(done) + [Extent(Extents(contents)[at].start - Extents(contents)[s].start, |c|)]
  {
    p, c := Flatten(packed[at..end]), Flatten(contents[at..end]);
    SpanInList(packed, at, end);
    SpanInList(contents, at, end);
    GroupFits(packed, s, at, end, g);
    GroupFits(contents, s, at, end, g);
    GroupedStep(packed, s, g, at, packs);
    GroupedStep(contents, s, g, at, done);
    SpanIsFrames(contents, s, at);
    RowsSnoc(packs, done, p, c);
    ExtentsSnoc(done, c);
  }

  lemma RowsFitSnoc(rows: seq<Row>, row: Row)
    requires RowsFit(rows) && row.comp <= U32_MAX && row.decomp <= U32_MAX
    ensures RowsFit(rows + [row])
  {
  }

  /** The rows and the frame list of the groups, from frame `s` on. */
  method GroupAll(table: seq<Extent>, frames: seq<Extent>, s: nat, g: nat,
                  ghost packed: seq<Bytes>, ghost contents: seq<Bytes>)
    returns (r: Result<(seq<Row>, seq<Extent>), OpenRefusal>)
    requires |packed| == |contents| && table == Extents(packed) && frames == Extents(contents)
    requires s < |frames| && g > 0 && SizeFits(packed, contents, s, g)
    ensures |Groups(packed[s..], g)| == |Groups(contents[s..], g)|
    ensures r.Ok? && r.value.0 == RowsOf(Groups(packed[s..], g), Groups(contents[s..], g))
    ensures r.value.1 == Extents(Groups(contents[s..], g)) && RowsFit(r.value.0)
  {
    var rows: seq<Row>, out: seq<Extent>, at := [], [], s;
    var compStart, decompStart := table[s].start, frames[s].start;
    ghost var packs: seq<Bytes>, done: seq<Bytes> := [], [];
    GroupedStart(packed, s, g);
    GroupedStart(contents, s, g);
    SameGroups(packed[s..], contents[s..], g);
    while at < |frames|
      invariant Grouped(packed, s, g, at, packs) && Grouped(contents, s, g, at, done)
      invariant at < |frames| ==> compStart == table[at].start && decompStart == frames[at].start
      invariant |packs| == |done| && rows == RowsOf(packs, done) && out == Extents(done)
      invariant RowsFit(rows)
    {
      var end := Min(at + g, |frames|);
      ghost var p, c := GroupAt(packed, contents, s, g, at, end, packs, done);
      var compEnd, decompEnd := Position(table, end), Position(frames, end);
      var row := Row(compEnd - compStart, decompEnd - decompStart);
      if row.comp > U32_MAX || row.decomp > U32_MAX { return Err(RowTooBig); }
      RowsFitSnoc(rows, row);
      rows := rows + [row];
      out := out + [Extent(decompStart - frames[s].start, row.decomp)];
      packs, done := packs + [p], done + [c];
      at, compStart, decompStart := end, compEnd, decompEnd;
    }
    GroupedEnd(packed, s, g, packs);
    GroupedEnd(contents, s, g, done);
    return Ok((rows, out));
  }

  lemma OneGroup(all: seq<Bytes>, s: nat)
    requires s < |all|
    ensures Groups(all[s..], |all| - s) == [Flatten(all[s..])]
    ensures EndOfList(Extents(all)) - Extents(all)[s].start == |Flatten(all[s..])|
    ensures Extents([Flatten(all[s..])]) == [Extent(0, |Flatten(all[s..])|)]
  {
    SpanInList(all, s, |all|);
    assert all[s..|all|] == all[s..];
    ExtentsSnoc([], Flatten(all[s..]));
    assert [] + [Flatten(all[s..])] == [Flatten(all[s..])];
  }

  lemma AllLeftFits(packed: seq<Bytes>, contents: seq<Bytes>, s: nat, g: nat)
    requires |packed| == |contents| && s <= |contents| && |contents| - s <= g && SizeFits(packed, contents, s, g)
    ensures |Flatten(packed[s..])| <= U32_MAX && |Flatten(contents[s..])| <= U32_MAX
  {
    GroupFits(packed, s, s, |packed|, g);
    GroupFits(contents, s, s, |contents|, g);
    assert packed[s..|packed|] == packed[s..] && contents[s..|contents|] == contents[s..];
  }

  /** One row for everything from frame `s` on, where there is to be one group. */
  lemma OneRow(packed: seq<Bytes>, contents: seq<Bytes>, s: nat, g: nat)
    requires |packed| == |contents| && s < |contents| && g == |contents| - s && SizeFits(packed, contents, s, g)
    ensures |Groups(packed[s..], g)| == |Groups(contents[s..], g)|
    ensures var row := Row(|Flatten(packed[s..])|, |Flatten(contents[s..])|);
            && RowsOf(Groups(packed[s..], g), Groups(contents[s..], g)) == [row] && RowsFit([row])
            && row.comp <= U32_MAX && row.decomp <= U32_MAX
            && Extents(Groups(contents[s..], g)) == [Extent(0, row.decomp)]
  {
    OneGroup(packed, s);
    OneGroup(contents, s);
    AllLeftFits(packed, contents, s, g);
    RowsSnoc([], [], Flatten(packed[s..]), Flatten(contents[s..]));
    EmptyJoins([Flatten(packed[s..])]);
    EmptyJoins([Flatten(contents[s..])]);
  }

  /** The rows and the frame list, whatever the size of the groups. */
  method Table(table: seq<Extent>, frames: seq<Extent>, s: nat, g: nat, compLen: nat, decompLen: nat,
               ghost packed: seq<Bytes>, ghost contents: seq<Bytes>)
    returns (r: Result<(seq<Row>, seq<Extent>), OpenRefusal>)
    requires |packed| == |contents| && table == Extents(packed) && frames == Extents(contents)
    requires s < |frames| && g > 0 && SizeFits(packed, contents, s, g)
    requires compLen == |Flatten(packed[s..])| && decompLen == |Flatten(contents[s..])|
    ensures |Groups(packed[s..], g)| == |Groups(contents[s..], g)|
    ensures r.Ok? && r.value.0 == RowsOf(Groups(packed[s..], g), Groups(contents[s..], g))
    ensures r.value.1 == Extents(Groups(contents[s..], g)) && RowsFit(r.value.0)
  {
    if g == |frames| - s {
      OneRow(packed, contents, s, g);
      if compLen > U32_MAX || decompLen > U32_MAX { return Err(RowTooBig); }
      return Ok(([Row(compLen, decompLen)], [Extent(0, decompLen)]));
    }
    r := GroupAll(table, frames, s, g, packed, contents);
  }

  /** What opening from frame `s` makes of the frame list and the seek table. Only a frame that is not
      there and a record count past 64 bits refuse it: every group fits the 32 bits of its row. */
  method OpenFromFrame(table: seq<Extent>, frames: seq<Extent>, s: nat, perFrame: nat, maxComp: nat, maxDecomp: nat,
                       ghost packed: seq<Bytes>, ghost contents: seq<Bytes>)
    returns (r: Result<Grouping, OpenRefusal>, ghost g: nat)
    requires |packed| == |contents| && table == Extents(packed) && frames == Extents(contents)
    requires Tabled(packed) && Tabled(contents)
    requires EndOfList(table) > U32_MAX || EndOfList(frames) > U32_MAX ==>
               maxComp == Longest(packed) && maxDecomp == Longest(contents)
    ensures r == Err(OutOfRange) <==> s >= |contents|
    ensures s < |contents| ==> 0 < g <= |contents| - s && SizeFits(packed, contents, s, g)
    ensures s < |contents| ==> if FirstRecord(perFrame, g) > USIZE_MAX then r == Err(CountOverflow)
                               else r.Ok? && IsGrouping(packed, contents, s, perFrame, g, r.value)
  {
    g := 0;
    if s >= |frames| { return Err(OutOfRange), g; }
    OneGroup(packed, s);
    OneGroup(contents, s);
    var compLen, decompLen := EndOfList(table) - table[s].start, EndOfList(frames) - frames[s].start;
    var size := GroupSize(|frames| - s, compLen, decompLen, maxComp, maxDecomp, packed, contents);
    g := size;
    if size > |frames| - s {
      AllLeftFits(packed, contents, s, size);
      assert false;
    }
    FirstRecordIsProduct(perFrame, size);
    var all := Table(table, frames, s, size, compLen, decompLen, packed, contents);
    if all.Err? { return Err(all.error), g; }
    if perFrame * size > USIZE_MAX { return Err(CountOverflow), g; }
    return Ok(Grouping(all.value.0, all.value.1, perFrame * size)), g;
  }

  /** The groups of `g` frames from frame `s` on, each of a size its row can hold. */
  ghost predicate IsGrouping(packed: seq<Bytes>, contents: seq<Bytes>, s: nat, perFrame: nat, g: nat, to: Grouping)
    requires |packed| == |contents| && s < |contents| && g > 0
  {
    && |Groups(packed[s..], g)| == |Groups(contents[s..], g)|
    && to.rows == RowsOf(Groups(packed[s..], g), Groups(contents[s..], g)) && RowsFit(to.rows)
    && to.frames == Extents(Groups(contents[s..], g))
    && to.perFrame == FirstRecord(perFrame, g) <= USIZE_MAX
  }
}
