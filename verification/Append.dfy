/** Appending records to a file in place (`append_records_with_opts` and `append_records_inner` of
    src/edit.rs). */
module Append {
  import opened Bytes
  import opened Seqs
  import opened Records
  import opened Frames
  import opened Framing
  import opened Window
  import opened Stream
  import opened Cutter
  import opened SeekableFile
  import opened FrameReader
  import opened AppendPlan

  // ---------------------------------------------------------------- reading what is there

  /** `validate_separator`. */
  method ReadSeparatorCount(reader: FrameReader) returns (r: Result<nat, Refusal>)
    requires reader.Valid()
    modifies reader.window, reader.window.source
    ensures reader.Valid() && r == SeparatorCount(reader.find, reader.contents)
  {
    var frames := |reader.table|;
    if frames < 3 { return Err(TooFewFrames); }
    var first, _ := reader.Walk(0);
    if first == 0 { return Err(NoRecordInFirst); }
    var second, _ := reader.Walk(frames - 2);
    if first != second { return Err(CountsDiffer); }
    return Ok(first);
  }

  /** `validate_records_per_frame`. */
  method ReadCountHolds(reader: FrameReader, last: nat, n: nat) returns (holds: bool)
    requires reader.Valid() && last < |reader.table|
    modifies reader.window, reader.window.source
    ensures reader.Valid() && holds == CountHolds(reader.find, reader.contents, last, n)
  {
    if last > 0 {
      var count, whole := reader.Walk(0);
      if count != n || !whole { return false; }
    }
    if last > 1 {
      var count, whole := reader.Walk(last - 1);
      if count != n || !whole { return false; }
    }
    return true;
  }

  method Choose(reader: FrameReader, ask: Ask, last: nat, known: Option<Prior>) returns (r: Result<nat, Refusal>)
    requires reader.Valid() && last < |reader.table| && reader.find == ask.find
    modifies reader.window, reader.window.source
    ensures reader.Valid() && r == ChosenCount(ask, reader.contents, last, known)
  {
    match ask.count
    case Some(n) =>
      assert reader.Placed(last);
      if reader.table[last].decomp == 0 { return Err(NoDataFrames); }
      if !ask.trust && !Validated(known) {
        var holds := ReadCountHolds(reader, last, n);
        if !holds { return Err(CountNotHeld); }
      }
      return Ok(n);
    case None =>
      if Validated(known) { return Ok(known.value.recordsPerFrame); }
      r := ReadSeparatorCount(reader);
  }

  /** The first bytes of the data, as many as the check of the magic number needs or there are. */
  method Gather(data: Source) returns (head: Bytes)
    requires data.Valid() && data.at == data.start
    modifies data`at, data`left
    ensures data.Valid() && data.at == data.start + |head|
    ensures head <= data.region && (|head| < |MAGIC| ==> head == data.region)
  {
    head := [];
    while |head| < |MAGIC|
      invariant data.Valid() && data.at == data.start + |head| && head <= data.region
      decreases data.left
    {
      var got := data.Read(READ_SIZE);
      if got == [] {
        Whole(data.region);
        break;
      }
      TakeThenSlice(data.region, |head|, |head| + |got|);
      head := head + got;
    }
  }

  /** The join: what goes in front of the data, the last data frame being read unless it is known to
      be full. */
  method ReadFront(reader: FrameReader, ask: Ask, last: nat, n: nat, known: Option<Prior>)
    returns (r: Result<Bytes, Refusal>, state: (nat, bool))
    requires reader.Valid() && last < |reader.table| && reader.find == ask.find
    requires ask.onMissing == Insert ==> ask.separator.Some?
    ensures state == LastState(ask, reader.contents[last], known)
    ensures r == Front(ask, reader.contents[last], n, state)
  {
    var full := known.Some? && known.value.lastRecords == Some(n) && known.value.lastWhole;
    var tail := [];
    if !full { tail := reader.Read(last); }
    if known.Some? && known.value.lastRecords.Some? {
      state := (known.value.lastRecords.value, known.value.lastWhole);
    } else {
      var end, count := Window.Scan(ask.find, tail, None);
      LastBound(ask.find, tail);
      state := (count, end == |tail|);
    }
    var inserted := false;
    if !state.1 {
      if ask.onMissing == Refuse { return Err(EndsInFragment), state; }
      tail := tail + ask.separator.value;
      inserted := true;
      if !EndsWhole(ask.find, tail) { return Err(SeparatorOverlaps), state; }
    }
    if ask.trust && !full {
      var count := if inserted then Count(ask.find, tail) else state.0;
      if count > n { return Err(LastHoldsTooMany), state; }
    }
    if state == (n, true) { tail := []; }
    return Ok(tail), state;
  }

  // ---------------------------------------------------------------- writing

  /** `done` and the frames of what is left are the frames of the whole. */
  ghost predicate OnCut(find: Finder, whole: Bytes, n: nat, done: seq<Bytes>, left: Bytes) {
    Framed(find, whole, ByCount(n), 0) == done + Framed(find, left, ByCount(n), 0)
  }

  lemma CutOne(find: Finder, whole: Bytes, n: nat, done: seq<Bytes>, left: Bytes)
    requires n > 0 && OnCut(find, whole, n, done, left) && n < |Bounds(find, left)|
    ensures Bounds(find, left)[n] <= |left|
    ensures OnCut(find, whole, n, done + [left[..Bounds(find, left)[n]]], left[Bounds(find, left)[n]..])
    ensures Full(find, left[..Bounds(find, left)[n]], n)
  {
    GroupIsFrame(find, left, n, 0);
    var b := Bounds(find, left)[n];
    Assoc(done, [left[..b]], Framed(find, left[b..], ByCount(n), 0));
  }

  lemma CutLast(find: Finder, whole: Bytes, n: nat, done: seq<Bytes>, left: Bytes)
    requires n > 0 && OnCut(find, whole, n, done, left) && n >= |Bounds(find, left)|
    ensures Framed(find, whole, ByCount(n), 0) == if left == [] then done else done + [left]
  {
    GroupIsFrame(find, left, n, 0);
    EmptyJoins(done);
  }

  /** The file and the table being built hold the frames kept and the groups done. */
  ghost predicate WrittenSoFar(codec: Codec, file: File, out: seq<Entry>, kept: seq<Bytes>, done: seq<Bytes>,
                               checksum: bool)
    reads file
  {
    && file.Holds(kept + Compressed(codec, done, checksum))
    && out == TableOf(codec, kept + Compressed(codec, done, checksum))
  }

  lemma OneMoreWritten(codec: Codec, kept: seq<Bytes>, done: seq<Bytes>, group: Bytes, checksum: bool)
    requires Inverts(codec)
    ensures var part := codec.compress(group, checksum);
            var was := kept + Compressed(codec, done, checksum);
            && kept + Compressed(codec, done + [group], checksum) == was + [part]
            && TableOf(codec, kept + Compressed(codec, done + [group], checksum))
               == TableOf(codec, was) + [Entry(|part|, |group|)]
  {
    CompressedSnoc(codec, done, group, checksum);
    Assoc(kept, Compressed(codec, done, checksum), [codec.compress(group, checksum)]);
    ContentsSnoc(codec, kept + Compressed(codec, done, checksum), codec.compress(group, checksum));
  }

  /** Compresses one group behind what is written. */
  method WriteGroup(codec: Codec, file: File, out: seq<Entry>, group: Bytes, checksum: bool,
                    ghost kept: seq<Bytes>, ghost done: seq<Bytes>)
    returns (later: seq<Entry>)
    requires Inverts(codec) && WrittenSoFar(codec, file, out, kept, done, checksum)
    modifies file`body, file`parts
    ensures WrittenSoFar(codec, file, later, kept, done + [group], checksum)
  {
    OneMoreWritten(codec, kept, done, group, checksum);
    var bytes := codec.compress(group, checksum);
    FlattenOne(bytes);
    file.Write(bytes, [bytes]);
    later := out + [Entry(|bytes|, |group|)];
  }

  /** What the last of `frames` holds. */
  ghost predicate Describes(find: Finder, frames: seq<Bytes>, records: nat, whole: bool) {
    frames != [] ==>
      var last := frames[|frames| - 1];
      records == |RecordsOf(find, last)| && whole == (FragmentOf(find, last) == [])
  }

  /** What asking a cutter for a group left it with. */
  ghost predicate Answered(cutter: Cutter, group: Option<nat>)
    reads cutter, cutter.stream, cutter.stream.source
  {
    && cutter.Valid()
    && if group.Some? then && cutter.found == cutter.records && group.value == cutter.stream.end
                           && cutter.records < |cutter.stream.bounds|
                           && cutter.stream.end == cutter.stream.bounds[cutter.records]
       else && cutter.stream.buf == cutter.stream.rest && cutter.found < cutter.records
            && cutter.found + 1 == |cutter.stream.bounds|
  }

  /** The groups after the first, and what is left over. */
  method WriteRest(codec: Codec, file: File, cutter: Cutter, out: seq<Entry>, checksum: bool,
                   ghost whole: Bytes, ghost kept: seq<Bytes>, ghost first: seq<Bytes>)
    returns (later: seq<Entry>, records: nat, ends: bool)
    requires Inverts(codec) && cutter.Valid() && cutter.found == cutter.records
    requires OnCut(cutter.stream.find, whole, cutter.records, first, cutter.Left())
    requires WrittenSoFar(codec, file, out, kept, first, checksum)
    requires first != [] && Full(cutter.stream.find, first[|first| - 1], cutter.records)
    modifies file`body, file`parts, cutter, cutter.stream, cutter.stream.source`at, cutter.stream.source`left
    ensures var framed := Framed(cutter.stream.find, whole, ByCount(cutter.records), 0);
            && WrittenSoFar(codec, file, later, kept, framed, checksum)
            && framed != [] && Describes(cutter.stream.find, framed, records, ends)
  {
    ghost var done := first;
    later := out;
    var group := cutter.NextGroup();
    while group.Some?
      invariant Answered(cutter, group)
      invariant done != [] && Full(cutter.stream.find, done[|done| - 1], cutter.records)
      invariant OnCut(cutter.stream.find, whole, cutter.records, done, cutter.stream.rest)
      invariant WrittenSoFar(codec, file, later, kept, done, checksum)
      decreases group.Some?, |cutter.stream.rest|
    {
      done, later, group := WriteThenNext(codec, file, cutter, later, checksum, whole, kept, done);
    }
    later, records, ends := WriteRemainder(codec, file, cutter, later, checksum, whole, kept, done);
  }

  /** Writes the group found, and looks for the next. */
  method WriteThenNext(codec: Codec, file: File, cutter: Cutter, out: seq<Entry>, checksum: bool,
                       ghost whole: Bytes, ghost kept: seq<Bytes>, ghost done: seq<Bytes>)
    returns (ghost more: seq<Bytes>, later: seq<Entry>, group: Option<nat>)
    requires Inverts(codec) && cutter.Valid() && cutter.found == cutter.records
    requires cutter.records < |cutter.stream.bounds| && cutter.stream.end == cutter.stream.bounds[cutter.records]
    requires OnCut(cutter.stream.find, whole, cutter.records, done, cutter.stream.rest)
    requires WrittenSoFar(codec, file, out, kept, done, checksum)
    modifies file`body, file`parts, cutter, cutter.stream, cutter.stream.source`at, cutter.stream.source`left
    ensures Answered(cutter, group) && WrittenSoFar(codec, file, later, kept, more, checksum)
    ensures more != [] && Full(cutter.stream.find, more[|more| - 1], cutter.records)
    ensures OnCut(cutter.stream.find, whole, cutter.records, more, cutter.stream.rest)
    ensures |cutter.stream.rest| < old(|cutter.stream.rest|)
  {
    BoundsRise(cutter.stream.find, cutter.stream.rest, 0, cutter.records);
    more, later := WriteNext(codec, file, cutter, out, checksum, whole, kept, done);
    group := cutter.NextGroup();
  }

  /** What fills no group is the last frame, where there is any. */
  method WriteRemainder(codec: Codec, file: File, cutter: Cutter, out: seq<Entry>, checksum: bool,
                        ghost whole: Bytes, ghost kept: seq<Bytes>, ghost done: seq<Bytes>)
    returns (later: seq<Entry>, records: nat, ends: bool)
    requires Inverts(codec) && Answered(cutter, None)
    requires OnCut(cutter.stream.find, whole, cutter.records, done, cutter.stream.rest)
    requires WrittenSoFar(codec, file, out, kept, done, checksum)
    requires done != [] && Full(cutter.stream.find, done[|done| - 1], cutter.records)
    modifies file`body, file`parts, cutter.stream
    ensures var framed := Framed(cutter.stream.find, whole, ByCount(cutter.records), 0);
            && WrittenSoFar(codec, file, later, kept, framed, checksum)
            && framed != [] && Describes(cutter.stream.find, framed, records, ends)
  {
    CutLast(cutter.stream.find, whole, cutter.records, done, cutter.stream.rest);
    if cutter.stream.buf == [] { return out, cutter.records, true; }
    LeftOver(cutter.stream.find, cutter.stream.rest, cutter.found, cutter.stream.end);
    records, ends := cutter.found, cutter.stream.end == |cutter.stream.buf|;
    var remainder := cutter.TakeRemainder();
    later := WriteGroup(codec, file, out, remainder, checksum, kept, done);
  }

  /** The records found of what fills no group, and whether it ends with one. */
  lemma LeftOver(find: Finder, rest: Bytes, found: nat, end: nat)
    requires found + 1 == |Bounds(find, rest)| && end == Bounds(find, rest)[found]
    ensures found == |RecordsOf(find, rest)|
    ensures end == |rest| <==> FragmentOf(find, rest) == []
  {
    AfterLastBound(find, rest);
  }

  /** The group just found. */
  method WriteNext(codec: Codec, file: File, cutter: Cutter, out: seq<Entry>, checksum: bool,
                   ghost whole: Bytes, ghost kept: seq<Bytes>, ghost done: seq<Bytes>)
    returns (ghost more: seq<Bytes>, later: seq<Entry>)
    requires Inverts(codec) && cutter.Valid() && cutter.found == cutter.records
    requires cutter.records < |cutter.stream.bounds|
    requires OnCut(cutter.stream.find, whole, cutter.records, done, cutter.stream.rest)
    requires WrittenSoFar(codec, file, out, kept, done, checksum)
    modifies file`body, file`parts
    ensures WrittenSoFar(codec, file, later, kept, more, checksum)
    ensures more != [] && Full(cutter.stream.find, more[|more| - 1], cutter.records)
    ensures OnCut(cutter.stream.find, whole, cutter.records, more, cutter.Left())
  {
    CutOne(cutter.stream.find, whole, cutter.records, done, cutter.stream.rest);
    TakeOfTake(cutter.stream.rest, cutter.stream.end, |cutter.stream.buf|);
    later := WriteGroup(codec, file, out, cutter.stream.buf[..cutter.stream.end], checksum, kept, done);
    more := done + [cutter.stream.rest[..cutter.stream.end]];
  }

  /** The first frame written, compressed before anything is cut from the file: the records it takes
      up again exist nowhere else from then on. */
  method WriteFirst(codec: Codec, file: File, cutter: Cutter, group: Option<nat>, table: seq<Entry>, kept: nat,
                    checksum: bool, ghost whole: Bytes)
    returns (out: seq<Entry>, records: nat, ends: bool, ghost done: seq<Bytes>)
    requires Inverts(codec) && file.Valid(codec) && file.table == Some(table) && kept <= |table|
    requires Answered(cutter, group) && cutter.stream.rest == whole != []
    modifies file
    ensures WrittenSoFar(codec, file, out, old(file.parts)[..kept], done, checksum)
    ensures done != [] && Describes(cutter.stream.find, done, records, ends)
    ensures group.Some? ==> && OnCut(cutter.stream.find, whole, cutter.records, done, cutter.Left())
                            && Full(cutter.stream.find, done[|done| - 1], cutter.records)
    ensures group.None? ==> Framed(cutter.stream.find, whole, ByCount(cutter.records), 0) == done
  {
    var end;
    if group.Some? {
      CutOne(cutter.stream.find, whole, cutter.records, [], whole);
      TakeOfTake(whole, group.value, |cutter.stream.buf|);
      end, records, ends := group.value, cutter.records, true;
    } else {
      CutLast(cutter.stream.find, whole, cutter.records, [], whole);
      LeftOver(cutter.stream.find, whole, cutter.found, cutter.stream.end);
      Whole(whole);
      end, records, ends := |cutter.stream.buf|, cutter.found, cutter.stream.end == |cutter.stream.buf|;
    }
    var first := cutter.stream.buf[..end];
    out := CutFile(codec, file, table, kept, checksum);
    out := WriteGroup(codec, file, out, first, checksum, old(file.parts)[..kept], []);
    done := [whole[..end]];
  }

  /** The file as far as the frames kept, and the rows of those. */
  method CutFile(codec: Codec, file: File, table: seq<Entry>, kept: nat, ghost checksum: bool)
    returns (out: seq<Entry>)
    requires file.Valid(codec) && file.table == Some(table) && kept <= |table|
    modifies file
    ensures WrittenSoFar(codec, file, out, old(file.parts)[..kept], [], checksum)
  {
    StartsArePlaces(codec, file.parts, kept);
    FlattenSplit(file.parts, kept);
    ContentsSlice(codec, file.parts, 0, kept);
    EmptyJoins(file.parts[..kept]);
    assert file.parts[0..kept] == file.parts[..kept] && table[0..kept] == table[..kept];
    file.CutAt(CompStart(table, kept), kept);
    out := table[..kept];
  }

  /** Writes the groups a cutter hands out behind the frames kept. */
  method WriteFrames(codec: Codec, file: File, cutter: Cutter, kept: nat, checksum: bool, ghost whole: Bytes)
    returns (out: seq<Entry>, records: nat, ends: bool)
    requires Inverts(codec) && file.Valid(codec) && kept <= |file.parts|
    requires cutter.Valid() && cutter.Left() == whole != []
    modifies file, cutter, cutter.stream, cutter.stream.source`at, cutter.stream.source`left
    ensures var framed := Framed(cutter.stream.find, whole, ByCount(cutter.records), 0);
            && WrittenSoFar(codec, file, out, old(file.parts)[..kept], framed, checksum)
            && framed != [] && Describes(cutter.stream.find, framed, records, ends)
  {
    var group := cutter.NextGroup();
    ghost var done;
    out, records, ends, done := WriteFirst(codec, file, cutter, group, file.table.value, kept, checksum, whole);
    if group.Some? {
      out, records, ends := WriteRest(codec, file, cutter, out, checksum, whole, old(file.parts)[..kept], done);
    }
  }

  /** Rewrites the file from the frame `kept` on. */
  method Rewrite(codec: Codec, file: File, source: Source, find: Finder, n: nat, kept: nat, checksum: bool)
    returns (out: seq<Entry>, records: nat, ends: bool)
    requires Inverts(codec) && file.Valid(codec) && kept <= |file.parts| && n > 0
    requires source.Valid() && source.at == source.start && source.region != []
    modifies file, source`at, source`left
    ensures file.Valid(codec) && file.table == Some(out)
    ensures var framed := Framed(find, source.region, ByCount(n), 0);
            && file.parts == old(file.parts)[..kept] + Compressed(codec, framed, checksum)
            && framed != [] && Describes(find, framed, records, ends)
  {
    var cutter := new Cutter(source, find, n);
    out, records, ends := WriteFrames(codec, file, cutter, kept, checksum, source.region);
    file.WriteTable(out);
  }

  // ---------------------------------------------------------------- append

  /** Everything that is decided, and read, before the first write. */
  method ReadPlan(codec: Codec, file: File, data: Source, ask: Ask, prior: Option<Prior>)
    returns (r: Result<Plan, Refusal>, head: Bytes)
    requires file.Valid(codec) && data.Valid() && data.at == data.start && file.parts != []
    requires ask.onMissing == Insert ==> ask.separator.Some?
    modifies data`at, data`left
    ensures data.Valid() && data.at == data.start + |head| && head <= data.region
    ensures r == Decide(codec, ask, file.parts, data.region, prior)
    ensures r.Ok? && r.value.Keep? ==> data.region == []
  {
    head := [];
    var table := file.table.value;
    var last, known := LastData(table), Known(prior, table, ask.count);
    var reader := new FrameReader(codec, ask.find, file);
    var chosen := Choose(reader, ask, last, known);
    if chosen.Err? { return Err(chosen.error), head; }
    head := Gather(data);
    r := PlanJoin(codec, file, reader, head, data.region, ask, last, known, chosen.value);
  }

  /** How the data joins the last data frame. */
  method PlanJoin(codec: Codec, file: File, reader: FrameReader, head: Bytes, ghost data: Bytes, ask: Ask, last: nat,
                  known: Option<Prior>, n: nat)
    returns (r: Result<Plan, Refusal>)
    requires file.Valid(codec) && reader.Valid() && reader.find == ask.find
    requires last < |file.parts| == |reader.table| && reader.contents == Contents(codec, file.parts)
    requires head <= data && (|head| < |MAGIC| ==> head == data)
    requires ask.onMissing == Insert ==> ask.separator.Some?
    ensures r == Joined(codec, ask, file.parts[last], reader.contents[last], data, last, known, n)
    ensures r.Ok? && r.value.Keep? ==> data == []
  {
    if head == [] { return Ok(Keep(n)); }
    HeadTells(head, data);
    if LooksCompressed(head) { return Err(CompressedInput); }
    var front, state := ReadFront(reader, ask, last, n, known);
    if front.Err? { return Err(front.error); }
    var part := ReadPart(codec, file, last);
    r := Ok(AppendPlan.Rewrite(n, if state == (n, true) then last + 1 else last, front.value,
                               ChecksumOf(codec, part, known)));
  }

  lemma HeadTells(head: Bytes, data: Bytes)
    requires head <= data && (|head| < |MAGIC| ==> head == data)
    ensures LooksCompressed(head) <==> LooksCompressed(data)
  {
  }

  /** The compressed bytes of frame `i`. */
  method ReadPart(codec: Codec, file: File, i: nat) returns (part: Bytes)
    requires file.Valid(codec) && i < |file.parts|
    ensures part == file.parts[i]
  {
    StartsArePlaces(codec, file.parts, i);
    StartsArePlaces(codec, file.parts, i + 1);
    FrameIsSpan(file.parts, i);
    StartStep(file.parts, i);
    part := file.body[CompStart(file.table.value, i)..CompStart(file.table.value, i + 1)];
  }

  /** A reader of `front` and then of what is left of `data`, returning what it likes of either. */
  method Chain(front: Bytes, data: Source) returns (chained: Source)
    requires data.Valid()
    ensures fresh(chained) && chained.Valid() && chained.at == chained.start
    ensures chained.region == front + data.region[data.at - data.start..]
  {
    SliceThenDrop(data.content, data.start, data.start + |data.region|);
    SliceOfSlice(data.content, data.start, data.start + |data.region|, data.at - data.start, |data.region|);
    var rest := data.content[data.at..data.at + data.left];
    assert rest == data.region[data.at - data.start..];
    chained := new Source(front + rest);
    chained.Seek(0, |front + rest|);
    Whole(front + rest);
  }

  /** Appends records. A refusal leaves the file as it was; otherwise what it becomes and what is told
      of it are decided by the file, the data and what was asked for, however the data arrives. */
  method AppendRecords(codec: Codec, file: File, data: Source, ask: Ask, prior: Option<Prior>)
    returns (r: Result<Prior, Refusal>)
    requires Inverts(codec) && file.Valid(codec) && data.Valid() && data.at == data.start
    requires prior.Some? ==> prior.value.recordsPerFrame > 0
    modifies file, data`at, data`left
    ensures file.Valid(codec)
    ensures r.Err? ==> unchanged(file)
    ensures AskedFor(ask).Some? ==> r == Err(AskedFor(ask).value)
    ensures AskedFor(ask).None? && old(file.parts) == [] ==> r == Err(NoDataFrames)
    ensures AskedFor(ask).None? && old(file.parts) != [] ==>
              match Decide(codec, ask, old(file.parts), data.region, prior)
              case Err(refusal) => r == Err(refusal)
              case Ok(plan) => Carried(codec, ask, old(file.parts), data.region, prior, plan, file.parts, r)
  {
    if AskedFor(ask).Some? { return Err(AskedFor(ask).value); }
    if file.table.value == [] { return Err(NoDataFrames); }
    var planned, head := ReadPlan(codec, file, data, ask, prior);
    if planned.Err? { return Err(planned.error); }
    PlanIsSound(codec, ask, file.parts, data.region, prior, planned.value);
    r := Carry(codec, file, data, head, ask, prior, planned.value);
  }

  /** The plan was carried out. */
  ghost predicate Carried(codec: Codec, ask: Ask, parts: seq<Bytes>, data: Bytes, prior: Option<Prior>, plan: Plan,
                          later: seq<Bytes>, r: Result<Prior, Refusal>)
  {
    && parts != [] && plan.n > 0 && (plan.Rewrite? ==> plan.kept <= |parts|)
    && later == NewParts(codec, ask.find, parts, data, plan)
    && r == Ok(ResultOf(codec, ask, parts, data, prior, plan))
  }

  lemma PlanIsSound(codec: Codec, ask: Ask, parts: seq<Bytes>, data: Bytes, prior: Option<Prior>, plan: Plan)
    requires parts != [] && AskedFor(ask).None? && Decide(codec, ask, parts, data, prior) == Ok(plan)
    requires prior.Some? ==> prior.value.recordsPerFrame > 0
    ensures plan.n > 0 && (plan.Rewrite? ==> plan.kept <= |parts| && data != [])
  {
    var last, known := LastData(TableOf(codec, parts)), Known(prior, TableOf(codec, parts), ask.count);
    var chosen := ChosenCount(ask, Contents(codec, parts), last, known);
    JoinIsSound(codec, ask, parts[last], Contents(codec, parts)[last], data, last, known, chosen.value, plan);
  }

  lemma JoinIsSound(codec: Codec, ask: Ask, part: Bytes, content: Bytes, data: Bytes, last: nat, known: Option<Prior>,
                    n: nat, plan: Plan)
    requires ask.onMissing == Insert ==> ask.separator.Some?
    requires Joined(codec, ask, part, content, data, last, known, n) == Ok(plan)
    ensures plan.n == n && (plan.Rewrite? ==> plan.kept <= last + 1 && data != [])
  {
  }

  method Carry(codec: Codec, file: File, data: Source, head: Bytes, ask: Ask, prior: Option<Prior>, plan: Plan)
    returns (r: Result<Prior, Refusal>)
    requires Inverts(codec) && file.Valid(codec) && file.parts != []
    requires data.Valid() && head <= data.region && data.at == data.start + |head|
    requires plan.n > 0 && (plan.Rewrite? ==> plan.kept <= |file.parts| && data.region != [])
    modifies file
    ensures file.Valid(codec)
    ensures Carried(codec, ask, old(file.parts), data.region, prior, plan, file.parts, r)
  {
    var table := file.table.value;
    var last, known := LastData(table), Known(prior, table, ask.count);
    var validated := !ask.trust || Validated(known);
    match plan
    case Keep(n) =>
      if known.Some? {
        return Ok(known.value.(recordsPerFrame := n, countValidated := validated));
      }
      return Ok(Prior(n, validated, |table|, last, table[last].comp, table[last].decomp, None, false, false));
    case Rewrite(n, kept, front, checksum) =>
      r := CarryRewrite(codec, file, data, head, ask, prior, plan, validated);
  }

  method CarryRewrite(codec: Codec, file: File, data: Source, head: Bytes, ask: Ask, ghost prior: Option<Prior>,
                      plan: Plan, validated: bool)
    returns (r: Result<Prior, Refusal>)
    requires Inverts(codec) && file.Valid(codec) && file.parts != []
    requires data.Valid() && head <= data.region != [] && data.at == data.start + |head|
    requires plan.Rewrite? && plan.n > 0 && plan.kept <= |file.parts|
    requires validated <==> !ask.trust || Validated(Known(prior, TableOf(codec, file.parts), ask.count))
    modifies file
    ensures file.Valid(codec)
    ensures Carried(codec, ask, old(file.parts), data.region, prior, plan, file.parts, r)
  {
    var chained := Chain(plan.front + head, data);
    Joins(plan.front, head, data.region);
    ghost var parts := file.parts;
    var out, records, ends := Rewrite(codec, file, chained, ask.find, plan.n, plan.kept, plan.checksum);
    ResultIs(codec, ask, parts, data.region, prior, plan, records, ends);
    r := Ok(Told(plan, validated, out, records, ends));
  }

  /** What is told of a file with this table. */
  function Told(plan: Plan, validated: bool, out: seq<Entry>, records: nat, ends: bool): Prior
    requires plan.Rewrite? && out != []
  {
    var last := |out| - 1;
    Prior(plan.n, validated, |out|, last, out[last].comp, out[last].decomp, Some(records), ends, plan.checksum)
  }

  lemma Joins(front: Bytes, head: Bytes, data: Bytes)
    requires head <= data
    ensures (front + head) + data[|head|..] == front + data
  {
    assert data == head + data[|head|..];
  }

  /** What is told of the last frame is what the last of the groups holds. */
  lemma ResultIs(codec: Codec, ask: Ask, parts: seq<Bytes>, data: Bytes, prior: Option<Prior>, plan: Plan,
                 records: nat, ends: bool)
    requires Inverts(codec) && parts != [] && plan.Rewrite? && plan.kept <= |parts|
    requires var framed := Framed(ask.find, plan.front + data, ByCount(plan.n), 0);
             framed != [] && Describes(ask.find, framed, records, ends)
    ensures var later := NewParts(codec, ask.find, parts, data, plan);
            var known := Known(prior, TableOf(codec, parts), ask.count);
            later != [] && ResultOf(codec, ask, parts, data, prior, plan)
                           == Told(plan, !ask.trust || Validated(known), TableOf(codec, later), records, ends)
  {
    var framed := Framed(ask.find, plan.front + data, ByCount(plan.n), 0);
    var later := NewParts(codec, ask.find, parts, data, plan);
    NewContents(codec, ask.find, parts, data, plan);
    assert Contents(codec, later)[|later| - 1] == framed[|framed| - 1];
  }
}
