/** What appending records decides before it writes (`append_records_inner` of src/edit.rs), and what
    the decision is worth: the framing it keeps, the content it keeps, and what a result of an earlier
    append may stand in for. */
module AppendPlan {
  import opened Bytes
  import opened Seqs
  import opened Records
  import opened Frames
  import opened Framing
  import opened SeekableFile
  import opened FrameReader

  datatype OnMissing = Refuse | Insert

  datatype Refusal =
    | TrustWithoutCount
    | ZeroCount
    | NoDataFrames
    | CountNotHeld
    | TooFewFrames
    | NoRecordInFirst
    | CountsDiffer
    | InsertWithoutSeparator
    | CompressedInput
    | EndsInFragment
    | SeparatorOverlaps
    | LastHoldsTooMany

  /** What an append tells of the file it leaves (`AppendResult`). */
  datatype Prior = Prior(
    recordsPerFrame: nat,
    countValidated: bool,
    frameCount: nat,
    lastFrame: nat,
    lastComp: nat,
    lastDecomp: nat,
    lastRecords: Option<nat>,
    lastWhole: bool,
    checksum: bool)

  /** What the caller asks for. */
  datatype Ask = Ask(
    find: Finder,
    separator: Option<Bytes>,
    onMissing: OnMissing,
    count: Option<nat>,
    trust: bool)

  /** What is to be written: the frames kept, and what goes in front of the data. */
  datatype Plan =
    | Keep(n: nat)
    | Rewrite(n: nat, kept: nat, front: Bytes, checksum: bool)

  // ---------------------------------------------------------------- the last data frame

  /** The last frame that holds anything (`last_data_frame`). */
  function LastDataFrom(table: seq<Entry>, k: nat): (at: nat)
    requires k < |table|
    ensures at <= k
  {
    if k > 0 && table[k].decomp == 0 then LastDataFrom(table, k - 1) else k
  }

  function LastData(table: seq<Entry>): (at: nat)
    requires table != []
    ensures at < |table|
  {
    LastDataFrom(table, |table| - 1)
  }

  lemma {:induction false} LastDataFromMeans(codec: Codec, parts: seq<Bytes>, k: nat)
    requires k < |parts|
    ensures var last := LastDataFrom(TableOf(codec, parts), k);
            && (last > 0 ==> Contents(codec, parts)[last] != [])
            && forall i :: last < i <= k ==> Contents(codec, parts)[i] == []
    decreases k
  {
    ContentAt(codec, parts, k);
    if k > 0 && TableOf(codec, parts)[k].decomp == 0 {
      LastDataFromMeans(codec, parts, k - 1);
    }
  }

  /** Everything after the last data frame is empty, and it is not, unless it is frame 0. */
  lemma LastDataMeans(codec: Codec, parts: seq<Bytes>)
    requires parts != []
    ensures var last, contents := LastData(TableOf(codec, parts)), Contents(codec, parts);
            && (last > 0 ==> contents[last] != [])
            && (forall i :: last < i < |contents| ==> contents[i] == [])
            && Flatten(contents) == Flatten(contents[..last + 1])
  {
    var last, contents := LastData(TableOf(codec, parts)), Contents(codec, parts);
    LastDataFromMeans(codec, parts, |parts| - 1);
    FlattenSplit(contents, last + 1);
    EmptyFlatten(contents[last + 1..]);
    EmptyJoins(Flatten(contents[..last + 1]));
  }

  lemma {:induction false} EmptyFlatten(parts: seq<Bytes>)
    requires forall i :: 0 <= i < |parts| ==> parts[i] == []
    ensures Flatten(parts) == []
  {
    if parts != [] { EmptyFlatten(parts[1..]); }
  }

  // ---------------------------------------------------------------- the count

  /** A result that still describes the file, as far as its sizes tell, and is not at odds with the
      count asked for. */
  function Known(prior: Option<Prior>, table: seq<Entry>, count: Option<nat>): Option<Prior>
    requires table != []
  {
    var last := LastData(table);
    if && prior.Some? && prior.value.frameCount == |table| && prior.value.lastFrame == last
       && prior.value.lastComp == table[last].comp && prior.value.lastDecomp == table[last].decomp
       && (count.Some? ==> count.value == prior.value.recordsPerFrame)
    then prior else None
  }

  predicate Validated(known: Option<Prior>) {
    known.Some? && known.value.countValidated
  }

  /** `validate_separator`: the count frames 0 and last but one agree on. */
  function SeparatorCount(find: Finder, contents: seq<Bytes>): Result<nat, Refusal> {
    if |contents| < 3 then Err(TooFewFrames)
    else if Walked(find, contents[0]).0 == 0 then Err(NoRecordInFirst)
    else if Walked(find, contents[|contents| - 2]).0 != Walked(find, contents[0]).0 then Err(CountsDiffer)
    else Ok(Walked(find, contents[0]).0)
  }

  /** `validate_records_per_frame`: frame 0 and the one before the last data frame hold `n`. */
  predicate CountHolds(find: Finder, contents: seq<Bytes>, last: nat, n: nat)
    requires last < |contents|
  {
    && (last > 0 ==> Walked(find, contents[0]) == (n, true))
    && (last > 1 ==> Walked(find, contents[last - 1]) == (n, true))
  }

  /** How many records go to a frame. */
  function ChosenCount(ask: Ask, contents: seq<Bytes>, last: nat, known: Option<Prior>): Result<nat, Refusal>
    requires last < |contents|
  {
    match ask.count
    case Some(n) =>
      if contents[last] == [] then Err(NoDataFrames)
      else if !ask.trust && !Validated(known) && !CountHolds(ask.find, contents, last, n) then Err(CountNotHeld)
      else Ok(n)
    case None =>
      if Validated(known) then Ok(known.value.recordsPerFrame) else SeparatorCount(ask.find, contents)
  }

  // ---------------------------------------------------------------- the join

  const MAGIC: Bytes := [0x28, 0xb5, 0x2f, 0xfd]

  predicate LooksCompressed(data: Bytes) {
    MAGIC <= data
  }

  /** How many records the last data frame holds, and whether it ends whole. */
  function LastState(ask: Ask, content: Bytes, known: Option<Prior>): (nat, bool) {
    if known.Some? && known.value.lastRecords.Some? then (known.value.lastRecords.value, known.value.lastWhole)
    else (|RecordsOf(ask.find, content)|, FragmentOf(ask.find, content) == [])
  }

  /** What goes in front of the data: the last data frame, ended by a separator where it ends in a
      fragment, or nothing where it is full and stays as it is. */
  function Front(ask: Ask, content: Bytes, n: nat, state: (nat, bool)): Result<Bytes, Refusal>
    requires ask.onMissing == Insert ==> ask.separator.Some?
  {
    if !state.1 && ask.onMissing == Refuse then Err(EndsInFragment)
    else
      var tail := if state.1 then content else content + ask.separator.value;
      if !state.1 && !EndsWhole(ask.find, tail) then Err(SeparatorOverlaps)
      else if ask.trust && (if state.1 then state.0 else Count(ask.find, tail)) > n then Err(LastHoldsTooMany)
      else Ok(if state == (n, true) then [] else tail)
  }

  function ChecksumOf(codec: Codec, part: Bytes, known: Option<Prior>): bool {
    if known.Some? && known.value.lastRecords.Some? then known.value.checksum else codec.hasChecksum(part)
  }

  /** What is decided once the file was read. */
  function Decide(codec: Codec, ask: Ask, parts: seq<Bytes>, data: Bytes, prior: Option<Prior>): Result<Plan, Refusal>
    requires parts != [] && (ask.onMissing == Insert ==> ask.separator.Some?)
  {
    var table, contents := TableOf(codec, parts), Contents(codec, parts);
    var last, known := LastData(table), Known(prior, table, ask.count);
    var chosen := ChosenCount(ask, contents, last, known);
    if chosen.Err? then Err(chosen.error)
    else Joined(codec, ask, parts[last], contents[last], data, last, known, chosen.value)
  }

  /** How `data` joins the last data frame, `part` holding `content`, with `n` records to a frame. */
  function Joined(codec: Codec, ask: Ask, part: Bytes, content: Bytes, data: Bytes, last: nat, known: Option<Prior>,
                  n: nat)
    : Result<Plan, Refusal>
    requires ask.onMissing == Insert ==> ask.separator.Some?
  {
    if data == [] then Ok(Keep(n))
    else if LooksCompressed(data) then Err(CompressedInput)
    else
      var state := LastState(ask, content, known);
      var front := Front(ask, content, n, state);
      if front.Err? then Err(front.error)
      else Ok(Rewrite(n, if state == (n, true) then last + 1 else last, front.value, ChecksumOf(codec, part, known)))
  }

  /** What is refused whatever the file is. */
  function AskedFor(ask: Ask): Option<Refusal> {
    if ask.separator.None? && ask.onMissing == Insert then Some(InsertWithoutSeparator)
    else if ask.trust && ask.count.None? then Some(TrustWithoutCount)
    else if ask.count == Some(0) then Some(ZeroCount)
    else None
  }

  /** The frames after an append that goes ahead. */
  function NewParts(codec: Codec, find: Finder, parts: seq<Bytes>, data: Bytes, plan: Plan): seq<Bytes>
    requires plan.Rewrite? ==> plan.kept <= |parts|
  {
    match plan
    case Keep(_) => parts
    case Rewrite(n, kept, front, checksum) =>
      parts[..kept] + Compressed(codec, Framed(find, front + data, ByCount(n), 0), checksum)
  }

  // ---------------------------------------------------------------- what a result is worth

  /** The result describes the file. */
  ghost predicate Truthful(codec: Codec, find: Finder, parts: seq<Bytes>, prior: Prior) {
    && parts != []
    && var table, contents := TableOf(codec, parts), Contents(codec, parts);
       var last := LastData(table);
       && prior.recordsPerFrame > 0
       && prior.frameCount == |parts| && prior.lastFrame == last
       && prior.lastComp == table[last].comp && prior.lastDecomp == table[last].decomp
       && (prior.lastRecords.Some? ==>
             && prior.lastRecords.value == |RecordsOf(find, contents[last])|
             && prior.lastWhole == (FragmentOf(find, contents[last]) == [])
             && prior.checksum == codec.hasChecksum(parts[last]))
       && (prior.countValidated && last > 0 ==> |RecordsOf(find, contents[0])| == prior.recordsPerFrame)
  }

  /** What an append returns. */
  function ResultOf(codec: Codec, ask: Ask, parts: seq<Bytes>, data: Bytes, prior: Option<Prior>, plan: Plan): Prior
    requires parts != [] && (plan.Rewrite? ==> plan.kept <= |parts|)
  {
    var table, known := TableOf(codec, parts), Known(prior, TableOf(codec, parts), ask.count);
    var last, validated := LastData(table), !ask.trust || Validated(known);
    match plan
    case Keep(n) =>
      if known.Some? then known.value.(recordsPerFrame := n, countValidated := validated)
      else Prior(n, validated, |table|, last, table[last].comp, table[last].decomp, None, false, false)
    case Rewrite(n, _, _, checksum) =>
      var later := NewParts(codec, ask.find, parts, data, plan);
      if later == [] then Prior(n, validated, 0, 0, 0, 0, None, false, false)
      else
        var newLast := |later| - 1;
        var content, row := Contents(codec, later)[newLast], TableOf(codec, later)[newLast];
        Prior(n, validated, |later|, newLast, row.comp, row.decomp, Some(|RecordsOf(ask.find, content)|),
              FragmentOf(ask.find, content) == [], checksum)
  }

  /** What the last data frame is known to hold is what it holds. */
  lemma StateIsTrue(codec: Codec, ask: Ask, parts: seq<Bytes>, prior: Option<Prior>)
    requires parts != [] && (prior.Some? ==> Truthful(codec, ask.find, parts, prior.value))
    ensures var table := TableOf(codec, parts);
            var content := Contents(codec, parts)[LastData(table)];
            LastState(ask, content, Known(prior, table, ask.count)) == LastState(ask, content, None)
    ensures var table := TableOf(codec, parts);
            ChecksumOf(codec, parts[LastData(table)], Known(prior, table, ask.count))
            == codec.hasChecksum(parts[LastData(table)])
  {
  }

  /** A plan keeps the last data frame where it is full, and takes it up again where it is not. */
  lemma PlanMeans(codec: Codec, ask: Ask, parts: seq<Bytes>, data: Bytes, prior: Option<Prior>, plan: Plan)
    requires parts != [] && (ask.onMissing == Insert ==> ask.separator.Some?)
    requires prior.Some? ==> Truthful(codec, ask.find, parts, prior.value)
    requires Decide(codec, ask, parts, data, prior) == Ok(plan) && plan.Rewrite?
    ensures var last := LastData(TableOf(codec, parts));
            var content := Contents(codec, parts)[last];
            && data != []
            && if |RecordsOf(ask.find, content)| == plan.n && FragmentOf(ask.find, content) == []
               then plan.kept == last + 1 && plan.front == []
               else plan.kept == last && plan.front == content + Inserted(ask, content)
  {
    StateIsTrue(codec, ask, parts, prior);
    EmptyJoins(Contents(codec, parts)[LastData(TableOf(codec, parts))]);
  }

  /** The separator written at the join, if one is. */
  function Inserted(ask: Ask, content: Bytes): Bytes {
    if FragmentOf(ask.find, content) != [] && ask.separator.Some? then ask.separator.value else []
  }

  // ---------------------------------------------------------------- the framing is kept

  lemma FullThenUniform(find: Finder, a: seq<Bytes>, b: seq<Bytes>, n: nat)
    requires AllFull(find, a, n) && Uniform(find, b, n)
    ensures Uniform(find, a + b, n)
  {
    var all := a + b;
    var body, rest := all[..|all| - 1], b[..|b| - 1];
    forall i | 0 <= i < |body|
      ensures Full(find, body[i], n)
    {
      if i >= |a| { assert body[i] == rest[i - |a|]; }
    }
  }

  lemma NewContents(codec: Codec, find: Finder, parts: seq<Bytes>, data: Bytes, plan: Plan)
    requires Inverts(codec) && plan.Rewrite? && plan.kept <= |parts|
    ensures Contents(codec, NewParts(codec, find, parts, data, plan))
            == Contents(codec, parts)[..plan.kept] + Framed(find, plan.front + data, ByCount(plan.n), 0)
  {
    var framed := Framed(find, plan.front + data, ByCount(plan.n), 0);
    CompressedHolds(codec, framed, plan.checksum);
    ContentsConcat(codec, parts[..plan.kept], Compressed(codec, framed, plan.checksum));
    ContentsSlice(codec, parts, 0, plan.kept);
    assert parts[0..plan.kept] == parts[..plan.kept];
    assert Contents(codec, parts)[0..plan.kept] == Contents(codec, parts)[..plan.kept];
  }

  /** An append keeps the framing: where every frame before the last data frame is full, the file it
      leaves is uniform. */
  lemma AppendIsUniform(codec: Codec, ask: Ask, parts: seq<Bytes>, data: Bytes, prior: Option<Prior>, plan: Plan)
    requires Inverts(codec) && parts != [] && (ask.onMissing == Insert ==> ask.separator.Some?)
    requires prior.Some? ==> Truthful(codec, ask.find, parts, prior.value)
    requires Decide(codec, ask, parts, data, prior) == Ok(plan) && plan.Rewrite? && plan.n > 0
    requires AllFull(ask.find, Contents(codec, parts)[..LastData(TableOf(codec, parts))], plan.n)
    ensures plan.kept <= |parts|
    ensures Uniform(ask.find, Contents(codec, NewParts(codec, ask.find, parts, data, plan)), plan.n)
  {
    PlanMeans(codec, ask, parts, data, prior, plan);
    NewContents(codec, ask.find, parts, data, plan);
    var contents, last := Contents(codec, parts), LastData(TableOf(codec, parts));
    KeptIsFull(ask.find, contents, plan.n, last, plan.kept);
    CountFramesAreUniform(ask.find, plan.front + data, plan.n, 0);
    FullThenUniform(ask.find, contents[..plan.kept], Framed(ask.find, plan.front + data, ByCount(plan.n), 0), plan.n);
  }

  lemma KeptIsFull(find: Finder, contents: seq<Bytes>, n: nat, last: nat, kept: nat)
    requires last < |contents| && AllFull(find, contents[..last], n)
    requires kept == last || (kept == last + 1 && Full(find, contents[last], n))
    ensures AllFull(find, contents[..kept], n)
  {
    if kept == last + 1 {
      forall i | 0 <= i < kept
        ensures Full(find, contents[..kept][i], n)
      {
        if i < last { assert contents[..last][i] == contents[..kept][i]; }
      }
    }
  }

  /** It keeps the content: what was there, the separator where one was needed, and the data. */
  lemma AppendConserves(codec: Codec, ask: Ask, parts: seq<Bytes>, data: Bytes, prior: Option<Prior>, plan: Plan)
    requires Inverts(codec) && parts != [] && (ask.onMissing == Insert ==> ask.separator.Some?)
    requires prior.Some? ==> Truthful(codec, ask.find, parts, prior.value)
    requires Decide(codec, ask, parts, data, prior) == Ok(plan) && plan.Rewrite?
    ensures plan.kept <= |parts|
    ensures Flatten(Contents(codec, NewParts(codec, ask.find, parts, data, plan)))
            == Flatten(Contents(codec, parts)) + Inserted(ask, Contents(codec, parts)[LastData(TableOf(codec, parts))])
               + data
  {
    PlanMeans(codec, ask, parts, data, prior, plan);
    LastDataMeans(codec, parts);
    RewriteConserves(codec, ask, parts, data, plan, Contents(codec, parts), LastData(TableOf(codec, parts)));
  }

  lemma RewriteConserves(codec: Codec, ask: Ask, parts: seq<Bytes>, data: Bytes, plan: Plan, contents: seq<Bytes>,
                         last: nat)
    requires Inverts(codec) && plan.Rewrite? && contents == Contents(codec, parts)
    requires last < |contents| && Flatten(contents) == Flatten(contents[..last + 1])
    requires (plan.kept == last + 1 && plan.front == Inserted(ask, contents[last]) == [])
             || (plan.kept == last && plan.front == contents[last] + Inserted(ask, contents[last]))
    ensures plan.kept <= |parts|
    ensures Flatten(Contents(codec, NewParts(codec, ask.find, parts, data, plan)))
            == Flatten(contents) + Inserted(ask, contents[last]) + data
  {
    NewContents(codec, ask.find, parts, data, plan);
    FramedConserves(ask.find, plan.front + data, ByCount(plan.n), 0);
    var framed := Framed(ask.find, plan.front + data, ByCount(plan.n), 0);
    JoinedFrames(contents, last, plan.kept, framed, plan.front, Inserted(ask, contents[last]), data);
  }

  /** No compressed frame before the one it takes up again changes. */
  lemma FramesBeforeUntouched(codec: Codec, ask: Ask, parts: seq<Bytes>, data: Bytes, prior: Option<Prior>, plan: Plan)
    requires parts != [] && (ask.onMissing == Insert ==> ask.separator.Some?)
    requires prior.Some? ==> Truthful(codec, ask.find, parts, prior.value)
    requires Decide(codec, ask, parts, data, prior) == Ok(plan) && plan.Rewrite?
    ensures plan.kept <= |parts|
    ensures var last, later := LastData(TableOf(codec, parts)), NewParts(codec, ask.find, parts, data, plan);
            last <= |later| && later[..last] == parts[..last]
  {
    PlanMeans(codec, ask, parts, data, prior, plan);
    KeptIsPrefix(codec, ask.find, parts, data, plan, LastData(TableOf(codec, parts)));
  }

  lemma KeptIsPrefix(codec: Codec, find: Finder, parts: seq<Bytes>, data: Bytes, plan: Plan, last: nat)
    requires plan.Rewrite? && last <= plan.kept <= |parts|
    ensures var later := NewParts(codec, find, parts, data, plan);
            last <= |later| && later[..last] == parts[..last]
  {
    var more := Compressed(codec, Framed(find, plan.front + data, ByCount(plan.n), 0), plan.checksum);
    SliceOfJoinLeft(parts[..plan.kept], more, 0, last);
    TakeOfTake(parts, last, plan.kept);
    assert NewParts(codec, find, parts, data, plan) == parts[..plan.kept] + more;
  }

  /** The frames kept and the frames written hold what was there, what was inserted and the data. */
  lemma JoinedFrames(contents: seq<Bytes>, last: nat, kept: nat, framed: seq<Bytes>, front: Bytes, inserted: Bytes,
                     data: Bytes)
    requires last < |contents| && Flatten(contents) == Flatten(contents[..last + 1])
    requires Flatten(framed) == front + data
    requires (kept == last + 1 && front == inserted == []) || (kept == last && front == contents[last] + inserted)
    ensures Flatten(contents[..kept] + framed) == Flatten(contents) + inserted + data
  {
    FlattenConcat(contents[..kept], framed);
    FlattenTake(contents, last);
    EmptyJoins(Flatten(contents));
    EmptyJoins(data);
    Assoc(Flatten(contents[..last]), contents[last], inserted);
    Assoc(Flatten(contents[..last]), contents[last] + inserted, data);
  }

  // ---------------------------------------------------------------- results stay truthful

  /** A count that was validated is the count of frame 0, where frame 0 is not the last data frame. */
  lemma ValidatedIsFirst(codec: Codec, ask: Ask, parts: seq<Bytes>, prior: Option<Prior>, n: nat)
    requires parts != [] && (prior.Some? ==> Truthful(codec, ask.find, parts, prior.value))
    requires var table := TableOf(codec, parts);
             ChosenCount(ask, Contents(codec, parts), LastData(table), Known(prior, table, ask.count)) == Ok(n)
    requires !ask.trust || Validated(Known(prior, TableOf(codec, parts), ask.count))
    ensures LastData(TableOf(codec, parts)) > 0 ==> |RecordsOf(ask.find, Contents(codec, parts)[0])| == n
    ensures prior.None? && ask.count.None? ==> n > 0 && LastData(TableOf(codec, parts)) > 0
  {
    if prior.None? && ask.count.None? {
      CountedFrameIsData(codec, parts, |parts| - 2);
      FinderOnEmpty(ask.find);
    }
  }

  lemma CountedFrameIsData(codec: Codec, parts: seq<Bytes>, k: int)
    requires 0 < k < |parts| ==> Contents(codec, parts)[k] != []
    ensures 0 < k < |parts| ==> LastData(TableOf(codec, parts)) >= k
  {
    if 0 < k < |parts| {
      LastDataMeans(codec, parts);
    }
  }

  lemma {:induction false} FramedIsNonempty(find: Finder, data: Bytes, n: int, target: nat)
    requires data != []
    ensures var framed := Framed(find, data, ByCount(n), target);
            framed != [] && framed[|framed| - 1] != []
    decreases |data|
  {
    var due := Due(find, data, ByCount(n), target);
    if due.Some? {
      DueLeaves(find, data, ByCount(n), target, due.value);
      var b := Bounds(find, data)[due.value];
      if data[b..] != [] {
        FramedIsNonempty(find, data[b..], n, target);
      } else {
        FinderOnEmpty(find);
      }
    }
  }

  /** The last frame an append leaves: what of the data fills no frame, and the last frame that holds
      anything. */
  lemma NewLast(codec: Codec, find: Finder, parts: seq<Bytes>, data: Bytes, plan: Plan)
    requires Inverts(codec) && plan.Rewrite? && plan.kept <= |parts| && data != []
    ensures var later := NewParts(codec, find, parts, data, plan);
            && later != [] && LastData(TableOf(codec, later)) == |later| - 1
            && codec.hasChecksum(later[|later| - 1]) == plan.checksum
  {
    var later := NewParts(codec, find, parts, data, plan);
    var framed := Framed(find, plan.front + data, ByCount(plan.n), 0);
    NewContents(codec, find, parts, data, plan);
    FramedIsNonempty(find, plan.front + data, plan.n, 0);
    CompressedHolds(codec, framed, plan.checksum);
    ContentAt(codec, later, |later| - 1);
    assert Contents(codec, later)[|later| - 1] == framed[|framed| - 1];
  }

  /** Frame 0 of the file an append leaves holds the count it was validated for. */
  lemma NewFirst(codec: Codec, ask: Ask, parts: seq<Bytes>, data: Bytes, prior: Option<Prior>, plan: Plan)
    requires Inverts(codec) && parts != [] && (ask.onMissing == Insert ==> ask.separator.Some?)
    requires prior.Some? ==> Truthful(codec, ask.find, parts, prior.value)
    requires Decide(codec, ask, parts, data, prior) == Ok(plan) && plan.Rewrite? && plan.n > 0
    requires plan.kept <= |parts|
    requires !ask.trust || Validated(Known(prior, TableOf(codec, parts), ask.count))
    ensures var contents := Contents(codec, NewParts(codec, ask.find, parts, data, plan));
            |contents| > 1 ==> |RecordsOf(ask.find, contents[0])| == plan.n
  {
    var last := LastData(TableOf(codec, parts));
    var contents := Contents(codec, NewParts(codec, ask.find, parts, data, plan));
    ValidatedIsFirst(codec, ask, parts, prior, plan.n);
    PlanMeans(codec, ask, parts, data, prior, plan);
    NewContents(codec, ask.find, parts, data, plan);
    if last == 0 {
      AppendIsUniform(codec, ask, parts, data, prior, plan);
      if |contents| > 1 {
        assert Full(ask.find, contents[..|contents| - 1][0], plan.n);
      }
    } else {
      assert contents[0] == Contents(codec, parts)[..plan.kept][0];
    }
  }

  lemma KeptIsTruthful(codec: Codec, ask: Ask, parts: seq<Bytes>, data: Bytes, prior: Option<Prior>, plan: Plan)
    requires parts != [] && (ask.onMissing == Insert ==> ask.separator.Some?)
    requires prior.Some? ==> Truthful(codec, ask.find, parts, prior.value)
    requires Decide(codec, ask, parts, data, prior) == Ok(plan) && plan.n > 0 && plan.Keep?
    ensures Truthful(codec, ask.find, parts, ResultOf(codec, ask, parts, data, prior, plan))
  {
    if !ask.trust || Validated(Known(prior, TableOf(codec, parts), ask.count)) {
      ValidatedIsFirst(codec, ask, parts, prior, plan.n);
    }
  }

  lemma WrittenIsTruthful(codec: Codec, ask: Ask, parts: seq<Bytes>, data: Bytes, prior: Option<Prior>, plan: Plan)
    requires Inverts(codec) && parts != [] && (ask.onMissing == Insert ==> ask.separator.Some?)
    requires prior.Some? ==> Truthful(codec, ask.find, parts, prior.value)
    requires Decide(codec, ask, parts, data, prior) == Ok(plan) && plan.n > 0 && plan.Rewrite?
    ensures plan.kept <= |parts|
    ensures Truthful(codec, ask.find, NewParts(codec, ask.find, parts, data, plan),
                     ResultOf(codec, ask, parts, data, prior, plan))
  {
    PlanMeans(codec, ask, parts, data, prior, plan);
    NewLast(codec, ask.find, parts, data, plan);
    if !ask.trust || Validated(Known(prior, TableOf(codec, parts), ask.count)) {
      NewFirst(codec, ask, parts, data, prior, plan);
    }
  }

  /** Whatever chain of appends led here, the result of the next one describes the file it leaves. */
  lemma ResultIsTruthful(codec: Codec, ask: Ask, parts: seq<Bytes>, data: Bytes, prior: Option<Prior>, plan: Plan)
    requires Inverts(codec) && parts != [] && (ask.onMissing == Insert ==> ask.separator.Some?)
    requires prior.Some? ==> Truthful(codec, ask.find, parts, prior.value)
    requires Decide(codec, ask, parts, data, prior) == Ok(plan) && plan.n > 0
    ensures plan.Rewrite? ==> plan.kept <= |parts|
    ensures Truthful(codec, ask.find, NewParts(codec, ask.find, parts, data, plan),
                     ResultOf(codec, ask, parts, data, prior, plan))
  {
    if plan.Keep? {
      KeptIsTruthful(codec, ask, parts, data, prior, plan);
    } else {
      WrittenIsTruthful(codec, ask, parts, data, prior, plan);
    }
  }

  /** A truthful result changes nothing: an append that goes ahead without it goes ahead with it, and
      leaves the same file. */
  lemma PriorChangesNothing(codec: Codec, ask: Ask, parts: seq<Bytes>, data: Bytes, prior: Prior)
    requires parts != [] && (ask.onMissing == Insert ==> ask.separator.Some?)
    requires Truthful(codec, ask.find, parts, prior)
    requires Decide(codec, ask, parts, data, None).Ok?
    ensures Decide(codec, ask, parts, data, Some(prior)) == Decide(codec, ask, parts, data, None)
  {
    var table := TableOf(codec, parts);
    StateIsTrue(codec, ask, parts, Some(prior));
    SameCount(codec, ask, parts, prior);
    assert Known(None, table, ask.count) == None;
  }

  lemma SameCount(codec: Codec, ask: Ask, parts: seq<Bytes>, prior: Prior)
    requires Truthful(codec, ask.find, parts, prior)
    requires ChosenCount(ask, Contents(codec, parts), LastData(TableOf(codec, parts)), None).Ok?
    ensures var table, contents := TableOf(codec, parts), Contents(codec, parts);
            ChosenCount(ask, contents, LastData(table), Known(Some(prior), table, ask.count))
            == ChosenCount(ask, contents, LastData(table), None)
  {
    if ask.count.None? {
      CountedFrameIsData(codec, parts, |parts| - 2);
      FinderOnEmpty(ask.find);
    }
  }
}
