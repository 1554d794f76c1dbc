/** The compressor (`convert_records_to_seekable_zst_reader_with_opts` of src/seekzstdsep_lib.rs):
    one pass over the input, cutting frames as the records that fill them arrive. */
module Compressor {
  import opened Bytes
  import opened Seqs
  import opened Records
  import opened Window
  import opened Stream
  import opened Finders
  import opened Frames
  import opened Framing
  import opened Placement

  /** `Retry` carries `CompressErrorData`: the count the attempt had come to, -1 before it had one. */
  datatype CompressError = Retry(current: int) | TooLong

  /** The frame encoder: what was compressed since the last `end_frame` is one frame, and `finish`
      closes the last. */
  class Encoder {
    var closed: seq<Bytes>
    var current: Bytes

    constructor ()
      ensures closed == [] && current == []
    {
      closed, current := [], [];
    }

    method Compress(data: Bytes)
      modifies this`current
      ensures current == old(current) + data
    {
      current := current + data;
    }

    method EndFrame()
      modifies this`closed, this`current
      ensures closed == old(closed) + [old(current)] && current == []
    {
      closed, current := closed + [current], [];
    }

    method Finish() returns (frames: seq<Bytes>)
      ensures frames == closed + [current]
    {
      frames := closed + [current];
    }

    /** What was compressed is `pieces`, one frame each, the last still open. */
    ghost predicate Holds(pieces: seq<Bytes>)
      reads this
    {
      if pieces == [] then closed == [] && current == [] else closed + [current] == pieces
    }
  }

  /** Compresses one more frame; the one before it is closed here, the last only by `finish`. */
  method Write(encoder: Encoder, written: nat, data: Bytes, ghost pieces: seq<Bytes>) returns (next: nat)
    requires encoder.Holds(pieces) && written == |pieces|
    modifies encoder
    ensures next == written + 1 && encoder.Holds(pieces + [data])
  {
    if written > 0 { encoder.EndFrame(); }
    EmptyJoins(data);
    encoder.Compress(data);
    next := written + 1;
  }

  /** How much unprocessed data an attempt allows: the target as many times over as the multiplier
      says, saturating. */
  ghost function Limit(target: nat, multiplier: nat): nat {
    if FirstRecord(target, multiplier) <= USIZE_MAX then FirstRecord(target, multiplier) else USIZE_MAX
  }

  method Limited(target: nat, multiplier: nat) returns (limit: nat)
    ensures limit == Limit(target, multiplier)
    ensures target == 0 || multiplier == 0 ==> limit == 0
  {
    FirstRecordIsProduct(target, multiplier);
    limit := SatMul(target, multiplier);
  }

  /** The count given, as a signed 64-bit number; -1 where none was. */
  function GivenCount(given: Option<nat>): int {
    match given
    case None => -1
    case Some(v) => Signed(v)
  }

  /** `v as i64`, for a `usize`. */
  function Signed(v: nat): int {
    var low := v % 0x1_0000_0000_0000_0000;
    if low < 0x8000_0000_0000_0000 then low else low - 0x1_0000_0000_0000_0000
  }

  ghost function RuleOf(same: bool, count: int): Rule {
    if !same then BySize else if count == -1 then Auto else ByCount(count)
  }

  /** What the pieces written and the input left have in common with the whole: the frames of the
      whole are the pieces and then the frames of what is left. */
  ghost predicate OnCourse(find: Finder, data: Bytes, first: Rule, target: nat, sep: nat, pieces: seq<Bytes>,
                           rest: Bytes, rule: Rule)
  {
    Cuts(find, data, first, target, sep) == pieces + Cuts(find, rest, rule, target, sep)
  }

  /** None of the records found so far fills a frame. */
  ghost predicate NoneDue(find: Finder, rest: Bytes, rule: Rule, goal: nat, found: nat) {
    && found < |Bounds(find, rest)|
    && Due(find, rest, rule, goal) == DueFrom(find, rest, rule, goal, found + 1)
    && (found > 0 ==> !Enough(rule, goal, found, Bounds(find, rest)[found]))
  }

  lemma GoesOn(find: Finder, data: Bytes, first: Rule, target: nat, sep: nat, pieces: seq<Bytes>, rest: Bytes,
               rule: Rule, k: nat, b: nat)
    requires OnCourse(find, data, first, target, sep, pieces, rest, rule)
    requires Due(find, rest, rule, target + sep) == Some(k) && b == Bounds(find, rest)[k]
    ensures b <= |rest|
    ensures OnCourse(find, data, first, target, sep, if Kept(rule, sep, b) then pieces + [rest[..b]] else pieces,
                     rest[b..], NextRule(rule, k))
    ensures NoneDue(find, rest[b..], NextRule(rule, k), target + sep, 0)
  {
    CutsOne(find, rest, rule, target, sep, k);
    var later := Cuts(find, rest[b..], NextRule(rule, k), target, sep);
    Assoc(pieces, [rest[..b]], later);
    EmptyJoins(later);
  }

  /** Every record is at least `sep` bytes long. */
  ghost predicate Spans(find: Finder, sep: nat) {
    forall d :: find(d).Some? ==> find(d).value >= sep
  }

  lemma EndsPast(find: Finder, data: Bytes, k: nat, sep: nat)
    requires Spans(find, sep) && 0 < k < |Bounds(find, data)|
    ensures Bounds(find, data)[k] >= sep
  {
    FindAtBound(find, data, k - 1);
  }

  /** How one turn of the loop ends. */
  datatype Round = More | Spent | Failed(error: CompressError)

  /** The bookkeeping of the loop, which the two encoding steps share. The older compressor counts a
      frame's bytes without the separator that ends it, the extracted one with it; that is all they
      differ by. */
  class Progress {
    /** The bytes `frameEnd` leaves out: the separator, or none. */
    const sep: nat
    const same: bool
    const target: nat
    /** Where the records found for the frame being gathered end. */
    var frameEnd: nat
    /** How many records were found for it, where they are counted. */
    var count: nat
    /** Records per frame, or -1 before frame 0 sets it. */
    var most: int
    var written: nat
    ghost var pieces: seq<Bytes>
    /** The whole input, and the rule its first frame is cut by. */
    ghost const data: Bytes
    ghost const first: Rule

    constructor (sep: nat, same: bool, target: nat, most: int, ghost data: Bytes)
      ensures frameEnd == count == written == 0 && pieces == [] && this.most == most
      ensures this.sep == sep && this.same == same && this.target == target
      ensures this.data == data && first == RuleOf(same, most)
    {
      this.sep, this.same, this.target := sep, same, target;
      frameEnd, count, written, this.most, pieces := 0, 0, 0, most, [];
      this.data, first := data, RuleOf(same, most);
    }

    ghost function Goal(): nat {
      target + sep
    }

    ghost function Rule(): Rule
      reads this
    {
      RuleOf(same, most)
    }

    ghost predicate Matches(stream: Stream, encoder: Encoder)
      reads this, stream, stream.source, encoder
    {
      && stream.Valid() && encoder.Holds(pieces) && written == |pieces|
      && frameEnd == (if stream.found == 0 then 0 else stream.end - sep) && (same ==> count == stream.found)
      && OnCourse(stream.find, data, first, target, sep, pieces, stream.rest, Rule())
    }

    ghost predicate Between(stream: Stream)
      reads this, stream
    {
      NoneDue(stream.find, stream.rest, Rule(), Goal(), stream.found)
    }

    /** Where a frame was just cut. */
    ghost predicate AtCut(stream: Stream, encoder: Encoder, rule: Rule)
      reads this, stream, stream.source, encoder
    {
      && stream.Valid() && encoder.Holds(pieces) && written == |pieces|
      && frameEnd == 0 && stream.found == 0
      && OnCourse(stream.find, data, first, target, sep, pieces, stream.rest, rule)
      && NoneDue(stream.find, stream.rest, rule, Goal(), 0)
    }

    /** Compresses what the records found so far come to, as one frame, or only drops it. */
    method Emit(stream: Stream, encoder: Encoder, keep: bool)
      requires Matches(stream, encoder) && stream.found > 0 && sep <= stream.end
      requires Due(stream.find, stream.rest, Rule(), Goal()) == Some(stream.found)
      requires keep <==> Kept(Rule(), sep, stream.end)
      modifies this, stream, encoder
      ensures most == old(most) && count == old(count)
      ensures AtCut(stream, encoder, NextRule(Rule(), old(stream.found)))
      ensures |stream.rest| - |stream.buf| == old(|stream.rest| - |stream.buf|)
      ensures |stream.rest| - stream.end == old(|stream.rest| - stream.end)
    {
      GoesOn(stream.find, data, first, target, sep, pieces, stream.rest, Rule(), stream.found, stream.end);
      if keep { Keep(stream, encoder); }
      stream.DropToLastEnd();
      frameEnd := 0;
    }

    method Keep(stream: Stream, encoder: Encoder)
      requires stream.Valid() && encoder.Holds(pieces) && written == |pieces|
      requires sep <= stream.end && frameEnd == stream.end - sep
      modifies this`written, this`pieces, encoder
      ensures pieces == old(pieces) + [stream.rest[..stream.end]]
      ensures encoder.Holds(pieces) && written == |pieces|
    {
      TakeOfTake(stream.rest, stream.end, |stream.buf|);
      written := Write(encoder, written, stream.buf[..frameEnd + sep], pieces);
      pieces := pieces + [stream.rest[..stream.end]];
    }

    /** The records found so far, the last of them included, are the first count that can be due. */
    ghost predicate Reaching(stream: Stream)
      reads this, stream
    {
      && 0 < stream.found < |Bounds(stream.find, stream.rest)|
      && sep <= stream.end == Bounds(stream.find, stream.rest)[stream.found]
      && Due(stream.find, stream.rest, Rule(), Goal())
         == DueFrom(stream.find, stream.rest, Rule(), Goal(), stream.found)
    }

    /** `encode_frame_not_same_separator_cnt`: cuts at the first record end at or past the target. */
    method EncodeBySize(stream: Stream, encoder: Encoder) returns (encoded: bool)
      requires Matches(stream, encoder) && Reaching(stream) && !Rule().ByCount?
      modifies this, stream, encoder
      ensures most == old(most) && count == old(count)
      ensures |stream.rest| - |stream.buf| == old(|stream.rest| - |stream.buf|)
      ensures |stream.rest| - stream.end == old(|stream.rest| - stream.end)
      ensures !encoded ==> Matches(stream, encoder) && Between(stream)
      ensures encoded ==> AtCut(stream, encoder, NextRule(Rule(), old(stream.found)))
    {
      if frameEnd < target { return false; }
      Emit(stream, encoder, frameEnd > sep);
      return true;
    }

    /** `encode_frame_on_same_separator_cnt`: frame 0 by size, which sets the count; the others at
        the count. */
    method EncodeByCount(stream: Stream, encoder: Encoder)
      requires same && Matches(stream, encoder) && Reaching(stream)
      modifies this, stream, encoder
      ensures Matches(stream, encoder) && Between(stream)
      ensures |stream.rest| - |stream.buf| == old(|stream.rest| - |stream.buf|)
      ensures |stream.rest| - stream.end == old(|stream.rest| - stream.end)
      ensures most == old(most) || (old(most) == -1 && most >= 1)
    {
      if most == -1 {
        EncodeFirst(stream, encoder);
      } else if most <= count {
        Emit(stream, encoder, true);
        count := 0;
      }
    }

    /** Frame 0, by size. */
    method EncodeFirst(stream: Stream, encoder: Encoder)
      requires same && most == -1 && Matches(stream, encoder) && Reaching(stream)
      modifies this, stream, encoder
      ensures Matches(stream, encoder) && Between(stream)
      ensures |stream.rest| - |stream.buf| == old(|stream.rest| - |stream.buf|)
      ensures |stream.rest| - stream.end == old(|stream.rest| - stream.end)
      ensures most == -1 || most >= 1
    {
      var encoded := EncodeBySize(stream, encoder);
      if encoded { SetCount(stream, encoder); }
    }

    /** The count frame 0 was cut at becomes that of every frame. */
    method SetCount(stream: Stream, encoder: Encoder)
      requires same && count > 0 && AtCut(stream, encoder, ByCount(count))
      modifies this`most, this`count
      ensures Matches(stream, encoder) && Between(stream) && most >= 1
    {
      most := count;
      count := 0;
    }

    /** Finds the next record of what is buffered, if one ends in it. */
    method Find(stream: Stream, encoder: Encoder) returns (more: bool)
      requires Matches(stream, encoder) && Between(stream) && Spans(stream.find, sep)
      modifies this`count, this`frameEnd, stream`end, stream`found
      ensures Matches(stream, encoder)
      ensures more ==> Reaching(stream) && old(stream.end) < stream.end
      ensures !more ==> Between(stream) && stream.Scanned()
    {
      ghost var found := stream.found;
      var end := stream.NextEnd();
      if end.None? { return false; }
      Reached(stream, found);
      CountRecord(stream, end.value);
      return true;
    }

    /** The record found next is the first that can be due. */
    lemma Reached(stream: Stream, found: nat)
      requires stream.Valid() && stream.found == found + 1 && Spans(stream.find, sep)
      requires NoneDue(stream.find, stream.rest, Rule(), Goal(), found)
      ensures Reaching(stream) && Bounds(stream.find, stream.rest)[found] < stream.end
    {
      BoundsRise(stream.find, stream.rest, found, stream.found);
      EndsPast(stream.find, stream.rest, stream.found, sep);
    }

    method CountRecord(stream: Stream, end: nat)
      requires sep <= end
      modifies this`count, this`frameEnd
      ensures count == old(count) + (if same then 1 else 0) && frameEnd == end - sep
    {
      if same { count := count + 1; }
      frameEnd := end - sep;
    }

    /** The next record, and the frame it may fill. */
    method Advance(stream: Stream, encoder: Encoder) returns (more: bool)
      requires Matches(stream, encoder) && Between(stream) && Spans(stream.find, sep)
      modifies this, stream, encoder
      ensures Matches(stream, encoder) && Between(stream)
      ensures |stream.rest| - |stream.buf| == old(|stream.rest| - |stream.buf|)
      ensures more ==> |stream.rest| - stream.end < old(|stream.rest| - stream.end)
      ensures !more ==> stream.Scanned()
      ensures most == old(most) || (old(most) == -1 && most >= 1)
    {
      more := Find(stream, encoder);
      if !more { return; }
      if same {
        EncodeByCount(stream, encoder);
      } else {
        var encoded := EncodeBySize(stream, encoder);
      }
    }

    /** Reads once more. */
    method Gather(stream: Stream, encoder: Encoder) returns (more: bool)
      requires Matches(stream, encoder) && Between(stream) && stream.Scanned()
      modifies stream`buf, stream.source`at, stream.source`left
      ensures Matches(stream, encoder) && Between(stream)
      ensures more ==> |old(stream.buf)| < |stream.buf|
      ensures !more ==> stream.buf == stream.rest && stream.buf == old(stream.buf) && stream.Scanned()
    {
      more := stream.Fill();
    }

    /** Cuts every frame the buffered records fill. */
    method CutBuffered(stream: Stream, encoder: Encoder)
      requires Matches(stream, encoder) && Between(stream) && Spans(stream.find, sep)
      modifies this, stream, encoder
      ensures Matches(stream, encoder) && Between(stream)
      ensures |stream.rest| - |stream.buf| == old(|stream.rest| - |stream.buf|) && stream.Scanned()
      ensures most == old(most) || (old(most) == -1 && most >= 1)
    {
      var more := true;
      while more
        invariant Matches(stream, encoder) && Between(stream)
        invariant |stream.rest| - |stream.buf| == old(|stream.rest| - |stream.buf|)
        invariant !more ==> stream.Scanned()
        invariant most == old(most) || (old(most) == -1 && most >= 1)
        decreases more, |stream.rest| - stream.end
      {
        more := Advance(stream, encoder);
      }
    }

    /** Drops what the records up to `frameEnd` took, where they are past the target. */
    method Drain(stream: Stream)
      requires stream.Valid() && (sep == 0 || frameEnd <= target)
      requires frameEnd == if stream.found == 0 then 0 else stream.end - sep
      modifies this`frameEnd, stream
      ensures stream.Valid() && frameEnd == if stream.found == 0 then 0 else stream.end - sep
      ensures old(frameEnd) <= target ==>
                && stream.rest == old(stream.rest) && stream.buf == old(stream.buf)
                && stream.end == old(stream.end) && stream.found == old(stream.found)
    {
      if frameEnd > target {
        stream.DropFront(frameEnd, stream.found);
        frameEnd := 0;
      }
    }

    /** One read, and what it fills. */
    method Turn(stream: Stream, encoder: Encoder, multiplier: nat) returns (round: Round)
      requires Matches(stream, encoder) && Between(stream) && stream.Scanned() && Spans(stream.find, sep)
      modifies this, stream, stream.source`at, stream.source`left, encoder
      ensures round != More ==> most == old(most)
      ensures !round.Failed? ==> Matches(stream, encoder) && Between(stream) && stream.Scanned()
      ensures round == More ==> |stream.rest| - |stream.buf| < old(|stream.rest| - |stream.buf|)
      ensures round == More ==> most == old(most) || (old(most) == -1 && most >= 1)
      ensures round == Spent ==> stream.buf == stream.rest == old(stream.rest) == old(stream.buf)
      ensures target == 0 || multiplier == 0 ==> round != More
      ensures round.Failed? ==> && |stream.source.region| > Limit(target, multiplier)
                                && round.error == if same then Retry(most) else TooLong
    {
      var more := Gather(stream, encoder);
      if !more { return Spent; }
      var limit := Limited(target, multiplier);
      if same && stream.Unscanned() > limit { return Failed(Retry(most)); }
      if stream.Unscanned() > limit { return Failed(TooLong); }
      CutBuffered(stream, encoder);
      Reclaim(stream, encoder);
      return More;
    }

    /** Reclaims memory where a frame's count is met: by then it was compressed. */
    method Reclaim(stream: Stream, encoder: Encoder)
      requires Matches(stream, encoder) && Between(stream) && stream.Scanned()
      modifies this`frameEnd, stream
      ensures Matches(stream, encoder) && Between(stream)
      ensures stream.Scanned() && stream.rest == old(stream.rest) && stream.buf == old(stream.buf)
    {
      if same && most == -1 { return; }
      if same && count != most { return; }
      DrainsNothing(stream);
      Drain(stream);
    }

    /** Where the loop drains, nothing is left that was not compressed: no byte goes with it. */
    lemma DrainsNothing(stream: Stream)
      requires stream.Valid() && (same ==> count == stream.found)
      requires frameEnd == if stream.found == 0 then 0 else stream.end - sep
      requires Between(stream) && (same ==> most != -1 && count == most)
      ensures frameEnd <= target
    {
    }

    /** What is left once the input is spent is the last frame. */
    method CloseLast(stream: Stream, encoder: Encoder) returns (frames: seq<Bytes>)
      requires Matches(stream, encoder) && Between(stream) && stream.Scanned() && stream.buf == stream.rest
      modifies encoder, this`written
      ensures frames == FramesOf(stream.find, data, first, target, sep)
    {
      LeftIsLast(stream.find, stream.rest, Rule(), target, sep, stream.found);
      FramesEnd(stream.find, data, first, target, sep, pieces, stream.rest, Rule());
      if stream.buf != [] {
        written := Write(encoder, written, stream.buf, pieces);
      }
      assert pieces == [] && stream.buf == [] ==> encoder.closed + [encoder.current] == [[]];
      frames := encoder.Finish();
    }
  }

  /** What is written: the frames, and one empty frame for an empty input. */
  ghost function FramesOf(find: Finder, data: Bytes, rule: Rule, target: nat, sep: nat): seq<Bytes> {
    var cuts := Cuts(find, data, rule, target, sep);
    if cuts == [] then [[]] else cuts
  }

  lemma FramesEnd(find: Finder, data: Bytes, first: Rule, target: nat, sep: nat, pieces: seq<Bytes>, rest: Bytes,
                  rule: Rule)
    requires OnCourse(find, data, first, target, sep, pieces, rest, rule)
    requires Cuts(find, rest, rule, target, sep) == if rest == [] then [] else [rest]
    ensures FramesOf(find, data, first, target, sep)
            == if rest != [] then pieces + [rest] else if pieces == [] then [[]] else pieces
  {
    EmptyJoins(pieces);
  }

  lemma LeftIsLast(find: Finder, rest: Bytes, rule: Rule, target: nat, sep: nat, found: nat)
    requires NoneDue(find, rest, rule, target + sep, found)
    requires found + 1 == |Bounds(find, rest)| || |rest| < Bounds(find, rest)[found + 1]
    ensures Cuts(find, rest, rule, target, sep) == if rest == [] then [] else [rest]
  {
    if found + 1 < |Bounds(find, rest)| {
      BoundWithin(find, rest, found + 1);
    }
  }

  /** What a failed attempt tells the caller: its count, where one was given or frame 0 set one. */
  ghost predicate Tells(same: bool, given: int, error: CompressError) {
    if !same then error == TooLong
    else error.Retry? && (error.current == given || (given == -1 && error.current >= 1))
  }

  /** Where the loop begins: nothing read, nothing cut. */
  method Begin(source: Source, find: Finder, target: nat, same: bool, given: Option<nat>, sep: nat)
    returns (state: Progress, stream: Stream, encoder: Encoder)
    requires source.Valid() && source.at == source.start
    ensures fresh(state) && fresh(stream) && fresh(encoder)
    ensures stream.source == source && stream.find == find && stream.rest == source.region && stream.buf == []
    ensures state.sep == sep && state.same == same && state.target == target && state.most == GivenCount(given)
    ensures state.data == source.region && state.first == RuleOf(same, GivenCount(given))
    ensures state.Matches(stream, encoder) && state.Between(stream) && stream.Scanned()
  {
    encoder := new Encoder();
    stream := new Stream(source, find);
    state := new Progress(sep, same, target, GivenCount(given), source.region);
    FinderOnEmpty(find);
    EmptyJoins(Cuts(find, source.region, state.first, target, sep));
  }

  /** The loop both compressors run: on success the frames depend on the input alone; a failure means
      more input than the limit. */
  method Divide(source: Source, find: Finder, target: nat, same: bool, multiplier: nat, given: Option<nat>, sep: nat)
    returns (r: Result<seq<Bytes>, CompressError>)
    requires source.Valid() && source.at == source.start && Spans(find, sep)
    modifies source`at, source`left
    ensures r.Ok? ==> r.value == FramesOf(find, source.region, RuleOf(same, GivenCount(given)), target, sep)
    ensures r.Err? ==> |source.region| > Limit(target, multiplier) && Tells(same, GivenCount(given), r.error)
    ensures (target == 0 || multiplier == 0) && source.region != [] ==> r.Err?
  {
    var state, stream, encoder := Begin(source, find, target, same, given, sep);
    var round := TurnAll(state, stream, encoder, multiplier, GivenCount(given));
    if round.Failed? { return Err(round.error); }
    var frames := state.CloseLast(stream, encoder);
    return Ok(frames);
  }

  /** The loop: one read after the other, as long as there is more. */
  method TurnAll(state: Progress, stream: Stream, encoder: Encoder, multiplier: nat, ghost given: int)
    returns (round: Round)
    requires state.Matches(stream, encoder) && state.Between(stream) && stream.Scanned()
    requires Spans(stream.find, state.sep)
    requires state.most == given && stream.buf == [] && stream.rest == stream.source.region
    modifies state, stream, stream.source`at, stream.source`left, encoder
    ensures round.Failed? || round == Spent
    ensures round == Spent ==> state.Matches(stream, encoder) && state.Between(stream) && stream.Scanned()
                               && stream.buf == stream.rest
    ensures round.Failed? ==> && |stream.source.region| > Limit(state.target, multiplier)
                              && Tells(state.same, given, round.error)
    ensures (state.target == 0 || multiplier == 0) && stream.source.region != [] ==> round.Failed?
  {
    round := More;
    ghost var unlimited := (state.target == 0 || multiplier == 0) && stream.source.region != [];
    while round == More
      invariant !round.Failed? ==> state.Matches(stream, encoder) && state.Between(stream) && stream.Scanned()
      invariant round == Spent ==> stream.buf == stream.rest
      invariant round.Failed? ==> && |stream.source.region| > Limit(state.target, multiplier)
                                  && Tells(state.same, given, round.error)
      invariant Tells(state.same, given, if state.same then Retry(state.most) else TooLong)
      invariant unlimited ==> if round == More then stream.buf == [] && stream.rest != [] else round.Failed?
      decreases round == More, |stream.rest| - |stream.buf|
    {
      round := state.Turn(stream, encoder, multiplier);
    }
  }

  // ---------------------------------------------------------------- the two compressors

  /** `convert_records_to_seekable_zst_reader_with_opts`: a success loses nothing and depends on the
      input alone. */
  method Compress(source: Source, find: Finder, target: nat, same: bool, multiplier: nat, given: Option<nat>)
    returns (r: Result<seq<Bytes>, CompressError>)
    requires source.Valid() && source.at == source.start
    modifies source`at, source`left
    ensures r.Ok? ==> r.value == Output(find, source.region, RuleOf(same, GivenCount(given)), target)
    ensures r.Err? ==> |source.region| > Limit(target, multiplier) && Tells(same, GivenCount(given), r.error)
    ensures (target == 0 || multiplier == 0) && source.region != [] ==> r.Err?
  {
    LargeTargetKeeps(find, source.region, RuleOf(same, GivenCount(given)), target, 0);
    CutsAreFramed(find, source.region, RuleOf(same, GivenCount(given)), target, 0);
    r := Divide(source, find, target, same, multiplier, given, 0);
  }

  /** The frames of an input; one empty frame for an empty one. */
  function Output(find: Finder, data: Bytes, rule: Rule, target: nat): seq<Bytes> {
    var framed := Framed(find, data, rule, target);
    if framed == [] then [[]] else framed
  }

  /** Every record a separator ends is at least as long as it. */
  lemma SeparatorSpans(separator: Bytes)
    requires separator != []
    ensures Spans(BySeparator(separator), |separator|)
  {
  }

  /** The older compressor, for records that end with a separator of `sep` bytes: at a target past
      that it makes the frames the other makes at the target and the separator. */
  method CompressOld(source: Source, find: Finder, sep: nat, target: nat, same: bool, multiplier: nat,
                     given: Option<nat>)
    returns (r: Result<seq<Bytes>, CompressError>)
    requires source.Valid() && source.at == source.start && Spans(find, sep)
    modifies source`at, source`left
    ensures r.Ok? ==> r.value == FramesOf(find, source.region, RuleOf(same, GivenCount(given)), target, sep)
    ensures r.Ok? && target > sep ==>
              r.value == Output(find, source.region, RuleOf(same, GivenCount(given)), target + sep)
  {
    ghost var rule := RuleOf(same, GivenCount(given));
    if target > sep {
      LargeTargetKeeps(find, source.region, rule, target, sep);
      CutsAreFramed(find, source.region, rule, target, sep);
    }
    r := Divide(source, find, target, same, multiplier, given, sep);
  }

  /** It is given the separator itself. */
  method CompressSeparated(source: Source, separator: Bytes, target: nat, same: bool, multiplier: nat,
                           given: Option<nat>, ghost find: Finder)
    returns (r: Result<seq<Bytes>, CompressError>)
    requires source.Valid() && source.at == source.start && separator != [] && find == BySeparator(separator)
    modifies source`at, source`left
    ensures r.Ok? ==>
              r.value == FramesOf(find, source.region, RuleOf(same, GivenCount(given)), target, |separator|)
  {
    SeparatorSpans(separator);
    r := CompressOld(source, BySeparator(separator), |separator|, target, same, multiplier, given);
  }

  /** It keeps every byte exactly when it drops no frame. */
  lemma OldConserves(find: Finder, data: Bytes, rule: Rule, target: nat, sep: nat)
    ensures Flatten(FramesOf(find, data, rule, target, sep)) == data <==> !Loses(find, data, rule, target, sep)
  {
    LosesIsLoss(find, data, rule, target, sep);
    FlattenOne([]);
  }

  /** Two runs over the same input, however their reads fall: where both succeed the frames are the
      same. */
  method CompressTwice(a: Source, b: Source, find: Finder, target: nat, same: bool, multiplier: nat, given: Option<nat>)
    returns (r: Result<seq<Bytes>, CompressError>, s: Result<seq<Bytes>, CompressError>)
    requires a.Valid() && a.at == a.start && b.Valid() && b.at == b.start && a != b && a.region == b.region
    modifies a`at, a`left, b`at, b`left
    ensures r.Ok? && s.Ok? ==> r == s
  {
    r := Compress(a, find, target, same, multiplier, given);
    s := Compress(b, find, target, same, multiplier, given);
  }

  /** The older compressor and the extracted one over the same input: where both succeed, at targets
      apart by the separator's length and the older one's past it, the frames are the same. */
  method CompressBoth(a: Source, b: Source, find: Finder, sep: nat, target: nat, same: bool, multiplier: nat,
                      given: Option<nat>)
    returns (older: Result<seq<Bytes>, CompressError>, extracted: Result<seq<Bytes>, CompressError>)
    requires a.Valid() && a.at == a.start && b.Valid() && b.at == b.start && a != b && a.region == b.region
    requires Spans(find, sep) && target > sep
    modifies a`at, a`left, b`at, b`left
    ensures older.Ok? && extracted.Ok? ==> older == extracted
  {
    older := CompressOld(a, find, sep, target, same, multiplier, given);
    extracted := Compress(b, find, target + sep, same, multiplier, given);
  }

  lemma OutputConserves(find: Finder, data: Bytes, rule: Rule, target: nat)
    ensures Flatten(Output(find, data, rule, target)) == data && Output(find, data, rule, target) != []
  {
    FramedConserves(find, data, rule, target);
    FlattenOne([]);
  }

  /** What is written with the same count in every frame is uniform: at the count given, or at the
      one frame 0 came to at the first record end at or past the target. */
  lemma OutputIsUniform(find: Finder, data: Bytes, given: Option<nat>, target: nat)
    ensures var count := GivenCount(given);
            var frames := Output(find, data, RuleOf(true, count), target);
            Uniform(find, frames, SetBy(find, frames, count))
            && (count == -1 && data != [] ==> EndsFirst(find, data, target, frames))
  {
    FramesAreUniform(find, data, given, target);
    if GivenCount(given) == -1 && data != [] {
      AutoIsUniform(find, data, target);
    }
  }

  /** The count given, or the one frame 0 holds. */
  function SetBy(find: Finder, frames: seq<Bytes>, count: int): nat
    requires frames != []
  {
    if count == -1 then PerFrame(|RecordsOf(find, frames[0])|) else PerFrame(count)
  }

  lemma FramesAreUniform(find: Finder, data: Bytes, given: Option<nat>, target: nat)
    ensures var frames := Output(find, data, RuleOf(true, GivenCount(given)), target);
            Uniform(find, frames, SetBy(find, frames, GivenCount(given)))
  {
    var count := GivenCount(given);
    if data == [] {
      NothingFramed(find, RuleOf(true, count), target);
      FinderOnEmpty(find);
      OneFrame(find, [], PerFrame(0));
      OneFrame(find, [], PerFrame(count));
    } else if count == -1 {
      AutoIsUniform(find, data, target);
    } else {
      CountFramesAreUniform(find, data, count, target);
    }
  }

  lemma NothingFramed(find: Finder, rule: Rule, target: nat)
    ensures Framed(find, [], rule, target) == []
  {
    FinderOnEmpty(find);
  }

  /** The older compressor loses a record no longer than twice the separator, at a target it reaches:
      here the whole of the input. */
  lemma ShortRecordIsLost(find: Finder, record: Bytes, target: nat, sep: nat)
    requires IsRecord(find, record) && target + sep <= |record| <= 2 * sep
    ensures FramesOf(find, record, Auto, target, sep) == [[]] && record != []
  {
    OneRecord(find, record);
    FindAtBound(find, record, 0);
    LastBound(find, record);
    Whole(record);
    assert Due(find, record, Auto, target + sep) == Some(1);
    CutsOne(find, record, Auto, target, sep, 1);
    FinderOnEmpty(find);
    assert record[|record|..] == [];
  }
}
