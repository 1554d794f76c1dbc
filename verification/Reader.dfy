/** Reading records by index (`Lookup` and `RecordReader` of src/reader.rs): one window kept from
    lookup to lookup, walked on from where the last one left it. */
module Reader {
  import opened Bytes
  import opened Seqs
  import opened Records
  import opened Frames
  import opened Window
  import opened Cursor
  import opened Placement
  import opened Ranges

  /** The same ends as `with_frame_ends` works them out, from the frame list. */
  function FrameEndsOf(frames: seq<Extent>): seq<nat> {
    if frames == [] then []
    else seq(|frames| - 1, i requires 0 <= i < |frames| - 1 => frames[i].start + frames[i].len)
  }

  lemma FrameEndsAreNonfinalEnds(contents: seq<Bytes>)
    ensures FrameEndsOf(Extents(contents)) == NonfinalEnds(contents)
  {
    var frames := Extents(contents);
    forall i | 0 <= i < |contents| - 1
      ensures frames[i].start + frames[i].len == StartOf(contents, i + 1)
    {
      StartStep(contents, i);
    }
    assert FrameEndsOf(frames) == NonfinalEnds(contents);
  }

  lemma NonfinalEndsInOrder(contents: seq<Bytes>)
    ensures InOrder(NonfinalEnds(contents))
  {
    var ends := NonfinalEnds(contents);
    forall i, j | 0 <= i <= j < |ends|
      ensures ends[i] <= ends[j]
    {
      SpanIsFrames(contents, i + 1, j + 1);
    }
  }

  /** A frame that holds bytes after its last record, before the end of the file. */
  ghost predicate Torn(find: Finder, contents: seq<Bytes>, k: nat) {
    k + 1 < |contents| && FragmentOf(find, contents[k]) != []
  }

  lemma EndOutsideFrame(contents: seq<Bytes>, k: nat, i: nat)
    requires k < |contents| && i + 1 < |contents|
    ensures StartOf(contents, k + 1) == StartOf(contents, k) + |contents[k]|
    ensures i < k ==> StartOf(contents, i + 1) <= StartOf(contents, k)
    ensures k <= i ==> StartOf(contents, k + 1) <= StartOf(contents, i + 1)
  {
    StartStep(contents, k);
    if i < k {
      SpanIsFrames(contents, i + 1, k);
    } else {
      SpanIsFrames(contents, k + 1, i + 1);
    }
  }

  lemma WholeEndIsBound(find: Finder, content: Bytes)
    requires FragmentOf(find, content) == []
    ensures |content| in Bounds(find, content)
  {
    Whole(content);
    WholeUpToIffBound(find, content, |content|);
  }

  /** The end of a torn frame is not a record end. */
  lemma TornEndIsNoBound(find: Finder, contents: seq<Bytes>, k: nat)
    requires Torn(find, contents, k)
    ensures !EndsOnRecords(Bounds(find, contents[k]), |contents[k]|, StartOf(contents, k), NonfinalEnds(contents))
  {
    StartStep(contents, k);
    NonfinalEndAt(contents, k);
    Whole(contents[k]);
    WholeUpToIffBound(find, contents[k], |contents[k]|);
    FinderOnEmpty(find);
    assert !EndIsClean(Bounds(find, contents[k]), |contents[k]|, StartOf(contents, k), NonfinalEnds(contents), k);
  }

  /** Inside one frame, only a torn frame end is not a record end. */
  lemma FrameIsClean(find: Finder, contents: seq<Bytes>, k: nat)
    requires k < |contents| && !Torn(find, contents, k)
    ensures EndsOnRecords(Bounds(find, contents[k]), |contents[k]|, StartOf(contents, k), NonfinalEnds(contents))
  {
    var ends, start, len := NonfinalEnds(contents), StartOf(contents, k), |contents[k]|;
    if k + 1 < |contents| {
      WholeEndIsBound(find, contents[k]);
    }
    forall i | 0 <= i < |ends|
      ensures EndIsClean(Bounds(find, contents[k]), len, start, ends, i)
    {
      EndOutsideFrame(contents, k, i);
    }
  }

  /** No frame end of `ends`, counted from `base`, lies inside a record of frame `k` unless the frame
      is torn. */
  ghost predicate FrameClear(find: Finder, contents: seq<Bytes>, ends: seq<nat>, base: nat, k: nat)
    requires k < |contents|
  {
    !Torn(find, contents, k) ==>
      EndsOnRecords(Bounds(find, contents[k]), |contents[k]|, base + StartOf(contents, k), ends)
  }

  /** Nor inside a record of the frames from `j` up to `k`, where the file is uniform. */
  ghost predicate SpanClear(find: Finder, contents: seq<Bytes>, n: nat, ends: seq<nat>, base: nat, j: nat, k: nat)
    requires j < k <= |contents|
  {
    var region := Flatten(contents[j..k]);
    Uniform(find, contents, n) ==>
      EndsOnRecords(Bounds(find, region), |region|, base + StartOf(contents, j), ends)
  }

  /** The frame ends a window is guarded by never stop a reader of untorn frames. */
  ghost predicate NoneInside(find: Finder, contents: seq<Bytes>, n: nat, ends: seq<nat>, base: nat) {
    && (forall k :: 0 <= k < |contents| ==> FrameClear(find, contents, ends, base, k))
    && (forall j, k :: 0 <= j < k <= |contents| ==> SpanClear(find, contents, n, ends, base, j, k))
  }

  /** The ends of the frames themselves do not. */
  lemma OwnEndsInside(find: Finder, contents: seq<Bytes>, n: nat)
    ensures NoneInside(find, contents, n, NonfinalEnds(contents), 0)
  {
    forall k | 0 <= k < |contents|
      ensures FrameClear(find, contents, NonfinalEnds(contents), 0, k)
    {
      if !Torn(find, contents, k) {
        FrameIsClean(find, contents, k);
      }
    }
    forall j, k | 0 <= j < k <= |contents|
      ensures SpanClear(find, contents, n, NonfinalEnds(contents), 0, j, k)
    {
      if Uniform(find, contents, n) {
        SpanIsClean(find, contents, n, j, k, Flatten(contents[j..k]));
      }
    }
  }

  // ---------------------------------------------------------------- what a lookup answers

  /** What a walk of one frame answers for record `index` of it. */
  function FrameAnswer(find: Finder, content: Bytes, index: nat, tail: Tail): Answer {
    var rs := RecordsOf(find, content);
    var rest := FragmentOf(find, content);
    if index < |rs| then Piece(rs[index])
    else if index > |rs| || rest == [] then Nothing
    else if tail == AsError then Failed(IncompleteFinalRecord)
    else if tail == AsRecord then Piece(rest)
    else Nothing
  }

  /** The frame a lookup of `index` walks, and the record of it: the slot after every full frame is
      the last frame's, where an unterminated record is in it. */
  datatype Place = Place(frame: nat, index: nat) | Nowhere

  function PlaceOf(find: Finder, contents: seq<Bytes>, perFrame: nat, tailIsRecord: bool, index: nat): Place
    requires contents != [] && perFrame > 0
  {
    var k := index / perFrame;
    var last := contents[|contents| - 1];
    if k < |contents| then Place(k, index % perFrame)
    else if index == perFrame * |contents| && tailIsRecord
            && |RecordsOf(find, last)| == perFrame && FragmentOf(find, last) != []
    then Place(|contents| - 1, perFrame)
    else Nowhere
  }

  function TailOf(contents: seq<Bytes>, tailIsRecord: bool, k: nat): Tail {
    if k + 1 != |contents| then Ignored else if tailIsRecord then AsRecord else AsError
  }

  /** What a freshly opened reader answers for `index`. */
  function FreshAnswer(find: Finder, contents: seq<Bytes>, perFrame: nat, tailIsRecord: bool, index: nat): Answer
    requires contents != [] && perFrame > 0
  {
    match PlaceOf(find, contents, perFrame, tailIsRecord, index)
    case Nowhere => Nothing
    case Place(k, j) =>
      if k < |contents| then FrameAnswer(find, contents[k], j, TailOf(contents, tailIsRecord, k)) else Nothing
  }

  /** The slot after every full frame: the unterminated record, where the last frame is full. */
  function SlotAnswer(find: Finder, contents: seq<Bytes>, perFrame: nat, tailIsRecord: bool): Answer
    requires contents != []
  {
    var last := contents[|contents| - 1];
    if tailIsRecord && |RecordsOf(find, last)| == perFrame && FragmentOf(find, last) != []
    then Piece(FragmentOf(find, last)) else Nothing
  }

  lemma SlotIsFresh(find: Finder, contents: seq<Bytes>, perFrame: nat, tailIsRecord: bool, index: nat)
    requires contents != [] && perFrame > 0 && index == perFrame * |contents|
    ensures index / perFrame == |contents|
    ensures FreshAnswer(find, contents, perFrame, tailIsRecord, index)
            == SlotAnswer(find, contents, perFrame, tailIsRecord)
  {
    DivUnique(index, perFrame, |contents|, 0);
  }

  /** A unit walked out of a frame is that frame's answer, unless its tail was already taken. */
  lemma UnitIsFrameAnswer(find: Finder, content: Bytes, bounds: seq<nat>, taken: bool, rest: Bytes,
                          index: nat, skipWhole: bool, tail: Tail)
    requires bounds == Bounds(find, content)
    requires rest == if taken then [] else Cut(content, bounds[|bounds| - 1], |content|)
    requires skipWhole ==> index <= |RecordsOf(find, content)|
    ensures |bounds| == |RecordsOf(find, content)| + 1
    ensures UnitAnswer(content, bounds, rest, index, skipWhole, tail) ==
            if taken && index == |RecordsOf(find, content)| then Nothing
            else FrameAnswer(find, content, index, tail)
  {
    RestIsFragment(find, content);
    AnswerIsRecord(find, content, rest, index, skipWhole, tail);
  }

  /** How many units the bytes after the last whole record make. */
  function TailUnits(rest: Bytes, tail: Tail): nat {
    if tail == AsRecord && rest != [] then 1 else 0
  }

  /** How many units a walk of a frame hands out, or the refusal it ends with. */
  function UnitCount(find: Finder, content: Bytes, tail: Tail): Result<nat, ReadError> {
    var rest := FragmentOf(find, content);
    if rest != [] && tail == AsError then Err(IncompleteFinalRecord)
    else Ok(|RecordsOf(find, content)| + TailUnits(rest, tail))
  }

  /** What counting units from the start of a region comes to, `rest` being left after its last
      record. */
  function CountOf(bounds: seq<nat>, rest: Bytes, tail: Tail): Result<nat, ReadError>
    requires bounds != []
  {
    if rest != [] && tail == AsError then Err(IncompleteFinalRecord)
    else Ok(|bounds| - 1 + if rest != [] && tail == AsRecord then 1 else 0)
  }

  lemma CountedIs(find: Finder, content: Bytes, bounds: seq<nat>, taken: bool, rest: Bytes, tail: Tail)
    requires bounds == Bounds(find, content)
    requires rest == if taken then [] else Cut(content, bounds[|bounds| - 1], |content|)
    requires taken ==> RecordsOf(find, content) == []
    ensures CountOf(bounds, rest, tail) == if taken then Ok(0) else UnitCount(find, content, tail)
  {
    RestIsFragment(find, content);
    LastBound(find, content);
  }

  // ---------------------------------------------------------------- what a history leaves behind

  /** An answer, and whether the window is left standing past the unterminated record. */
  datatype Memo = Memo(answer: Answer, stands: bool)

  /** Looking record `index` of frame `k` up on a window that stands past that frame's unterminated
      record, or does not: only that record itself, asked for again, is answered differently. */
  function LookedUp(find: Finder, contents: seq<Bytes>, tailIsRecord: bool, k: nat, index: nat, stands: bool): Memo
    requires k < |contents|
  {
    var whole := |RecordsOf(find, contents[k])|;
    var unit := FrameAnswer(find, contents[k], index, TailOf(contents, tailIsRecord, k));
    if index < whole then Memo(unit, false)
    else if stands then Memo(Nothing, true)
    else Memo(unit, unit.Piece?)
  }

  /** `record(index)` on a reader whose window stands past the unterminated record, or does not. */
  function RecordMemo(find: Finder, contents: seq<Bytes>, perFrame: nat, tailIsRecord: bool,
                      index: nat, stands: bool): Memo
    requires contents != [] && perFrame > 0
  {
    var k := index / perFrame;
    if k < |contents| then
      LookedUp(find, contents, tailIsRecord, k, index % perFrame, stands && k == |contents| - 1)
    else if index == perFrame * |contents| then
      var answer := FreshAnswer(find, contents, perFrame, tailIsRecord, index);
      Memo(answer, answer.Piece?)
    else Memo(Nothing, stands)
  }

  /** `total_records`: by arithmetic but for the last frame. */
  function TotalAnswer(find: Finder, contents: seq<Bytes>, perFrame: nat, tailIsRecord: bool)
    : Result<nat, ReadError>
    requires contents != []
  {
    var last := contents[|contents| - 1];
    var rest := FragmentOf(find, last);
    if rest != [] && !tailIsRecord then Err(IncompleteFinalRecord)
    else Ok(FirstRecord(perFrame, |contents| - 1) + |RecordsOf(find, last)| + if rest == [] then 0 else 1)
  }

  lemma StartsDiffer(find: Finder, contents: seq<Bytes>, n: nat, k: nat)
    requires Uniform(find, contents, n) && k + 1 < |contents|
    ensures StartOf(contents, k) < StartOf(contents, |contents| - 1)
  {
    FrameRecords(find, contents, n, k);
    FinderOnEmpty(find);
    StartStep(contents, k);
    SpanIsFrames(contents, k + 1, |contents| - 1);
  }

  /** Looking the slot after every full frame up finds the unterminated record there. */
  lemma SlotIsLookedUp(find: Finder, contents: seq<Bytes>, perFrame: nat, tailIsRecord: bool)
    requires contents != [] && SlotAnswer(find, contents, perFrame, tailIsRecord) != Nothing
    ensures LookedUp(find, contents, tailIsRecord, |contents| - 1, perFrame, false)
            == Memo(SlotAnswer(find, contents, perFrame, tailIsRecord), true)
    ensures !Torn(find, contents, |contents| - 1)
  {
  }

  // ---------------------------------------------------------------- the reader

  /** A range read points the window elsewhere unless it is refused from the frame list alone. */
  predicate MovesWindow(frameCount: nat, perFrame: nat, from: nat)
    requires perFrame > 0
  {
    from == perFrame * frameCount || from / perFrame < frameCount
  }

  datatype Fact = FrameList | Stream | FrameGuards

  class RecordReader {
    const find: Finder
    /** Whether bytes after the last separator are a record, as they are for a separator. */
    const tailIsRecord: bool
    /** The count found in frame 0, by which every index is divided. */
    const perFrame: nat
    const frames: seq<Extent>
    const window: Window
    /** The frame a lookup may go on in; none after the window was used for anything else. */
    var frame: Option<nat>

    ghost const contents: seq<Bytes>

    /** What the reader was built from; a proof mentions the fact it needs. */
    ghost predicate Knows(fact: Fact) {
      match fact
      case FrameList => frames == Extents(contents)
      case Stream => window.source.content == Flatten(contents)
      case FrameGuards => NoneInside(find, contents, perFrame, window.frameEnds, window.frameEndBase)
    }

    ghost predicate Built() {
      contents != [] && perFrame > 0 && |frames| == |contents| && forall fact :: Knows(fact)
    }

    /** The place after those of every full frame. */
    function Slot(): nat {
      perFrame * |frames|
    }

    /** The window is pointed at frame `k` and has walked only that. */
    ghost predicate Pointed(k: nat)
      requires |frames| == |contents|
      reads this, window, window.source
    {
      && k < |contents| && window.Valid(find)
      && window.start == frames[k].start && window.region == contents[k]
    }

    ghost predicate Valid()
      reads this, window, window.source
    {
      && Built() && window.Consistent()
      && (frame.Some? ==> Pointed(frame.value))
      && (StandsPastTail() ==> frame == Some(|contents| - 1) && tailIsRecord)
    }

    /** The last lookup in this frame handed out its unterminated record, and the window was not
        moved since. */
    ghost predicate StandsPastTail()
      requires window.walked < |window.bounds|
      reads this, window
    {
      frame.Some? && window.TailTaken()
    }

    /** A refused iterator moved the window to the end of the last frame and left `frame` naming
        another. */
    ghost predicate Astray()
      reads this, window, window.source
    {
      && Built() && window.Consistent()
      && frame.Some? && frame.value + 1 < |contents| && WalkedOut(|contents| - 1)
    }

    /** A full frame is not where the last frame is. */
    lemma AstrayIsNotValid(k: nat)
      requires Astray() && frame == Some(k) && Uniform(find, contents, perFrame)
      ensures !Valid()
    {
      FrameAt(k);
      FrameAt(|contents| - 1);
      StartsDiffer(find, contents, perFrame, k);
    }

    lemma StandingMeans()
      requires Valid() && StandsPastTail()
      ensures tailIsRecord && frame == Some(|contents| - 1)
      ensures FragmentOf(find, contents[|contents| - 1]) != []
      ensures window.walked == |RecordsOf(find, contents[|contents| - 1])|
    {
      LastBound(find, contents[|contents| - 1]);
      window.Opened();
    }

    lemma FrameAt(k: nat)
      requires Built() && k < |frames|
      ensures frames[k] == Extent(StartOf(contents, k), |contents[k]|)
      ensures frames[k].start + frames[k].len <= |window.source.content|
      ensures window.source.content[frames[k].start..frames[k].start + frames[k].len] == contents[k]
    {
      assert Knows(FrameList) && Knows(Stream);
      FrameIsSpan(contents, k);
    }

    constructor (find: Finder, tailIsRecord: bool, perFrame: nat, frames: seq<Extent>, source: Source,
                 ghost contents: seq<Bytes>)
      requires contents != [] && perFrame > 0 && frames == Extents(contents)
      requires source.Valid() && source.region == [] && source.at == 0
      requires source.content == Flatten(contents)
      ensures Valid() && fresh(window) && window.source == source
      ensures this.find == find && this.tailIsRecord == tailIsRecord && this.perFrame == perFrame
      ensures this.contents == contents && frame == None
      ensures OwnEnds()
    {
      this.find, this.tailIsRecord, this.perFrame := find, tailIsRecord, perFrame;
      this.contents := contents;
      this.frames := frames;
      NonfinalEndsInOrder(contents);
      FrameEndsAreNonfinalEnds(contents);
      OwnEndsInside(find, contents, perFrame);
      window := new Window(source, FrameEndsOf(frames), 0, 0);
      frame := None;
    }

    /** A reader whose window is guarded by frame ends worked out elsewhere, counted from `base`, the
        first `passed` of them behind it (`with_shared_frame_ends`). */
    constructor Sharing(find: Finder, tailIsRecord: bool, perFrame: nat, frames: seq<Extent>, source: Source,
                        ends: seq<nat>, base: nat, passed: nat, ghost contents: seq<Bytes>)
      requires contents != [] && perFrame > 0 && frames == Extents(contents)
      requires source.Valid() && source.region == [] && source.at == 0
      requires source.content == Flatten(contents)
      requires InOrder(ends) && passed <= |ends| && NoneInside(find, contents, perFrame, ends, base)
      requires forall i :: 0 <= i < |ends| ==> if i < passed then ends[i] <= base else base <= ends[i]
      ensures Valid() && fresh(window) && window.source == source
      ensures this.find == find && this.tailIsRecord == tailIsRecord && this.perFrame == perFrame
      ensures this.contents == contents && frame == None
    {
      this.find, this.tailIsRecord, this.perFrame := find, tailIsRecord, perFrame;
      this.contents := contents;
      this.frames := frames;
      window := new Window(source, ends, base, passed);
      frame := None;
    }

    lemma FrameNeverStops(k: nat)
      requires Built() && k < |contents| && !Torn(find, contents, k)
      ensures NeverStops(frames[k].start, contents[k])
    {
      assert Knows(FrameGuards);
      FrameAt(k);
      assert FrameClear(find, contents, window.frameEnds, window.frameEndBase, k);
    }

    /** Points the window at frame `k`, from its start. */
    method SeekFrame(k: nat)
      requires Built() && window.Consistent() && k < |frames|
      modifies window, window.source
      ensures window.Valid(find) && window.start == frames[k].start && window.region == contents[k]
      ensures window.walked == 0 && !window.TailTaken()
      ensures Torn(find, contents, k) || window.clean
    {
      FrameAt(k);
      window.SeekTo(find, frames[k].start, frames[k].len, contents[k]);
      if !Torn(find, contents, k) {
        FrameNeverStops(k);
      }
    }

    method PointAt(k: nat)
      requires Built() && window.Consistent() && k < |frames|
      modifies this, window, window.source
      ensures Valid() && frame == Some(k)
      ensures window.walked == 0 && !window.TailTaken()
    {
      SeekFrame(k);
      frame := Some(k);
    }

    /** Whether a lookup goes on from the end of the wrong frame. */
    ghost predicate Misled(k: nat, inFrame: nat)
      requires contents != []
      reads this, window, window.source
    {
      !Valid() && frame == Some(k) && |RecordsOf(find, contents[|contents| - 1])| <= inFrame
    }

    /** Gets the window ready for record `inFrame` of frame `k`, without a seek where the walk it is on
        leads there, and says how many records come first. It then stands in frame `at`. */
    method WalkTo(k: nat, inFrame: nat) returns (skip: nat, ghost at: nat)
      requires (Valid() || Astray()) && k < |frames|
      modifies this, window, window.source
      ensures frame == Some(k) && Pointed(at) && window.walked + skip == inFrame
      ensures at == if old(Misled(k, inFrame)) then |contents| - 1 else k
      ensures window.TailTaken() <==>
              old(Valid() && frame == Some(k) && window.TailTaken() && window.walked <= inFrame)
    {
      at := if Misled(k, inFrame) then |contents| - 1 else k;
      if frame == Some(k) {
        var passed := window.WalkFrom(inFrame);
        if passed.Some? { return passed.value, at; }
      }
      PointAt(k);
      return inFrame, at;
    }

    lemma CleanUnlessTorn(k: nat)
      requires Built() && Pointed(k)
      ensures Torn(find, contents, k) || window.clean
    {
      if !Torn(find, contents, k) {
        window.CleanMeans();
        FrameNeverStops(k);
      }
    }

    /** The window stands where frame `k` ends, every whole record of it walked. */
    ghost predicate WalkedOut(k: nat)
      reads this, window, window.source
    {
      && |frames| == |contents| && Pointed(k)
      && window.walked == |RecordsOf(find, contents[k])|
      && !window.TailTaken() && window.eof
    }

    /** Counts frame `k` through the window, which is left where the frame ends. */
    method CountFrame(k: nat) returns (count: Result<nat, ReadError>)
      requires Built() && window.Consistent() && k < |frames|
      modifies window, window.source
      ensures window.Consistent()
      ensures count.Ok? ==> count.value == |RecordsOf(find, contents[k])| && WalkedOut(k)
                            && window.Remainder() == FragmentOf(find, contents[k])
      ensures count.Err? ==> Torn(find, contents, k)
    {
      SeekFrame(k);
      count := window.CountRecords(find);
      assert Pointed(k);
      CountedOut(k, count);
    }

    lemma CountedOut(k: nat, count: Result<nat, ReadError>)
      requires |frames| == |contents| && Pointed(k)
      requires count.Ok? ==> window.RanOut() && !window.TailTaken() && count.value == |window.bounds| - 1
      ensures count.Ok? ==> count.value == |RecordsOf(find, contents[k])| && WalkedOut(k)
                            && window.Remainder() == FragmentOf(find, contents[k])
    {
      AfterLastBound(find, contents[k]);
      RestIsFragment(find, contents[k]);
    }

    /** Whether the slot after every full frame names a real, unterminated record. The window may be
        moved to find out, and what `frame` says of it is left to the caller. */
    method FinalSlotIsTail() returns (r: bool)
      requires Built() && window.Consistent()
      modifies window, window.source
      ensures window.Consistent()
      ensures if tailIsRecord then WalkedOut(|contents| - 1) else unchanged(window, window.source)
      ensures r <==> tailIsRecord && |RecordsOf(find, contents[|contents| - 1])| == perFrame
                     && FragmentOf(find, contents[|contents| - 1]) != []
    {
      if !tailIsRecord { return false; }
      var whole := CountFrame(|frames| - 1);
      return whole.value == perFrame && window.Remainder() != [];
    }

    /** The window is guarded by the ends of the reader's own frames, as it is unless the reader was
        opened from a later frame of another. */
    ghost predicate OwnEnds() {
      window.frameEnds == NonfinalEnds(contents) && window.frameEndBase == 0
    }

    /** The guard stops a lookup exactly where it has come to the end of a torn frame: past the last
        whole record of it. */
    ghost predicate StopsAt(k: nat, inFrame: nat, a: Answer)
      requires k < |contents|
    {
      OwnEnds() ==>
        (a == Failed(IncompleteAtFrameEnd) <==> Torn(find, contents, k) && |RecordsOf(find, contents[k])| <= inFrame)
    }

    /** Inside one frame reads stop only at its end. */
    lemma BrokenIsAtEnd(k: nat)
      requires Built() && OwnEnds() && Pointed(k) && window.Broken()
      ensures window.walked == |RecordsOf(find, contents[k])|
    {
      window.Opened();
      FrameAt(k);
      var i :| 0 <= i < |window.frameEnds| && window.frameEnds[i] == window.start + window.Loaded();
      NonfinalEndAt(contents, i);
      EndOutsideFrame(contents, k, i);
      LastBound(find, contents[k]);
      if window.walked + 1 < |window.bounds| {
        BoundWithin(find, contents[k], window.walked + 1);
      }
    }

    lemma TornIsNotClean(k: nat)
      requires Built() && OwnEnds() && Pointed(k) && Torn(find, contents, k)
      ensures !window.clean
    {
      window.CleanMeans();
      FrameAt(k);
      TornEndIsNoBound(find, contents, k);
    }

    /** Asks the window, pointed at frame `at`, for record `inFrame` of it. */
    method Ask(ghost at: nat, skip: nat, ghost inFrame: nat, skipWhole: bool, tail: Tail) returns (a: Answer)
      requires Built() && Pointed(at) && window.walked + skip == inFrame
      requires skipWhole ==> inFrame <= |RecordsOf(find, contents[at])|
      modifies window, window.source
      ensures Pointed(at)
      ensures a == Failed(IncompleteAtFrameEnd) ==>
                Torn(find, contents, at) && (window.TailTaken() ==> old(window.TailTaken()))
      ensures a != Failed(IncompleteAtFrameEnd) ==>
                && a == (if old(window.TailTaken()) && inFrame == |RecordsOf(find, contents[at])| then Nothing
                         else FrameAnswer(find, contents[at], inFrame, tail))
                && (window.TailTaken() <==>
                    |RecordsOf(find, contents[at])| <= inFrame && (old(window.TailTaken()) || a.Piece?))
                && (|RecordsOf(find, contents[at])| <= inFrame ==>
                      window.eof && window.walked == |RecordsOf(find, contents[at])|)
      ensures StopsAt(at, inFrame, a)
    {
      CleanUnlessTorn(at);
      UnitIsFrameAnswer(find, contents[at], Bounds(find, contents[at]), window.TailTaken(), window.RestOf(),
                        inFrame, skipWhole, tail);
      var cursor := new Cursor(skip, skipWhole, tail);
      a := cursor.Next(window, find);
      if a != Failed(IncompleteAtFrameEnd) {
        AskedIs(|RecordsOf(find, contents[at])|, inFrame, old(window.TailTaken()), window.TailTaken(), a,
                cursor.spent, window.eof, window.walked);
      }
      StoppedAt(at, inFrame, a);
    }

    lemma StoppedAt(k: nat, inFrame: nat, a: Answer)
      requires Built() && Pointed(k)
      requires a == Failed(IncompleteAtFrameEnd) ==>
                 window.Broken() && window.walked <= inFrame && Torn(find, contents, k)
      requires a != Failed(IncompleteAtFrameEnd) && |RecordsOf(find, contents[k])| <= inFrame ==> window.eof
      ensures StopsAt(k, inFrame, a)
    {
      if OwnEnds() {
        if a == Failed(IncompleteAtFrameEnd) {
          BrokenIsAtEnd(k);
        } else if |RecordsOf(find, contents[k])| <= inFrame && Torn(find, contents, k) {
          window.SpentIsClean();
          TornIsNotClean(k);
        }
      }
    }

    /** Where asking leaves the window. */
    static lemma AskedIs(whole: nat, inFrame: nat, taken: bool, now: bool, a: Answer, spent: bool, eof: bool,
                         walked: nat)
      requires !spent ==> inFrame < whole && !now
      requires spent ==> whole <= inFrame && eof && walked == whole && (now <==> taken || a.Piece?)
      ensures now <==> whole <= inFrame && (taken || a.Piece?)
      ensures whole <= inFrame ==> eof && walked == whole
    {
    }

    /** What a lookup that was not misled answers. */
    ghost predicate Answers(k: nat, inFrame: nat, stands: bool, a: Answer)
      requires k < |contents| && window.walked < |window.bounds|
      reads this, window
    {
      && (a == Failed(IncompleteAtFrameEnd) ==> Torn(find, contents, k))
      && (a != Failed(IncompleteAtFrameEnd) ==>
            Memo(a, StandsPastTail()) == LookedUp(find, contents, tailIsRecord, k, inFrame, stands))
      && StopsAt(k, inFrame, a)
    }

    /** Looks record `inFrame` of frame `k` up. */
    method Lookup(k: nat, inFrame: nat) returns (a: Answer)
      requires (Valid() || Astray()) && k < |frames|
      modifies this, window, window.source
      ensures frame == Some(k)
      ensures if old(Misled(k, inFrame)) then Astray() && a == Nothing
              else Valid() && Answers(k, inFrame, old(Valid() && frame == Some(k) && StandsPastTail()), a)
    {
      if Valid() && StandsPastTail() { StandingMeans(); }
      var skip, at := WalkTo(k, inFrame);
      var tail := if k != |frames| - 1 then Ignored else if tailIsRecord then AsRecord else AsError;
      a := Ask(at, skip, inFrame, false, tail);
    }

    /** `record`: what a fresh reader answers, except that the unterminated record the window still
        stands past is not found a second time, and that a reader led astray does not find what it
        looks for at the end of the wrong frame. */
    method Record(index: nat) returns (a: Answer)
      requires Valid() || Astray()
      modifies this, window, window.source
      ensures old(Valid()) ==> Valid() && RecordAnswers(index, old(StandsPastTail()), a)
      ensures !old(Valid()) && index / perFrame < |contents| ==>
                if old(Misled(index / perFrame, index % perFrame)) then Astray() && a == Nothing
                else Valid() && RecordAnswers(index, false, a)
    {
      var k := index / perFrame;
      if k < |frames| {
        a := Lookup(k, index % perFrame);
      } else if index == perFrame * |frames| {
        SlotIsFresh(find, contents, perFrame, tailIsRecord, index);
        a := RecordAfterAll();
      } else {
        a := Nothing;
      }
    }

    /** So `record` answers a reader led astray. */
    method RecordAstray(index: nat, ghost misled: bool) returns (a: Answer)
      requires Astray() && !Valid() && index / perFrame < |contents|
      requires misled <==> Misled(index / perFrame, index % perFrame)
      modifies this, window, window.source
      ensures window.walked < |window.bounds|
      ensures if misled then a == Nothing else RecordAnswers(index, false, a)
    {
      a := Record(index);
    }

    ghost predicate RecordAnswers(index: nat, stands: bool, a: Answer)
      requires contents != [] && perFrame > 0 && window.walked < |window.bounds|
      reads this, window
    {
      && (a == Failed(IncompleteAtFrameEnd) ==> Torn(find, contents, index / perFrame))
      && (a != Failed(IncompleteAtFrameEnd) ==>
            Memo(a, StandsPastTail()) == RecordMemo(find, contents, perFrame, tailIsRecord, index, stands))
      && (if index / perFrame < |contents| then StopsAt(index / perFrame, index % perFrame, a)
          else a != Failed(IncompleteAtFrameEnd))
    }

    /** The slot after every full frame. */
    method RecordAfterAll() returns (a: Answer)
      requires Built() && window.Consistent()
      modifies this, window, window.source
      ensures Valid()
      ensures a == SlotAnswer(find, contents, perFrame, tailIsRecord)
      ensures StandsPastTail() <==> a.Piece?
    {
      frame := None;
      var isTail := FinalSlotIsTail();
      if isTail {
        a := LookupSlot();
      } else {
        a := Nothing;
      }
    }

    method LookupSlot() returns (a: Answer)
      requires Valid() && frame == None && SlotAnswer(find, contents, perFrame, tailIsRecord) != Nothing
      modifies this, window, window.source
      ensures Valid() && StandsPastTail()
      ensures a == SlotAnswer(find, contents, perFrame, tailIsRecord)
    {
      SlotIsLookedUp(find, contents, perFrame, tailIsRecord);
      a := Lookup(|frames| - 1, perFrame);
    }

    /** `total_records`, which leaves the window pointed at nothing a lookup may trust. */
    method TotalRecords() returns (r: Result<nat, ReadError>)
      requires Valid()
      modifies this, window, window.source
      ensures Valid() && frame == None
      ensures r == TotalAnswer(find, contents, perFrame, tailIsRecord)
    {
      var last := |frames| - 1;
      FirstRecordIsProduct(perFrame, last);
      var before := perFrame * last;
      var inLast := CountLast();
      if inLast.Err? { return Err(inLast.error); }
      return Ok(before + inLast.value);
    }

    /** How many records the last frame holds, the unterminated one included. */
    method CountLast() returns (r: Result<nat, ReadError>)
      requires Valid()
      modifies this, window, window.source
      ensures Valid() && frame == None
      ensures var last := contents[|contents| - 1];
              var rest := FragmentOf(find, last);
              r == if rest != [] && !tailIsRecord then Err(IncompleteFinalRecord)
                   else Ok(|RecordsOf(find, last)| + if rest == [] then 0 else 1)
    {
      var last := |frames| - 1;
      PointAt(last);
      frame := None;
      AfterLastBound(find, contents[last]);
      var tail := if tailIsRecord then AsRecord else AsError;
      RestIsFragment(find, contents[last]);
      r := Cursor.CountUnits(window, find, tail);
      if r == Err(IncompleteAtFrameEnd) {
        CleanUnlessTorn(last);
      }
    }

    ghost function WholeRecords(): seq<Bytes> {
      RecordsOf(find, Flatten(contents))
    }

    ghost function LastFragment(): Bytes {
      FragmentOf(find, Flatten(contents))
    }

    /** `records_to`: what is written of a uniform file is the range of its records, wherever the
        window stood before. */
    method RecordsTo(from: nat, cnt: nat) returns (r: Result<Bytes, ReadError>)
      requires Valid() && Uniform(find, contents, perFrame)
      requires Fits(perFrame, |frames|) && from <= USIZE_MAX
      modifies this, window, window.source
      ensures Valid()
      ensures r == RangeOf(WholeRecords(), LastFragment(), |contents|, perFrame, tailIsRecord, from, cnt)
      ensures StandsPastTail() == (old(StandsPastTail()) && !MovesWindow(|contents|, perFrame, from))
    {
      PlaceableWhere(find, contents, perFrame, tailIsRecord, from);
      if from == perFrame * |frames| {
        frame := None;
        var isTail := FinalSlotIsTail();
        if !isTail { return Err(PastTheEnd); }
      }
      var req, k, e := PlaceRange(from, cnt);
      if req.None? { return Err(PastTheEnd); }
      frame := None;
      r := ReadSpan(req.value, k, e, from, cnt);
    }

    /** Where the range is placed, worked out from the frame list alone. */
    method PlaceRange(from: nat, cnt: nat) returns (req: Option<Request>, ghost k: nat, ghost e: nat)
      requires Built() && Fits(perFrame, |frames|) && from <= USIZE_MAX
      ensures req.None? <==> !MovesWindow(|contents|, perFrame, from)
      ensures req.Some? ==> IsSpan(req.value, k, e, from, cnt)
    {
      assert Knows(FrameList);
      RequestIsExact(contents, perFrame, from, cnt);
      req := RecordsRequest(frames, perFrame, from, cnt);
      k, e := FirstFrame(|contents|, perFrame, from), LastFrame(|contents|, perFrame, from, cnt);
      if req.Some? {
        SpanIsFrames(contents, k, e + 1);
        if e + 1 < |contents| {
          ShortSpanHolds(|contents|, perFrame, from, cnt);
        }
      }
    }

    /** `req` asks for whole frames, `k` to `e`, that the range from `from` starts in and fits. */
    ghost predicate IsSpan(req: Request, k: nat, e: nat, from: nat, cnt: nat)
    {
      && k <= e < |contents| && FirstRecord(perFrame, k) <= from
      && req == Request(StartOf(contents, k), |Flatten(contents[k..e + 1])|, from - FirstRecord(perFrame, k))
      && req.start + req.len == StartOf(contents, e + 1)
      && (e + 1 < |contents| ==> from + cnt < FirstRecord(perFrame, e + 1))
    }

    lemma SpanAt(k: nat, e: nat, len: nat)
      requires Built() && k <= e < |contents| && len == |Flatten(contents[k..e + 1])|
      ensures StartOf(contents, k) + len == StartOf(contents, e + 1) <= |window.source.content|
      ensures window.source.content[StartOf(contents, k)..StartOf(contents, k) + len] == Flatten(contents[k..e + 1])
    {
      assert Knows(Stream);
      SpanIsFrames(contents, k, e + 1);
    }

    method ReadSpan(req: Request, ghost k: nat, ghost e: nat, ghost from: nat, cnt: nat)
      returns (r: Result<Bytes, ReadError>)
      requires Valid() && frame == None && Uniform(find, contents, perFrame) && IsSpan(req, k, e, from, cnt)
      modifies window, window.source
      ensures Valid()
      ensures r == Written(WholeRecords(), LastFragment(), tailIsRecord, from, cnt)
    {
      var tail := TailOfSpan(req, e);
      ghost var region := SpanAnswers(req, k, e, from, cnt, tail);
      r := WalkSpan(req, region, cnt, tail);
    }

    /** The span `req` asks for, the walk of which writes the range. */
    lemma SpanAnswers(req: Request, k: nat, e: nat, from: nat, cnt: nat, tail: Tail) returns (region: Bytes)
      requires Built() && Uniform(find, contents, perFrame) && IsSpan(req, k, e, from, cnt)
      requires e + 1 == |contents| ==> tail == if tailIsRecord then AsRecord else AsError
      ensures req.start + req.len <= |window.source.content|
      ensures window.source.content[req.start..req.start + req.len] == region
      ensures NeverStops(req.start, region)
      ensures SpanAnswer(find, region, req.skip, cnt, tail)
              == Written(WholeRecords(), LastFragment(), tailIsRecord, from, cnt)
    {
      region := SpanReady(req, k, e, from, cnt);
      SpanIsWritten(find, contents, perFrame, tailIsRecord, from, cnt, k, e, req.skip, region, tail);
    }

    /** The span `req` asks for and what it holds. */
    lemma SpanReady(req: Request, k: nat, e: nat, from: nat, cnt: nat) returns (region: Bytes)
      requires Built() && Uniform(find, contents, perFrame) && IsSpan(req, k, e, from, cnt)
      ensures region == Flatten(contents[k..e + 1])
      ensures req.start + req.len <= |window.source.content|
      ensures window.source.content[req.start..req.start + req.len] == region
      ensures NeverStops(req.start, region)
    {
      region := Flatten(contents[k..e + 1]);
      SpanAt(k, e, req.len);
      SpanGuardsClean(k, e, region);
    }

    /** Frame ends never stop a walk of `region`, read from `start`. */
    ghost predicate NeverStops(start: nat, region: Bytes) {
      EndsOnRecords(Bounds(find, region), |region|, window.frameEndBase + start, window.frameEnds)
    }

    method WalkSpan(req: Request, ghost region: Bytes, cnt: nat, tail: Tail)
      returns (r: Result<Bytes, ReadError>)
      requires Valid() && frame == None && NeverStops(req.start, region)
      requires req.start + req.len <= |window.source.content|
      requires window.source.content[req.start..req.start + req.len] == region
      modifies window, window.source
      ensures Valid()
      ensures r == SpanAnswer(find, region, req.skip, cnt, tail)
    {
      window.SeekTo(find, req.start, req.len, region);
      assert window.clean;
      r := Cursor.WriteTo(window, find, req.skip, cnt, tail);
    }

    // ------------------------------------------------------------ what an iterator asks for

    /** Whether an iterator cannot begin at `from`: it is past every frame, or in the slot after
        them and there is nothing there. */
    ghost predicate BeginsPast(from: nat)
      requires contents != [] && perFrame > 0
    {
      if from == perFrame * |contents| then SlotAnswer(find, contents, perFrame, tailIsRecord) == Nothing
      else from / perFrame >= |contents|
    }

    /** The window is pointed at every frame from `k` on, and has walked none of them. */
    ghost predicate OnSpan(k: nat)
      requires window.walked < |window.bounds|
      reads this, window, window.source
    {
      && k < |contents| && window.Valid(find) && window.region == Flatten(contents[k..])
      && window.clean
    }

    /** `position_iter_span`: points the window at everything from the frame `from` is in on. A
        refusal leaves `frame` as it was, though the window may have been moved to find out. */
    method PositionIter(from: nat) returns (req: Result<Request, ReadError>, ghost k: nat)
      requires Valid() && Uniform(find, contents, perFrame)
      requires Fits(perFrame, |frames|) && from <= USIZE_MAX
      modifies this, window, window.source
      ensures Built() && window.Consistent()
      ensures req.Err? <==> BeginsPast(from)
      ensures req.Err? ==> req.error == PastTheEnd && frame == old(frame)
      ensures req.Err? ==> if from == perFrame * |frames| && tailIsRecord && frame.Some? && frame.value + 1 < |contents|
                           then Astray() else Valid()
      ensures req.Ok? ==> frame == None && OnSpan(k) && FirstRecord(perFrame, k) <= from
      ensures req.Ok? ==> req.value.skip == from - FirstRecord(perFrame, k)
      ensures req.Ok? ==> window.walked == 0 && !window.TailTaken()
    {
      k := 0;
      if from == perFrame * |frames| {
        var isTail := CheckSlot();
        if !isTail { return Err(PastTheEnd), k; }
      }
      req, k := PointRest(from);
    }

    /** The slot after every full frame, for an iterator to begin at. */
    method CheckSlot() returns (isTail: bool)
      requires Valid()
      modifies window, window.source
      ensures window.Consistent()
      ensures isTail <==> SlotAnswer(find, contents, perFrame, tailIsRecord) != Nothing
      ensures !isTail ==> if tailIsRecord && frame.Some? && frame.value + 1 < |contents| then Astray() else Valid()
    {
      isTail := FinalSlotIsTail();
    }

    /** Points the window at everything from the frame `from` is in on, worked out from the frame
        list. */
    method PointRest(from: nat) returns (req: Result<Request, ReadError>, ghost k: nat)
      requires Built() && window.Consistent() && Uniform(find, contents, perFrame)
      requires Fits(perFrame, |frames|) && from <= USIZE_MAX
      modifies this, window, window.source
      ensures window.Consistent() && (req.Err? <==> !MovesWindow(|contents|, perFrame, from))
      ensures req.Err? ==> req.error == PastTheEnd && unchanged(this, window, window.source)
      ensures req.Ok? ==> frame == None && OnSpan(k) && FirstRecord(perFrame, k) <= from
      ensures req.Ok? ==> req.value.skip == from - FirstRecord(perFrame, k)
      ensures req.Ok? ==> window.walked == 0 && !window.TailTaken()
    {
      k := 0;
      var placed, first, e := PlaceRange(from, USIZE_MAX);
      if placed.None? { return Err(PastTheEnd), k; }
      RestReachesEnd(|contents|, perFrame, e, from);
      frame, k := None, first;
      ghost var region := RestReady(placed.value, k, e, from);
      SeekRest(placed.value, k, region);
      return Ok(placed.value), k;
    }

    method SeekRest(req: Request, ghost k: nat, ghost region: Bytes)
      requires Built() && window.Consistent() && k < |contents| && region == Flatten(contents[k..])
      requires req.start + req.len <= |window.source.content| && NeverStops(req.start, region)
      requires region == window.source.content[req.start..req.start + req.len]
      modifies window, window.source
      ensures window.Consistent() && OnSpan(k) && window.walked == 0 && !window.TailTaken()
    {
      window.SeekTo(find, req.start, req.len, region);
    }

    lemma RestReady(req: Request, k: nat, e: nat, from: nat) returns (region: Bytes)
      requires Built() && Uniform(find, contents, perFrame)
      requires IsSpan(req, k, e, from, USIZE_MAX) && e + 1 == |contents|
      ensures k < |contents| && region == Flatten(contents[k..]) && NeverStops(req.start, region)
      ensures req.start + req.len <= |window.source.content|
      ensures region == window.source.content[req.start..req.start + req.len]
    {
      region := SpanReady(req, k, e, from, USIZE_MAX);
      assert contents[k..e + 1] == contents[k..];
    }

    /** Record `inFrame` of frame `k`, for a walk from the back: the frame is known to hold it. */
    method Fetch(k: nat, inFrame: nat, tail: Tail) returns (a: Answer)
      requires Valid() && k < |frames| && !Torn(find, contents, k)
      requires tail == AsRecord ==> k + 1 == |contents| && tailIsRecord
      requires inFrame < |RecordsOf(find, contents[k])| + TailUnits(FragmentOf(find, contents[k]), tail)
      requires inFrame == |RecordsOf(find, contents[k])| ==> !(frame == Some(k) && StandsPastTail())
      modifies this, window, window.source
      ensures Valid() && frame == Some(k)
      ensures a == FrameAnswer(find, contents[k], inFrame, tail) && a.Piece?
      ensures StandsPastTail() <==> inFrame == |RecordsOf(find, contents[k])|
    {
      if StandsPastTail() { StandingMeans(); }
      var skip, at := WalkTo(k, inFrame);
      a := Ask(at, skip, inFrame, true, tail);
    }

    /** How many units a walk of frame `k` from its start hands out. A window standing past the only
        unterminated record of a frame with no whole one is not moved back, and counts nothing. */
    method CountUnitsOf(k: nat, tail: Tail) returns (r: Result<nat, ReadError>)
      requires Valid() && k < |frames| && !Torn(find, contents, k)
      modifies this, window, window.source
      ensures Valid() && frame == None
      ensures var content := contents[k];
              var missed := old(frame == Some(k) && StandsPastTail()) && RecordsOf(find, content) == [];
              r == if missed then Ok(0) else UnitCount(find, content, tail)
    {
      if StandsPastTail() { StandingMeans(); }
      var skip, at := WalkTo(k, 0);
      CleanUnlessTorn(k);
      CountedIs(find, contents[k], Bounds(find, contents[k]), window.TailTaken(), window.RestOf(), tail);
      frame := None;
      r := CountFrom(k, tail);
    }

    /** Counts the units of the frame the window is pointed at, from its start. */
    method CountFrom(ghost k: nat, tail: Tail) returns (r: Result<nat, ReadError>)
      requires Built() && Pointed(k) && window.walked == 0 && window.clean
      modifies window, window.source
      ensures window.Consistent()
      ensures r == CountOf(old(window.bounds), old(window.RestOf()), tail)
    {
      r := Cursor.CountUnits(window, find, tail);
    }

    lemma SpanGuardsClean(k: nat, e: nat, region: Bytes)
      requires Built() && Uniform(find, contents, perFrame) && k <= e < |contents|
      requires region == Flatten(contents[k..e + 1])
      ensures NeverStops(StartOf(contents, k), region)
    {
      assert Knows(FrameGuards);
      assert SpanClear(find, contents, perFrame, window.frameEnds, window.frameEndBase, k, e + 1);
    }

    /** Bytes after the last record are a record, or a refusal, only where the span reaches the end
        of the file. */
    method TailOfSpan(req: Request, ghost e: nat) returns (tail: Tail)
      requires Built() && e < |contents| && req.start + req.len == StartOf(contents, e + 1)
      ensures e + 1 == |contents| ==> tail == if tailIsRecord then AsRecord else AsError
    {
      var last := |frames| - 1;
      FrameAt(last);
      StartStep(contents, last);
      tail := if req.start + req.len != frames[last].start + frames[last].len then Ignored
              else if tailIsRecord then AsRecord else AsError;
    }
  }

  /** What the walk of a region answers a range with. */
  function SpanAnswer(find: Finder, region: Bytes, skip: nat, cnt: nat, tail: Tail): Result<Bytes, ReadError> {
    var bounds := Bounds(find, region);
    RangeAnswer(region, bounds, Cut(region, bounds[|bounds| - 1], |region|), skip, cnt, tail)
  }

  /** The walk of a span writes the range it was requested for. */
  lemma SpanIsWritten(find: Finder, contents: seq<Bytes>, n: nat, tailIsRecord: bool, from: nat, cnt: nat,
                      k: nat, e: nat, skip: nat, region: Bytes, tail: Tail)
    requires Uniform(find, contents, n) && k <= e < |contents| && FirstRecord(n, k) + skip == from
    requires e + 1 < |contents| ==> from + cnt < FirstRecord(n, e + 1)
    requires e + 1 == |contents| ==> tail == if tailIsRecord then AsRecord else AsError
    requires region == Flatten(contents[k..e + 1])
    ensures SpanAnswer(find, region, skip, cnt, tail) ==
            Written(RecordsOf(find, Flatten(contents)), FragmentOf(find, Flatten(contents)), tailIsRecord, from, cnt)
  {
    RestIsFragment(find, region);
    SpanCovers(find, contents, n, from, cnt, k, e);
    CoveredIsWritten(find, region, Bounds(find, region), RecordsOf(find, region), FragmentOf(find, region),
                     FirstRecord(n, k), RecordsOf(find, Flatten(contents)), FragmentOf(find, Flatten(contents)),
                     tailIsRecord, from, cnt, tail);
  }

  /** A range that begins so far on that its placement saturates is read from the frame the saturated
      quotient names. Where that is before its own, the range is refused, or where it begins with the
      very next frame handed out as empty, though the file holds its records. */
  lemma FarRangeIsLost(find: Finder, contents: seq<Bytes>, n: nat, from: nat, cnt: nat, q: nat)
    requires Uniform(find, contents, n) && from < n * |contents| <= USIZE_MAX
    requires |contents| * from > USIZE_MAX && q == USIZE_MAX / (n * |contents|) && q < from / n
    ensures q + 1 < |contents| && Consecutive(Extents(contents)) && FirstRecord(n, q) <= from
    ensures RecordsRequest(Extents(contents), n, from, cnt)
            == Some(Request(StartOf(contents, q), |contents[q]|, from - FirstRecord(n, q)))
    ensures SpanAnswer(find, contents[q], from - FirstRecord(n, q), cnt, Ignored)
            == if from == FirstRecord(n, q + 1) then Ok([]) else Err(SkipRanOut)
  {
    FirstRecordIsProduct(n, |contents|);
    DividedBelow(from, n, |contents|);
    DividedBelow(from, n, q + 1);
    FarRequest(contents, n, from, cnt, q);
    PastFrame(find, contents, n, from, cnt, q);
  }

  /** Nothing is written of a range that begins past frame `q`, not the last, from what that frame
      holds. */
  lemma PastFrame(find: Finder, contents: seq<Bytes>, n: nat, from: nat, cnt: nat, q: nat)
    requires Uniform(find, contents, n) && q + 1 < |contents| && FirstRecord(n, q + 1) <= from
    ensures FirstRecord(n, q) <= from
    ensures SpanAnswer(find, contents[q], from - FirstRecord(n, q), cnt, Ignored)
            == if from == FirstRecord(n, q + 1) then Ok([]) else Err(SkipRanOut)
  {
    FrameIsFull(find, contents, n, q);
    NothingPast(find, contents[q], from - FirstRecord(n, q), cnt, from == FirstRecord(n, q + 1));
  }

  lemma FrameIsFull(find: Finder, contents: seq<Bytes>, n: nat, q: nat)
    requires Uniform(find, contents, n) && q + 1 < |contents|
    ensures |RecordsOf(find, contents[q])| == n
  {
    assert contents[..|contents| - 1][q] == contents[q];
  }

  lemma NothingPast(find: Finder, content: Bytes, skip: nat, cnt: nat, next: bool)
    requires |RecordsOf(find, content)| <= skip && (next <==> skip == |RecordsOf(find, content)|)
    ensures SpanAnswer(find, content, skip, cnt, Ignored) == if next then Ok([]) else Err(SkipRanOut)
  {
    LastBound(find, content);
  }

  /** The slot after every full frame is a record of the file exactly when the last frame is full and
      has bytes left over. */
  lemma SlotIsTail(find: Finder, contents: seq<Bytes>, n: nat)
    requires Uniform(find, contents, n)
    ensures var last := contents[|contents| - 1];
            && (|RecordsOf(find, last)| == n <==> |RecordsOf(find, Flatten(contents))| == n * |contents|)
            && FragmentOf(find, last) == FragmentOf(find, Flatten(contents))
  {
    FrameRecords(find, contents, n, |contents| - 1);
    FirstRecordIsProduct(n, |contents|);
  }

  /** A range can be placed in the slot after every full frame where a record is there, and elsewhere
      exactly where the window is moved for it. */
  lemma PlaceableWhere(find: Finder, contents: seq<Bytes>, n: nat, tailIsRecord: bool, from: nat)
    requires Uniform(find, contents, n)
    ensures var whole, rest, last := RecordsOf(find, Flatten(contents)), FragmentOf(find, Flatten(contents)),
                                     contents[|contents| - 1];
            Placeable(whole, rest, FirstRecord(n, |contents|), tailIsRecord, from)
            <==> if from == n * |contents|
                 then tailIsRecord && |RecordsOf(find, last)| == n && FragmentOf(find, last) != []
                 else MovesWindow(|contents|, n, from)
  {
    FirstRecordIsProduct(n, |contents|);
    DividedBelow(from, n, |contents|);
    SlotIsTail(find, contents, n);
  }

  // ---------------------------------------------------------------- any history of calls

  datatype Call = CallRecord(index: nat) | CallRange(from: nat, cnt: nat) | CallTotal

  datatype Reply =
    | ReplyRecord(answer: Answer)
    | ReplyRange(bytes: Result<Bytes, ReadError>)
    | ReplyTotal(total: Result<nat, ReadError>)

  /** The file a reader was opened on. */
  datatype File = File(find: Finder, contents: seq<Bytes>, perFrame: nat, tailIsRecord: bool)

  ghost predicate Readable(f: File) {
    Uniform(f.find, f.contents, f.perFrame)
    && Fits(f.perFrame, |f.contents|)
  }

  /** What a freshly opened reader answers. */
  function FreshReply(f: File, call: Call): Reply
    requires f.contents != [] && f.perFrame > 0
  {
    match call
    case CallRecord(i) => ReplyRecord(FreshAnswer(f.find, f.contents, f.perFrame, f.tailIsRecord, i))
    case CallRange(from, cnt) =>
      ReplyRange(RangeOf(RecordsOf(f.find, Flatten(f.contents)), FragmentOf(f.find, Flatten(f.contents)),
                         |f.contents|, f.perFrame, f.tailIsRecord, from, cnt))
    case CallTotal => ReplyTotal(TotalAnswer(f.find, f.contents, f.perFrame, f.tailIsRecord))
  }

  /** Whether `call` asks for what follows the last whole record, at its place in the last frame. */
  predicate AsksForTail(f: File, call: Call)
    requires f.contents != [] && f.perFrame > 0
  {
    && call.CallRecord?
    && call.index / f.perFrame == |f.contents| - 1
    && call.index % f.perFrame == |RecordsOf(f.find, f.contents[|f.contents| - 1])|
  }

  /** Whether the window is left past the unterminated record: handing it out leaves it there, and
      only a call that points the window nowhere else keeps it there. */
  predicate StandsAfter(f: File, stands: bool, call: Call)
    requires f.contents != [] && f.perFrame > 0
  {
    match call
    case CallTotal => false
    case CallRange(from, _) => stands && !MovesWindow(|f.contents|, f.perFrame, from)
    case CallRecord(i) => RecordMemo(f.find, f.contents, f.perFrame, f.tailIsRecord, i, stands).stands
  }

  /** The reply to `call` on a window that stands past the unterminated record, or does not. */
  function ReplyWhen(f: File, stands: bool, call: Call): Reply
    requires f.contents != [] && f.perFrame > 0
  {
    if stands && AsksForTail(f, call) then ReplyRecord(Nothing) else FreshReply(f, call)
  }

  function Replies(f: File, stands: bool, calls: seq<Call>): seq<Reply>
    requires f.contents != [] && f.perFrame > 0
    decreases |calls|
  {
    if calls == [] then []
    else [ReplyWhen(f, stands, calls[0])] + Replies(f, StandsAfter(f, stands, calls[0]), calls[1..])
  }

  ghost function FileOf(reader: RecordReader): File {
    File(reader.find, reader.contents, reader.perFrame, reader.tailIsRecord)
  }

  ghost predicate Opened(reader: RecordReader, f: File) {
    f == FileOf(reader) && Readable(f)
  }

  lemma MemoIsReply(f: File, index: nat, stands: bool)
    requires f.contents != [] && f.perFrame > 0
    ensures ReplyRecord(RecordMemo(f.find, f.contents, f.perFrame, f.tailIsRecord, index, stands).answer)
            == ReplyWhen(f, stands, CallRecord(index))
  {
    if index / f.perFrame >= |f.contents| && index == f.perFrame * |f.contents| {
      DivUnique(index, f.perFrame, |f.contents|, 0);
    }
  }

  lemma NotTorn(f: File, index: nat)
    requires Readable(f)
    ensures !Torn(f.find, f.contents, index / f.perFrame)
  {
    UniformIsNotTorn(f.find, f.contents, f.perFrame, index / f.perFrame);
  }

  method RecordReply(reader: RecordReader, ghost f: File, index: nat) returns (reply: Reply)
    requires reader.Valid() && f == FileOf(reader) && !Torn(f.find, f.contents, index / f.perFrame)
    modifies reader, reader.window, reader.window.source
    ensures reader.Valid()
    ensures reply == ReplyWhen(f, old(reader.StandsPastTail()), CallRecord(index))
    ensures reader.StandsPastTail() == StandsAfter(f, old(reader.StandsPastTail()), CallRecord(index))
  {
    ghost var stands, k := reader.StandsPastTail(), index / reader.perFrame;
    ghost var memo := RecordMemo(reader.find, reader.contents, reader.perFrame, reader.tailIsRecord, index, stands);
    var a := reader.Record(index);
    RecordReplied(f, index, k, stands, a, reader.StandsPastTail(), memo);
    return ReplyRecord(a);
  }

  lemma RecordReplied(f: File, index: nat, k: nat, stands: bool, a: Answer, after: bool, memo: Memo)
    requires f.contents != [] && f.perFrame > 0 && !Torn(f.find, f.contents, k)
    requires memo == RecordMemo(f.find, f.contents, f.perFrame, f.tailIsRecord, index, stands)
    requires a == Failed(IncompleteAtFrameEnd) ==> Torn(f.find, f.contents, k)
    requires a != Failed(IncompleteAtFrameEnd) ==> Memo(a, after) == memo
    ensures ReplyRecord(a) == ReplyWhen(f, stands, CallRecord(index))
    ensures after == StandsAfter(f, stands, CallRecord(index))
  {
    MemoIsReply(f, index, stands);
  }

  method RangeReply(reader: RecordReader, ghost f: File, from: nat, cnt: nat) returns (reply: Reply)
    requires reader.Valid() && Opened(reader, f) && from <= USIZE_MAX
    modifies reader, reader.window, reader.window.source
    ensures reader.Valid()
    ensures reply == FreshReply(f, CallRange(from, cnt))
    ensures reader.StandsPastTail() == StandsAfter(f, old(reader.StandsPastTail()), CallRange(from, cnt))
  {
    var r := reader.RecordsTo(from, cnt);
    return ReplyRange(r);
  }

  method TotalReply(reader: RecordReader, ghost f: File) returns (reply: Reply)
    requires reader.Valid() && Opened(reader, f)
    modifies reader, reader.window, reader.window.source
    ensures reader.Valid() && !reader.StandsPastTail()
    ensures reply == FreshReply(f, CallTotal)
  {
    var n := reader.TotalRecords();
    return ReplyTotal(n);
  }

  method MakeReply(reader: RecordReader, ghost f: File, call: Call) returns (reply: Reply)
    requires reader.Valid() && Opened(reader, f) && (call.CallRange? ==> call.from <= USIZE_MAX)
    modifies reader, reader.window, reader.window.source
    ensures reader.Valid()
    ensures reply == ReplyWhen(f, old(reader.StandsPastTail()), call)
    ensures reader.StandsPastTail() == StandsAfter(f, old(reader.StandsPastTail()), call)
  {
    match call
    case CallRecord(i) =>
      NotTorn(f, i);
      reply := RecordReply(reader, f, i);
    case CallRange(from, cnt) => reply := RangeReply(reader, f, from, cnt);
    case CallTotal => reply := TotalReply(reader, f);
  }

  lemma UniformIsNotTorn(find: Finder, contents: seq<Bytes>, n: nat, k: nat)
    requires Uniform(find, contents, n)
    ensures !Torn(find, contents, k)
  {
    if k + 1 < |contents| {
      assert contents[..|contents| - 1][k] == contents[k];
    }
  }

  /** Whether the window stands past the unterminated record before call `j`. */
  predicate StandsBefore(f: File, stands: bool, calls: seq<Call>, j: nat)
    requires f.contents != [] && f.perFrame > 0 && j <= |calls|
    decreases j
  {
    if j == 0 then stands else StandsBefore(f, StandsAfter(f, stands, calls[0]), calls[1..], j - 1)
  }

  /** One reader, any history of calls: every reply is given by the file and by whether the call
      before left the window past the unterminated record. */
  method RunCalls(reader: RecordReader, ghost f: File, calls: seq<Call>) returns (replies: seq<Reply>)
    requires reader.Valid() && Opened(reader, f)
    requires forall call :: call in calls && call.CallRange? ==> call.from <= USIZE_MAX
    modifies reader, reader.window, reader.window.source
    ensures reader.Valid()
    ensures replies == Replies(f, old(reader.StandsPastTail()), calls)
    ensures reader.StandsPastTail() == StandsBefore(f, old(reader.StandsPastTail()), calls, |calls|)
    decreases |calls|
  {
    if calls == [] { return []; }
    OneCall(f, reader.StandsPastTail(), calls);
    var first := MakeReply(reader, f, calls[0]);
    var rest := RunCalls(reader, f, calls[1..]);
    return [first] + rest;
  }

  lemma OneCall(f: File, stands: bool, calls: seq<Call>)
    requires f.contents != [] && f.perFrame > 0 && calls != []
    ensures var after, later := StandsAfter(f, stands, calls[0]), calls[1..];
            && Replies(f, stands, calls) == [ReplyWhen(f, stands, calls[0])] + Replies(f, after, later)
            && StandsBefore(f, stands, calls, |calls|) == StandsBefore(f, after, later, |later|)
  {
  }

  /** The last frame ends in a record no separator ends. */
  predicate HasTail(f: File)
    requires f.contents != []
  {
    f.tailIsRecord && FragmentOf(f.find, f.contents[|f.contents| - 1]) != []
  }

  /** Only where there is such a record does a window come to stand past it. */
  lemma StandingNeedsTail(f: File, stands: bool, call: Call)
    requires f.contents != [] && f.perFrame > 0 && (stands ==> HasTail(f))
    ensures StandsAfter(f, stands, call) ==> HasTail(f)
  {
    if call.CallRecord? && call.index / f.perFrame >= |f.contents| && call.index == f.perFrame * |f.contents| {
      SlotIsFresh(f.find, f.contents, f.perFrame, f.tailIsRecord, call.index);
    }
  }

  lemma ReplyIsFreshIff(f: File, stands: bool, call: Call)
    requires f.contents != [] && f.perFrame > 0 && (stands ==> HasTail(f))
    ensures ReplyWhen(f, stands, call) == FreshReply(f, call) <==> !(stands && AsksForTail(f, call))
  {
  }

  lemma RepliesGoOn(f: File, stands: bool, calls: seq<Call>, j: nat)
    requires f.contents != [] && f.perFrame > 0 && 0 < j < |calls|
    ensures var later := Replies(f, StandsAfter(f, stands, calls[0]), calls[1..]);
            j - 1 < |later| ==> j < |Replies(f, stands, calls)| && Replies(f, stands, calls)[j] == later[j - 1]
    ensures StandsBefore(f, stands, calls, j) == StandsBefore(f, StandsAfter(f, stands, calls[0]), calls[1..], j - 1)
  {
  }

  /** After any history, a reply is what a freshly opened reader gives exactly when it is not for the
      unterminated record asked of a window that stands past it: a lookup of a whole record, a range
      and a total always are. */
  lemma {:induction false} HistoryIsFreshIff(f: File, stands: bool, calls: seq<Call>, j: nat)
    requires f.contents != [] && f.perFrame > 0 && (stands ==> HasTail(f)) && j < |calls|
    ensures j < |Replies(f, stands, calls)|
    ensures Replies(f, stands, calls)[j] == FreshReply(f, calls[j])
            <==> !(StandsBefore(f, stands, calls, j) && AsksForTail(f, calls[j]))
    decreases j
  {
    if j == 0 {
      ReplyIsFreshIff(f, stands, calls[0]);
    } else {
      StandingNeedsTail(f, stands, calls[0]);
      RepliesGoOn(f, stands, calls, j);
      HistoryIsFreshIff(f, StandsAfter(f, stands, calls[0]), calls[1..], j - 1);
    }
  }

  /** The total is the number of records the file holds, the unterminated one included; only a
      finder's unfinished last record refuses it. */
  lemma TotalIsCount(f: File)
    requires Uniform(f.find, f.contents, f.perFrame)
    ensures var whole, rest := RecordsOf(f.find, Flatten(f.contents)), FragmentOf(f.find, Flatten(f.contents));
            TotalAnswer(f.find, f.contents, f.perFrame, f.tailIsRecord)
            == if rest != [] && !f.tailIsRecord then Err(IncompleteFinalRecord)
               else Ok(|AllRecords(whole, rest, f.tailIsRecord)|)
  {
    FrameRecords(f.find, f.contents, f.perFrame, |f.contents| - 1);
  }

  /** The unterminated record of a last frame that is not full is handed out once: asked for again
      straight away, it is not there. */
  lemma TailIsLostTheSecondTime(f: File, i: nat)
    requires Readable(f) && f.tailIsRecord && FragmentOf(f.find, f.contents[|f.contents| - 1]) != []
    requires AsksForTail(f, CallRecord(i))
    ensures var rest := FragmentOf(f.find, f.contents[|f.contents| - 1]);
            Replies(f, false, [CallRecord(i), CallRecord(i)]) == [ReplyRecord(Piece(rest)), ReplyRecord(Nothing)]
  {
    var twice := [CallRecord(i), CallRecord(i)];
    assert twice[1..] == [CallRecord(i)] && [CallRecord(i)][1..] == [];
    assert Replies(f, true, [CallRecord(i)])
           == [ReplyRecord(Nothing)] + Replies(f, StandsAfter(f, true, CallRecord(i)), []);
  }

  /** What an index of a uniform file finds in frame `k`, slot `j`. */
  lemma FrameAnswerIsRecord(find: Finder, contents: seq<Bytes>, n: nat, k: nat, j: nat, tailIsRecord: bool)
    requires Uniform(find, contents, n) && k < |contents| && (k + 1 < |contents| ==> j < n)
    ensures var whole, rest := RecordsOf(find, Flatten(contents)), FragmentOf(find, Flatten(contents));
            var i := FirstRecord(n, k) + j;
            FrameAnswer(find, contents[k], j, TailOf(contents, tailIsRecord, k)) ==
            if i < |whole| then Piece(whole[i])
            else if i > |whole| || rest == [] then Nothing
            else if tailIsRecord then Piece(rest) else Failed(IncompleteFinalRecord)
  {
    FrameRecords(find, contents, n, k);
  }

  /** What a freshly opened reader answers for an index of a uniform file: the record there. */
  lemma FreshIsRecord(f: File, i: nat)
    requires Uniform(f.find, f.contents, f.perFrame)
    ensures var whole, rest := RecordsOf(f.find, Flatten(f.contents)), FragmentOf(f.find, Flatten(f.contents));
            FreshAnswer(f.find, f.contents, f.perFrame, f.tailIsRecord, i) ==
            if i < |whole| then Piece(whole[i])
            else if i > |whole| || rest == [] then Nothing
            else if f.tailIsRecord then Piece(rest)
            else if i / f.perFrame < |f.contents| then Failed(IncompleteFinalRecord) else Nothing
  {
    var n, count := f.perFrame, |f.contents|;
    Divided(i, n);
    SlotIsTail(f.find, f.contents, n);
    FirstRecordIsProduct(n, count);
    if i / n < count {
      FrameAnswerIsRecord(f.find, f.contents, n, i / n, i % n, f.tailIsRecord);
    } else {
      PastAllFrames(f.find, f.contents, n, i);
      FrameAnswerIsRecord(f.find, f.contents, n, count - 1, n, f.tailIsRecord);
    }
  }

  lemma PastAllFrames(find: Finder, contents: seq<Bytes>, n: nat, i: nat)
    requires Uniform(find, contents, n) && i / n >= |contents|
    ensures |RecordsOf(find, Flatten(contents))| <= FirstRecord(n, |contents|) <= i
    ensures FirstRecord(n, |contents|) == FirstRecord(n, |contents| - 1) + n
  {
    Divided(i, n);
    FrameRecords(find, contents, n, |contents| - 1);
    FirstRecordMonotone(n, |contents|, i / n);
  }

  /** A borrowed iterator refused at the slot after every full frame moves the window to the last
      frame and leaves the reader thinking it is still at frame `k`. Asked for a whole record next, it
      answers what a fresh reader does, unless the record is in frame `k` at or past the count of the
      last frame: then it finds nothing. */
  method RecordAfterRefusal(reader: RecordReader, ghost f: File, ghost k: nat, i: nat) returns (a: Answer)
    requires reader.Valid() && Opened(reader, f) && f.tailIsRecord
    requires SlotAnswer(f.find, f.contents, f.perFrame, f.tailIsRecord) == Nothing
    requires reader.frame == Some(k) && k + 1 < |f.contents| && i < |RecordsOf(f.find, Flatten(f.contents))|
    modifies reader, reader.window, reader.window.source
    ensures FreshAnswer(f.find, f.contents, f.perFrame, f.tailIsRecord, i).Piece?
    ensures a == FreshAnswer(f.find, f.contents, f.perFrame, f.tailIsRecord, i) <==> !LedAstray(f, k, i)
  {
    SlotFits(f.perFrame, |f.contents|);
    ghost var at := WholeIsFresh(f, i);
    var req, _ := reader.PositionIter(reader.Slot());
    reader.AstrayIsNotValid(k);
    LedAstrayIsMisled(reader, f, k, i);
    a := AskAstray(reader, f, LedAstray(f, k, i), i);
    MisledIsNotFresh(f, LedAstray(f, k, i), i, a);
  }

  lemma MisledIsNotFresh(f: File, misled: bool, i: nat, a: Answer)
    requires f.contents != [] && f.perFrame > 0
    requires FreshAnswer(f.find, f.contents, f.perFrame, f.tailIsRecord, i).Piece?
    requires if misled then a == Nothing else ReplyRecord(a) == ReplyWhen(f, false, CallRecord(i))
    ensures a == FreshAnswer(f.find, f.contents, f.perFrame, f.tailIsRecord, i) <==> !misled
  {
  }

  /** Whether record `i` is in frame `k`, where the last frame holds no record. */
  ghost predicate LedAstray(f: File, k: nat, i: nat)
    requires f.contents != [] && f.perFrame > 0
  {
    i / f.perFrame == k && i % f.perFrame >= |RecordsOf(f.find, f.contents[|f.contents| - 1])|
  }

  lemma LedAstrayIsMisled(reader: RecordReader, f: File, k: nat, i: nat)
    requires reader.Astray() && !reader.Valid() && f == FileOf(reader) && reader.frame == Some(k)
    ensures LedAstray(f, k, i) <==> reader.Misled(i / reader.perFrame, i % reader.perFrame)
  {
  }

  method AskAstray(reader: RecordReader, ghost f: File, ghost misled: bool, i: nat) returns (a: Answer)
    requires reader.Astray() && !reader.Valid() && f == FileOf(reader)
    requires misled <==> reader.Misled(i / reader.perFrame, i % reader.perFrame)
    requires i / reader.perFrame < |f.contents| && !Torn(f.find, f.contents, i / reader.perFrame)
    modifies reader, reader.window, reader.window.source
    ensures if misled then a == Nothing else ReplyRecord(a) == ReplyWhen(f, false, CallRecord(i))
  {
    ghost var memo := RecordMemo(reader.find, reader.contents, reader.perFrame, reader.tailIsRecord, i, false);
    a := reader.RecordAstray(i, misled);
    if !misled {
      RecordReplied(f, i, i / reader.perFrame, false, a, reader.StandsPastTail(), memo);
    }
  }

  lemma WholeIsFresh(f: File, i: nat) returns (k: nat)
    requires Readable(f) && i < |RecordsOf(f.find, Flatten(f.contents))|
    ensures k == i / f.perFrame && k < |f.contents| && !Torn(f.find, f.contents, k)
    ensures FreshAnswer(f.find, f.contents, f.perFrame, f.tailIsRecord, i).Piece?
  {
    FreshIsRecord(f, i);
    NotTorn(f, i);
    var j;
    k, j := RecordByDivision(f.find, f.contents, f.perFrame, i);
  }

  lemma SlotFits(n: nat, f: nat)
    requires Fits(n, f) && f > 0
    ensures n * f <= USIZE_MAX
  {
    AllFit(n, f);
    FirstRecordIsProduct(n, f);
  }
}
