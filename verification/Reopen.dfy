/** What a reader opened from a later frame answers, in the numbering of the file
    (`open_from_frame` and `with_shared_frame_ends` of src/reader.rs). */
module Reopen {
  import opened Bytes
  import opened Seqs
  import opened Records
  import opened Frames
  import opened Window
  import opened Cursor
  import opened Placement
  import opened Ranges
  import opened Reader
  import opened Regroup

  // ---------------------------------------------------------------- the frame ends shared with it

  /** The frames from `s + j` up to `s + k`, within the file and within what is left of it. */
  lemma SuffixSpan(contents: seq<Bytes>, s: nat, j: nat, k: nat)
    requires s <= |contents| && j <= k <= |contents| - s
    ensures contents[s..][j..k] == contents[s + j..s + k]
    ensures StartOf(contents, s) + StartOf(contents[s..], j) == StartOf(contents, s + j)
  {
    SliceOfDrop(contents, s, j, k);
    TakeOfDrop(contents, s, j);
    SpanIsFrames(contents, s, s + j);
  }

  lemma GroupsAreFrames(contents: seq<Bytes>, s: nat, g: nat, j: nat, k: nat) returns (from: nat, upto: nat)
    requires g > 0 && s < |contents| && j < k <= |Groups(contents[s..], g)|
    ensures s <= from < upto <= |contents|
    ensures StartOf(contents, s) + StartOf(Groups(contents[s..], g), j) == StartOf(contents, from)
    ensures Flatten(Groups(contents[s..], g)[j..k]) == Flatten(contents[from..upto])
  {
    var rest := contents[s..];
    GroupSpan(rest, g, j, k);
    GroupsBegin(rest, g, j);
    FirstRecordMonotone(g, j, k);
    from, upto := s + BeginsAt(|rest|, g, j), s + BeginsAt(|rest|, g, k);
    SuffixSpan(contents, s, BeginsAt(|rest|, g, j), BeginsAt(|rest|, g, k));
  }

  lemma SameRegion(find: Finder, a: Bytes, b: Bytes, from: nat, at: nat, ends: seq<nat>)
    requires a == b && from == at && EndsOnRecords(Bounds(find, a), |a|, from, ends)
    ensures EndsOnRecords(Bounds(find, b), |b|, at, ends)
  {
  }

  lemma SharedSpan(find: Finder, contents: seq<Bytes>, n: nat, s: nat, g: nat, groups: seq<Bytes>, j: nat, k: nat)
    requires Uniform(find, contents, n) && s < |contents| && g > 0 && groups == Groups(contents[s..], g)
    requires j < k <= |groups|
    ensures SpanClear(find, groups, FirstRecord(n, g), NonfinalEnds(contents), StartOf(contents, s), j, k)
  {
    var from, upto := GroupsAreFrames(contents, s, g, j, k);
    var region := Flatten(contents[from..upto]);
    SpanIsClean(find, contents, n, from, upto, region);
    SameRegion(find, region, Flatten(groups[j..k]), StartOf(contents, from), StartOf(contents, s) + StartOf(groups, j),
               NonfinalEnds(contents));
  }

  lemma SpanIsFrame(find: Finder, groups: seq<Bytes>, n: nat, ends: seq<nat>, base: nat, k: nat)
    requires Uniform(find, groups, n) && k < |groups| && SpanClear(find, groups, n, ends, base, k, k + 1)
    ensures FrameClear(find, groups, ends, base, k)
  {
    assert groups[k..k + 1] == [groups[k]];
    FlattenOne(groups[k]);
  }

  /** The physical frame ends of a uniform file never stop a reader of the groups. */
  lemma SharedEndsInside(find: Finder, contents: seq<Bytes>, n: nat, s: nat, g: nat)
    requires Uniform(find, contents, n) && s < |contents| && g > 0
    ensures NoneInside(find, Groups(contents[s..], g), FirstRecord(n, g), NonfinalEnds(contents), StartOf(contents, s))
  {
    var groups, ends, base := Groups(contents[s..], g), NonfinalEnds(contents), StartOf(contents, s);
    forall j, k | 0 <= j < k <= |groups|
      ensures SpanClear(find, groups, FirstRecord(n, g), ends, base, j, k)
    {
      SharedSpan(find, contents, n, s, g, groups, j, k);
    }
    UniformSuffix(find, contents, n, s);
    GroupsAreUniform(find, contents[s..], n, g);
    forall k | 0 <= k < |groups|
      ensures FrameClear(find, groups, ends, base, k)
    {
      SpanIsFrame(find, groups, FirstRecord(n, g), ends, base, k);
    }
  }

  /** The ends of the frames before `s` are behind its start, the others are not. */
  lemma EndsPassed(contents: seq<Bytes>, s: nat, i: nat)
    requires s < |contents| && i + 1 < |contents|
    ensures if i < s then NonfinalEnds(contents)[i] <= StartOf(contents, s)
            else StartOf(contents, s) <= NonfinalEnds(contents)[i]
  {
    NonfinalEndAt(contents, i);
    if i < s {
      SpanIsFrames(contents, i + 1, s);
    } else {
      SpanIsFrames(contents, s, i + 1);
    }
  }

  // ---------------------------------------------------------------- the numbering

  /** The file as it is read from frame `s` on, `g` frames to a group. */
  function From(f: File, s: nat, g: nat): File
    requires s <= |f.contents| && g > 0
  {
    File(f.find, Groups(f.contents[s..], g), FirstRecord(f.perFrame, g), f.tailIsRecord)
  }

  /** It holds the records of the file from the first of frame `s` on. */
  lemma RecordsOnward(f: File, s: nat, g: nat)
    requires Uniform(f.find, f.contents, f.perFrame) && s < |f.contents| && g > 0
    ensures var to, all := From(f, s, g), Flatten(f.contents);
            && Uniform(f.find, to.contents, to.perFrame)
            && FirstRecord(f.perFrame, s) <= |RecordsOf(f.find, all)|
            && RecordsOf(f.find, Flatten(to.contents)) == RecordsOf(f.find, all)[FirstRecord(f.perFrame, s)..]
            && FragmentOf(f.find, Flatten(to.contents)) == FragmentOf(f.find, all)
  {
    UniformPrefix(f.find, f.contents, f.perFrame, s);
    SplitAtFrame(f.find, f.contents, f.perFrame, s);
    UniformSuffix(f.find, f.contents, f.perFrame, s);
    GroupsAreUniform(f.find, f.contents[s..], f.perFrame, g);
    AllGroups(f.contents[s..], g);
  }

  lemma {:induction false} FirstRecordAdds(n: nat, j: nat, k: nat)
    ensures FirstRecord(n, j + k) == FirstRecord(n, j) + FirstRecord(n, k)
  {
    if k > 0 { FirstRecordAdds(n, j, k - 1); }
  }

  lemma {:induction false} FirstRecordNests(n: nat, g: nat, k: nat)
    ensures FirstRecord(FirstRecord(n, g), k) == FirstRecord(n, FirstRecord(g, k))
  {
    if k > 0 {
      FirstRecordNests(n, g, k - 1);
      FirstRecordAdds(n, FirstRecord(g, k - 1), g);
    }
  }

  /** The last group holds fewer than `g` frames. */
  predicate LastIsShort(f: File, s: nat, g: nat)
    requires s <= |f.contents| && g > 0
  {
    |f.contents| - s < FirstRecord(g, |From(f, s, g).contents|)
  }

  /** How many places the frames from `s` on have for records, and how many the groups have. */
  lemma PlacesLeft(f: File, s: nat, g: nat)
    requires f.perFrame > 0 && s < |f.contents| && g > 0
    ensures Places(f, s) <= GroupPlaces(f, s, g)
    ensures Places(f, s) < GroupPlaces(f, s, g) <==> LastIsShort(f, s, g)
    ensures FirstRecord(f.perFrame, |f.contents|) == FirstRecord(f.perFrame, s) + Places(f, s)
  {
    var n, groups := f.perFrame, Groups(f.contents[s..], g);
    FirstRecordAdds(n, s, |f.contents| - s);
    FirstRecordNests(n, g, |groups|);
    AllGroups(f.contents[s..], g);
    FirstRecordMonotone(n, |f.contents| - s, FirstRecord(g, |groups|));
  }

  /** There is a place for every record, and one for each exactly where the last frame is full. */
  lemma RecordsPlaced(f: File)
    requires Uniform(f.find, f.contents, f.perFrame)
    ensures |RecordsOf(f.find, Flatten(f.contents))| <= FirstRecord(f.perFrame, |f.contents|)
    ensures |RecordsOf(f.find, Flatten(f.contents))| == FirstRecord(f.perFrame, |f.contents|) <==> LastIsFull(f)
    ensures FragmentOf(f.find, f.contents[|f.contents| - 1]) == FragmentOf(f.find, Flatten(f.contents))
  {
    FrameRecords(f.find, f.contents, f.perFrame, |f.contents| - 1);
  }

  function Places(f: File, s: nat): nat
    requires s <= |f.contents|
  {
    FirstRecord(f.perFrame, |f.contents| - s)
  }

  function GroupPlaces(f: File, s: nat, g: nat): nat
    requires s <= |f.contents| && g > 0
  {
    FirstRecord(From(f, s, g).perFrame, |From(f, s, g).contents|)
  }

  /** What a fresh reader answers for place `i`, `placed` saying whether some frame has it. */
  function AnswerAt(whole: seq<Bytes>, rest: Bytes, tailIsRecord: bool, i: nat, placed: bool): Answer {
    if i < |whole| then Piece(whole[i])
    else if i > |whole| || rest == [] then Nothing
    else if tailIsRecord then Piece(rest)
    else if placed then Failed(IncompleteFinalRecord) else Nothing
  }

  function AnswerOf(f: File, i: nat): Reply {
    ReplyRecord(AnswerAt(RecordsOf(f.find, Flatten(f.contents)), FragmentOf(f.find, Flatten(f.contents)),
                         f.tailIsRecord, i, i < FirstRecord(f.perFrame, |f.contents|)))
  }

  lemma FreshIsAnswerOf(f: File, i: nat)
    requires Uniform(f.find, f.contents, f.perFrame)
    ensures FreshReply(f, CallRecord(i)) == AnswerOf(f, i)
  {
    FreshIsRecord(f, i);
    DividedBelow(i, f.perFrame, |f.contents|);
  }

  lemma AnswerFrom(a: Reply, b: Reply, held: seq<Bytes>, left: Bytes, whole: seq<Bytes>, rest: Bytes,
                   tailIsRecord: bool, first: nat, i: nat, here: bool, there: bool)
    requires first <= |whole| && held == whole[first..] && left == rest
    requires a == ReplyRecord(AnswerAt(held, left, tailIsRecord, i, here))
    requires b == ReplyRecord(AnswerAt(whole, rest, tailIsRecord, first + i, there))
    requires there && first + i == |whole| ==> here
    ensures a == b <==> !(!tailIsRecord && rest != [] && first + i == |whole| && here && !there)
  {
  }

  /** `to` holds the records of `f` from `first` on, and no fewer places for them. */
  ghost predicate HoldsFrom(f: File, to: File, first: nat) {
    var whole := RecordsOf(f.find, Flatten(f.contents));
    && to.tailIsRecord == f.tailIsRecord && first <= |whole|
    && RecordsOf(to.find, Flatten(to.contents)) == whole[first..]
    && FragmentOf(to.find, Flatten(to.contents)) == FragmentOf(f.find, Flatten(f.contents))
    && |whole| <= FirstRecord(f.perFrame, |f.contents|) <= first + FirstRecord(to.perFrame, |to.contents|)
  }

  /** Place `i` of `to` is the one after the last whole record, where a finder ends nothing in the bytes
      there are, and `f` does not have it. */
  ghost predicate Misplaced(f: File, to: File, first: nat, i: nat) {
    && !f.tailIsRecord && FragmentOf(f.find, Flatten(f.contents)) != []
    && first + i == |RecordsOf(f.find, Flatten(f.contents))| == FirstRecord(f.perFrame, |f.contents|)
    && i < FirstRecord(to.perFrame, |to.contents|)
  }

  lemma AnswersMove(f: File, to: File, first: nat, i: nat)
    requires HoldsFrom(f, to, first)
    ensures AnswerOf(to, i) == AnswerOf(f, first + i)
            <==> !Misplaced(f, to, first, i)
  {
    AnswerFrom(AnswerOf(to, i), AnswerOf(f, first + i),
               RecordsOf(to.find, Flatten(to.contents)), FragmentOf(to.find, Flatten(to.contents)),
               RecordsOf(f.find, Flatten(f.contents)), FragmentOf(f.find, Flatten(f.contents)),
               f.tailIsRecord, first, i,
               i < FirstRecord(to.perFrame, |to.contents|), first + i < FirstRecord(f.perFrame, |f.contents|));
  }

  lemma RepliesMove(f: File, to: File, first: nat, i: nat)
    requires Uniform(f.find, f.contents, f.perFrame) && Uniform(to.find, to.contents, to.perFrame)
    requires HoldsFrom(f, to, first)
    ensures FreshReply(to, CallRecord(i)) == FreshReply(f, CallRecord(first + i))
            <==> !Misplaced(f, to, first, i)
  {
    FreshIsAnswerOf(to, i);
    FreshIsAnswerOf(f, first + i);
    AnswersMove(f, to, first, i);
  }

  lemma GroupsHoldFrom(f: File, s: nat, g: nat)
    requires Uniform(f.find, f.contents, f.perFrame) && s < |f.contents| && g > 0
    ensures Uniform(f.find, From(f, s, g).contents, From(f, s, g).perFrame)
    ensures HoldsFrom(f, From(f, s, g), FirstRecord(f.perFrame, s))
  {
    RecordsOnward(f, s, g);
    RecordsPlaced(f);
    PlacesLeft(f, s, g);
  }

  lemma GroupsReadFrom(f: File, s: nat, g: nat)
    requires Uniform(f.find, f.contents, f.perFrame) && s < |f.contents| && g > 0
    ensures From(f, s, g).contents != [] && From(f, s, g).perFrame > 0
    ensures HoldsFrom(f, From(f, s, g), FirstRecord(f.perFrame, s))
  {
    GroupsHoldFrom(f, s, g);
  }

  lemma MisplacedMeans(f: File, to: File, s: nat, g: nat, first: nat, i: nat)
    requires Uniform(f.find, f.contents, f.perFrame) && s < |f.contents| && g > 0
    requires to == From(f, s, g) && first == FirstRecord(f.perFrame, s)
    ensures Misplaced(f, to, first, i) <==> SlotOnlyInGroups(f, s, g, i)
  {
    RecordsPlaced(f);
    PlacesLeft(f, s, g);
  }

  /** Record `i` from frame `s` on is record `n * s + i` of the file, for every grouping. Only a
      finder's unfinished last record, in the slot after every full frame, is refused where the file
      has nothing there: exactly where the last frame is full and the last group is not. */
  lemma RecordRenumbered(f: File, to: File, s: nat, g: nat, first: nat, i: nat)
    requires Uniform(f.find, f.contents, f.perFrame) && s < |f.contents| && g > 0
    requires to == From(f, s, g) && first == FirstRecord(f.perFrame, s)
    ensures to.perFrame > 0 && to.contents != []
    ensures FreshReply(to, CallRecord(i)) == FreshReply(f, CallRecord(first + i)) <==> !SlotOnlyInGroups(f, s, g, i)
  {
    GroupsHoldFrom(f, s, g);
    RepliesMove(f, to, first, i);
    MisplacedMeans(f, to, s, g, first, i);
  }

  /** There the reopened reader refuses the bytes a finder ends nothing in, and the whole file has
      nothing. */
  lemma SlotDiffers(f: File, to: File, s: nat, g: nat, first: nat, i: nat)
    requires Uniform(f.find, f.contents, f.perFrame) && s < |f.contents| && g > 0
    requires to == From(f, s, g) && first == FirstRecord(f.perFrame, s) && SlotOnlyInGroups(f, s, g, i)
    ensures to.perFrame > 0 && to.contents != []
    ensures FreshReply(to, CallRecord(i)) == ReplyRecord(Failed(IncompleteFinalRecord))
    ensures FreshReply(f, CallRecord(first + i)) == ReplyRecord(Nothing)
  {
    GroupsHoldFrom(f, s, g);
    MisplacedMeans(f, to, s, g, first, i);
    MisplacedReplies(f, to, first, i);
  }

  lemma MisplacedReplies(f: File, to: File, first: nat, i: nat)
    requires Uniform(f.find, f.contents, f.perFrame) && Uniform(to.find, to.contents, to.perFrame)
    requires HoldsFrom(f, to, first) && Misplaced(f, to, first, i)
    ensures FreshReply(to, CallRecord(i)) == ReplyRecord(Failed(IncompleteFinalRecord))
    ensures FreshReply(f, CallRecord(first + i)) == ReplyRecord(Nothing)
  {
    FreshIsAnswerOf(to, i);
    FreshIsAnswerOf(f, first + i);
  }

  predicate SlotOnlyInGroups(f: File, s: nat, g: nat, i: nat)
    requires f.contents != [] && s <= |f.contents| && g > 0
  {
    FinderTail(f) && LastIsFull(f) && LastIsShort(f, s, g) && i == Places(f, s)
  }

  predicate FinderTail(f: File)
    requires f.contents != []
  {
    !f.tailIsRecord && FragmentOf(f.find, f.contents[|f.contents| - 1]) != []
  }

  predicate LastIsFull(f: File)
    requires f.contents != []
  {
    |RecordsOf(f.find, f.contents[|f.contents| - 1])| == f.perFrame
  }

  /** The total is that of the file less the records of the frames before `s`. */
  lemma TotalRenumbered(f: File, to: File, s: nat, g: nat, first: nat)
    requires Uniform(f.find, f.contents, f.perFrame) && s < |f.contents| && g > 0
    requires to == From(f, s, g) && first == FirstRecord(f.perFrame, s)
    ensures to.perFrame > 0 && to.contents != []
    ensures TotalLess(FreshReply(f, CallTotal).total, FreshReply(to, CallTotal).total, first)
  {
    GroupsHoldFrom(f, s, g);
    TotalMoves(f, to, first);
  }

  predicate TotalLess(whole: Result<nat, ReadError>, left: Result<nat, ReadError>, first: nat) {
    match whole
    case Err(error) => left == Err(error)
    case Ok(total) => first <= total && left == Ok(total - first)
  }

  lemma TotalMoves(f: File, to: File, first: nat)
    requires Uniform(f.find, f.contents, f.perFrame) && Uniform(to.find, to.contents, to.perFrame)
    requires HoldsFrom(f, to, first)
    ensures TotalLess(FreshReply(f, CallTotal).total, FreshReply(to, CallTotal).total, first)
  {
    TotalIsCount(f);
    TotalIsCount(to);
  }

  /** A range read from `from` on is the range of the file from `n * s + from` on, for every grouping,
      unless it begins in a frame the last group is short of: the file has no such place, the groups
      do. */
  lemma RangeRenumbered(f: File, to: File, s: nat, g: nat, first: nat, from: nat, cnt: nat)
    requires Uniform(f.find, f.contents, f.perFrame) && s < |f.contents| && g > 0
    requires to == From(f, s, g) && first == FirstRecord(f.perFrame, s)
    ensures to.perFrame > 0 && to.contents != []
    ensures FreshReply(to, CallRange(from, cnt)) == FreshReply(f, CallRange(first + from, cnt))
            <==> !InMissingFrame(f, s, g, from)
  {
    GroupsReadFrom(f, s, g);
    RangesMove(f, to, first, from, cnt);
    NotPlacedMeans(f, to, s, g, first, from);
  }

  /** There the whole file refuses the range as past its end. The reopened reader runs out of records to
      skip, or where the range begins right after the last record hands out nothing and no error, unless
      a finder ends nothing in the bytes there are. */
  lemma MissingFrameDiffers(f: File, to: File, s: nat, g: nat, first: nat, from: nat, cnt: nat)
    requires Uniform(f.find, f.contents, f.perFrame) && s < |f.contents| && g > 0
    requires to == From(f, s, g) && first == FirstRecord(f.perFrame, s) && InMissingFrame(f, s, g, from)
    ensures to.perFrame > 0 && to.contents != []
    ensures FreshReply(f, CallRange(first + from, cnt)) == ReplyRange(Err(PastTheEnd))
    ensures FreshReply(to, CallRange(from, cnt))
            == ReplyRange(if from > Places(f, s) || !LastIsFull(f) then Err(SkipRanOut)
                          else if FinderTail(f) && cnt > 0 then Err(IncompleteFinalRecord)
                          else Ok([]))
  {
    GroupsReadFrom(f, s, g);
    RecordsPlaced(f);
    PlacesLeft(f, s, g);
    NothingWritten(RecordsOf(f.find, Flatten(to.contents)), FragmentOf(f.find, Flatten(to.contents)), f.tailIsRecord,
                   from, cnt);
  }

  /** Past the last record nothing is written. */
  lemma NothingWritten(whole: seq<Bytes>, rest: Bytes, tailIsRecord: bool, from: nat, cnt: nat)
    requires from >= |whole| && !(from == |whole| && tailIsRecord && rest != [])
    ensures Written(whole, rest, tailIsRecord, from, cnt)
            == if from > |whole| then Err(SkipRanOut)
               else if rest != [] && cnt > 0 then Err(IncompleteFinalRecord) else Ok([])
  {
    if from == |whole| {
      assert whole[from..] == [];
      if cnt == 0 { assert whole[from..from + cnt] == []; }
      EmptyJoins(Flatten(whole[from..]));
    }
  }

  /** A range begins where the last group is short of a frame, and not at a record there. */
  predicate InMissingFrame(f: File, s: nat, g: nat, from: nat)
    requires f.contents != [] && s <= |f.contents| && g > 0
  {
    Places(f, s) <= from < GroupPlaces(f, s, g) && !(from == Places(f, s) && HasTail(f) && LastIsFull(f))
  }

  /** `f` has no place `from` is in, and `to` does. */
  ghost predicate NotPlaced(f: File, to: File, first: nat, from: nat) {
    var left := |RecordsOf(f.find, Flatten(f.contents))| - first;
    var places := FirstRecord(f.perFrame, |f.contents|) - first;
    && places <= from < FirstRecord(to.perFrame, |to.contents|)
    && !(from == places == left && f.tailIsRecord && FragmentOf(f.find, Flatten(f.contents)) != [])
  }

  lemma RangesMove(f: File, to: File, first: nat, from: nat, cnt: nat)
    requires f.contents != [] && f.perFrame > 0 && to.contents != [] && to.perFrame > 0 && HoldsFrom(f, to, first)
    ensures FreshReply(to, CallRange(from, cnt)) == FreshReply(f, CallRange(first + from, cnt))
            <==> !NotPlaced(f, to, first, from)
  {
    RangeFrom(RecordsOf(f.find, Flatten(f.contents)), FragmentOf(f.find, Flatten(f.contents)), f.tailIsRecord,
              first, FirstRecord(f.perFrame, |f.contents|) - first, FirstRecord(to.perFrame, |to.contents|), from, cnt);
  }

  lemma NotPlacedMeans(f: File, to: File, s: nat, g: nat, first: nat, from: nat)
    requires Uniform(f.find, f.contents, f.perFrame) && s < |f.contents| && g > 0
    requires to == From(f, s, g) && first == FirstRecord(f.perFrame, s)
    ensures NotPlaced(f, to, first, from) <==> InMissingFrame(f, s, g, from)
  {
    RecordsPlaced(f);
    PlacesLeft(f, s, g);
  }

  lemma RangeFrom(whole: seq<Bytes>, rest: Bytes, tailIsRecord: bool, first: nat, places: nat, given: nat,
                  from: nat, cnt: nat)
    requires first <= |whole| && |whole| - first <= places <= given
    ensures var held := whole[first..];
            (if Placeable(held, rest, given, tailIsRecord, from) then Written(held, rest, tailIsRecord, from, cnt)
             else Err(PastTheEnd))
            == (if Placeable(whole, rest, first + places, tailIsRecord, first + from)
                then Written(whole, rest, tailIsRecord, first + from, cnt) else Err(PastTheEnd))
            <==> !(places <= from < given && !(from == places == |whole| - first && tailIsRecord && rest != []))
  {
    WrittenFrom(whole, rest, tailIsRecord, first, from, cnt);
  }

  lemma WrittenFrom(whole: seq<Bytes>, rest: Bytes, tailIsRecord: bool, first: nat, from: nat, cnt: nat)
    requires first <= |whole|
    ensures Written(whole[first..], rest, tailIsRecord, from, cnt)
            == Written(whole, rest, tailIsRecord, first + from, cnt)
    ensures Written(whole, rest, tailIsRecord, first + from, cnt) != Err(PastTheEnd)
  {
    if first + from <= |whole| {
      DropOfDrop(whole, first, from);
      if from + cnt <= |whole| - first {
        SliceOfDrop(whole, first, from, from + cnt);
      }
    }
  }

  // ---------------------------------------------------------------- the reader

  lemma SumBelowProduct(b: nat, g: nat)
    requires b >= 1 && g >= 1
    ensures b + g <= b * g + 1
  {
    assert (b - 1) * (g - 1) == b * g - b - g + 1;
  }

  lemma SquareBound(g: nat, t: nat)
    requires g >= 1 && t >= 1
    ensures g * (t + 1) * (t + 1) <= (g * t + 1) * (g * t + 1)
  {
    var a := g * t;
    assert g * (t + 1) == a + g;
    assert (a + g) * (t + 1) == a * t + a + a + g;
    assert a * a == a * t * g;
    SumBelowProduct(a * t, g);
    assert (a + 1) * (a + 1) == a * a + a + a + 1;
  }

  /** Groups no longer than the file leave the arithmetic of dividing as much room. */
  lemma GroupsStillFit(f: File, to: File, s: nat, g: nat)
    requires Fits(f.perFrame, |f.contents|) && s < |f.contents| && 0 < g <= |f.contents| - s && to == From(f, s, g)
    ensures Fits(to.perFrame, |to.contents|)
  {
    var n, q, count := f.perFrame, |to.contents|, |f.contents|;
    GroupsBegin(f.contents[s..], g, q - 1);
    GroupCountBound(g, q, count);
    FirstRecordNests(n, g, q);
    FirstRecordNests(n, FirstRecord(g, q), q);
    FirstRecordNests(n, count, count);
    FirstRecordMonotone(n, FirstRecord(FirstRecord(g, q), q), FirstRecord(count, count));
  }

  lemma GroupCountBound(g: nat, q: nat, count: nat)
    requires 0 < g <= count && q > 0 && FirstRecord(g, q - 1) < count
    ensures FirstRecord(FirstRecord(g, q), q) <= FirstRecord(count, count)
  {
    FirstRecordIsProduct(g, q);
    FirstRecordIsProduct(g, q - 1);
    FirstRecordIsProduct(g * q, q);
    FirstRecordIsProduct(count, count);
    if q > 1 {
      SquareBound(g, q - 1);
      ScaleAtMost(g * (q - 1) + 1, g * (q - 1) + 1, count);
      ScaleAtMost(count, g * (q - 1) + 1, count);
    } else {
      ScaleAtMost(count, 1, count);
    }
  }

  /** Opens the file of `reader` from frame `s`, whose longest frames were measured when it was opened
      itself. Only a frame that is not there refuses it; what is
      opened is a reader of the groups, its window guarded by the frame ends of the file. */
  method OpenFrom(reader: RecordReader, ghost f: File, table: seq<Extent>, s: nat, source: Source,
                  ghost packed: seq<Bytes>)
    returns (r: Result<RecordReader, OpenRefusal>, ghost g: nat)
    requires reader.Valid() && Opened(reader, f) && reader.OwnEnds()
    requires |packed| == |f.contents| && table == Extents(packed) && Tabled(packed) && Tabled(f.contents)
    requires source.Valid() && source.region == [] && source.at == 0
    requires s < |f.contents| ==> source.content == Flatten(f.contents[s..])
    ensures if s >= |f.contents| then r == Err(OutOfRange)
            else 0 < g <= |f.contents| - s && r.Ok? && fresh(r.value) && fresh(r.value.window) && r.value.Valid()
                 && Opened(r.value, From(f, s, g)) && r.value.frame == None && r.value.window.source == source
  {
    assert reader.Knows(FrameList);
    var maxComp, maxDecomp := MeasureBoth(table, reader.frames, packed, f.contents);
    var to;
    to, g := OpenFromFrame(table, reader.frames, s, reader.perFrame, maxComp, maxDecomp, packed, f.contents);
    if to.Err? && s >= |reader.frames| { return Err(to.error), g; }
    GroupsOpened(f, From(f, s, g), s, g);
    var reopened := new RecordReader.Sharing(reader.find, reader.tailIsRecord, to.value.perFrame, to.value.frames,
                                             source, reader.window.frameEnds, reader.frames[s].start, s,
                                             Groups(f.contents[s..], g));
    r := Ok(reopened);
  }

  /** What a reader of the groups is built from. */
  lemma GroupsOpened(f: File, to: File, s: nat, g: nat)
    requires Readable(f) && s < |f.contents| && 0 < g <= |f.contents| - s && to == From(f, s, g)
    ensures Readable(to) && FirstRecord(f.perFrame, g) <= USIZE_MAX
    ensures Extents(f.contents)[s].start == StartOf(f.contents, s)
    ensures Flatten(to.contents) == Flatten(f.contents[s..])
    ensures InOrder(NonfinalEnds(f.contents)) && s <= |NonfinalEnds(f.contents)|
    ensures NoneInside(f.find, to.contents, to.perFrame, NonfinalEnds(f.contents), StartOf(f.contents, s))
    ensures forall i :: 0 <= i < |NonfinalEnds(f.contents)| ==>
              if i < s then NonfinalEnds(f.contents)[i] <= StartOf(f.contents, s)
              else StartOf(f.contents, s) <= NonfinalEnds(f.contents)[i]
  {
    GroupsHoldFrom(f, s, g);
    GroupsStillFit(f, to, s, g);
    AllGroups(f.contents[s..], g);
    NonfinalEndsInOrder(f.contents);
    SharedEndsInside(f.find, f.contents, f.perFrame, s, g);
    SlotFits(to.perFrame, |to.contents|);
    ScaleAtMost(to.perFrame, 1, |to.contents|);
    forall i | 0 <= i < |NonfinalEnds(f.contents)|
      ensures if i < s then NonfinalEnds(f.contents)[i] <= StartOf(f.contents, s)
              else StartOf(f.contents, s) <= NonfinalEnds(f.contents)[i]
    {
      EndsPassed(f.contents, s, i);
    }
  }

  /** After any history of calls, a reader of the groups answers for a whole record what a fresh reader
      of the file answers for it in the file's own numbering. */
  lemma WholeRecordsRenumbered(f: File, to: File, s: nat, g: nat, first: nat, calls: seq<Call>, j: nat, i: nat)
    requires Uniform(f.find, f.contents, f.perFrame) && s < |f.contents| && g > 0
    requires to == From(f, s, g) && first == FirstRecord(f.perFrame, s)
    requires j < |calls| && calls[j] == CallRecord(i) && first + i < |RecordsOf(f.find, Flatten(f.contents))|
    ensures to.perFrame > 0 && to.contents != [] && j < |Replies(to, false, calls)|
    ensures Replies(to, false, calls)[j] == FreshReply(f, CallRecord(first + i))
  {
    WholeIsElsewhere(f, to, s, g, first, i);
    RecordRenumbered(f, to, s, g, first, i);
    HistoryIsFreshIff(to, false, calls, j);
  }

  lemma WholeIsElsewhere(f: File, to: File, s: nat, g: nat, first: nat, i: nat)
    requires Uniform(f.find, f.contents, f.perFrame) && s < |f.contents| && g > 0
    requires to == From(f, s, g) && first == FirstRecord(f.perFrame, s)
    requires first + i < |RecordsOf(f.find, Flatten(f.contents))|
    ensures to.perFrame > 0 && to.contents != []
    ensures !AsksForTail(to, CallRecord(i)) && !SlotOnlyInGroups(f, s, g, i)
  {
    GroupsHoldFrom(f, s, g);
    MisplacedMeans(f, to, s, g, first, i);
    WholeIsNotTail(to, i);
  }

  lemma WholeIsNotTail(f: File, i: nat)
    requires Uniform(f.find, f.contents, f.perFrame) && i < |RecordsOf(f.find, Flatten(f.contents))|
    ensures !AsksForTail(f, CallRecord(i))
  {
    var last := |f.contents| - 1;
    Divided(i, f.perFrame);
    FrameRecords(f.find, f.contents, f.perFrame, last);
  }
}
