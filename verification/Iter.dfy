/** Every record of a reader from either end (`RecordIter` of src/reader.rs): two directions over one
    window, which a reverse read takes from the forward one. */
module Iter {
  import opened Bytes
  import opened Seqs
  import opened Records
  import opened Frames
  import opened Window
  import opened Cursor
  import opened Placement
  import opened Ranges
  import opened Reader

  // ---------------------------------------------------------------- what an iterator hands out

  datatype Turn = Forward | Backward

  /** Where an iterator is: records `front` up to `back` are left. `counted` says a reverse read has
      counted a frame. `missed` says the window it was given stands past the only, unterminated
      record of the last frame, which a reverse read then does not see. `Late` began at or past the
      end. */
  datatype Journey =
    | Done
    | Late(over: bool, missed: bool)
    | At(front: nat, back: nat, counted: bool, missed: bool)

  datatype Moved = Moved(answer: Answer, journey: Journey)

  /** The two ends, each taking from its own side of what is left. `bad` is a finder's unfinished
      last record, which either direction refuses when it comes to it. */
  function Step(all: seq<Bytes>, bad: bool, start: Answer, j: Journey, turn: Turn): Moved
    requires j.At? ==> j.back <= |all|
  {
    match j
    case Done => Moved(Nothing, Done)
    case Late(over, missed) =>
      if turn == Forward then Moved(start, Done)
      else if bad then Moved(Failed(IncompleteFinalRecord), Done)
      else Moved(if over || missed then start else Nothing, Done)
    case At(front, back, counted, missed) =>
      if turn == Forward then
        if front < back then Moved(Piece(all[front]), At(front + 1, back, counted, false))
        else if counted then Moved(Nothing, j)
        else Moved(if bad then Failed(IncompleteFinalRecord) else Nothing, Done)
      else if bad && !counted then Moved(Failed(IncompleteFinalRecord), Done)
      else
        var upto := if missed then back - 1 else back;
        if front < upto then Moved(Piece(all[upto - 1]), At(front, upto - 1, true, false))
        else Moved(Nothing, Done)
  }

  /** One backward step, by what it finds and leaves. */
  lemma StepsBack(all: seq<Bytes>, bad: bool, start: Answer, late: bool, front: nat, back: nat, counted: bool,
                  missed: bool, a: Answer, spent: bool, later: nat)
    requires back <= |all| && (missed ==> 0 < back && !counted) && (late ==> back <= front && !counted)
    requires !counted && bad ==> spent && a == Failed(IncompleteFinalRecord)
    requires !(!counted && bad) && late && (front > |all| || missed) ==> spent && a == start
    requires !(!counted && bad) && !(late && (front > |all| || missed)) ==>
               var upto := if missed then back - 1 else back;
               if front < upto then !spent && later == upto - 1 < |all| && a == Piece(all[later])
               else spent && a == Nothing
    ensures Moved(a, if spent then Done else At(front, later, true, false))
            == Step(all, bad, start, if late then Late(front > |all|, missed) else At(front, back, counted, missed),
                    Backward)
  {
  }

  /** What a forward read meets at `at`, pointed at a frame at or before it. */
  function Ahead(whole: seq<Bytes>, rest: Bytes, tailIsRecord: bool, at: nat): Answer {
    if at < |whole| then Piece(whole[at])
    else if at > |whole| then Failed(SkipRanOut)
    else if rest == [] then Nothing
    else if tailIsRecord then Piece(rest)
    else Failed(IncompleteFinalRecord)
  }

  predicate Unfinished(rest: Bytes, tailIsRecord: bool) {
    rest != [] && !tailIsRecord
  }

  lemma AheadIsNext(whole: seq<Bytes>, rest: Bytes, tailIsRecord: bool, all: seq<Bytes>, at: nat)
    requires all == AllRecords(whole, rest, tailIsRecord)
    ensures at < |all| ==> Ahead(whole, rest, tailIsRecord, at) == Piece(all[at])
    ensures at >= |all| ==> !Ahead(whole, rest, tailIsRecord, at).Piece?
    ensures at == |all| && at <= |whole| ==>
              Ahead(whole, rest, tailIsRecord, at) ==
              if Unfinished(rest, tailIsRecord) then Failed(IncompleteFinalRecord) else Nothing
    ensures |whole| <= |all| <= |whole| + 1
    ensures rest != [] && Unfinished(rest, tailIsRecord) ==> |all| == |whole|
    ensures rest != [] && !Unfinished(rest, tailIsRecord) ==> |all| == |whole| + 1
  {
  }

  // ---------------------------------------------------------------- frames, counted from the back

  function BackTail(contents: seq<Bytes>, tailIsRecord: bool, k: nat): Tail {
    if tailIsRecord && k + 1 == |contents| then AsRecord else Ignored
  }

  /** How many units frame `k` hands out. */
  function UnitsOf(find: Finder, contents: seq<Bytes>, tailIsRecord: bool, k: nat): nat
    requires k < |contents|
  {
    |RecordsOf(find, contents[k])| + TailUnits(FragmentOf(find, contents[k]), BackTail(contents, tailIsRecord, k))
  }

  /** Where frame `k` ends, counted in records. */
  function UpTo(total: nat, n: nat, f: nat, k: nat): nat {
    if k + 1 == f then total else FirstRecord(n, k + 1)
  }

  /** The units of a frame are the records of the file from its first on. */
  lemma UnitsAreRecords(find: Finder, contents: seq<Bytes>, n: nat, tailIsRecord: bool, k: nat,
                        whole: seq<Bytes>, rest: Bytes, total: nat)
    requires Uniform(find, contents, n) && k < |contents|
    requires whole == RecordsOf(find, Flatten(contents)) && rest == FragmentOf(find, Flatten(contents))
    requires total == |AllRecords(whole, rest, tailIsRecord)|
    ensures FirstRecord(n, k) + UnitsOf(find, contents, tailIsRecord, k) == UpTo(total, n, |contents|, k) <= total
  {
    FrameRecords(find, contents, n, k);
  }

  lemma UnitIsRecord(find: Finder, contents: seq<Bytes>, n: nat, tailIsRecord: bool, k: nat,
                     whole: seq<Bytes>, rest: Bytes, all: seq<Bytes>, j: nat)
    requires Uniform(find, contents, n) && k < |contents|
    requires whole == RecordsOf(find, Flatten(contents)) && rest == FragmentOf(find, Flatten(contents))
    requires all == AllRecords(whole, rest, tailIsRecord)
    requires j < UnitsOf(find, contents, tailIsRecord, k)
    ensures FirstRecord(n, k) + j < |all|
    ensures FrameAnswer(find, contents[k], j, BackTail(contents, tailIsRecord, k)) == Piece(all[FirstRecord(n, k) + j])
  {
    UnitsAreRecords(find, contents, n, tailIsRecord, k, whole, rest, |all|);
    if j < |RecordsOf(find, contents[k])| {
      InFrame(find, contents, n, k, j);
    } else {
      FrameRecords(find, contents, n, k);
    }
  }

  /** Counting a frame counts its units, but for the unfinished last record of the file. */
  lemma CountIsUnits(find: Finder, contents: seq<Bytes>, tailIsRecord: bool, k: nat, rest: Bytes, tail: Tail)
    requires k < |contents| && FragmentOf(find, contents[k]) == if k + 1 == |contents| then rest else []
    requires tail == if k + 1 != |contents| then Ignored else if tailIsRecord then AsRecord else AsError
    ensures k + 1 == |contents| && Unfinished(rest, tailIsRecord) ==>
              UnitCount(find, contents[k], tail) == Err(IncompleteFinalRecord)
    ensures !(k + 1 == |contents| && Unfinished(rest, tailIsRecord)) ==>
              UnitCount(find, contents[k], tail) == Ok(UnitsOf(find, contents, tailIsRecord, k))
  {
  }

  lemma FrameRest(find: Finder, contents: seq<Bytes>, n: nat, k: nat)
    requires Uniform(find, contents, n) && k < |contents|
    ensures FragmentOf(find, contents[k]) == if k + 1 == |contents| then FragmentOf(find, Flatten(contents)) else []
  {
    FrameRecords(find, contents, n, k);
  }

  /** Walking everything from frame `k` on meets the records of the file from its first on. */
  lemma SpanIsAhead(find: Finder, contents: seq<Bytes>, n: nat, tailIsRecord: bool, k: nat, region: Bytes,
                    whole: seq<Bytes>, rest: Bytes, i: nat)
    requires Uniform(find, contents, n) && k < |contents| && region == Flatten(contents[k..])
    requires whole == RecordsOf(find, Flatten(contents)) && rest == FragmentOf(find, Flatten(contents))
    ensures var bounds := Bounds(find, region);
            && FirstRecord(n, k) + |bounds| == |whole| + 1
            && Cut(region, bounds[|bounds| - 1], |region|) == rest
            && UnitAnswer(region, bounds, rest, i, true, if tailIsRecord then AsRecord else AsError)
               == Ahead(whole, rest, tailIsRecord, FirstRecord(n, k) + i)
  {
    UniformPrefix(find, contents, n, k);
    SplitAtFrame(find, contents, n, k);
    RestIsFragment(find, region);
    RegionIsAhead(find, region, whole, rest, tailIsRecord, FirstRecord(n, k), i);
  }

  /** Walking a region that holds the records from `first` on, and then `rest`. */
  lemma RegionIsAhead(find: Finder, region: Bytes, whole: seq<Bytes>, rest: Bytes, tailIsRecord: bool, first: nat,
                      i: nat)
    requires first <= |whole| && RecordsOf(find, region) == whole[first..]
    ensures |Bounds(find, region)| == |whole| - first + 1
    ensures UnitAnswer(region, Bounds(find, region), rest, i, true, if tailIsRecord then AsRecord else AsError)
            == Ahead(whole, rest, tailIsRecord, first + i)
  {
    AnswerIsRecord(find, region, rest, i, true, if tailIsRecord then AsRecord else AsError);
  }

  lemma RecordsFit(find: Finder, contents: seq<Bytes>, n: nat)
    requires Uniform(find, contents, n) && Fits(n, |contents|)
    ensures |RecordsOf(find, Flatten(contents))| <= FirstRecord(n, |contents|) <= USIZE_MAX
  {
    FrameRecords(find, contents, n, |contents| - 1);
    AllFit(n, |contents|);
  }

  // ---------------------------------------------------------------- the iterator

  datatype Known = TheRecords | Framing

  class RecordIter {
    const reader: RecordReader
    const cursor: Cursor
    /** The index a forward call answers with. */
    var front: nat
    /** The frame backward calls take their records from. */
    var backFrame: nat
    /** How many of its records are still theirs to take; unknown until it was counted. */
    var backLeft: Option<nat>
    /** Whether the window stands ready for forward calls. */
    var armed: bool
    var spent: bool

    /** The records of the file, and what a forward read that begins past them meets. */
    ghost const whole: seq<Bytes>
    ghost const rest: Bytes
    ghost const all: seq<Bytes>
    ghost const late: bool
    ghost const start: Answer
    /** The frame an armed walk was pointed at. */
    ghost var base: nat

    ghost predicate Knows(known: Known) {
      match known
      case TheRecords =>
        && whole == RecordsOf(reader.find, Flatten(reader.contents))
        && rest == FragmentOf(reader.find, Flatten(reader.contents))
        && all == AllRecords(whole, rest, reader.tailIsRecord)
      case Framing => Uniform(reader.find, reader.contents, reader.perFrame)
                      && Fits(reader.perFrame, |reader.contents|)
    }

    ghost predicate Built() {
      && reader.Built() && (forall known :: Knows(known))
      && cursor.skipWhole && cursor.tail == (if reader.tailIsRecord then AsRecord else AsError)
    }

    ghost function Last(): nat
      requires reader.Built()
    {
      |reader.contents| - 1
    }

    /** The first record a reverse read has handed out already. */
    ghost function Back(): nat
      requires reader.Built()
      reads this
    {
      match backLeft
      case Some(left) => FirstRecord(reader.perFrame, backFrame) + left
      case None => UpTo(|all|, reader.perFrame, |reader.contents|, backFrame)
    }

    ghost predicate Armed()
      requires reader.window.walked < |reader.window.bounds|
      reads this, cursor, reader, reader.window, reader.window.source
    {
      && reader.frame == None && reader.OnSpan(base) && !late
      && if cursor.spent then front == |all| && !Bad()
         else !reader.window.TailTaken() && front <= |whole|
              && FirstRecord(reader.perFrame, base) + reader.window.walked + cursor.skip == front
    }

    /** A reverse read standing past the unterminated record has handed it out. */
    ghost predicate TailIsBehind()
      requires reader.Built() && reader.window.walked < |reader.window.bounds|
      reads this, reader, reader.window
    {
      reader.StandsPastTail() && backLeft.Some? && backFrame == Last() ==>
        backLeft.value <= |RecordsOf(reader.find, reader.contents[Last()])|
    }

    ghost predicate InBounds()
      requires reader.Built()
      reads this
    {
      && backFrame <= Last()
      && (backLeft.Some? ==>
            backLeft.value <= UnitsOf(reader.find, reader.contents, reader.tailIsRecord, backFrame))
      && (late ==> !armed && |all| <= front <= USIZE_MAX && start == StartAnswer(front))
      && (!late ==> front <= Back())
    }

    ghost predicate Alive()
      requires Built()
      reads this, cursor, reader, reader.window, reader.window.source
    {
      && reader.Valid() && InBounds() && TailIsBehind()
      && (armed ==> Armed())
      && (Missed() && !late ==> front < |all|)
    }

    /** Between calls: a reverse read is only ever left in a frame it has counted. */
    ghost predicate Settled()
      requires reader.Built()
      reads this
    {
      && (backLeft == None ==> backFrame == Last())
      && (late ==> backLeft == None)
      && (!late ==> armed || backLeft.Some? || front < |all|)
    }

    ghost predicate Valid()
      reads this, cursor, reader, reader.window, reader.window.source
    {
      && Built()
      && (!spent ==> Alive() && Settled())
    }

    ghost predicate Missed()
      requires reader.Built() && reader.window.walked < |reader.window.bounds|
      reads this, reader, reader.window
    {
      && backLeft == None && backFrame == Last() && reader.StandsPastTail()
      && RecordsOf(reader.find, reader.contents[Last()]) == []
    }

    ghost function Where(): Journey
      requires Valid()
      reads this, cursor, reader, reader.window, reader.window.source
    {
      if spent then Done
      else if late then Late(front > |all|, Missed())
      else At(front, Back(), backLeft.Some?, Missed())
    }

    /** Nothing is left that the file does not hold. */
    lemma WithinFile()
      requires Valid()
      ensures Within(all, Where())
    {
      if !spent { BackWithin(); }
    }

    ghost predicate Bad() {
      Unfinished(rest, reader.tailIsRecord)
    }

    constructor (reader: RecordReader, from: nat)
      requires reader.Valid() && from <= USIZE_MAX
      requires Uniform(reader.find, reader.contents, reader.perFrame)
      requires Fits(reader.perFrame, |reader.contents|)
      ensures Valid() && !spent && fresh(cursor)
      ensures this.reader == reader && front == from
      ensures late == (from >= |all|) && start == StartAnswer(from)
      ensures !late ==> Where() == At(from, |all|, false, Missed())
    {
      var data := Flatten(reader.contents);
      this.reader := reader;
      cursor := new Cursor(0, true, if reader.tailIsRecord then AsRecord else AsError);
      front, backFrame, backLeft := from, |reader.frames| - 1, None;
      armed, spent, base := false, false, 0;
      whole, rest := RecordsOf(reader.find, data), FragmentOf(reader.find, data);
      all := AllRecords(RecordsOf(reader.find, data), FragmentOf(reader.find, data), reader.tailIsRecord);
      late := from >= |AllRecords(RecordsOf(reader.find, data), FragmentOf(reader.find, data), reader.tailIsRecord)|;
      start := if reader.BeginsPast(from) then Failed(PastTheEnd)
               else Ahead(RecordsOf(reader.find, data), FragmentOf(reader.find, data), reader.tailIsRecord, from);
      new;
      assert Knows(TheRecords) && Knows(Framing);
    }

    /** What a forward read that begins at `at` meets first. */
    ghost function StartAnswer(at: nat): Answer
      requires reader.Built()
    {
      if reader.BeginsPast(at) then Failed(PastTheEnd) else Ahead(whole, rest, reader.tailIsRecord, at)
    }

    // ------------------------------------------------------------ forward

    /** The cursor is on its way to `front`. */
    ghost predicate OnTheWay()
      requires reader.window.walked < |reader.window.bounds|
      reads this, cursor, reader, reader.window, reader.window.source
    {
      && reader.frame == None && reader.OnSpan(base)
      && !cursor.spent && !reader.window.TailTaken()
      && FirstRecord(reader.perFrame, base) + reader.window.walked + cursor.skip == front
    }

    /** Makes the window ready for forward calls. */
    method Arm() returns (failed: bool)
      requires Built() && reader.Valid() && front <= USIZE_MAX
      modifies this`armed, this`base, cursor, reader, reader.window, reader.window.source
      ensures failed <==> reader.BeginsPast(front)
      ensures !failed ==> armed && reader.Valid() && OnTheWay()
    {
      assert Knows(Framing);
      var req, k := reader.PositionIter(front);
      if req.Err? { return true; }
      cursor.skip, cursor.spent := req.value.skip, false;
      base, armed := k, true;
      return false;
    }

    method Ask() returns (a: Answer)
      requires Built() && reader.Valid() && OnTheWay()
      modifies cursor, reader.window, reader.window.source
      ensures reader.Valid() && reader.frame == None && reader.OnSpan(base)
      ensures a == Ahead(whole, rest, reader.tailIsRecord, front)
      ensures !cursor.spent ==> && front < |whole| && !reader.window.TailTaken()
                                && FirstRecord(reader.perFrame, base) + reader.window.walked + cursor.skip == front + 1
      ensures cursor.spent ==> front >= |whole|
    {
      AheadOf(reader.window.region, reader.window.bounds, reader.window.RestOf(), reader.window.walked + cursor.skip,
              front);
      a := cursor.Next(reader.window, reader.find);
    }

    /** What record `i` of the span from frame `base` on is to the file. */
    lemma AheadOf(region: Bytes, bounds: seq<nat>, left: Bytes, i: nat, at: nat)
      requires Built() && base < |reader.contents| && region == Flatten(reader.contents[base..])
      requires bounds == Bounds(reader.find, region) && left == Cut(region, bounds[|bounds| - 1], |region|)
      requires at == FirstRecord(reader.perFrame, base) + i
      ensures FirstRecord(reader.perFrame, base) + |bounds| == |whole| + 1
      ensures UnitAnswer(region, bounds, left, i, true, if reader.tailIsRecord then AsRecord else AsError)
              == Ahead(whole, rest, reader.tailIsRecord, at)
    {
      assert Knows(Framing) && Knows(TheRecords);
      SpanIsAhead(reader.find, reader.contents, reader.perFrame, reader.tailIsRecord, base, region, whole, rest, i);
    }

    lemma BackWithin()
      requires Built() && InBounds()
      ensures Back() <= |all|
    {
      assert Knows(Framing) && Knows(TheRecords);
      UnitsAreRecords(reader.find, reader.contents, reader.perFrame, reader.tailIsRecord, backFrame, whole, rest,
                      |all|);
    }

    /** A forward read can begin at every record there is. */
    lemma CanBegin()
      requires Built() && front < |all|
      ensures front <= USIZE_MAX && !reader.BeginsPast(front)
    {
      assert Knows(Framing) && Knows(TheRecords);
      RecordsFit(reader.find, reader.contents, reader.perFrame);
      RecordsArePlaceable(reader.find, reader.contents, reader.perFrame, reader.tailIsRecord, front);
      FirstRecordIsProduct(reader.perFrame, |reader.contents|);
      DividedBelow(front, reader.perFrame, |reader.contents|);
      SlotIsTail(reader.find, reader.contents, reader.perFrame);
    }

    /** Whether the two ends have come together. */
    predicate Met()
      requires reader.Built()
      reads this
      ensures Met() <==> backLeft.Some? && front >= Back()
    {
      match backLeft
      case Some(left) =>
        FirstRecordIsProduct(reader.perFrame, backFrame);
        front >= backFrame * reader.perFrame + left
      case None => false
    }

    method Next() returns (a: Answer)
      requires Valid()
      modifies this`front, this`spent, this`armed, this`base
      modifies cursor, reader, reader.window, reader.window.source
      ensures Valid()
      ensures old(Where()).At? ==> old(Where()).back <= |all|
      ensures Moved(a, Where()) == Step(all, Bad(), start, old(Where()), Forward)
    {
      if spent { return Nothing; }
      BackWithin();
      if Met() { return Nothing; }
      a := TakeNext();
    }

    /** One record of the walk, which is pointed first where it has not been. */
    method TakeNext() returns (a: Answer)
      requires Valid() && !spent && !Met()
      modifies this`front, this`spent, this`armed, this`base
      modifies cursor, reader, reader.window, reader.window.source
      ensures Valid()
      ensures late ==> spent && a == start
      ensures !late && old(front) < |all| ==>
                !spent && front == old(front) + 1 && a == Piece(all[old(front)]) && !Missed()
      ensures !late && old(front) >= |all| ==> spent && a == if Bad() then Failed(IncompleteFinalRecord) else Nothing
    {
      BackWithin();
      if armed {
        a := Proceed();
      } else {
        a := Begin();
      }
    }

    /** One record of a walk that has to be pointed first. */
    method Begin() returns (a: Answer)
      requires Built() && !spent && !armed && reader.Valid()
      requires late ==> |all| <= front <= USIZE_MAX && start == StartAnswer(front)
      requires !late ==> front < |all|
      modifies this`front, this`spent, this`armed, this`base, cursor, reader, reader.window, reader.window.source
      ensures late ==> spent && a == start
      ensures !late ==> armed && !spent && reader.Valid() && Armed()
      ensures !late ==> front == old(front) + 1 && a == Piece(all[old(front)])
    {
      if !late { CanBegin(); }
      var failed := Arm();
      if failed {
        spent := true;
        return Failed(PastTheEnd);
      }
      assert !late ==> front <= |whole| by { assert Knows(TheRecords); }
      a := Proceed();
    }

    /** One record of an armed walk. */
    method Proceed() returns (a: Answer)
      requires Built() && !spent && armed && reader.Valid() && (if late then OnTheWay() else Armed())
      requires late ==> front >= |all| && start == Ahead(whole, rest, reader.tailIsRecord, front)
      requires !late ==> front <= |all|
      modifies this`front, this`spent, cursor, reader.window, reader.window.source
      ensures late ==> spent && a == start
      ensures !late && old(front) < |all| ==> !spent && reader.Valid() && Armed()
                                              && front == old(front) + 1 && a == Piece(all[old(front)])
      ensures !late && old(front) == |all| ==> spent && a == if Bad() then Failed(IncompleteFinalRecord) else Nothing
    {
      assert Knows(TheRecords);
      AheadIsNext(whole, rest, reader.tailIsRecord, all, front);
      if cursor.spent {
        spent := true;
        return Nothing;
      }
      a := Ask();
      if a.Piece? {
        front := front + 1;
      } else {
        spent := true;
      }
    }

    // ------------------------------------------------------------ backward

    /** A reverse read that misses the unterminated record sees one record fewer. */
    lemma MissedIsTail()
      requires Built() && Alive() && Missed()
      ensures Back() == |all| == FirstRecord(reader.perFrame, Last()) + 1 && !Bad()
    {
      assert Knows(Framing) && Knows(TheRecords);
      reader.StandingMeans();
      FrameRecords(reader.find, reader.contents, reader.perFrame, Last());
    }

    /** The records a reverse read has before it. */
    ghost function Upto(): int
      requires reader.Built() && reader.window.walked < |reader.window.bounds|
      reads this, reader, reader.window
    {
      if Missed() then Back() - 1 else Back()
    }

    /** The index of a record of the frame a reverse read is in. */
    method IndexOf(inFrame: nat) returns (index: nat)
      requires reader.Built()
      ensures index == FirstRecord(reader.perFrame, backFrame) + inFrame
    {
      FirstRecordIsProduct(reader.perFrame, backFrame);
      index := backFrame * reader.perFrame + inFrame;
    }

    /** An iterator that began past the end fails the same way in either direction. */
    method Overrun() returns (a: Answer)
      requires Valid() && !spent && late
      modifies this`front, this`spent, this`armed, this`base
      modifies cursor, reader, reader.window, reader.window.source
      ensures Built() && spent && a == start
    {
      a := Next();
    }

    /** How many records the frame a reverse read is in still has for it. */
    method CountHere() returns (count: Result<nat, ReadError>)
      requires Built() && Alive() && !armed && backLeft == None
      modifies reader, reader.window, reader.window.source
      ensures reader.Valid() && reader.frame == None
      ensures count == if backFrame == Last() && Bad() then Err(IncompleteFinalRecord)
                       else if old(Missed()) then Ok(0)
                       else Ok(UnitsOf(reader.find, reader.contents, reader.tailIsRecord, backFrame))
    {
      if Missed() { MissedIsTail(); }
      if reader.StandsPastTail() { reader.StandingMeans(); }
      assert Knows(Framing) && Knows(TheRecords);
      FrameRest(reader.find, reader.contents, reader.perFrame, backFrame);
      UniformIsNotTorn(reader.find, reader.contents, reader.perFrame, backFrame);
      var tail := if backFrame != |reader.frames| - 1 then Ignored else cursor.tail;
      CountIsUnits(reader.find, reader.contents, reader.tailIsRecord, backFrame, rest, tail);
      count := reader.CountUnitsOf(backFrame, tail);
    }

    lemma CountedIsUpto(count: nat)
      requires Built() && Alive() && backLeft == None
      requires count == if Missed() then 0
                        else UnitsOf(reader.find, reader.contents, reader.tailIsRecord, backFrame)
      ensures FirstRecord(reader.perFrame, backFrame) + count == Upto()
      ensures backFrame == Last() ==> Upto() == if Missed() then |all| - 1 else |all|
      ensures count <= UnitsOf(reader.find, reader.contents, reader.tailIsRecord, backFrame)
    {
      if Missed() { MissedIsTail(); }
      BackWithin();
      assert Knows(Framing) && Knows(TheRecords);
      UnitsAreRecords(reader.find, reader.contents, reader.perFrame, reader.tailIsRecord, backFrame, whole, rest,
                      |all|);
    }

    /** Whether the forward read began past what the frame a reverse read counted first holds. */
    lemma OverrunMeans(end: nat)
      requires Built() && Alive() && backLeft == None && backFrame == Last()
      requires end == Upto() == if Missed() then |all| - 1 else |all|
      ensures front > end <==> late && (front > |all| || Missed())
    {
      BackWithin();
    }

    /** Counts the frame a reverse read is in; an answer where that settles the read. */
    method CountBack() returns (final: Option<Answer>)
      requires Built() && Alive() && !spent && !armed && backLeft == None
      modifies this`front, this`spent, this`armed, this`base, this`backLeft
      modifies cursor, reader, reader.window, reader.window.source
      ensures Built()
      ensures final.Some? <==> backFrame == Last() && (Bad() || (late && (old(front) > |all| || old(Missed()))))
      ensures final.Some? ==> spent && final.value == if Bad() then Failed(IncompleteFinalRecord) else start
      ensures final.None? ==> && Alive() && !spent && !armed && backLeft.Some?
                              && front == old(front) && Back() == old(Upto())
    {
      ghost var expected: nat := if Missed() then 0
                            else UnitsOf(reader.find, reader.contents, reader.tailIsRecord, backFrame);
      CountedIsUpto(expected);
      if backFrame == Last() { OverrunMeans(Upto()); }
      var count := CountHere();
      if count.Err? {
        spent := true;
        return Some(Failed(count.error));
      }
      var end := IndexOf(count.value);
      if backFrame == |reader.frames| - 1 && front > end {
        assert late;
        var a := Overrun();
        return Some(a);
      }
      backLeft := Some(count.value);
      return None;
    }

    /** The frame a reverse read is in holds the record before the ones handed out. */
    lemma BackIsHeld(index: nat)
      requires Built() && Alive() && backLeft == Some(index + 1)
      ensures var content := reader.contents[backFrame];
              var tail := BackTail(reader.contents, reader.tailIsRecord, backFrame);
              && !Torn(reader.find, reader.contents, backFrame)
              && index < |RecordsOf(reader.find, content)| + TailUnits(FragmentOf(reader.find, content), tail)
              && (index == |RecordsOf(reader.find, content)| ==>
                    !(reader.frame == Some(backFrame) && reader.StandsPastTail()))
              && FirstRecord(reader.perFrame, backFrame) + index < |all|
              && FrameAnswer(reader.find, content, index, tail)
                 == Piece(all[FirstRecord(reader.perFrame, backFrame) + index])
    {
      if reader.StandsPastTail() { reader.StandingMeans(); }
      assert Knows(Framing) && Knows(TheRecords);
      UniformIsNotTorn(reader.find, reader.contents, reader.perFrame, backFrame);
      UnitIsRecord(reader.find, reader.contents, reader.perFrame, reader.tailIsRecord, backFrame, whole, rest, all,
                   index);
    }

    /** The last record left of the frame a reverse read is in. */
    method FetchBack(index: nat) returns (a: Answer)
      requires Built() && Alive() && !spent && !armed && backLeft == Some(index + 1) && front < Back()
      modifies this`backLeft, reader, reader.window, reader.window.source
      ensures Alive() && !spent && !armed && backLeft == Some(index)
      ensures Back() == old(Back()) - 1 < |all| && a == Piece(all[Back()])
    {
      BackIsHeld(index);
      var tail := if reader.tailIsRecord && backFrame == |reader.frames| - 1 then AsRecord else Ignored;
      a := reader.Fetch(backFrame, index, tail);
      backLeft := Some(index);
    }

    /** Goes on to the frame before as long as nothing is left of the one a reverse read is in;
        `false` at the front of the file. */
    method Descend() returns (found: bool)
      requires Built() && Alive() && !spent && !armed && backLeft.Some?
      modifies this, cursor, reader, reader.window, reader.window.source
      ensures Built()
      ensures front == old(front) && (!found ==> spent && old(Back()) == 0)
      ensures found ==> Alive() && !spent && !armed
      ensures found ==> backLeft.Some? && backLeft.value > 0 && Back() == old(Back())
    {
      while backLeft == Some(0)
        invariant Built() && Alive() && !spent && !armed && backLeft.Some?
        invariant front == old(front) && Back() == old(Back())
        decreases backFrame
      {
        if backFrame == 0 {
          spent := true;
          return false;
        }
        Uncount();
        var final := CountBack();
      }
      return true;
    }

    method Uncount()
      requires Built() && Alive() && !spent && !armed && backLeft == Some(0) && backFrame > 0
      modifies this`backFrame, this`backLeft
      ensures Alive() && backLeft == None && backFrame == old(backFrame) - 1 && backFrame != Last()
      ensures Back() == old(Back()) && (late ==> front == old(front))
    {
      backFrame, backLeft := backFrame - 1, None;
    }

    /** The last record left, the frame it is in counted. */
    method TakeBack() returns (a: Answer)
      requires Built() && Alive() && !spent && !armed && backLeft.Some?
      modifies this, cursor, reader, reader.window, reader.window.source
      ensures Built() && front == old(front)
      ensures old(front < Back()) ==> && Alive() && !spent && !armed && backLeft.Some?
                                      && Back() == old(Back()) - 1 < |all| && a == Piece(all[Back()])
      ensures old(front >= Back()) ==> spent && a == Nothing
    {
      var found := Descend();
      if !found { return Nothing; }
      var index := IndexOf(backLeft.value - 1);
      if index < front {
        spent := true;
        return Nothing;
      }
      a := FetchBack(backLeft.value - 1);
    }

    method NextBack() returns (a: Answer)
      requires Valid()
      modifies this, cursor, reader, reader.window, reader.window.source
      ensures Valid()
      ensures old(Where()).At? ==> old(Where()).back <= |all|
      ensures Moved(a, Where()) == Step(all, Bad(), start, old(Where()), Backward)
    {
      if spent { return Nothing; }
      BackWithin();
      if Missed() { MissedIsTail(); }
      ghost var missed, back, counted := Missed(), Back(), backLeft.Some?;
      a := TakePrevious();
      StepsBack(all, Bad(), start, late, old(front), back, counted, missed, a, spent, Back());
    }

    /** Whether an iterator that began past the end was met by a reverse read. */
    ghost predicate Overran()
      requires reader.Built() && reader.window.walked < |reader.window.bounds|
      reads this, reader, reader.window
    {
      backLeft == None && late && (front > |all| || Missed())
    }

    /** One record of the reverse read, the frame it is in counted where it has not been. */
    method TakePrevious() returns (a: Answer)
      requires Valid() && !spent
      modifies this, cursor, reader, reader.window, reader.window.source
      ensures Valid() && (spent || (front == old(front) && backLeft.Some?))
      ensures old(backLeft == None) && Bad() ==> spent && a == Failed(IncompleteFinalRecord)
      ensures !(old(backLeft == None) && Bad()) && old(Overran()) ==> spent && a == start
      ensures !(old(backLeft == None) && Bad()) && !old(Overran()) ==>
                if old(front < Upto()) then !spent && Back() == old(Upto()) - 1 < |all| && a == Piece(all[Back()])
                else spent && a == Nothing
    {
      armed := false;
      if backLeft == None {
        var final := CountBack();
        if final.Some? { return final.value; }
      }
      a := TakeBack();
    }
  }

  // ---------------------------------------------------------------- any schedule of calls

  ghost predicate Within(all: seq<Bytes>, j: Journey) {
    j.At? ==> j.back <= |all|
  }

  /** The answers to a schedule of calls. */
  function Answers(all: seq<Bytes>, bad: bool, start: Answer, j: Journey, turns: seq<Turn>): seq<Answer>
    requires Within(all, j)
    decreases |turns|
  {
    if turns == [] then []
    else
      var moved := Step(all, bad, start, j, turns[0]);
      [moved.answer] + Answers(all, bad, start, moved.journey, turns[1..])
  }

  /** The records a schedule handed out on the calls of one direction. */
  function Taken(turns: seq<Turn>, answers: seq<Answer>, turn: Turn): seq<Bytes>
    requires |turns| == |answers|
    decreases |turns|
  {
    if turns == [] then []
    else
      (if turns[0] == turn && answers[0].Piece? then [answers[0].bytes] else [])
      + Taken(turns[1..], answers[1..], turn)
  }

  function Reversed(s: seq<Bytes>): seq<Bytes> {
    if s == [] then [] else [s[|s| - 1]] + Reversed(s[..|s| - 1])
  }

  method Play(iter: RecordIter, turns: seq<Turn>) returns (answers: seq<Answer>)
    requires iter.Valid()
    modifies iter, iter.cursor, iter.reader, iter.reader.window, iter.reader.window.source
    ensures iter.Valid() && old(Within(iter.all, iter.Where()))
    ensures answers == Answers(iter.all, iter.Bad(), iter.start, old(iter.Where()), turns)
    decreases |turns|
  {
    iter.WithinFile();
    if turns == [] { return []; }
    var first;
    if turns[0] == Forward {
      first := iter.Next();
    } else {
      first := iter.NextBack();
    }
    iter.WithinFile();
    var later := Play(iter, turns[1..]);
    return [first] + later;
  }

  lemma TakenStep(turns: seq<Turn>, first: Answer, later: seq<Answer>, turn: Turn)
    requires turns != [] && |turns| == |later| + 1
    ensures Taken(turns, [first] + later, turn) ==
            (if turns[0] == turn && first.Piece? then [first.bytes] else []) + Taken(turns[1..], later, turn)
  {
    assert ([first] + later)[1..] == later;
  }

  /** Nothing is handed out once an iterator is done or its two directions have met. */
  lemma {:induction false} NothingMore(all: seq<Bytes>, start: Answer, j: Journey, turns: seq<Turn>)
    requires Within(all, j) && (j == Done || (j.At? && !j.missed && j.front == j.back))
    ensures var answers := Answers(all, false, start, j, turns);
            && |answers| == |turns|
            && (forall i :: 0 <= i < |turns| ==> answers[i] == Nothing)
            && Taken(turns, answers, Forward) == [] && Taken(turns, answers, Backward) == []
    decreases |turns|
  {
    if turns != [] {
      var moved := Step(all, false, start, j, turns[0]);
      NothingMore(all, start, moved.journey, turns[1..]);
      var later := Answers(all, false, start, moved.journey, turns[1..]);
      TakenStep(turns, moved.answer, later, Forward);
      TakenStep(turns, moved.answer, later, Backward);
    }
  }

  lemma ReversedCons(all: seq<Bytes>, b: nat, back: nat)
    requires b < back <= |all|
    ensures [all[back - 1]] + Reversed(all[b..back - 1]) == Reversed(all[b..back])
  {
    TakeOfSlice(all, b, back, back - 1 - b);
    assert all[b..back][back - b - 1] == all[back - 1];
  }

  lemma SliceCons(all: seq<Bytes>, front: nat, f: nat)
    requires front < f <= |all|
    ensures [all[front]] + all[front + 1..f] == all[front..f]
  {
  }

  /** What a schedule hands out of the records `front` up to `back`: the forward calls take those up
      to `f` in order, the backward calls those from `b` in reverse, and a call is answered with
      nothing exactly when nothing remains. */
  ghost predicate HandsOut(all: seq<Bytes>, front: nat, back: nat, turns: seq<Turn>, answers: seq<Answer>,
                           f: nat, b: nat)
  {
    && |answers| == |turns| && front <= f <= b <= back <= |all|
    && Taken(turns, answers, Forward) == all[front..f]
    && Taken(turns, answers, Backward) == Reversed(all[b..back])
    && (forall i :: 0 <= i < |turns| ==>
          if i < back - front then answers[i].Piece? else answers[i] == Nothing)
    && b - f == if |turns| < back - front then back - front - |turns| else 0
  }

  lemma TakesFront(all: seq<Bytes>, front: nat, back: nat, turns: seq<Turn>, later: seq<Answer>, f: nat, b: nat)
    requires front < back <= |all| && turns != [] && turns[0] == Forward
    requires HandsOut(all, front + 1, back, turns[1..], later, f, b)
    ensures HandsOut(all, front, back, turns, [Piece(all[front])] + later, f, b)
  {
    TakenStep(turns, Piece(all[front]), later, Forward);
    TakenStep(turns, Piece(all[front]), later, Backward);
    SliceCons(all, front, f);
    EmptyJoins(Taken(turns[1..], later, Backward));
  }

  lemma TakesBack(all: seq<Bytes>, front: nat, back: nat, turns: seq<Turn>, later: seq<Answer>, f: nat, b: nat)
    requires front < back <= |all| && turns != [] && turns[0] == Backward
    requires HandsOut(all, front, back - 1, turns[1..], later, f, b)
    ensures HandsOut(all, front, back, turns, [Piece(all[back - 1])] + later, f, b)
  {
    TakenStep(turns, Piece(all[back - 1]), later, Forward);
    TakenStep(turns, Piece(all[back - 1]), later, Backward);
    ReversedCons(all, b, back);
    EmptyJoins(Taken(turns[1..], later, Forward));
  }

  /** Any schedule of calls on the two ends: no record goes out twice, none is left out, and once a
      call is answered with nothing every later one is. */
  lemma {:induction false} AnySchedule(all: seq<Bytes>, start: Answer, j: Journey, turns: seq<Turn>)
    returns (f: nat, b: nat)
    requires j.At? && !j.missed && j.front <= j.back <= |all|
    ensures HandsOut(all, j.front, j.back, turns, Answers(all, false, start, j, turns), f, b)
    decreases |turns|
  {
    if turns == [] || j.front == j.back {
      NothingRemains(all, start, j, turns);
      return j.front, j.back;
    } else {
      var moved := Step(all, false, start, j, turns[0]);
      var later := Answers(all, false, start, moved.journey, turns[1..]);
      f, b := AnySchedule(all, start, moved.journey, turns[1..]);
      if turns[0] == Forward {
        TakesFront(all, j.front, j.back, turns, later, f, b);
      } else {
        TakesBack(all, j.front, j.back, turns, later, f, b);
      }
    }
  }

  lemma NothingRemains(all: seq<Bytes>, start: Answer, j: Journey, turns: seq<Turn>)
    requires j.At? && !j.missed && j.front <= j.back <= |all| && (turns == [] || j.front == j.back)
    ensures HandsOut(all, j.front, j.back, turns, Answers(all, false, start, j, turns), j.front, j.back)
  {
    if turns != [] {
      NothingMore(all, start, j, turns);
    }
  }

  /** A finder's unfinished last record, on any schedule: the forward calls before the first backward
      one hand out the records in order; the first call that comes to that record, from either end, is
      refused; and nothing follows. */
  lemma {:induction false} UnfinishedIsRefused(all: seq<Bytes>, start: Answer, front: nat, turns: seq<Turn>)
    requires front <= |all|
    ensures var m := Min(Forwards(turns), |all| - front);
            Answers(all, true, start, At(front, |all|, false, false), turns)
            == Pieces(all[front..front + m])
               + if m == |turns| then [] else [Failed(IncompleteFinalRecord)] + Nothings(|turns| - m - 1)
    decreases |turns|
  {
    var m := Min(Forwards(turns), |all| - front);
    if m == 0 {
      if turns != [] { NothingFollows(all, start, turns[1..]); }
    } else {
      UnfinishedIsRefused(all, start, front + 1, turns[1..]);
      assert all[front..front + m][1..] == all[front + 1..front + m];
      Assoc([Piece(all[front])], Pieces(all[front + 1..front + m]),
            if m == |turns| then [] else [Failed(IncompleteFinalRecord)] + Nothings(|turns| - m - 1));
    }
  }

  lemma {:induction false} NothingFollows(all: seq<Bytes>, start: Answer, turns: seq<Turn>)
    ensures Answers(all, true, start, Done, turns) == Nothings(|turns|)
    decreases |turns|
  {
    if turns != [] { NothingFollows(all, start, turns[1..]); }
  }

  /** How many calls come before the first backward one. */
  function Forwards(turns: seq<Turn>): (k: nat)
    ensures k <= |turns|
  {
    if turns == [] || turns[0] == Backward then 0 else 1 + Forwards(turns[1..])
  }

  function Nothings(k: nat): seq<Answer> {
    if k == 0 then [] else [Nothing] + Nothings(k - 1)
  }

  function Pieces(records: seq<Bytes>): seq<Answer> {
    if records == [] then [] else [Piece(records[0])] + Pieces(records[1..])
  }

  // ---------------------------------------------------------------- an iterator of a file

  ghost function WholeIn(f: File): seq<Bytes> {
    RecordsOf(f.find, Flatten(f.contents))
  }

  ghost function RestIn(f: File): Bytes {
    FragmentOf(f.find, Flatten(f.contents))
  }

  ghost function RecordsIn(f: File): seq<Bytes> {
    AllRecords(WholeIn(f), RestIn(f), f.tailIsRecord)
  }

  /** What a forward read that begins at `at` meets first. */
  ghost function FirstMet(f: File, at: nat): Answer
    requires f.contents != [] && f.perFrame > 0
  {
    if at == f.perFrame * |f.contents| && SlotAnswer(f.find, f.contents, f.perFrame, f.tailIsRecord) == Nothing
    then Failed(PastTheEnd)
    else if at != f.perFrame * |f.contents| && at / f.perFrame >= |f.contents| then Failed(PastTheEnd)
    else Ahead(WholeIn(f), RestIn(f), f.tailIsRecord, at)
  }

  function Begin(all: seq<Bytes>, from: nat, missed: bool): Journey {
    if from >= |all| then Late(from > |all|, missed) else At(from, |all|, false, missed)
  }

  /** What an iterator begun at `from` answers a schedule with, of a reader that does not, or does,
      stand past the only record of its last frame. */
  ghost function FileAnswers(f: File, from: nat, missed: bool, turns: seq<Turn>): seq<Answer>
    requires f.contents != [] && f.perFrame > 0
  {
    Answers(RecordsIn(f), Unfinished(RestIn(f), f.tailIsRecord), FirstMet(f, from),
            Begin(RecordsIn(f), from, missed), turns)
  }

  /** Whether the last frame holds nothing but an unterminated record. */
  predicate OnlyTail(f: File)
    requires f.contents != []
  {
    HasTail(f) && RecordsOf(f.find, f.contents[|f.contents| - 1]) == []
  }

  method PlayFrom(reader: RecordReader, ghost f: File, from: nat, turns: seq<Turn>) returns (answers: seq<Answer>)
    requires reader.Valid() && Opened(reader, f) && from <= USIZE_MAX
    modifies reader, reader.window, reader.window.source
    ensures answers == FileAnswers(f, from, old(reader.StandsPastTail()) && OnlyTail(f), turns)
  {
    if reader.StandsPastTail() { reader.StandingMeans(); }
    var iter := new RecordIter(reader, from);
    assert iter.Knows(TheRecords);
    answers := Play(iter, turns);
  }

  /** From any record of a file whose last record is finished, any schedule hands out the records of
      the file, each once and from its own end. */
  method PlaySchedule(reader: RecordReader, ghost f: File, from: nat, turns: seq<Turn>)
    returns (answers: seq<Answer>, ghost upto: nat, ghost back: nat)
    requires reader.Valid() && Opened(reader, f) && from < |RecordsIn(f)|
    requires !Unfinished(RestIn(f), f.tailIsRecord) && !(reader.StandsPastTail() && OnlyTail(f))
    modifies reader, reader.window, reader.window.source
    ensures HandsOut(RecordsIn(f), from, |RecordsIn(f)|, turns, answers, upto, back)
  {
    FromFits(f, from);
    upto, back := AnySchedule(RecordsIn(f), FirstMet(f, from), Begin(RecordsIn(f), from, false), turns);
    answers := PlayFrom(reader, f, from, turns);
  }

  lemma FromFits(f: File, from: nat)
    requires Readable(f) && from < |RecordsIn(f)|
    ensures from <= USIZE_MAX
  {
    RecordsFit(f.find, f.contents, f.perFrame);
  }

  /** Any history of calls on a reader and then any schedule on an iterator of it: the answers are
      those of an iterator of a fresh reader, unless the history left the window past the only record
      of the last frame and the first call is a backward one: then that record is never handed out. */
  method PlayAfterHistory(reader: RecordReader, ghost f: File, calls: seq<Call>, from: nat, turns: seq<Turn>)
    returns (answers: seq<Answer>)
    requires reader.Valid() && !reader.StandsPastTail() && Opened(reader, f) && from <= USIZE_MAX
    requires forall call :: call in calls && call.CallRange? ==> call.from <= USIZE_MAX
    modifies reader, reader.window, reader.window.source
    ensures answers == FileAnswers(f, from, false, turns) <==>
            !(StandsBefore(f, false, calls, |calls|) && OnlyTail(f) && from <= |RecordsIn(f)|
              && turns != [] && turns[0] == Backward)
  {
    var replies := RunCalls(reader, f, calls);
    ghost var missed := reader.StandsPastTail() && OnlyTail(f);
    if OnlyTail(f) { MissedMatters(f, from, turns); }
    answers := PlayFrom(reader, f, from, turns);
    assert answers == FileAnswers(f, from, missed, turns);
  }

  /** The unterminated record is not the record before it. */
  lemma TailIsItself(f: File)
    requires Uniform(f.find, f.contents, f.perFrame) && OnlyTail(f)
    ensures var all := RecordsIn(f);
            all != [] && !Unfinished(RestIn(f), f.tailIsRecord)
            && (|all| > 1 ==> all[|all| - 1] != all[|all| - 2])
    ensures |RecordsIn(f)| == |WholeIn(f)| + 1 && |WholeIn(f)| == FirstRecord(f.perFrame, |f.contents| - 1)
  {
    FrameRecords(f.find, f.contents, f.perFrame, |f.contents| - 1);
    WalkCovers(f.find, Flatten(f.contents));
    var whole := WholeIn(f);
    if whole != [] { assert whole[|whole| - 1] in whole; }
  }

  /** One lookup of it leaves the window there. */
  lemma LookupStands(f: File)
    requires Uniform(f.find, f.contents, f.perFrame) && OnlyTail(f)
    ensures StandsBefore(f, false, [CallRecord(f.perFrame * (|f.contents| - 1))], 1)
  {
    var n, last := f.perFrame, |f.contents| - 1;
    FirstRecordIsProduct(n, last);
    FrameOfIndex(n * last, n, last, 0);
    var calls := [CallRecord(n * last)];
    var stands := StandsAfter(f, false, calls[0]);
    assert calls[1..] == [] && StandsBefore(f, stands, [], 0) == stands;
  }

  /** A reader of a file that ends so, asked for that record and then read from the back: the record is
      not among the answers. */
  method LookUpThenReverse(reader: RecordReader, ghost f: File) returns (answers: seq<Answer>)
    requires reader.Valid() && !reader.StandsPastTail() && Opened(reader, f) && OnlyTail(f)
    modifies reader, reader.window, reader.window.source
    ensures answers != FileAnswers(f, 0, false, [Backward])
  {
    LookupStands(f);
    answers := PlayAfterHistory(reader, f, [CallRecord(reader.perFrame * (|reader.frames| - 1))], 0, [Backward]);
  }

  /** Missing the last record shows exactly where the first call asks for it from the back. */
  lemma MissedMatters(f: File, from: nat, turns: seq<Turn>)
    requires Readable(f) && OnlyTail(f)
    ensures FileAnswers(f, from, true, turns) == FileAnswers(f, from, false, turns) <==>
            !(from <= |RecordsIn(f)| && turns != [] && turns[0] == Backward)
  {
    TailIsItself(f);
    if turns != [] {
      var all, start := RecordsIn(f), FirstMet(f, from);
      var missed, seen := Step(all, false, start, Begin(all, from, true), turns[0]),
                          Step(all, false, start, Begin(all, from, false), turns[0]);
      if turns[0] == Forward || from > |all| {
        assert missed == seen;
      } else {
        assert FileAnswers(f, from, true, turns)[0] == missed.answer;
        assert FileAnswers(f, from, false, turns)[0] == seen.answer;
      }
    }
  }
}
