/** The record-unit walk (`RecordUnitCursor` and `Records::pass_skip` of src/record.rs): one record
    at a time out of a window, past a skip, with the two ways a walk may end. */
module Cursor {
  import opened Bytes
  import opened Seqs
  import opened Records
  import opened Window

  /** What asking for one record answers. */
  datatype Answer = Piece(bytes: Bytes) | Nothing | Failed(error: ReadError)

  /** What the walk does with bytes after the last whole record. */
  datatype Tail = Ignored | AsRecord | AsError

  /** The answer for record `index` of a region, `rest` being what is left after its last record. */
  function UnitAnswer(region: Bytes, bounds: seq<nat>, rest: Bytes, index: nat, skipWhole: bool, tail: Tail)
    : Answer
    requires bounds != []
  {
    if index + 1 < |bounds| then Piece(Cut(region, bounds[index], bounds[index + 1]))
    else if index >= |bounds| then (if skipWhole then Failed(SkipRanOut) else Nothing)
    else if rest != [] && tail == AsError then Failed(IncompleteFinalRecord)
    else if rest != [] && tail == AsRecord then Piece(rest)
    else Nothing
  }

  /** The same answer, in terms of the records of the region. */
  lemma AnswerIsRecord(find: Finder, region: Bytes, rest: Bytes, index: nat, skipWhole: bool, tail: Tail)
    ensures |Bounds(find, region)| == |RecordsOf(find, region)| + 1
    ensures index < |RecordsOf(find, region)| ==>
              UnitAnswer(region, Bounds(find, region), rest, index, skipWhole, tail)
              == Piece(RecordsOf(find, region)[index])
  {
    LastBound(find, region);
    if index < |RecordsOf(find, region)| {
      RecordBetweenBounds(find, region, index);
    }
  }

  /** What is cut off after the last record end is the fragment. */
  lemma RestIsFragment(find: Finder, region: Bytes)
    ensures var bounds := Bounds(find, region);
            Cut(region, bounds[|bounds| - 1], |region|) == FragmentOf(find, region)
  {
    AfterLastBound(find, region);
    var bounds := Bounds(find, region);
    assert region[bounds[|bounds| - 1]..|region|] == region[bounds[|bounds| - 1]..];
  }

  class Cursor {
    const skipWhole: bool
    const tail: Tail
    var skip: nat
    var spent: bool

    constructor (skip: nat, skipWhole: bool, tail: Tail)
      ensures this.skip == skip && this.skipWhole == skipWhole
      ensures this.tail == tail && !spent
    {
      this.skip, this.skipWhole, this.tail := skip, skipWhole, tail;
      spent := false;
    }

    /** Walks on past `n` records, answering how many of them the source did not hold. */
    static method WalkPast(w: Window, find: Finder, n: nat) returns (left: Result<nat, ReadError>)
      requires w.Valid(find) && n > 0
      modifies w, w.source
      ensures w.Valid(find) && w.Where() == old(w.Where())
      ensures left.Ok? ==> w.walked + left.value == old(w.walked) + n
      ensures left.Ok? && left.value == 0 ==> !w.TailTaken() && !old(w.TailTaken())
      ensures left.Ok? && left.value > 0 ==> w.RanOut() && w.TailTaken() == old(w.TailTaken())
      ensures left.Err? ==> left.error == IncompleteAtFrameEnd && !w.clean
      ensures left.Err? ==> w.Broken() && w.walked <= old(w.walked) + n
      ensures left.Err? && w.TailTaken() ==> old(w.TailTaken())
    {
      var todo: nat := n;
      while todo > 0
        invariant w.Valid(find) && w.Where() == old(w.Where())
        invariant w.walked + todo == old(w.walked) + n
        invariant if todo < n then !w.TailTaken() && !old(w.TailTaken()) else w.At() == old(w.At())
      {
        var run := w.Next(find, Some(todo));
        if run.Err? { return Err(run.error); }
        if run.value.None? { return Ok(todo); }
        todo := todo - run.value.value.count;
      }
      return Ok(0);
    }

    /** Walks past the records to be skipped; `false` where the source ends inside them. */
    method PassSkip(w: Window, find: Finder) returns (r: Result<bool, ReadError>)
      requires w.Valid(find) && skip > 0
      modifies w, w.source, this`skip
      ensures w.Valid(find) && w.Where() == old(w.Where()) && skip == 0
      ensures r == Ok(true) ==> w.walked == old(w.walked + skip)
      ensures r == Ok(true) ==> !w.TailTaken() && !old(w.TailTaken())
      ensures r != Ok(true) && r != Err(IncompleteAtFrameEnd) ==>
                && r == (if skipWhole then Err(SkipRanOut) else Ok(false))
                && w.RanOut() && w.walked < old(w.walked + skip)
                && w.TailTaken() == old(w.TailTaken())
      ensures r == Err(IncompleteAtFrameEnd) ==>
                !w.clean && (w.TailTaken() ==> old(w.TailTaken()))
                && w.Broken() && w.walked <= old(w.walked + skip)
    {
      var n := skip;
      skip := 0;
      var left := WalkPast(w, find, n);
      if left.Err? { return Err(left.error); }
      if left.value == 0 { return Ok(true); }
      if skipWhole { return Err(SkipRanOut); }
      return Ok(false);
    }

    /** One record, answered from the region alone unless a frame end inside it is not a record
        end. */
    method Next(w: Window, find: Finder) returns (a: Answer)
      requires w.Valid(find) && !spent
      modifies w, w.source, this
      ensures w.Valid(find) && w.Where() == old(w.Where())
      ensures a != Failed(IncompleteAtFrameEnd) ==>
                a == UnitAnswer(w.region, w.bounds, old(w.RestOf()), old(w.walked + skip), skipWhole, tail)
      ensures a == Failed(IncompleteAtFrameEnd) ==>
                !w.clean && (w.TailTaken() ==> old(w.TailTaken()))
                && w.Broken() && w.walked <= old(w.walked + skip)
      ensures !spent ==> && old(w.walked + skip) + 1 < |w.bounds|
                         && w.walked == old(w.walked + skip) + 1
                         && skip == 0 && !w.TailTaken()
      ensures spent && a != Failed(IncompleteAtFrameEnd) ==>
                && w.RanOut() && |w.bounds| <= old(w.walked + skip) + 1
                && (w.TailTaken() <==> old(w.TailTaken()) || a.Piece?)
    {
      if skip > 0 {
        a := SkipThenNext(w, find);
      } else {
        a := NextUnit(w, find);
      }
    }

    method SkipThenNext(w: Window, find: Finder) returns (a: Answer)
      requires w.Valid(find) && !spent && skip > 0
      modifies w, w.source, this
      ensures w.Valid(find) && w.Where() == old(w.Where())
      ensures a != Failed(IncompleteAtFrameEnd) ==>
                a == UnitAnswer(w.region, w.bounds, old(w.RestOf()), old(w.walked + skip), skipWhole, tail)
      ensures a == Failed(IncompleteAtFrameEnd) ==>
                !w.clean && (w.TailTaken() ==> old(w.TailTaken()))
                && w.Broken() && w.walked <= old(w.walked + skip)
      ensures !spent ==> && old(w.walked + skip) + 1 < |w.bounds|
                         && w.walked == old(w.walked + skip) + 1
                         && skip == 0 && !w.TailTaken()
      ensures spent && a != Failed(IncompleteAtFrameEnd) ==>
                && w.RanOut() && |w.bounds| <= old(w.walked + skip) + 1
                && (w.TailTaken() <==> old(w.TailTaken()) || a.Piece?)
    {
      ghost var rest := w.RestOf();
      var stopped := SkipOr(w, find);
      if stopped.Some? {
        a := stopped.value;
      } else {
        assert w.RestOf() == rest;
        a := NextUnit(w, find);
      }
    }

    /** Skips, or answers that the records to be skipped are not all there. */
    method SkipOr(w: Window, find: Finder) returns (stopped: Option<Answer>)
      requires w.Valid(find) && !spent && skip > 0
      modifies w, w.source, this
      ensures w.Valid(find) && w.Where() == old(w.Where()) && skip == 0
      ensures stopped.None? ==> !spent && w.walked == old(w.walked + skip) && !w.TailTaken() && !old(w.TailTaken())
      ensures stopped.Some? ==> spent && !stopped.value.Piece?
      ensures stopped == Some(Failed(IncompleteAtFrameEnd)) ==>
                !w.clean && (w.TailTaken() ==> old(w.TailTaken()))
                && w.Broken() && w.walked <= old(w.walked + skip)
      ensures stopped.Some? && stopped.value != Failed(IncompleteAtFrameEnd) ==>
                && |w.bounds| <= old(w.walked + skip) && w.RanOut() && w.TailTaken() == old(w.TailTaken())
                && stopped.value == if skipWhole then Failed(SkipRanOut) else Nothing
    {
      var passed := PassSkip(w, find);
      if passed == Ok(true) { return None; }
      spent := true;
      return Some(if passed.Err? then Failed(passed.error) else Nothing);
    }

    method NextUnit(w: Window, find: Finder) returns (a: Answer)
      requires w.Valid(find) && !spent
      modifies w, w.source, this`spent
      ensures w.Valid(find) && w.Where() == old(w.Where())
      ensures a != Failed(IncompleteAtFrameEnd) ==>
                a == UnitAnswer(w.region, w.bounds, old(w.RestOf()), old(w.walked), skipWhole, tail)
      ensures a == Failed(IncompleteAtFrameEnd) ==>
                !w.clean && (w.TailTaken() ==> old(w.TailTaken()))
                && w.Broken() && w.walked <= old(w.walked)
      ensures !spent ==> && old(w.walked) + 1 < |w.bounds|
                         && w.walked == old(w.walked) + 1 && !w.TailTaken()
      ensures spent && a != Failed(IncompleteAtFrameEnd) ==>
                && w.RanOut() && |w.bounds| == old(w.walked) + 1
                && (w.TailTaken() <==> old(w.TailTaken()) || a.Piece?)
    {
      var run := w.Next(find, Some(1));
      if run.Err? {
        spent := true;
        return Failed(run.error);
      }
      if run.value.Some? {
        PieceOf(w, run.value.value, old(w.walked));
        return Piece(w.BytesOf(run.value.value));
      }
      spent := true;
      assert w.RestOf() == old(w.RestOf());
      a := TailUnit(w, find);
    }

    static lemma PieceOf(w: Window, run: Run, k: nat)
      requires w.walked < |w.bounds| && w.Holds(run, k) && run.count == 1
      ensures k + 1 < |w.bounds|
      ensures w.BytesOf(run) == Cut(w.region, w.bounds[k], w.bounds[k + 1])
    {
    }

    /** What the walk answers once no whole record is left. */
    method TailUnit(w: Window, find: Finder) returns (a: Answer)
      requires w.Valid(find) && w.RanOut()
      modifies w`pos
      ensures w.Valid(find) && w.RanOut() && w.Where() == old(w.Where())
      ensures a == UnitAnswer(w.region, w.bounds, old(w.RestOf()), old(w.walked), skipWhole, tail)
      ensures a != Failed(IncompleteAtFrameEnd)
      ensures w.TailTaken() <==> old(w.TailTaken()) || a.Piece?
    {
      assert w.Remainder() == w.RestOf();
      if tail == AsError && w.Remainder() != [] { return Failed(IncompleteFinalRecord); }
      if tail == AsRecord {
        var last := w.FinalRecord();
        if last.Some? { return Piece(w.BytesOf(last.value)); }
      }
      return Nothing;
    }

    /** `write_to`: what a range read of `requested` records writes, past the skip. */
    static method WriteTo(w: Window, find: Finder, skip: nat, requested: nat, tail: Tail)
      returns (r: Result<Bytes, ReadError>)
      requires w.Valid(find) && !w.TailTaken() && w.walked == 0
      modifies w, w.source
      ensures w.Valid(find) && w.Where() == old(w.Where())
      ensures r == Err(IncompleteAtFrameEnd) ==> !w.clean
      ensures r != Err(IncompleteAtFrameEnd) ==>
                r == RangeAnswer(w.region, w.bounds, old(w.RestOf()), skip, requested, tail)
    {
      if skip > 0 {
        var cursor := new Cursor(skip, true, tail);
        var passed := cursor.PassSkip(w, find);
        if passed.Err? { return Err(passed.error); }
        assert w.RestOf() == old(w.RestOf());
      }
      r := WriteOn(w, find, requested, tail);
    }

    static method WriteOn(w: Window, find: Finder, requested: nat, tail: Tail)
      returns (r: Result<Bytes, ReadError>)
      requires w.Valid(find) && !w.TailTaken()
      modifies w, w.source
      ensures w.Valid(find) && w.Where() == old(w.Where())
      ensures r == Err(IncompleteAtFrameEnd) ==> !w.clean
      ensures r != Err(IncompleteAtFrameEnd) ==>
                r == RangeAnswer(w.region, w.bounds, old(w.RestOf()), old(w.walked), requested, tail)
    {
      var from := w.walked;
      ghost var rest := w.RestOf();
      var written := Collect(w, find, requested);
      if written.Err? { return Err(written.error); }
      assert w.RestOf() == rest;
      if w.walked == from + requested {
        return Ok(written.value);
      }
      r := WriteTail(w, find, written.value, tail);
    }

    /** The bytes of the next `requested` whole records, or of all there are. */
    static method Collect(w: Window, find: Finder, requested: nat) returns (r: Result<Bytes, ReadError>)
      requires w.Valid(find) && !w.TailTaken()
      modifies w, w.source
      ensures w.Valid(find) && w.Where() == old(w.Where())
      ensures r.Err? ==> r.error == IncompleteAtFrameEnd && !w.clean
      ensures r.Ok? ==> && !w.TailTaken() && old(w.walked) <= w.walked <= old(w.walked) + requested
                        && r.value == Cut(w.region, w.bounds[old(w.walked)], w.bounds[w.walked])
      ensures r.Ok? && w.walked < old(w.walked) + requested ==> w.RanOut()
    {
      var written := [];
      var emitted := 0;
      ghost var from := w.walked;
      BoundWithin(find, w.region, from);
      while emitted < requested
        invariant w.Valid(find) && w.Where() == old(w.Where()) && !w.TailTaken()
        invariant w.walked == from + emitted && emitted <= requested
        invariant w.bounds[from] <= w.bounds[w.walked] <= |w.region|
        invariant written == w.region[w.bounds[from]..w.bounds[w.walked]]
      {
        ghost var here := w.walked;
        var run := w.Next(find, Some(requested - emitted));
        if run.Err? { return Err(run.error); }
        if run.value.None? { return Ok(written); }
        Slices(w.region, w.bounds[from], w.bounds[here], w.bounds[w.walked]);
        written := written + w.BytesOf(run.value.value);
        emitted := emitted + run.value.value.count;
      }
      return Ok(written);
    }

    /** How many units a walk of the whole region hands out. */
    static method CountUnits(w: Window, find: Finder, tail: Tail) returns (r: Result<nat, ReadError>)
      requires w.Valid(find) && w.walked == 0
      modifies w, w.source
      ensures w.Valid(find) && w.Where() == old(w.Where())
      ensures r == Err(IncompleteAtFrameEnd) ==> !w.clean
      ensures r != Err(IncompleteAtFrameEnd) ==>
                r == if old(w.RestOf()) != [] && tail == AsError then Err(IncompleteFinalRecord)
                     else Ok(|w.bounds| - 1 + if old(w.RestOf()) != [] && tail == AsRecord then 1 else 0)
    {
      ghost var rest := w.RestOf();
      var whole := w.CountRecords(find);
      if whole.Err? { return Err(whole.error); }
      assert w.RestOf() == rest;
      r := CountTail(w, find, whole.value, tail);
    }

    /** Counts what is left after the last whole record. */
    static method CountTail(w: Window, find: Finder, whole: nat, tail: Tail) returns (r: Result<nat, ReadError>)
      requires w.Valid(find) && w.RanOut()
      modifies w, w.source
      ensures w.Valid(find) && w.Where() == old(w.Where())
      ensures r == if old(w.RestOf()) != [] && tail == AsError then Err(IncompleteFinalRecord)
                   else Ok(whole + if old(w.RestOf()) != [] && tail == AsRecord then 1 else 0)
    {
      var cursor := new Cursor(0, true, tail);
      var last := cursor.TailUnit(w, find);
      return match last
             case Failed(e) => Err(e)
             case Piece(_) => Ok(whole + 1)
             case Nothing => Ok(whole);
    }

    static method WriteTail(w: Window, find: Finder, written: Bytes, tail: Tail)
      returns (r: Result<Bytes, ReadError>)
      requires w.Valid(find) && w.RanOut()
      modifies w, w.source
      ensures w.Valid(find) && w.Where() == old(w.Where())
      ensures r == if old(w.RestOf()) != [] && tail == AsError then Err(IncompleteFinalRecord)
                   else Ok(written + (if tail == AsRecord then old(w.RestOf()) else []))
    {
      EmptyJoins(written);
      var cursor := new Cursor(0, true, tail);
      var last := cursor.TailUnit(w, find);
      return match last
             case Failed(e) => Err(e)
             case Piece(bytes) => Ok(written + bytes)
             case Nothing => Ok(written);
    }
  }

  /** What a range read writes, from record `skip` of the region on. */
  function RangeAnswer(region: Bytes, bounds: seq<nat>, rest: Bytes, skip: nat, requested: nat, tail: Tail)
    : Result<Bytes, ReadError>
    requires bounds != []
  {
    var whole := |bounds| - 1;
    if skip > whole then Err(SkipRanOut)
    else if skip + requested <= whole then Ok(Cut(region, bounds[skip], bounds[skip + requested]))
    else if rest != [] && tail == AsError then Err(IncompleteFinalRecord)
    else Ok(Cut(region, bounds[skip], bounds[whole]) + (if tail == AsRecord then rest else []))
  }
}
