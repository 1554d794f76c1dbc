/** The sliding, doubling window records are read through (`Reader` and `Window` of src/record.rs),
    over a source that returns reads of any size it likes. */
module Window {
  import opened Bytes
  import opened Seqs
  import opened Records

  /** `READ_FRAME_BUF_SIZE` (src/seekzstdsep_lib.rs:32-44). */
  const WINDOW_SIZE: nat := 32768

  datatype ReadError =
    | IncompleteAtFrameEnd
    | SkipRanOut
    | IncompleteFinalRecord
    | PastTheEnd
    | FrameRefused(frame: nat)

  /** Records next to each other in the window. */
  datatype Run = Run(start: nat, len: nat, count: nat)

  /** The decompressed stream behind a `Take`: a seek points it at a region, a read returns some of
      what is left of it, and nothing only where nothing was asked for or nothing is left. */
  class Source {
    const content: Bytes
    var at: nat
    var left: nat

    /** The region last pointed at, and where it starts. */
    ghost var start: nat
    ghost var region: Bytes

    ghost predicate Valid()
      reads this
    {
      && start <= at && at + left == start + |region| <= |content|
      && region == content[start..start + |region|]
    }

    constructor (content: Bytes)
      ensures this.content == content && Valid() && start == 0 && region == []
    {
      this.content := content;
      at, left := 0, 0;
      start, region := 0, [];
    }

    method Seek(from: nat, len: nat)
      requires from + len <= |content|
      modifies this
      ensures Valid() && at == start == from && region == content[from..from + len]
    {
      at, left := from, len;
      start, region := from, content[from..from + len];
    }

    method Read(len: nat) returns (got: Bytes)
      requires Valid()
      modifies this`at, this`left
      ensures Valid() && at == old(at) + |got|
      ensures |got| <= len && (got == [] <==> len == 0 || old(left) == 0)
      ensures got == region[old(at) - start..at - start]
    {
      var n := 0;
      if len > 0 && left > 0 {
        n :| 1 <= n <= len && n <= left;
      }
      got := content[at..at + n];
      SliceOfSlice(content, start, start + |region|, at - start, at - start + n);
      at, left := at + n, left - n;
    }
  }

  function Cut(data: Bytes, i: nat, j: nat): Bytes {
    if i <= j <= |data| then data[i..j] else []
  }

  /** How many of the frame ends lie at or before `x`, the ends being in order. */
  function PartitionPoint(ends: seq<nat>, x: nat): nat {
    if ends == [] || ends[0] > x then 0 else 1 + PartitionPoint(ends[1..], x)
  }

  lemma {:induction false} PartitionPointSplits(ends: seq<nat>, x: nat)
    requires InOrder(ends)
    ensures PartitionPoint(ends, x) <= |ends|
    ensures forall i :: 0 <= i < PartitionPoint(ends, x) ==> ends[i] <= x
    ensures forall i :: PartitionPoint(ends, x) <= i < |ends| ==> x < ends[i]
  {
    if ends != [] && ends[0] <= x {
      PartitionPointSplits(ends[1..], x);
      var k := PartitionPoint(ends[1..], x);
      forall i | 0 <= i < |ends|
        ensures if i < k + 1 then ends[i] <= x else x < ends[i]
      {
        if i > 0 {
          assert ends[i] == ends[1..][i - 1];
        }
      }
    }
  }

  ghost predicate InOrder(ends: seq<nat>) {
    forall i, j :: 0 <= i <= j < |ends| ==> ends[i] <= ends[j]
  }

  /** Frame end `i`, if it is inside a region of `len` bytes from `start` on, is a record end. */
  ghost predicate EndIsClean(bounds: seq<nat>, len: nat, start: nat, frameEnds: seq<nat>, i: nat)
    requires i < |frameEnds|
  {
    start < frameEnds[i] <= start + len ==> frameEnds[i] - start in bounds
  }

  ghost predicate EndsOnRecords(bounds: seq<nat>, len: nat, start: nat, frameEnds: seq<nat>) {
    forall i :: 0 <= i < |frameEnds| ==> EndIsClean(bounds, len, start, frameEnds, i)
  }

  /** The frame ends from `next` on lie at `x` or further on. */
  ghost predicate AllPast(frameEnds: seq<nat>, next: nat, x: int) {
    forall i :: next <= i < |frameEnds| ==> x <= frameEnds[i]
  }

  /** The frame ends before `next` are behind the reads, those inside the region that begins at
      `start` were record ends, and the others are ahead. */
  ghost predicate Guards(frameEnds: seq<nat>, next: nat, base: nat, start: nat, offset: nat, filled: nat, eof: bool,
                         bounds: seq<nat>)
  {
    var here, from := base + offset + filled, base + start;
    && next <= |frameEnds|
    && (forall i :: 0 <= i < next ==> frameEnds[i] <= here)
    && AllPast(frameEnds, next, if eof then here + 1 else here)
    && (forall i :: 0 <= i < next && from < frameEnds[i] ==> frameEnds[i] - from in bounds)
  }

  /** The first `filled` bytes of `buf` are those of the region from `from` on. */
  ghost predicate Copied(buf: Bytes, filled: nat, region: Bytes, from: int) {
    filled <= |buf| && 0 <= from && from + filled <= |region| && buf[..filled] == region[from..from + filled]
  }

  lemma CopiedOn(buf: Bytes, filled: nat, region: Bytes, from: nat, got: Bytes)
    requires Copied(buf, filled, region, from) && filled + |got| <= |buf|
    requires from + filled + |got| <= |region| && got == region[from + filled..from + filled + |got|]
    ensures |buf[..filled] + got + buf[filled + |got|..]| == |buf|
    ensures Copied(buf[..filled] + got + buf[filled + |got|..], filled + |got|, region, from)
  {
    JoinParts(buf[..filled] + got, buf[filled + |got|..]);
    Slices(region, from, from + filled, from + filled + |got|);
  }

  /** After `walked` records no other ends at or before `x`. */
  ghost predicate NoEndBy(bounds: seq<nat>, walked: nat, x: int)
    requires walked < |bounds|
  {
    walked + 1 == |bounds| || x < bounds[walked + 1]
  }

  /** The walk is past `walked` whole records, or past the unterminated one as well, which leaves
      `walked` where it was. The record at the front of the buffer, `at` into the region, is known; a
      walk at the front stands at it; and once the source is spent nothing before the walk is held
      and no record ends behind it. */
  ghost predicate Stands(bounds: seq<nat>, walked: nat, at: int, pos: nat, filled: nat, eof: bool,
                         front: Option<nat>, onBoundary: bool)
  {
    && walked < |bounds| && onBoundary && pos <= filled
    && front.Some? && front.value <= walked && bounds[front.value] == at
    && (at + pos != bounds[walked] ==> eof && pos == filled && walked == |bounds| - 1)
    && (pos == 0 ==> front == Some(walked))
    && (eof ==> front == Some(walked) && (at + pos != bounds[walked] || NoEndBy(bounds, walked, at + filled)))
  }

  lemma StandsOn(bounds: seq<nat>, walked: nat, at: int, pos: nat, filled: nat, front: Option<nat>, onBoundary: bool,
                 more: nat, eof: bool)
    requires Stands(bounds, walked, at, pos, filled, false, front, onBoundary) && NoEndBy(bounds, walked, at + filled)
    requires pos == 0 && filled <= more && (eof <==> filled == more)
    ensures Stands(bounds, walked, at, pos, more, eof, front, onBoundary)
  {
  }

  lemma GuardsBegin(frameEnds: seq<nat>, next: nat, base: nat, start: nat, bounds: seq<nat>)
    requires InOrder(frameEnds) && next == PartitionPoint(frameEnds, start + base)
    ensures Guards(frameEnds, next, base, start, start, 0, false, bounds)
  {
    PartitionPointSplits(frameEnds, start + base);
  }

  lemma GuardsGoOn(frameEnds: seq<nat>, next: nat, base: nat, start: nat, offset: nat, filled: nat, bounds: seq<nat>,
                   len: nat, more: nat, eof: bool)
    requires Guards(frameEnds, next, base, start, offset, filled, false, bounds) && len > 0
    requires AllPast(frameEnds, next, base + offset + filled + len)
    requires filled <= more <= filled + len && (eof <==> filled == more)
    ensures Guards(frameEnds, next, base, start, offset, more, eof, bounds)
  {
  }

  /** What a window is pointed at, which walking it never changes. */
  datatype Where = Pointed(start: nat, region: Bytes, bounds: seq<nat>, clean: bool)

  datatype Clause = Buffering | Placing | Guarding | Judging

  class Window {
    const source: Source
    /** The place in the stream that `buf` begins at. */
    var offset: nat
    const frameEnds: seq<nat>
    const frameEndBase: nat
    var nextFrameEnd: nat
    var buf: Bytes
    var filled: nat
    var pos: nat
    var eof: bool
    var walked: nat
    var front: Option<nat>
    var onBoundary: bool

    /** The bytes the window was last pointed at, where they start, and their record ends. */
    ghost var start: nat
    ghost var region: Bytes
    ghost var bounds: seq<nat>
    /** Whether the frame ends the region reaches are all record ends. */
    ghost var clean: bool

    // -------------------------------------------------------------- what the fields mean

    ghost function Where(): Where
      reads this
    {
      Pointed(start, region, bounds, clean)
    }

    /** How much of the region has been read. */
    ghost function Loaded(): int
      reads `offset, `start, `filled
    {
      offset - start + filled
    }

    /** How much of the region has been handed out. */
    ghost function At(): int
      reads `offset, `start, `pos
    {
      offset - start + pos
    }

    /** What is buffered is what was read of the region. */
    ghost predicate Buffered()
      reads this, source
    {
      BufferedBut(0)
    }

    /** So it is but for the last `extra` bytes read, which are not in the buffer yet. */
    ghost predicate BufferedBut(extra: nat)
      reads this, source
    {
      && source.Valid() && source.start == start && source.region == region
      && |buf| > 0 && pos <= filled <= |buf|
      && start <= offset && source.at == start + Loaded() + extra
      && Copied(buf, filled, region, offset - start)
      && (eof ==> Loaded() == |region|)
    }

    /** `final_record` moved `pos` past the unterminated record and left `walked` where it was. */
    ghost predicate TailTaken()
      requires walked < |bounds|
      reads this
    {
      At() != bounds[walked]
    }

    /** The walk stands where `Stands` says, as far as the fields tell. */
    ghost predicate Placed()
      reads this
    {
      Stands(bounds, walked, offset - start, pos, filled, eof, front, onBoundary)
    }

    /** No record ends in what is buffered past the walk. */
    ghost predicate HoldsNoEnd()
      requires walked < |bounds|
      reads this
    {
      TailTaken() || NoEndBy(bounds, walked, Loaded())
    }

    /** The frame ends the reads have passed were record ends; the others are still ahead. */
    ghost predicate Guarded()
      reads `nextFrameEnd, `start, `bounds, `offset, `filled, `eof
    {
      Guards(frameEnds, nextFrameEnd, frameEndBase, start, offset, filled, eof, bounds)
    }

    /** What `clean` says of the frame ends, which are in order. */
    ghost predicate Judged()
      reads `start, `region, `bounds, `clean
    {
      InOrder(frameEnds) && clean == EndsOnRecords(bounds, |region|, frameEndBase + start, frameEnds)
    }

    ghost predicate Keeps(clause: Clause)
      requires walked < |bounds|
      reads this, source
    {
      match clause
      case Buffering => Buffered()
      case Placing => Placed()
      case Guarding => Guarded()
      case Judging => Judged()
    }

    /** The invariant, clause by clause: a proof that needs one mentions it, a caller carries them
        all without looking inside. */
    ghost predicate Consistent()
      reads this, source
    {
      && pos <= filled <= |buf| && walked < |bounds| && Loaded() <= |region|
      && forall clause :: Keeps(clause)
    }

    lemma Opened()
      requires Consistent()
      ensures Buffered() && Placed() && Guarded() && Judged()
    {
      assert Keeps(Buffering) && Keeps(Placing) && Keeps(Guarding) && Keeps(Judging);
    }

    lemma Closed()
      requires walked < |bounds| && Buffered() && Placed() && Guarded() && Judged()
      ensures Consistent()
    {
    }

    lemma CleanMeans()
      requires Consistent()
      ensures clean == EndsOnRecords(bounds, |region|, frameEndBase + start, frameEnds)
    {
      assert Keeps(Judging);
    }

    ghost predicate Valid(find: Finder)
      reads this, source
    {
      Consistent() && bounds == Bounds(find, region)
    }

    function BytesOf(run: Run): Bytes
      requires run.start + run.len <= |buf|
      reads this
    {
      buf[run.start..run.start + run.len]
    }

    function Remainder(): Bytes
      requires pos <= filled <= |buf|
      reads this
    {
      buf[pos..filled]
    }

    constructor (source: Source, frameEnds: seq<nat>, base: nat, first: nat)
      requires source.Valid() && source.region == []
      requires InOrder(frameEnds) && first <= |frameEnds|
      requires forall i :: 0 <= i < |frameEnds| ==>
                             if i < first then frameEnds[i] <= base + source.at else base + source.at <= frameEnds[i]
      ensures this.source == source && this.frameEnds == frameEnds && frameEndBase == base
      ensures Consistent() && region == [] && bounds == [0]
    {
      this.source := source;
      offset := source.at;
      this.frameEnds, frameEndBase, nextFrameEnd := frameEnds, base, first;
      buf := seq(WINDOW_SIZE, _ => 0);
      filled, pos, eof, walked, front, onBoundary := 0, 0, false, 0, Some(0), true;
      start, region, bounds := source.start, [], [0];
      clean := EndsOnRecords([0], 0, base + source.start, frameEnds);
      new;
      EmptySlices(buf, region);
      Closed();
    }

    /** Points the window at `[from, from + len)`, dropping what it holds of anywhere else. */
    method SeekTo(find: Finder, from: nat, len: nat, ghost bytes: Bytes)
      requires Consistent() && from + len <= |source.content| && bytes == source.content[from..from + len]
      modifies this, source
      ensures Valid(find) && start == from && region == bytes
      ensures clean == EndsOnRecords(Bounds(find, bytes), |bytes|, frameEndBase + from, frameEnds)
      ensures walked == 0 && !TailTaken() && At() == 0 && !eof
    {
      Opened();
      Point(from, len, Bounds(find, bytes));
    }

    static lemma EmptySlices(buf: Bytes, region: Bytes)
      ensures buf[..0] == region[0..0]
    {
    }

    method Point(from: nat, len: nat, ghost ends: seq<nat>)
      requires from + len <= |source.content| && |buf| > 0 && InOrder(frameEnds)
      requires ends != [] && ends[0] == 0
      modifies this, source
      ensures Consistent()
      ensures start == from && region == source.content[from..from + len] && bounds == ends
      ensures clean == EndsOnRecords(bounds, len, frameEndBase + from, frameEnds)
      ensures walked == 0 && !TailTaken() && At() == 0 && !eof
    {
      var next := PartitionPoint(frameEnds, from + frameEndBase);
      GuardsBegin(frameEnds, next, frameEndBase, from, ends);
      source.Seek(from, len);
      Reset(from, next, ends);
    }

    /** Empties the window, the source standing where the region begins. */
    method Reset(from: nat, next: nat, ghost ends: seq<nat>)
      requires |buf| > 0 && InOrder(frameEnds) && ends != [] && ends[0] == 0
      requires source.Valid() && source.at == source.start == from
      requires Guards(frameEnds, next, frameEndBase, from, from, 0, false, ends)
      modifies this
      ensures Consistent()
      ensures start == from && region == source.region && bounds == ends
      ensures clean == EndsOnRecords(bounds, |region|, frameEndBase + from, frameEnds)
      ensures walked == 0 && !TailTaken() && At() == 0 && !eof
    {
      EmptySlices(buf, source.region);
      filled, pos, eof, walked, front, onBoundary := 0, 0, false, 0, Some(0), true;
      offset, nextFrameEnd := from, next;
      start, region, bounds := from, source.region, ends;
      clean := EndsOnRecords(ends, |region|, frameEndBase + from, frameEnds);
      Closed();
    }

    // -------------------------------------------------------------- the walk

    lemma HeldIsRegion()
      requires Consistent() && !TailTaken()
      ensures bounds[walked] == At() <= Loaded() <= |region|
      ensures buf[pos..filled] == region[At()..Loaded()]
    {
      Opened();
      DropOfTake(buf, pos, filled);
      DropOfSlice(region, offset - start, Loaded(), pos);
    }

    /** How many records of `held`, up to `want`, and the bytes they take. */
    static method Scan(find: Finder, held: Bytes, want: Option<nat>) returns (used: nat, count: nat)
      ensures count < |Bounds(find, held)| && used == Bounds(find, held)[count] <= |held|
      ensures want.Some? ==> count <= want.value
      ensures want.None? || count < want.value ==> count + 1 == |Bounds(find, held)|
    {
      used, count := 0, 0;
      while want.None? || count < want.value
        invariant count < |Bounds(find, held)| && used == Bounds(find, held)[count] <= |held|
        invariant want.Some? ==> count <= want.value
        decreases |held| - used
      {
        BoundStep(find, held, count, |held|);
        assert held[used..|held|] == held[used..];
        var found := find(held[used..]);
        if count + 1 < |Bounds(find, held)| {
          BoundWithin(find, held, count + 1);
        }
        if found.None? { break; }
        used, count := used + found.value, count + 1;
      }
    }

    /** How many of the records that end in the window, up to `want`, and the bytes they take. */
    method Walk(find: Finder, want: Option<nat>) returns (used: nat, count: nat)
      requires Valid(find)
      ensures pos + used <= filled && (want.Some? ==> count <= want.value)
      ensures TailTaken() ==> count == 0
      ensures !TailTaken() ==> walked + count < |bounds| && bounds[walked + count] == At() + used
      ensures !TailTaken() && (want.None? || count < want.value) ==>
                walked + count + 1 == |bounds| || Loaded() < bounds[walked + count + 1]
    {
      var held := buf[pos..filled];
      used, count := Scan(find, held, want);
      if TailTaken() {
        assert Keeps(Placing);
        FinderOnEmpty(find);
      } else {
        HeldIsRegion();
        HeldBounds(find, region, walked, Loaded(), held, count);
      }
    }

    // -------------------------------------------------------------- growing, sliding, reading

    /** Makes the buffer twice as long where one record takes all of it. */
    method GrowIfFull()
      requires Consistent()
      modifies this`buf
      ensures Consistent() && Remainder() == old(Remainder())
      ensures !eof && pos == 0 ==> filled < |buf|
    {
      Opened();
      if !eof && pos == 0 && filled == |buf| {
        var more := seq(|buf|, _ => 0);
        JoinParts(buf, more);
        SliceOfJoinLeft(buf, more, pos, filled);
        buf := buf + more;
      }
    }

    /** Steps over the frame ends where the loaded bytes stop, refusing one inside a record. */
    method PassFrameEnds() returns (ok: bool)
      requires Consistent() && !eof
      modifies this`nextFrameEnd
      ensures Consistent()
      ensures ok ==> AllPast(frameEnds, nextFrameEnd, frameEndBase + offset + filled + 1)
      ensures !ok ==> pos != filled && frameEndBase + start + Loaded() in frameEnds
    {
      Opened();
      var next := nextFrameEnd;
      while next < |frameEnds| && frameEnds[next] - frameEndBase == offset + filled
        invariant nextFrameEnd <= next <= |frameEnds|
        invariant forall i :: nextFrameEnd <= i < next ==>
                                frameEnds[i] == frameEndBase + start + Loaded()
        invariant nextFrameEnd < next ==> pos == filled
      {
        if pos != filled {
          return false;
        }
        next := next + 1;
      }
      assert bounds[walked] == At();
      nextFrameEnd := next;
      return true;
    }

    /** Moves what is not handed out to the front of the buffer. */
    method Slide()
      requires Consistent() && !TailTaken()
      modifies this`buf, this`filled, this`offset, this`pos, this`front
      ensures Consistent() && !TailTaken()
      ensures pos == 0 && |buf| == old(|buf|) && filled == old(filled - pos)
      ensures Loaded() == old(Loaded()) && At() == old(At())
      ensures Remainder() == old(Remainder())
    {
      if pos > 0 {
        Opened();
        HeldIsRegion();
        JoinParts(buf[pos..filled], buf[filled - pos..]);
        Whole(buf[pos..filled]);
        buf := buf[pos..filled] + buf[filled - pos..];
        filled, offset, pos := filled - pos, offset + pos, 0;
        front := if onBoundary then Some(walked) else None;
      }
    }

    /** One read behind what is held. Asking for something, it returns nothing only at the end. */
    method ReadOn(len: nat)
      requires Consistent() && !eof && pos == 0 && HoldsNoEnd() && 0 < len <= |buf| - filled
      requires AllPast(frameEnds, nextFrameEnd, frameEndBase + offset + filled + len)
      modifies this`buf, this`filled, this`eof, source`at, source`left
      ensures Consistent() && At() == old(At())
      ensures !eof ==> old(Loaded()) < Loaded()
      ensures eof ==> Loaded() == old(Loaded()) && Remainder() == old(Remainder())
    {
      Opened();
      var got := source.Read(len);
      Receive(len, got);
    }

    method Store(got: Bytes)
      requires BufferedBut(|got|) && !eof && filled + |got| <= |buf|
      requires Loaded() + |got| <= |region| && got == region[Loaded()..Loaded() + |got|]
      requires got == [] ==> Loaded() == |region|
      modifies this`buf, this`filled, this`eof
      ensures Buffered() && filled == old(filled) + |got| && (eof <==> got == [])
      ensures buf[..old(filled)] == old(buf[..filled])
    {
      CopiedOn(buf, filled, region, offset - start, got);
      SliceOfJoinLeft(buf[..filled] + got, buf[filled + |got|..], 0, filled);
      buf := buf[..filled] + got + buf[filled + |got|..];
      filled, eof := filled + |got|, got == [];
    }

    /** Takes in what was read. */
    method Receive(ghost len: nat, got: Bytes)
      requires BufferedBut(|got|) && Placed() && Guarded() && Judged()
      requires !eof && pos == 0 && NoEndBy(bounds, walked, Loaded()) && |got| <= len <= |buf| - filled && len > 0
      requires AllPast(frameEnds, nextFrameEnd, frameEndBase + offset + filled + len)
      requires Loaded() + |got| <= |region| && got == region[Loaded()..Loaded() + |got|]
      requires got == [] ==> Loaded() == |region|
      modifies this`buf, this`filled, this`eof
      ensures Consistent() && At() == old(At()) && Loaded() == old(Loaded()) + |got|
      ensures eof <==> got == []
      ensures eof ==> Remainder() == old(Remainder())
    {
      ghost var was := filled;
      Store(got);
      GuardsGoOn(frameEnds, nextFrameEnd, frameEndBase, start, offset, was, bounds, len, filled, eof);
      StandsOn(bounds, walked, offset - start, pos, was, front, onBoundary, filled, eof);
      Closed();
    }

    /** Slides, then reads on behind what is held, up to the next frame end. `false` once the source
        is spent. */
    method Refill() returns (r: Result<bool, ReadError>)
      requires Consistent() && HoldsNoEnd() && (!eof && pos == 0 ==> filled < |buf|)
      modifies this`offset, this`nextFrameEnd, this`buf, this`filled, this`pos, this`eof, this`front
      modifies source`at, source`left
      ensures Consistent()
      ensures At() == old(At()) && old(Loaded()) <= Loaded()
      ensures r.Ok? && r.value ==> old(Loaded()) < Loaded()
      ensures r.Ok? && !r.value ==> eof && Remainder() == old(Remainder()) && Loaded() == old(Loaded())
      ensures r.Err? ==> r.error == IncompleteAtFrameEnd && pos != filled && !eof
      ensures r.Err? ==> frameEndBase + start + Loaded() in frameEnds
      ensures r.Err? ==> Loaded() == old(Loaded()) && Remainder() == old(Remainder())
    {
      if eof { return Ok(false); }
      assert Keeps(Placing) && Keeps(Guarding) && Keeps(Judging);
      var ok := PassFrameEnds();
      if !ok { return Err(IncompleteAtFrameEnd); }
      Slide();
      assert Keeps(Guarding) && Keeps(Judging);
      var available := |buf| - filled;
      var untilFrameEnd := available;
      if nextFrameEnd < |frameEnds| {
        untilFrameEnd := Min(frameEnds[nextFrameEnd] - frameEndBase - (offset + filled), available);
      }
      ReadOn(untilFrameEnd);
      return Ok(!eof);
    }

    // -------------------------------------------------------------- handing records out

    /** `run` holds the records of the region from `from` up to where the walk now is. */
    ghost predicate Holds(run: Run, from: nat)
      requires walked < |bounds|
      reads this
    {
      && !TailTaken()
      && run.count > 0 && walked == from + run.count
      && run.start + run.len <= |buf|
      && bounds[from] <= bounds[walked] <= |region|
      && BytesOf(run) == region[bounds[from]..bounds[walked]]
    }

    /** The bytes after the last record that the walk can still see. */
    ghost function RestOf(): Bytes
      requires walked < |bounds|
      reads this
    {
      if TailTaken() then [] else Cut(region, bounds[|bounds| - 1], |region|)
    }

    /** The walk ran out: every record was handed out. */
    ghost predicate RanOut()
      requires pos <= filled <= |buf| && walked < |bounds|
      reads this
    {
      eof && walked == |bounds| - 1 && Remainder() == RestOf()
    }

    lemma NothingLeft(find: Finder)
      requires Valid(find) && eof && HoldsNoEnd()
      ensures RanOut()
    {
      Opened();
      if !TailTaken() {
        if walked + 1 < |bounds| {
          BoundWithin(find, region, walked + 1);
        }
        HeldIsRegion();
      }
    }

    /** Reads that came to the end met no frame end inside a record. */
    lemma SpentIsClean()
      requires Consistent() && eof
      ensures clean
    {
      Opened();
    }

    /** Nor did the walk, as far as it has come. */
    lemma WalkedIsClean(i: nat)
      requires Consistent() && i < |frameEnds| && frameEndBase + start < frameEnds[i]
      requires frameEnds[i] <= frameEndBase + start + bounds[walked]
      ensures frameEnds[i] - (frameEndBase + start) in bounds
    {
      Opened();
    }

    lemma InsideARecord(find: Finder)
      requires Valid(find) && Broken()
      ensures !clean
    {
      Opened();
      NoBoundBetween(find, region, walked, Loaded());
      var i :| 0 <= i < |frameEnds| && frameEnds[i] == frameEndBase + start + Loaded();
      assert !EndIsClean(bounds, |region|, frameEndBase + start, frameEnds, i);
    }

    /** The reads stopped at a frame end with part of a record in hand. */
    ghost predicate Broken()
      requires walked < |bounds|
      reads this
    {
      !eof && HoldsNoEnd() && pos != filled && frameEndBase + start + Loaded() in frameEnds
    }

    /** The next records of the region, as many as end in the window and at most `want`, reading on
        until one turns up. */
    method Next(find: Finder, want: Option<nat>) returns (r: Result<Option<Run>, ReadError>)
      requires Valid(find)
      modifies this, source
      ensures Valid(find) && Where() == old(Where())
      ensures r.Ok? && r.value.Some? ==> Holds(r.value.value, old(walked)) && !old(TailTaken())
      ensures r.Ok? && r.value.Some? && want.Some? ==> r.value.value.count <= want.value
      ensures r.Ok? && r.value.Some? && (want.None? || r.value.value.count < want.value) ==> HoldsNoEnd()
      ensures r.Ok? && r.value.None? && want != Some(0) ==> RanOut()
      ensures !(r.Ok? && r.value.Some?) ==> walked == old(walked) && At() == old(At())
      ensures r.Err? ==> r.error == IncompleteAtFrameEnd && Broken() && !clean
    {
      if want == Some(0) { return Ok(None); }
      r := Search(find, want);
      if r.Err? {
        InsideARecord(find);
      } else if r.value.None? {
        NothingLeft(find);
      }
    }

    method Search(find: Finder, want: Option<nat>) returns (r: Result<Option<Run>, ReadError>)
      requires Valid(find) && want != Some(0)
      modifies this, source
      ensures Valid(find) && Where() == old(Where())
      ensures r.Ok? && r.value.Some? ==> Holds(r.value.value, old(walked)) && !old(TailTaken())
      ensures r.Ok? && r.value.Some? && want.Some? ==> r.value.value.count <= want.value
      ensures r.Ok? && r.value.Some? && (want.None? || r.value.value.count < want.value) ==> HoldsNoEnd()
      ensures r.Ok? && r.value.None? ==> eof && HoldsNoEnd()
      ensures !(r.Ok? && r.value.Some?) ==> walked == old(walked) && At() == old(At())
      ensures r.Err? ==> r.error == IncompleteAtFrameEnd && Broken()
    {
      while true
        invariant Valid(find) && Where() == old(Where())
        invariant walked == old(walked) && At() == old(At())
        decreases |region| - Loaded()
      {
        var run := TakeHeld(find, want);
        if run.Some? { return Ok(run); }
        var more := ReadMore();
        if more.Err? { return Err(more.error); }
        if !more.value { return Ok(None); }
      }
    }

    /** Hands out the records that end in the window, if any does. */
    method TakeHeld(find: Finder, want: Option<nat>) returns (run: Option<Run>)
      requires Valid(find) && want != Some(0)
      modifies this`pos, this`walked, this`onBoundary
      ensures Valid(find)
      ensures run.None? ==> HoldsNoEnd() && walked == old(walked) && pos == old(pos)
      ensures run.Some? ==> Holds(run.value, old(walked)) && !old(TailTaken())
      ensures run.Some? && want.Some? ==> run.value.count <= want.value
      ensures run.Some? && (want.None? || run.value.count < want.value) ==> HoldsNoEnd()
    {
      var used, count := Walk(find, want);
      if count == 0 { return None; }
      RecordsEndHere(find, used, count);
      var held := HandOut(used, count);
      return Some(held);
    }

    /** A record that ends in what is buffered takes bytes, and the source is not spent. */
    lemma RecordsEndHere(find: Finder, used: nat, count: nat)
      requires Valid(find) && !TailTaken() && count > 0 && walked + count < |bounds|
      requires bounds[walked + count] == At() + used && pos + used <= filled
      ensures used > 0 && !eof
    {
      Opened();
      HeldIsRegion();
      BoundsRise(find, region, walked, walked + count);
      if count > 1 { BoundsRise(find, region, walked + 1, walked + count); }
    }

    /** Makes room and reads on, the window holding no further record end. */
    method ReadMore() returns (r: Result<bool, ReadError>)
      requires Consistent() && HoldsNoEnd()
      modifies this`offset, this`nextFrameEnd, this`buf, this`filled, this`pos, this`eof, this`front
      modifies source`at, source`left
      ensures Consistent() && At() == old(At())
      ensures r.Ok? && r.value ==> old(Loaded()) < Loaded()
      ensures r.Ok? && !r.value ==> eof && HoldsNoEnd()
      ensures r.Err? ==> r.error == IncompleteAtFrameEnd && Broken()
    {
      GrowIfFull();
      r := Refill();
    }

    static lemma SameSlice(a: Bytes, i: nat, j: nat, b: Bytes, k: nat, l: nat, len: nat)
      requires i + len <= j <= |a| && k + len <= l <= |b| && a[i..j] == b[k..l]
      ensures a[i..i + len] == b[k..k + len]
    {
      TakeOfSlice(a, i, j, len);
      TakeOfSlice(b, k, l, len);
    }

    method HandOut(used: nat, count: nat) returns (run: Run)
      requires Consistent() && !TailTaken() && !eof && count > 0 && used > 0
      requires pos + used <= filled && walked + count < |bounds|
      requires bounds[walked + count] == At() + used
      modifies this`pos, this`walked, this`onBoundary
      ensures Consistent() && Holds(run, old(walked))
      ensures run.count == count
    {
      Opened();
      HeldIsRegion();
      run := Run(pos, used, count);
      SameSlice(buf, pos, filled, region, At(), Loaded(), used);
      pos, walked, onBoundary := pos + used, walked + count, true;
    }

    /** How many records a walk goes past to come to record `index`, back at the front of the buffer if
        need be; `None` where that is behind the buffer. */
    method WalkFrom(index: nat) returns (skip: Option<nat>)
      requires Consistent()
      modifies this`walked, this`pos, this`onBoundary
      ensures Consistent()
      ensures skip.Some? ==> walked + skip.value == index
      ensures skip.Some? ==> (TailTaken() <==> old(TailTaken()) && old(walked) <= index)
      ensures skip.None? ==> walked == old(walked) && pos == old(pos) && index < walked
      ensures old(walked) <= index ==> skip.Some? && walked == old(walked) && pos == old(pos)
      ensures eof && index < old(walked) ==> skip.None?
    {
      Opened();
      if index >= walked { return Some(index - walked); }
      if front.None? || index < front.value { return None; }
      var from := front.value;
      walked, pos, onBoundary := from, 0, true;
      return Some(index - from);
    }

    /** Consumes a nonempty unterminated record, once the source is spent. */
    method FinalRecord() returns (run: Option<Run>)
      requires Consistent() && RanOut()
      modifies this`pos
      ensures Consistent() && RanOut() && Remainder() == []
      ensures run == None <==> old(Remainder()) == []
      ensures run.Some? ==> run.value.start + run.value.len <= |buf| && run.value.count == 1
      ensures run.Some? ==> BytesOf(run.value) == old(Remainder()) && TailTaken()
      ensures run.None? ==> At() == old(At())
    {
      Opened();
      if !eof || pos == filled { return None; }
      var tail := Run(pos, filled - pos, 1);
      pos := filled;
      return Some(tail);
    }

    /** How many records are left in the region: an answer exactly when every frame end inside it is
        a record end. */
    method CountRecords(find: Finder) returns (r: Result<nat, ReadError>)
      requires Valid(find)
      modifies this, source
      ensures Valid(find) && Where() == old(Where())
      ensures r.Ok? <==> clean
      ensures r.Ok? ==> RanOut() && old(walked) + r.value == |bounds| - 1
      ensures r.Ok? ==> (TailTaken() <==> old(TailTaken()))
      ensures r.Err? ==> r.error == IncompleteAtFrameEnd && Broken()
    {
      var count := 0;
      while true
        invariant Valid(find) && Where() == old(Where())
        invariant walked == old(walked) + count
        invariant if count > 0 then !TailTaken() && !old(TailTaken()) else At() == old(At())
        decreases |bounds| - walked
      {
        var more := CountRun(find);
        if more.Err? { return Err(more.error); }
        if more.value == 0 {
          SpentIsClean();
          break;
        }
        count := count + more.value;
      }
      return Ok(count);
    }

    /** How many records the next run holds, none once there is none. */
    method CountRun(find: Finder) returns (r: Result<nat, ReadError>)
      requires Valid(find)
      modifies this, source
      ensures Valid(find) && Where() == old(Where())
      ensures r.Err? ==> !clean && Broken() && r.error == IncompleteAtFrameEnd
      ensures r.Ok? ==> walked == old(walked) + r.value
      ensures r.Ok? && r.value > 0 ==> !TailTaken() && !old(TailTaken())
      ensures r.Ok? && r.value == 0 ==> RanOut() && At() == old(At())
    {
      var run := Next(find, None);
      if run.Err? { return Err(run.error); }
      if run.value.None? { return Ok(0); }
      return Ok(run.value.value.count);
    }
  }
}
