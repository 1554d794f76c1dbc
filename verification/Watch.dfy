/** What a verifying walk is told and what it refuses (`Watch` of src/record.rs, `FrameJudge` and
    `watch_frames` of src/reader.rs). */
module Watch {
  import opened Bytes
  import opened Seqs
  import opened Records
  import opened Window

  /** What every frame is held to: only frame `last` may hold fewer records, or bytes after them. */
  datatype Judge = Judge(last: nat, perFrame: nat)

  predicate CountAccepted(judge: Judge, frame: nat, held: int) {
    held == judge.perFrame || (frame == judge.last && held < judge.perFrame)
  }

  predicate EndAccepted(judge: Judge, frame: nat, whole: bool) {
    whole || frame == judge.last
  }

  /** How many records end before offset `i` of `at`, counting the offsets from 1. */
  ghost function CountTo(find: Finder, region: Bytes, at: seq<nat>, i: nat): nat
    requires i <= |at| && InRegion(at, |region|)
  {
    if i == 0 then 0 else Count(find, region[..at[i - 1]])
  }

  /** Whether a record ends on offset `i`. */
  ghost predicate WholeAt(find: Finder, region: Bytes, at: seq<nat>, i: nat)
    requires i < |at| && InRegion(at, |region|)
  {
    FragmentOf(find, region[..at[i]]) == []
  }

  /** Whether offset `i` of `at`, frame `first + i`, is accepted: judged by the region alone. */
  ghost predicate Accepted(find: Finder, region: Bytes, at: seq<nat>, first: nat, judge: Judge, i: nat)
    requires i < |at| && InRegion(at, |region|)
  {
    && CountAccepted(judge, first + i, CountTo(find, region, at, i + 1) - CountTo(find, region, at, i))
    && EndAccepted(judge, first + i, WholeAt(find, region, at, i))
  }

  ghost predicate AllAccepted(find: Finder, region: Bytes, at: seq<nat>, first: nat, judge: Judge, upto: nat)
    requires upto <= |at| && InRegion(at, |region|)
    decreases upto
  {
    upto == 0 || (AllAccepted(find, region, at, first, judge, upto - 1)
                  && Accepted(find, region, at, first, judge, upto - 1))
  }

  ghost predicate InRegion(at: seq<nat>, len: nat) {
    && InOrder(at)
    && forall i :: 0 <= i < |at| ==> 0 < at[i] <= len
  }

  /** A run that reaches past an offset tells how many records end before it and whether one ends on
      it, whatever the rest of the run holds. */
  lemma RunTells(find: Finder, region: Bytes, at: seq<nat>, i: nat, k: nat, bytes: Bytes, began: nat)
    requires i < |at| && InRegion(at, |region|)
    requires k < |Bounds(find, region)| && began == Bounds(find, region)[k]
    requires began < at[i] <= began + |bytes| <= |region| && bytes == region[began..began + |bytes|]
    ensures k + Count(find, bytes[..at[i] - began]) == CountTo(find, region, at, i + 1)
    ensures EndsWhole(find, bytes[..at[i] - began]) <==> WholeAt(find, region, at, i)
  {
    var upto := at[i] - began;
    PartOfRun(find, region, k, bytes, upto);
    CountIsRecords(find, bytes[..upto]);
    CountIsRecords(find, region[..at[i]]);
  }

  lemma PartOfRun(find: Finder, region: Bytes, k: nat, bytes: Bytes, upto: nat)
    requires k < |Bounds(find, region)| && Bounds(find, region)[k] + |bytes| <= |region|
    requires bytes == region[Bounds(find, region)[k]..Bounds(find, region)[k] + |bytes|]
    requires upto <= |bytes|
    ensures var x := Bounds(find, region)[k] + upto;
            && |RecordsOf(find, region[..x])| == k + |RecordsOf(find, bytes[..upto])|
            && FragmentOf(find, region[..x]) == FragmentOf(find, bytes[..upto])
  {
    var b := Bounds(find, region)[k];
    CutAtBound(find, region, k);
    TakeOfSlice(region, b, b + |bytes|, upto);
    TakeThenSlice(region, b, b + upto);
    WholeJoins(find, region[..b], bytes[..upto]);
  }

  lemma CountIsRecords(find: Finder, data: Bytes)
    ensures Count(find, data) == |RecordsOf(find, data)|
    ensures data != [] ==> (EndsWhole(find, data) <==> FragmentOf(find, data) == [])
  {
    EndsAreCuts(find, data);
  }

  /** So what the judge is told of the offset decides whether the region has it accepted. */
  lemma TellsAccepted(find: Finder, region: Bytes, at: seq<nat>, first: nat, judge: Judge, i: nat, k: nat, bytes: Bytes,
                      began: nat, before: nat, ended: nat, whole: bool)
    requires i < |at| && InRegion(at, |region|) && before == CountTo(find, region, at, i)
    requires k < |Bounds(find, region)| && began == Bounds(find, region)[k]
    requires began < at[i] <= began + |bytes| <= |region| && bytes == region[began..began + |bytes|]
    requires ended == k + Count(find, bytes[..at[i] - began]) && whole == EndsWhole(find, bytes[..at[i] - began])
    ensures ended == CountTo(find, region, at, i + 1)
    ensures CountAccepted(judge, first + i, ended - before) && EndAccepted(judge, first + i, whole)
            <==> Accepted(find, region, at, first, judge, i)
  {
    RunTells(find, region, at, i, k, bytes, began);
  }

  class Watch {
    const at: seq<nat>
    var next: nat
    /** How far into the region the reports reach. */
    var seen: nat
    /** Records that ended before the last offset reported. */
    var before: nat
    const first: nat
    const judge: Judge

    /** Every offset reported so far was accepted, and `before` is the count at the last of them. */
    ghost predicate Judged(find: Finder, region: Bytes)
      reads this
    {
      && InRegion(at, |region|) && next <= |at|
      && before == CountTo(find, region, at, next)
      && AllAccepted(find, region, at, first, judge, next)
    }

    /** The walk has reported the first `k` records of `region`, and every offset they reach was
        accepted. */
    ghost predicate Valid(find: Finder, region: Bytes, k: nat)
      reads this
    {
      && Judged(find, region)
      && (at != [] ==> k < |Bounds(find, region)| && seen == Bounds(find, region)[k])
      && (next > 0 ==> at[next - 1] <= seen)
      && (next < |at| ==> seen < at[next])
    }

    constructor (at: seq<nat>, first: nat, judge: Judge)
      ensures this.at == at && this.first == first && this.judge == judge
      ensures next == seen == before == 0
    {
      this.at, this.first, this.judge := at, first, judge;
      next, seen, before := 0, 0, 0;
    }

    /** What the judge says of offset `i`, `ended` records having ended before it. */
    method Passed(i: nat, ended: nat, whole: bool) returns (r: Result<(), ReadError>)
      modifies this`before
      ensures r.Ok? <==> CountAccepted(judge, first + i, ended - old(before))
                         && EndAccepted(judge, first + i, whole)
      ensures r.Ok? ==> before == ended
      ensures r.Err? ==> r.error == FrameRefused(first + i)
    {
      if !CountAccepted(judge, first + i, ended - before) {
        return Err(FrameRefused(first + i));
      }
      before := ended;
      if !EndAccepted(judge, first + i, whole) {
        return Err(FrameRefused(first + i));
      }
      return Ok(());
    }

    /** Told of a run of `bytes` that begins at record `k`: reports every offset it reaches. */
    method Saw(find: Finder, ghost region: Bytes, k: nat, bytes: Bytes, count: nat)
      returns (r: Result<(), ReadError>)
      requires Valid(find, region, k)
      requires k + count < |Bounds(find, region)|
      requires Bounds(find, region)[k] + |bytes| == Bounds(find, region)[k + count] <= |region|
      requires bytes == region[Bounds(find, region)[k]..Bounds(find, region)[k] + |bytes|]
      modifies this`next, this`seen, this`before
      ensures r.Ok? ==> Valid(find, region, k + count)
      ensures r.Err? ==> Refused(find, region, Bounds(find, region)[k + count], r.error)
    {
      var began := seen;
      var ended := began + |bytes|;
      seen := ended;
      if next >= |at| || at[next] > ended { return Ok(()); }
      r := ReportAll(find, region, k, bytes, began);
    }

    /** Reports every offset inside the run. */
    method ReportAll(find: Finder, ghost region: Bytes, k: nat, bytes: Bytes, began: nat)
      returns (r: Result<(), ReadError>)
      requires Judged(find, region) && (next < |at| ==> began < at[next]) && (next > 0 ==> at[next - 1] <= began)
      requires k < |Bounds(find, region)| && began == Bounds(find, region)[k]
      requires began + |bytes| <= |region| && bytes == region[began..began + |bytes|]
      modifies this`next, this`before
      ensures r.Ok? ==> Judged(find, region)
      ensures r.Ok? ==> (next > 0 ==> at[next - 1] <= began + |bytes|) && (next < |at| ==> began + |bytes| < at[next])
      ensures r.Err? ==> InRegion(at, |region|) && Refused(find, region, began + |bytes|, r.error)
    {
      while next < |at| && at[next] <= began + |bytes|
        invariant Judged(find, region)
        invariant next < |at| ==> began < at[next]
        invariant next > 0 ==> at[next - 1] <= began + |bytes|
        decreases |at| - next
      {
        var told := Report(find, region, k, bytes, began);
        if told.Err? { return Err(told.error); }
      }
      return Ok(());
    }

    /** Reports the next offset, which lies inside the run. */
    method Report(find: Finder, ghost region: Bytes, k: nat, bytes: Bytes, began: nat)
      returns (r: Result<(), ReadError>)
      requires Judged(find, region) && next < |at|
      requires k < |Bounds(find, region)| && began == Bounds(find, region)[k]
      requires began < at[next] <= began + |bytes| <= |region|
      requires bytes == region[began..began + |bytes|]
      modifies this`next, this`before
      ensures r.Ok? ==> Judged(find, region) && next == old(next) + 1
      ensures r.Err? ==> Refused(find, region, began + |bytes|, r.error)
    {
      var upto := at[next] - began;
      var ended, whole := k + Count(find, bytes[..upto]), EndsWhole(find, bytes[..upto]);
      TellsAccepted(find, region, at, first, judge, next, k, bytes, began, before, ended, whole);
      NextIsJudged(find, region, began + |bytes|);
      r := Passed(next, ended, whole);
      if r.Ok? { next := next + 1; }
    }

    /** Judging the next offset goes on, or ends there. */
    lemma NextIsJudged(find: Finder, region: Bytes, upto: nat)
      requires Judged(find, region) && next < |at| && at[next] <= upto
      ensures Accepted(find, region, at, first, judge, next) ==>
                AllAccepted(find, region, at, first, judge, next + 1)
      ensures !Accepted(find, region, at, first, judge, next) ==>
                Refused(find, region, upto, FrameRefused(first + next))
    {
    }

    /** A refusal names the first frame the region itself condemns, one that ends by `upto`. */
    ghost predicate Refused(find: Finder, region: Bytes, upto: nat, error: ReadError)
      requires InRegion(at, |region|)
    {
      && error.FrameRefused? && first <= error.frame < first + |at| && at[error.frame - first] <= upto
      && !Accepted(find, region, at, first, judge, error.frame - first)
      && AllAccepted(find, region, at, first, judge, error.frame - first)
    }

    /** Told that the walk stopped after `k` records: the offset it never reached is judged as if it
        were where the walk stopped. */
    method Spent(k: nat, whole: bool) returns (r: Result<(), ReadError>)
      requires next <= |at|
      modifies this`next, this`before
      ensures next == old(next) + (if r.Ok? && old(next) < |at| then 1 else 0)
      ensures r.Ok? <==> old(next) == |at| || (CountAccepted(judge, first + old(next), k - old(before))
                                               && EndAccepted(judge, first + old(next), whole))
      ensures r.Err? ==> r.error == FrameRefused(first + old(next))
    {
      if next >= |at| { return Ok(()); }
      r := Passed(next, k, whole);
      if r.Ok? { next := next + 1; }
    }
  }
}
