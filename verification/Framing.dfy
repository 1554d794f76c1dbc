/** How the compressor divides its input into frames (`docs/format.md` and
    `convert_records_to_seekable_zst_reader_with_opts` of src/seekzstdsep_lib.rs): a function of the
    input alone, whatever the reads it arrives in. */
module Framing {
  import opened Bytes
  import opened Seqs
  import opened Records
  import opened Frames

  /** When a frame is due: at the first record end at or past the target, every time or for the first
      frame only, which then sets the count; or at a count. */
  datatype Rule = BySize | Auto | ByCount(n: int)

  /** Whether `k` records that end at `b` fill a frame. */
  predicate Enough(rule: Rule, target: nat, k: nat, b: nat) {
    if rule.ByCount? then k >= rule.n else b >= target
  }

  /** The first count of records from `k` on that fills a frame. */
  function DueFrom(find: Finder, data: Bytes, rule: Rule, target: nat, k: nat): (due: Option<nat>)
    ensures due.Some? ==> k <= due.value < |Bounds(find, data)|
                          && Enough(rule, target, due.value, Bounds(find, data)[due.value])
    decreases |Bounds(find, data)| - k
  {
    if k >= |Bounds(find, data)| then None
    else if Enough(rule, target, k, Bounds(find, data)[k]) then Some(k)
    else DueFrom(find, data, rule, target, k + 1)
  }

  /** How many records the next frame holds; `None` where the rest is the last frame. */
  function Due(find: Finder, data: Bytes, rule: Rule, target: nat): Option<nat> {
    DueFrom(find, data, rule, target, 1)
  }

  function NextRule(rule: Rule, k: nat): Rule {
    if rule == Auto then ByCount(k) else rule
  }

  lemma DueLeaves(find: Finder, data: Bytes, rule: Rule, target: nat, k: nat)
    requires Due(find, data, rule, target) == Some(k)
    ensures 1 <= k < |Bounds(find, data)| && 0 < Bounds(find, data)[k] <= |data|
  {
    BoundsRise(find, data, 0, k);
    BoundWithin(find, data, k);
  }

  /** The frames of `data`, what is left over last. */
  function Framed(find: Finder, data: Bytes, rule: Rule, target: nat): seq<Bytes>
    decreases |data|
  {
    match Due(find, data, rule, target)
    case None => if data == [] then [] else [data]
    case Some(k) =>
      DueLeaves(find, data, rule, target, k);
      var b := Bounds(find, data)[k];
      [data[..b]] + Framed(find, data[b..], NextRule(rule, k), target)
  }

  /** One frame more. */
  lemma FramedOne(find: Finder, data: Bytes, rule: Rule, target: nat, k: nat)
    requires Due(find, data, rule, target) == Some(k)
    ensures k < |Bounds(find, data)| && Bounds(find, data)[k] <= |data|
    ensures Framed(find, data, rule, target)
            == [data[..Bounds(find, data)[k]]] + Framed(find, data[Bounds(find, data)[k]..], NextRule(rule, k), target)
  {
    DueLeaves(find, data, rule, target, k);
  }

  // ---------------------------------------------------------------- nothing is lost

  lemma {:induction false} FramedConserves(find: Finder, data: Bytes, rule: Rule, target: nat)
    ensures Flatten(Framed(find, data, rule, target)) == data
    decreases |data|
  {
    var due := Due(find, data, rule, target);
    if due.None? {
      FlattenOne(data);
    } else {
      DueLeaves(find, data, rule, target, due.value);
      var b := Bounds(find, data)[due.value];
      FramedConserves(find, data[b..], NextRule(rule, due.value), target);
      FlattenCons(data[..b], Framed(find, data[b..], NextRule(rule, due.value), target));
      SplitAt(data, b);
    }
  }

  // ---------------------------------------------------------------- every frame at the count

  /** The records one frame of a count rule takes. */
  function PerFrame(n: int): nat {
    if n < 1 then 1 else n
  }

  /** A count is due as soon as there are that many records. */
  lemma {:induction false} CountIsDue(find: Finder, data: Bytes, n: int, target: nat, k: nat)
    requires 1 <= k <= PerFrame(n)
    ensures DueFrom(find, data, ByCount(n), target, k)
            == if PerFrame(n) < |Bounds(find, data)| then Some(PerFrame(n)) else None
    decreases PerFrame(n) - k
  {
    if k < PerFrame(n) && k < |Bounds(find, data)| {
      CountIsDue(find, data, n, target, k + 1);
    }
  }

  lemma CutIsFull(find: Finder, data: Bytes, k: nat)
    requires k < |Bounds(find, data)| && Bounds(find, data)[k] <= |data|
    ensures Full(find, data[..Bounds(find, data)[k]], k)
  {
    CutAtBound(find, data, k);
  }

  /** Frames at a count: every frame but the last is full, the last holds at most the count. */
  lemma {:induction false} CountFramesAreUniform(find: Finder, data: Bytes, n: int, target: nat)
    requires data != []
    ensures Uniform(find, Framed(find, data, ByCount(n), target), PerFrame(n))
    decreases |data|
  {
    var m := PerFrame(n);
    CountIsDue(find, data, n, target, 1);
    LastBound(find, data);
    if m < |Bounds(find, data)| {
      FramedOne(find, data, ByCount(n), target, m);
      DueLeaves(find, data, ByCount(n), target, m);
      CutIsFull(find, data, m);
      var b := Bounds(find, data)[m];
      if data[b..] == [] {
        assert Due(find, [], ByCount(n), target) == None by {
          CountIsDue(find, [], n, target, 1);
          FinderOnEmpty(find);
        }
        EmptyJoins([data[..b]]);
        OneFrame(find, data[..b], m);
      } else {
        CountFramesAreUniform(find, data[b..], n, target);
        UniformCons(find, data[..b], Framed(find, data[b..], ByCount(n), target), m);
      }
    } else {
      OneFrame(find, data, m);
    }
  }

  lemma OneFrame(find: Finder, frame: Bytes, n: nat)
    requires n > 0 && |RecordsOf(find, frame)| <= n
    ensures Uniform(find, [frame], n)
  {
    assert [frame][..0] == [];
  }

  /** The first record end at or past the target, and none before it. */
  lemma {:induction false} DueIsFirst(find: Finder, data: Bytes, rule: Rule, target: nat, k: nat, j: nat)
    requires k <= j < |Bounds(find, data)|
    requires var due := DueFrom(find, data, rule, target, k); due.None? || j < due.value
    ensures !Enough(rule, target, j, Bounds(find, data)[j])
    decreases j - k
  {
    if k < j {
      DueIsFirst(find, data, rule, target, k + 1, j);
    }
  }

  /** Frame 0 ends at the first record end at or past the target; where there is none it is everything. */
  ghost predicate EndsFirst(find: Finder, data: Bytes, target: nat, frames: seq<Bytes>)
    requires frames != []
  {
    var bounds, k := Bounds(find, data), |RecordsOf(find, frames[0])|;
    if exists j :: 0 < j < |bounds| && target <= bounds[j] then
      && 0 < k < |bounds| && |frames[0]| == bounds[k] && target <= bounds[k]
      && forall j :: 0 < j < k ==> bounds[j] < target
    else frames == [data]
  }

  lemma DueEndsFirst(find: Finder, data: Bytes, target: nat, frames: seq<Bytes>)
    requires frames != [] && frames == Framed(find, data, Auto, target)
    requires var due := Due(find, data, Auto, target);
             due.Some? ==> && |RecordsOf(find, frames[0])| == due.value
                           && |frames[0]| == Bounds(find, data)[due.value]
    ensures EndsFirst(find, data, target, frames)
  {
    var bounds, due := Bounds(find, data), Due(find, data, Auto, target);
    forall j | 0 < j < |bounds| && (due.Some? ==> j < due.value)
      ensures bounds[j] < target
    {
      DueIsFirst(find, data, Auto, target, 1, j);
    }
  }

  /** Uniform at the count frame 0 comes to, which ends at the first record end at or past the target. */
  lemma AutoIsUniform(find: Finder, data: Bytes, target: nat)
    requires data != []
    ensures var frames := Framed(find, data, Auto, target);
            && frames != [] && EndsFirst(find, data, target, frames)
            && Uniform(find, frames, PerFrame(|RecordsOf(find, frames[0])|))
  {
    var due := Due(find, data, Auto, target);
    if due.None? {
      DueEndsFirst(find, data, target, [data]);
      OneFrame(find, data, PerFrame(|RecordsOf(find, data)|));
    } else {
      var k := due.value;
      FramedOne(find, data, Auto, target, k);
      DueLeaves(find, data, Auto, target, k);
      CutIsFull(find, data, k);
      DueEndsFirst(find, data, target, Framed(find, data, Auto, target));
      var b := Bounds(find, data)[k];
      if data[b..] == [] {
        assert Framed(find, [], ByCount(k), target) == [] by {
          CountIsDue(find, [], k, target, 1);
          FinderOnEmpty(find);
        }
        EmptyJoins([data[..b]]);
        OneFrame(find, data[..b], k);
      } else {
        CountFramesAreUniform(find, data[b..], k, target);
        UniformCons(find, data[..b], Framed(find, data[b..], ByCount(k), target), k);
      }
    }
  }

  // ---------------------------------------------------------------- the older compressor

  /** Whether a due frame is compressed at all. The older compressor counts a frame's bytes without
      the `sep` bytes of its last separator, and where a frame cut by size has no more than `sep` of
      them it drops the frame. The extracted one leaves nothing out: `sep` is 0. */
  predicate Kept(rule: Rule, sep: nat, b: nat) {
    rule.ByCount? || b > 2 * sep
  }

  /** What a compressor that leaves out `sep` bytes makes of `data`. */
  function Cuts(find: Finder, data: Bytes, rule: Rule, target: nat, sep: nat): seq<Bytes>
    decreases |data|
  {
    match Due(find, data, rule, target + sep)
    case None => if data == [] then [] else [data]
    case Some(k) =>
      DueLeaves(find, data, rule, target + sep, k);
      var b := Bounds(find, data)[k];
      (if Kept(rule, sep, b) then [data[..b]] else []) + Cuts(find, data[b..], NextRule(rule, k), target, sep)
  }

  lemma CutsOne(find: Finder, data: Bytes, rule: Rule, target: nat, sep: nat, k: nat)
    requires Due(find, data, rule, target + sep) == Some(k)
    ensures k < |Bounds(find, data)| && Bounds(find, data)[k] <= |data|
    ensures Cuts(find, data, rule, target, sep)
            == (if Kept(rule, sep, Bounds(find, data)[k]) then [data[..Bounds(find, data)[k]]] else [])
               + Cuts(find, data[Bounds(find, data)[k]..], NextRule(rule, k), target, sep)
  {
    DueLeaves(find, data, rule, target + sep, k);
  }

  /** Whether some frame is dropped. */
  ghost predicate Loses(find: Finder, data: Bytes, rule: Rule, target: nat, sep: nat)
    decreases |data|
  {
    match Due(find, data, rule, target + sep)
    case None => false
    case Some(k) =>
      DueLeaves(find, data, rule, target + sep, k);
      var b := Bounds(find, data)[k];
      !Kept(rule, sep, b) || Loses(find, data[b..], NextRule(rule, k), target, sep)
  }

  /** A target past the separator's length drops nothing, nor does leaving nothing out. */
  lemma {:induction false} LargeTargetKeeps(find: Finder, data: Bytes, rule: Rule, target: nat, sep: nat)
    requires target > sep || sep == 0
    ensures !Loses(find, data, rule, target, sep)
    decreases |data|
  {
    var due := Due(find, data, rule, target + sep);
    if due.Some? {
      DueLeaves(find, data, rule, target + sep, due.value);
      LargeTargetKeeps(find, data[Bounds(find, data)[due.value]..], NextRule(rule, due.value), target, sep);
    }
  }

  /** The two compressors make the same frames, the target of one being that of the other and the
      separator, unless the older one drops a frame. */
  lemma {:induction false} CutsAreFramed(find: Finder, data: Bytes, rule: Rule, target: nat, sep: nat)
    requires !Loses(find, data, rule, target, sep)
    ensures Cuts(find, data, rule, target, sep) == Framed(find, data, rule, target + sep)
    decreases |data|
  {
    var due := Due(find, data, rule, target + sep);
    if due.Some? {
      DueLeaves(find, data, rule, target + sep, due.value);
      CutsAreFramed(find, data[Bounds(find, data)[due.value]..], NextRule(rule, due.value), target, sep);
    }
  }

  lemma {:induction false} CutsNoLonger(find: Finder, data: Bytes, rule: Rule, target: nat, sep: nat)
    ensures |Flatten(Cuts(find, data, rule, target, sep))| <= |data|
    ensures Loses(find, data, rule, target, sep) ==> |Flatten(Cuts(find, data, rule, target, sep))| < |data|
    decreases |data|
  {
    var due := Due(find, data, rule, target + sep);
    if due.None? {
      FlattenOne(data);
    } else {
      var k := due.value;
      CutsOne(find, data, rule, target, sep, k);
      DueLeaves(find, data, rule, target + sep, k);
      var b := Bounds(find, data)[k];
      var later := Cuts(find, data[b..], NextRule(rule, k), target, sep);
      CutsNoLonger(find, data[b..], NextRule(rule, k), target, sep);
      if Kept(rule, sep, b) {
        FlattenCons(data[..b], later);
      } else {
        EmptyJoins(later);
      }
    }
  }

  /** Bytes are lost exactly when a frame is dropped. */
  lemma LosesIsLoss(find: Finder, data: Bytes, rule: Rule, target: nat, sep: nat)
    ensures Flatten(Cuts(find, data, rule, target, sep)) == data <==> !Loses(find, data, rule, target, sep)
  {
    CutsNoLonger(find, data, rule, target, sep);
    if !Loses(find, data, rule, target, sep) {
      CutsAreFramed(find, data, rule, target, sep);
      FramedConserves(find, data, rule, target + sep);
    }
  }

  /** With the count taken from frame 0, only frame 0 can be dropped: where the record end that sets
      the count is no more than twice the separator in. */
  lemma {:induction false} CountNeverLoses(find: Finder, data: Bytes, n: int, target: nat, sep: nat)
    ensures !Loses(find, data, ByCount(n), target, sep)
    decreases |data|
  {
    var due := Due(find, data, ByCount(n), target + sep);
    if due.Some? {
      DueLeaves(find, data, ByCount(n), target + sep, due.value);
      CountNeverLoses(find, data[Bounds(find, data)[due.value]..], n, target, sep);
    }
  }

  lemma AutoLosesIff(find: Finder, data: Bytes, target: nat, sep: nat)
    ensures Loses(find, data, Auto, target, sep) <==>
            var due := Due(find, data, Auto, target + sep);
            due.Some? && Bounds(find, data)[due.value] <= 2 * sep
  {
    var due := Due(find, data, Auto, target + sep);
    if due.Some? {
      DueLeaves(find, data, Auto, target + sep, due.value);
      CountNeverLoses(find, data[Bounds(find, data)[due.value]..], due.value, target, sep);
    }
  }
}
