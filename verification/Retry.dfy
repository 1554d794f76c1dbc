/** Compressing with fewer records to a frame, or a larger target, until the limit holds
    (`compress_with_retry` of src/seekzstdsep_lib.rs). */
module Retry {
  import opened Bytes
  import opened Records
  import opened Frames
  import opened Window
  import opened Framing
  import opened Compressor
  import opened Placement

  const WORD: nat := 0x1_0000_0000_0000_0000

  /** What one attempt is made with. */
  datatype Attempt = Attempt(target: nat, given: Option<nat>)

  /** `current as usize`, for a signed 64-bit number. */
  function Unsigned(current: int): nat {
    current % WORD
  }

  /** What the next attempt is made with, the last having come to `current` records a frame: half as
      many, or twice the target where they cannot be halved. */
  function NextAttempt(a: Attempt, current: int): Attempt {
    var line := Unsigned(current);
    if line < 2 then Attempt(a.target * 2 % WORD, Some(line)) else Attempt(a.target, Some(line / 2))
  }

  /** Every attempt but the first has a count, below the largest signed one. */
  predicate Counted(a: Attempt) {
    a.given.Some? && a.given.value < 0x8000_0000_0000_0000
  }

  lemma NextIsCounted(a: Attempt, current: int)
    ensures Counted(NextAttempt(a, current))
  {
  }

  /** From then on the count halves until it cannot, and then the target doubles. */
  lemma CountedNext(a: Attempt, len: nat)
    requires Counted(a) && 0 < a.target < len <= USIZE_MAX / 2
    ensures GivenCount(a.given) == a.given.value != -1
    ensures var next := NextAttempt(a, a.given.value);
            if a.given.value < 2 then next == Attempt(a.target * 2, a.given)
            else next == Attempt(a.target, Some(a.given.value / 2))
  {
  }

  /** How far the target is from the whole input. */
  function Gap(target: nat, len: nat): nat {
    if target < len then len - target else 0
  }

  /** A failure of a positive limit puts the target below the input. */
  lemma FailedBelow(target: nat, multiplier: nat, len: nat)
    requires multiplier > 0 && Limit(target, multiplier) < len <= USIZE_MAX
    ensures target < len
  {
    FirstRecordMonotone(target, 1, multiplier);
    assert FirstRecord(target, 1) == target;
  }

  /** Retries until an attempt succeeds. The staging file holds the last attempt alone, and is what is
      delivered. */
  method CompressWithRetry(source: Source, find: Finder, target: nat, same: bool, multiplier: nat, given: Option<nat>)
    returns (r: Result<seq<Bytes>, CompressError>, ghost last: Attempt)
    requires |source.content| <= USIZE_MAX / 2
    requires (target > 0 && multiplier > 0) || source.content == [] || !same
    modifies source
    ensures r.Ok? ==> r.value == Output(find, source.content, RuleOf(same, GivenCount(last.given)), last.target)
    ensures r.Err? ==> !same && r.error == TooLong
    ensures last == Attempt(target, given) || (same && Counted(last))
  {
    var attempt := Attempt(target, given);
    var staging: seq<Bytes> := [];
    var first := true;
    while true
      invariant staging == [] && ((multiplier > 0 && attempt.target > 0) || source.content == [] || !same)
      invariant first ==> attempt == Attempt(target, given)
      invariant !first ==> same && Counted(attempt)
      decreases first, if attempt.given.Some? then attempt.given.value else 0, Gap(attempt.target, |source.content|)
    {
      source.Seek(0, |source.content|);
      assert source.region == source.content;
      r := Compress(source, find, attempt.target, same, multiplier, attempt.given);
      if r.Ok? {
        staging := staging + r.value;
        return Ok(staging), attempt;
      }
      if r.error == TooLong { return r, attempt; }
      FailedBelow(attempt.target, multiplier, |source.content|);
      var partial: seq<Bytes> := *;
      staging := staging + partial;
      NextIsCounted(attempt, r.error.current);
      if !first { CountedNext(attempt, |source.content|); }
      attempt := NextAttempt(attempt, r.error.current);
      first := false;
      staging := [];
    }
  }

  /** What is delivered is the whole input, uniform at the count of the last attempt. */
  lemma RetriedIsUniform(find: Finder, data: Bytes, last: Attempt)
    ensures var frames := Output(find, data, RuleOf(true, GivenCount(last.given)), last.target);
            && Flatten(frames) == data
            && exists n :: Uniform(find, frames, n) && (Counted(last) ==> n == PerFrame(last.given.value))
  {
    var count := GivenCount(last.given);
    var frames := Output(find, data, RuleOf(true, count), last.target);
    OutputConserves(find, data, RuleOf(true, count), last.target);
    FramesAreUniform(find, data, last.given, last.target);
    assert Uniform(find, frames, SetBy(find, frames, count));
  }

  /** With a limit of zero the retries never end: however many attempts are made on an input that is not
      empty, each is refused in a way that asks for another. */
  method RetryZeroLimit(source: Source, find: Finder, target: nat, multiplier: nat, given: Option<nat>, attempts: nat)
    returns (refusals: seq<CompressError>)
    requires (target == 0 || multiplier == 0) && source.content != []
    modifies source
    ensures |refusals| == attempts && forall i :: 0 <= i < attempts ==> refusals[i].Retry?
  {
    var attempt := Attempt(target, given);
    refusals := [];
    while |refusals| < attempts
      invariant |refusals| <= attempts && (attempt.target == 0 || multiplier == 0)
      invariant forall i :: 0 <= i < |refusals| ==> refusals[i].Retry?
    {
      source.Seek(0, |source.content|);
      assert source.region == source.content;
      var r := Compress(source, find, attempt.target, true, multiplier, attempt.given);
      attempt := NextAttempt(attempt, r.error.current);
      refusals := refusals + [r.error];
    }
  }
}
