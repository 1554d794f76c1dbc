/** The buffer a record scan walks while it cuts frames (`Stream` of src/record.rs). */
module Stream {
  import opened Bytes
  import opened Seqs
  import opened Records
  import opened Window

  /** `READ_BUF_SIZE` (src/seekzstdsep_lib.rs:32): the most one read asks for. */
  const READ_SIZE: nat := 32768

  /** The record ends from one on are the record ends of what follows it, counted from there. */
  lemma BoundsFrom(find: Finder, data: Bytes, k: nat, j: nat, b: nat, held: Bytes)
    requires k + j < |Bounds(find, data)| && b == Bounds(find, data)[k] <= |data| && held == data[b..]
    ensures j < |Bounds(find, held)|
    ensures b + Bounds(find, held)[j] == Bounds(find, data)[k + j]
  {
    CutAtBound(find, data, k);
    LastBound(find, data);
    LastBound(find, held);
    Whole(data);
    HeldBounds(find, data, k, |data|, held, j);
  }

  class Stream {
    const source: Source
    const find: Finder
    var buf: Bytes
    /** How far the scan has come: the end of the latest record it met. */
    var end: nat

    /** Everything that was not dropped, read or not, and where records end in it. */
    ghost var rest: Bytes
    ghost var bounds: seq<nat>
    /** How many records of it were found. */
    ghost var found: nat

    ghost predicate Valid()
      reads this, source
    {
      && source.Valid() && Follows(source.region, rest, buf, source.left)
      && bounds == Bounds(find, rest)
      && found < |bounds| && bounds[found] == end <= |buf|
    }

    constructor (source: Source, find: Finder)
      requires source.Valid() && source.at == source.start
      ensures Valid() && this.source == source && this.find == find
      ensures rest == source.region && buf == [] && end == 0 && found == 0
    {
      this.source, this.find, buf, end := source, find, [], 0;
      rest, bounds, found := source.region, Bounds(find, source.region), 0;
    }

    /** `rest` is the end of `region`, all of it buffered but `left` bytes. */
    static ghost predicate Follows(region: Bytes, rest: Bytes, buf: Bytes, left: nat) {
      && |rest| <= |region| && rest == region[|region| - |rest|..]
      && left + |buf| == |rest| && buf == rest[..|buf|]
    }

    static lemma ReadsOn(region: Bytes, rest: Bytes, buf: Bytes, left: nat, got: Bytes)
      requires Follows(region, rest, buf, left) && |got| <= left
      requires got == region[|region| - left..|region| - left + |got|]
      ensures Follows(region, rest, buf + got, left - |got|)
    {
      SliceOfDrop(region, |region| - |rest|, |buf|, |buf| + |got|);
      TakeThenSlice(rest, |buf|, |buf| + |got|);
    }

    /** What is left when the first `upto` bytes go. */
    static lemma Drops(region: Bytes, rest: Bytes, buf: Bytes, left: nat, upto: nat)
      requires Follows(region, rest, buf, left) && upto <= |buf|
      ensures Follows(region, rest[upto..], buf[upto..], left)
    {
      DropOfDrop(region, |region| - |rest|, upto);
      DropOfTake(rest, upto, |buf|);
      TakeOfDrop(rest, upto, |buf| - upto);
    }

    /** Asks the source for more, and says whether it had any. */
    method Fill() returns (more: bool)
      requires Valid()
      modifies this`buf, source`at, source`left
      ensures Valid() && old(buf) <= buf
      ensures more ==> |old(buf)| < |buf|
      ensures !more ==> buf == old(buf) == rest
    {
      var got := source.Read(READ_SIZE);
      ReadsOn(source.region, rest, buf, old(source.left), got);
      if got == [] {
        Whole(rest);
        return false;
      }
      buf := buf + got;
      return true;
    }

    /** Whether no record ends in what is buffered past the last one found. */
    ghost predicate Scanned()
      requires found < |bounds|
      reads this
    {
      found + 1 == |bounds| || |buf| < bounds[found + 1]
    }

    /** Scans what is at hand for one record more. */
    method NextEnd() returns (r: Option<nat>)
      requires Valid()
      modifies this`end, this`found
      ensures Valid()
      ensures r.Some? ==> r.value == end && found == old(found) + 1
      ensures r.None? ==> Scanned() && end == old(end) && found == old(found)
    {
      BoundStep(find, rest, found, |buf|);
      DropOfTake(rest, end, |buf|);
      var n := find(buf[end..]);
      if n.None? { return None; }
      end, found := end + n.value, found + 1;
      return Some(end);
    }

    /** The bytes at hand that no record met so far accounts for. */
    function Unscanned(): nat
      requires end <= |buf|
      reads this
    {
      |buf| - end
    }

    /** Forgets the records met so far. */
    method DropToLastEnd()
      requires Valid()
      modifies this`buf, this`end, this`rest, this`bounds, this`found
      ensures Valid() && end == 0 && found == 0
      ensures rest == old(rest[end..]) && buf == old(buf[end..])
    {
      Drops(source.region, rest, buf, source.left, end);
      buf, rest := buf[end..], rest[end..];
      end, bounds, found := 0, Bounds(find, rest), 0;
    }

    /** Forgets the first `k` records, `upto` bytes. */
    method DropFront(upto: nat, ghost k: nat)
      requires Valid() && k <= found && upto == bounds[k] <= end
      modifies this`buf, this`end, this`rest, this`bounds, this`found
      ensures Valid() && rest == old(rest[upto..]) && buf == old(buf[upto..])
      ensures end == old(end) - upto && found == old(found) - k
    {
      Drops(source.region, rest, buf, source.left, upto);
      BoundsFrom(find, rest, k, found - k, upto, rest[upto..]);
      Shorten(upto, k);
    }

    /** Cuts the front of the buffer off. */
    method Shorten(upto: nat, ghost k: nat)
      requires source.Valid() && k <= found && upto <= end <= |buf| && upto <= |rest|
      requires Follows(source.region, rest[upto..], buf[upto..], source.left)
      requires found - k < |Bounds(find, rest[upto..])| && upto + Bounds(find, rest[upto..])[found - k] == end
      modifies this`buf, this`end, this`rest, this`bounds, this`found
      ensures Valid() && rest == old(rest[upto..]) && buf == old(buf[upto..])
      ensures end == old(end) - upto && found == old(found) - k
    {
      buf, end := buf[upto..], end - upto;
      rest, found := rest[upto..], found - k;
      bounds := Bounds(find, rest);
    }

    /** Everything buffered, leaving the stream empty. */
    method TakeBuffered() returns (taken: Bytes)
      requires Valid()
      modifies this`buf, this`end, this`rest, this`bounds, this`found
      ensures Valid() && end == 0 && found == 0 && buf == []
      ensures taken == old(buf) && rest == old(rest[|buf|..])
    {
      Drops(source.region, rest, buf, source.left, |buf|);
      taken := buf;
      buf, rest := [], rest[|buf|..];
      end, bounds, found := 0, Bounds(find, rest), 0;
    }
  }
}
