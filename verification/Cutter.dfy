/** Cutting a stream into groups of a fixed number of records (`Cutter` of src/edit.rs). */
module Cutter {
  import opened Bytes
  import opened Records
  import opened Frames
  import opened Framing
  import opened Window
  import opened Stream

  class Cutter {
    const stream: Stream
    /** Records to a group. */
    const records: nat
    /** How many of the group being gathered were found. */
    var found: nat

    /** What is left to be cut: the group handed out last is dropped when the next is asked for. */
    ghost function Left(): Bytes
      requires stream.end <= |stream.rest|
      reads this, stream
    {
      if found == records then stream.rest[stream.end..] else stream.rest
    }

    ghost predicate Valid()
      reads this, stream, stream.source
    {
      stream.Valid() && records > 0 && found == stream.found <= records
    }

    constructor (source: Source, find: Finder, records: nat)
      requires source.Valid() && source.at == source.start && records > 0
      ensures Valid() && fresh(stream) && stream.source == source && stream.find == find
      ensures this.records == records && found < records && Left() == source.region
    {
      this.records, found := records, 0;
      stream := new Stream(source, find);
    }

    /** Where the next group ends. Without one, everything left is in the buffer and its records are
        counted. */
    method NextGroup() returns (r: Option<nat>)
      requires Valid()
      modifies this, stream, stream.source`at, stream.source`left
      ensures Valid() && stream.rest == old(Left())
      ensures r.Some? ==> && found == records && r.value == stream.end <= |stream.buf|
                          && records < |stream.bounds| && stream.end == stream.bounds[records]
      ensures r.None? ==> && stream.buf == stream.rest && found < records && found + 1 == |stream.bounds|
    {
      if found == records {
        stream.DropToLastEnd();
        found := 0;
      }
      while true
        invariant Valid() && stream.rest == old(Left()) && found < records
        decreases |stream.rest| - |stream.buf|
      {
        var end := FindGroup();
        if end.Some? { return end; }
        var more := stream.Fill();
        if !more {
          Spent(stream.find, stream.rest, stream.found);
          return None;
        }
      }
    }

    static lemma Spent(find: Finder, rest: Bytes, found: nat)
      ensures found + 1 < |Bounds(find, rest)| ==> Bounds(find, rest)[found + 1] <= |rest|
    {
      if found + 1 < |Bounds(find, rest)| { BoundWithin(find, rest, found + 1); }
    }

    /** Looks for the rest of the group in what is buffered. */
    method FindGroup() returns (r: Option<nat>)
      requires Valid() && found < records
      modifies this, stream`end, stream`found
      ensures Valid()
      ensures r.Some? ==> && found == records && r.value == stream.end
      ensures r.None? ==> found < records && stream.Scanned()
    {
      while true
        invariant Valid() && found < records
        decreases records - found
      {
        var end := stream.NextEnd();
        if end.None? { return None; }
        found := found + 1;
        if found == records { return end; }
      }
    }

    /** What is left over once no group can be made up. */
    method TakeRemainder() returns (bytes: Bytes)
      requires Valid() && found < records && stream.buf == stream.rest
      modifies stream
      ensures bytes == old(stream.rest)
    {
      bytes := stream.TakeBuffered();
    }
  }

  /** The groups a cutter hands out, and what is left over, are the frames of the count. */
  lemma GroupIsFrame(find: Finder, left: Bytes, n: nat, target: nat)
    requires n > 0
    ensures n < |Bounds(find, left)| ==>
              && Bounds(find, left)[n] <= |left|
              && Framed(find, left, ByCount(n), target)
                 == [left[..Bounds(find, left)[n]]] + Framed(find, left[Bounds(find, left)[n]..], ByCount(n), target)
              && Full(find, left[..Bounds(find, left)[n]], n)
    ensures n >= |Bounds(find, left)| ==>
              Framed(find, left, ByCount(n), target) == if left == [] then [] else [left]
  {
    CountIsDue(find, left, n, target, 1);
    if n < |Bounds(find, left)| {
      FramedOne(find, left, ByCount(n), target, n);
      CutIsFull(find, left, n);
    }
  }
}
