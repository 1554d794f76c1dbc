/** Where records end (src/record.rs), for any record finder (src/find.rs).

    A finder answers how long the record at the front of `data` is. `EndsFrom` is the source's one
    walk; `RecordsOf` and `FragmentOf` are the same walk as the byte strings it cuts, and every
    streaming, compressing, editing and reading module is specified by them. */
module Records {
  import opened Bytes
  import opened Seqs

  /** The written finder contract: a length is positive and within the data. */
  ghost predicate Contract(find: Bytes -> Option<nat>) {
    forall d :: find(d).Some? ==> 0 < find(d).value <= |d|
  }

  /** An answer does not change when bytes are appended, nor when bytes past the record go. */
  ghost predicate Agrees(find: Bytes -> Option<nat>, d: Bytes, e: Bytes) {
    d <= e ==>
      && (find(d).Some? ==> find(e) == find(d))
      && (find(e).Some? && find(e).value <= |d| ==> find(d) == find(e))
  }

  ghost predicate Stable(find: Bytes -> Option<nat>) {
    forall d, e :: Agrees(find, d, e)
  }

  type Finder = find: Bytes -> Option<nat> | Contract(find) && Stable(find)
    witness (d: Bytes) => None

  // ---------------------------------------------------------------- the walk

  /** The walk of the source: where each record in `data` ends, from position `at` on. */
  function EndsFrom(find: Finder, data: Bytes, at: nat): seq<nat>
    requires at <= |data|
    decreases |data| - at
  {
    match find(data[at..])
    case None => []
    case Some(n) => [at + n] + EndsFrom(find, data, at + n)
  }

  function Ends(find: Finder, data: Bytes): seq<nat> {
    EndsFrom(find, data, 0)
  }

  function Count(find: Finder, data: Bytes): nat {
    |Ends(find, data)|
  }

  predicate EndsWhole(find: Finder, data: Bytes) {
    var ends := Ends(find, data);
    ends != [] && ends[|ends| - 1] == |data|
  }

  /** The record ends of `data`, 0 in front: `Bounds(..)[k]` is where its first `k` records end. */
  function Bounds(find: Finder, data: Bytes): seq<nat> {
    [0] + Ends(find, data)
  }

  /** The whole records of `data` from position `at` on. */
  function RecordsFrom(find: Finder, data: Bytes, at: nat): seq<Bytes>
    requires at <= |data|
    decreases |data| - at
  {
    match find(data[at..])
    case None => []
    case Some(n) => [data[at..at + n]] + RecordsFrom(find, data, at + n)
  }

  function RecordsOf(find: Finder, data: Bytes): seq<Bytes> {
    RecordsFrom(find, data, 0)
  }

  /** Where the last whole record from `at` on ends, and `at` where there is none. */
  function LastFrom(find: Finder, data: Bytes, at: nat): (end: nat)
    requires at <= |data|
    ensures at <= end <= |data|
    decreases |data| - at
  {
    match find(data[at..])
    case None => at
    case Some(n) => LastFrom(find, data, at + n)
  }

  /** What follows the last whole record. */
  function FragmentOf(find: Finder, data: Bytes): Bytes {
    data[LastFrom(find, data, 0)..]
  }

  /** A byte string that is exactly one record. */
  predicate IsRecord(find: Finder, data: Bytes) {
    find(data) == Some(|data|)
  }

  lemma FinderOnEmpty(find: Finder)
    ensures find([]) == None
  {
  }

  // ---------------------------------------------------------------- the walk and what it cuts

  /** One step of the walk. */
  lemma WalkOne(find: Finder, data: Bytes, at: nat, e: nat)
    requires at <= |data| && find(data[at..]) == Some(e - at)
    ensures at < e <= |data|
    ensures EndsFrom(find, data, at) == [e] + EndsFrom(find, data, e)
    ensures RecordsFrom(find, data, at) == [data[at..e]] + RecordsFrom(find, data, e)
    ensures LastFrom(find, data, at) == LastFrom(find, data, e)
  {
  }

  /** The bytes from `at` on are the records found there and then what is left. */
  lemma {:induction false} RecordsTile(find: Finder, data: Bytes, at: nat)
    requires at <= |data|
    ensures Flatten(RecordsFrom(find, data, at)) == data[at..LastFrom(find, data, at)]
    ensures |RecordsFrom(find, data, at)| == |EndsFrom(find, data, at)|
    decreases |data| - at
  {
    var found := find(data[at..]);
    if found.Some? {
      var e := at + found.value;
      RecordsTile(find, data, e);
      FlattenCons(data[at..e], RecordsFrom(find, data, e));
      Slices(data, at, e, LastFrom(find, data, e));
    }
  }

  /** The walk stops where the finder has nothing more to say. */
  lemma {:induction false} WalkStops(find: Finder, data: Bytes, at: nat)
    requires at <= |data|
    ensures find(data[LastFrom(find, data, at)..]) == None
    decreases |data| - at
  {
    var found := find(data[at..]);
    if found.Some? {
      WalkStops(find, data, at + found.value);
    }
  }

  lemma SliceIsRecord(find: Finder, data: Bytes, at: nat)
    requires at <= |data| && find(data[at..]).Some?
    ensures IsRecord(find, data[at..at + find(data[at..]).value])
  {
    var e := at + find(data[at..]).value;
    SlicePrefix(data, at, e);
    assert Agrees(find, data[at..e], data[at..]);
  }

  /** Each record, taken alone, is one record. */
  lemma {:induction false} RecordsAreRecords(find: Finder, data: Bytes, at: nat)
    requires at <= |data|
    ensures forall r :: r in RecordsFrom(find, data, at) ==> IsRecord(find, r)
    decreases |data| - at
  {
    var found := find(data[at..]);
    if found.Some? {
      RecordsAreRecords(find, data, at + found.value);
      SliceIsRecord(find, data, at);
    }
  }

  /** Every byte is in one record or in the fragment; the fragment holds no record; and each
      record, taken alone, is one record. */
  lemma WalkCovers(find: Finder, data: Bytes)
    ensures Flatten(RecordsOf(find, data)) + FragmentOf(find, data) == data
    ensures find(FragmentOf(find, data)) == None
    ensures forall r :: r in RecordsOf(find, data) ==> IsRecord(find, r)
  {
    RecordsTile(find, data, 0);
    WalkStops(find, data, 0);
    RecordsAreRecords(find, data, 0);
    var last := LastFrom(find, data, 0);
    SliceThenDrop(data, 0, last);
    Whole(data);
  }

  /** Entering the walk at one of its own ends leaves the rest of it. */
  lemma {:induction false} WalkFromEnd(find: Finder, data: Bytes, at: nat, k: nat)
    requires at <= |data| && k < |EndsFrom(find, data, at)|
    ensures var e := EndsFrom(find, data, at)[k];
            && at < e <= |data|
            && EndsFrom(find, data, e) == EndsFrom(find, data, at)[k + 1..]
            && LastFrom(find, data, e) == LastFrom(find, data, at)
    decreases k
  {
    var next := at + find(data[at..]).value;
    WalkOne(find, data, at, next);
    var ends := EndsFrom(find, data, next);
    TakeOfCons(next, ends, k);
    assert EndsFrom(find, data, at)[k + 1..] == ends[k..];
    if k == 0 {
      Whole(ends);
    } else {
      WalkFromEnd(find, data, next, k - 1);
    }
  }

  lemma {:induction false} RecordsFromEnd(find: Finder, data: Bytes, at: nat, k: nat)
    requires at <= |data| && k < |EndsFrom(find, data, at)|
    ensures var e := EndsFrom(find, data, at)[k];
            && at < e <= |data|
            && k + 1 <= |RecordsFrom(find, data, at)|
            && RecordsFrom(find, data, e) == RecordsFrom(find, data, at)[k + 1..]
            && Flatten(RecordsFrom(find, data, at)[..k + 1]) == data[at..e]
    decreases k
  {
    var next := at + find(data[at..]).value;
    WalkOne(find, data, at, next);
    var records := RecordsFrom(find, data, next);
    RecordsTile(find, data, next);
    TakeOfCons(data[at..next], records, k);
    FlattenCons(data[at..next], records[..k]);
    if k == 0 {
      Whole(records);
      EmptyJoins(data[at..next]);
    } else {
      RecordsFromEnd(find, data, next, k - 1);
      Slices(data, at, next, EndsFrom(find, data, next)[k - 1]);
    }
  }

  /** What is at, before and after the `k`th record end. */
  lemma AtBound(find: Finder, data: Bytes, k: nat)
    requires k < |Bounds(find, data)|
    ensures var b := Bounds(find, data)[k];
            && b <= |data| && k <= |RecordsOf(find, data)|
            && EndsFrom(find, data, b) == Bounds(find, data)[k + 1..]
            && RecordsFrom(find, data, b) == RecordsOf(find, data)[k..]
            && LastFrom(find, data, b) == LastFrom(find, data, 0)
            && Flatten(RecordsOf(find, data)[..k]) == data[..b]
    ensures |RecordsOf(find, data)| + 1 == |Bounds(find, data)|
  {
    RecordsTile(find, data, 0);
    TakeOfCons(0, Ends(find, data), k);
    Whole(Ends(find, data));
    Whole(RecordsOf(find, data));
    if k == 0 {
      Whole(data);
    } else {
      WalkFromEnd(find, data, 0, k - 1);
      RecordsFromEnd(find, data, 0, k - 1);
      assert Bounds(find, data)[k] == Ends(find, data)[k - 1];
      TakeThenSlice(data, 0, Bounds(find, data)[k]);
      EmptyJoins(data[0..Bounds(find, data)[k]]);
      Whole(data);
    }
  }

  lemma BoundWithin(find: Finder, data: Bytes, k: nat)
    requires k < |Bounds(find, data)|
    ensures Bounds(find, data)[k] <= |data|
  {
    AtBound(find, data, k);
  }

  /** Asking the finder at a record end gives the next one. */
  lemma FindAtBound(find: Finder, data: Bytes, k: nat)
    requires k < |Bounds(find, data)|
    ensures var bounds := Bounds(find, data);
            && bounds[k] <= |data|
            && match find(data[bounds[k]..])
               case None => k + 1 == |bounds|
               case Some(n) => k + 1 < |bounds| && bounds[k + 1] == bounds[k] + n
  {
    AtBound(find, data, k);
    var bounds := Bounds(find, data);
    var later := EndsFrom(find, data, bounds[k]);
    assert |later| == |bounds| - (k + 1);
    if k + 1 < |bounds| {
      assert later[0] == bounds[k + 1];
    }
  }

  /** So it does where the bytes from `upto` on have not been read: what it answers is right, and
      "not yet" means the record ends further on. */
  lemma BoundStep(find: Finder, data: Bytes, k: nat, upto: nat)
    requires k < |Bounds(find, data)| && Bounds(find, data)[k] <= upto <= |data|
    ensures var bounds := Bounds(find, data);
            match find(data[bounds[k]..upto])
            case None => k + 1 == |bounds| || upto < bounds[k + 1]
            case Some(n) => k + 1 < |bounds| && bounds[k + 1] == bounds[k] + n <= upto
  {
    FindAtBound(find, data, k);
    var b := Bounds(find, data)[k];
    SlicePrefix(data, b, upto);
    assert Agrees(find, data[b..upto], data[b..]);
  }

  lemma {:induction false} BoundsRise(find: Finder, data: Bytes, j: nat, k: nat)
    requires j < k < |Bounds(find, data)|
    ensures Bounds(find, data)[j] + (k - j) <= Bounds(find, data)[k]
  {
    FindAtBound(find, data, k - 1);
    if j < k - 1 {
      BoundsRise(find, data, j, k - 1);
    }
  }

  /** No record ends strictly between two neighbouring record ends, nor after the last. */
  lemma NoBoundBetween(find: Finder, data: Bytes, k: nat, x: nat)
    requires k < |Bounds(find, data)| && Bounds(find, data)[k] < x
    requires k + 1 == |Bounds(find, data)| || x < Bounds(find, data)[k + 1]
    ensures x !in Bounds(find, data)
  {
    var bounds := Bounds(find, data);
    forall j | 0 <= j < |bounds|
      ensures bounds[j] != x
    {
      if j < k {
        BoundsRise(find, data, j, k);
      } else if k + 1 < j {
        BoundsRise(find, data, k + 1, j);
      }
    }
  }

  lemma LastBound(find: Finder, data: Bytes)
    ensures |RecordsOf(find, data)| + 1 == |Bounds(find, data)|
    ensures Bounds(find, data)[|RecordsOf(find, data)|] == LastFrom(find, data, 0)
  {
    RecordsTile(find, data, 0);
    var n := |RecordsOf(find, data)|;
    AtBound(find, data, n);
    FindAtBound(find, data, n);
  }

  /** The ends-whole test and the counts of the source, in terms of the records and the fragment. */
  lemma EndsAreCuts(find: Finder, data: Bytes)
    ensures Count(find, data) == |RecordsOf(find, data)|
    ensures EndsWhole(find, data) <==> data != [] && FragmentOf(find, data) == []
  {
    LastBound(find, data);
    var n := Count(find, data);
    assert |FragmentOf(find, data)| == |data| - LastFrom(find, data, 0);
    if n > 0 {
      assert Bounds(find, data)[n] == Ends(find, data)[n - 1];
      BoundsRise(find, data, 0, n);
    }
  }

  // ---------------------------------------------------------------- cutting and joining

  /** The walk from a later position is the walk of the bytes from there, shifted. */
  lemma {:induction false} WalkShifts(find: Finder, data: Bytes, p: nat, at: nat)
    requires p + at <= |data|
    ensures RecordsFrom(find, data, p + at) == RecordsFrom(find, data[p..], at)
    ensures LastFrom(find, data, p + at) == p + LastFrom(find, data[p..], at)
    decreases |data| - at
  {
    DropOfDrop(data, p, at);
    var found := find(data[p + at..]);
    if found.Some? {
      var e := at + found.value;
      WalkShifts(find, data, p, e);
      ShiftOne(find, data, p, at, e);
    }
  }

  lemma ShiftOne(find: Finder, data: Bytes, p: nat, at: nat, e: nat)
    requires p + at <= |data| && find(data[p + at..]) == Some(e - at)
    ensures p + e <= |data| && at < e
    ensures find(data[p..][at..]) == Some(e - at)
    ensures RecordsFrom(find, data, p + at) == [data[p + at..p + e]] + RecordsFrom(find, data, p + e)
    ensures RecordsFrom(find, data[p..], at) == [data[p + at..p + e]] + RecordsFrom(find, data[p..], e)
    ensures LastFrom(find, data, p + at) == LastFrom(find, data, p + e)
    ensures LastFrom(find, data[p..], at) == LastFrom(find, data[p..], e)
  {
    DropOfDrop(data, p, at);
    SliceOfDrop(data, p, at, e);
    WalkOne(find, data, p + at, p + e);
    WalkOne(find, data[p..], at, e);
  }

  /** Bytes that arrive later change nothing already found. */
  lemma {:induction false} WalkGoesOnFrom(find: Finder, a: Bytes, b: Bytes, at: nat)
    requires at <= |a|
    ensures var last := LastFrom(find, a, at);
            && RecordsFrom(find, a + b, at) == RecordsFrom(find, a, at) + RecordsFrom(find, a + b, last)
            && LastFrom(find, a + b, at) == LastFrom(find, a + b, last)
    decreases |a| - at
  {
    var found := find(a[at..]);
    if found.None? {
      EmptyJoins(RecordsFrom(find, a + b, at));
    } else {
      var e := at + found.value;
      WalkGoesOnFrom(find, a, b, e);
      SliceOfJoinLeft(a, b, at, e);
      assert Agrees(find, a[at..], (a + b)[at..]);
      WalkOne(find, a, at, e);
      WalkOne(find, a + b, at, e);
      Assoc([a[at..e]], RecordsFrom(find, a, e), RecordsFrom(find, a + b, LastFrom(find, a, e)));
    }
  }

  /** The walk goes on from the fragment when bytes arrive. */
  lemma WalkGoesOn(find: Finder, a: Bytes, b: Bytes)
    ensures RecordsOf(find, a + b) == RecordsOf(find, a) + RecordsOf(find, FragmentOf(find, a) + b)
    ensures FragmentOf(find, a + b) == FragmentOf(find, FragmentOf(find, a) + b)
  {
    WalkGoesOnFrom(find, a, b, 0);
    FromFragment(find, a, b, LastFrom(find, a, 0));
  }

  lemma FromFragment(find: Finder, a: Bytes, b: Bytes, last: nat)
    requires last <= |a|
    ensures RecordsFrom(find, a + b, last) == RecordsFrom(find, a[last..] + b, 0)
    ensures LastFrom(find, a + b, last) == last + LastFrom(find, a[last..] + b, 0)
    ensures (a + b)[LastFrom(find, a + b, last)..] == (a[last..] + b)[LastFrom(find, a[last..] + b, 0)..]
  {
    SliceOfJoinLeft(a, b, last, last);
    WalkShifts(find, a + b, last, 0);
    DropOfDrop(a + b, last, LastFrom(find, a[last..] + b, 0));
  }

  /** Frames that end whole join without disturbing each other, for any finder, a separator that
      overlaps itself included. */
  lemma WholeJoins(find: Finder, a: Bytes, b: Bytes)
    requires FragmentOf(find, a) == []
    ensures RecordsOf(find, a + b) == RecordsOf(find, a) + RecordsOf(find, b)
    ensures FragmentOf(find, a + b) == FragmentOf(find, b)
  {
    WalkGoesOn(find, a, b);
    EmptyJoins(b);
  }

  lemma OneRecord(find: Finder, r: Bytes)
    requires IsRecord(find, r)
    ensures RecordsOf(find, r) == [r] && FragmentOf(find, r) == []
  {
    Whole(r);
    FinderOnEmpty(find);
    assert RecordsFrom(find, r, |r|) == [] && LastFrom(find, r, |r|) == |r|;
    EmptyJoins([r]);
  }

  /** A list of whole records walks back to itself. */
  lemma {:induction false} RecordsOfFlatten(find: Finder, rs: seq<Bytes>)
    requires forall r :: r in rs ==> IsRecord(find, r)
    ensures RecordsOf(find, Flatten(rs)) == rs
    ensures FragmentOf(find, Flatten(rs)) == []
  {
    if rs == [] {
      FinderOnEmpty(find);
      Whole<Byte>([]);
    } else {
      var r, rest := rs[0], rs[1..];
      assert r in rs && forall x :: x in rest ==> x in rs;
      RecordsOfFlatten(find, rest);
      OneRecord(find, r);
      WholeJoins(find, r, Flatten(rest));
      HeadAndTail(rs);
    }
  }

  /** A walk begun at a record end finds the records that are left, and one stopped there finds the
      records before it and no fragment. */
  lemma CutAtBound(find: Finder, data: Bytes, k: nat)
    requires k < |Bounds(find, data)|
    ensures k <= |RecordsOf(find, data)| && Bounds(find, data)[k] <= |data|
    ensures RecordsOf(find, data[..Bounds(find, data)[k]]) == RecordsOf(find, data)[..k]
    ensures FragmentOf(find, data[..Bounds(find, data)[k]]) == []
    ensures RecordsOf(find, data[Bounds(find, data)[k]..]) == RecordsOf(find, data)[k..]
    ensures FragmentOf(find, data[Bounds(find, data)[k]..]) == FragmentOf(find, data)
  {
    AtBound(find, data, k);
    RecordsAreRecords(find, data, 0);
    var rs := RecordsOf(find, data);
    assert forall r :: r in rs[..k] ==> r in rs;
    RecordsOfFlatten(find, rs[..k]);
    RestAfterBound(find, data, Bounds(find, data)[k]);
  }

  lemma RestAfterBound(find: Finder, data: Bytes, b: nat)
    requires b <= |data| && LastFrom(find, data, b) == LastFrom(find, data, 0)
    ensures RecordsOf(find, data[b..]) == RecordsFrom(find, data, b)
    ensures FragmentOf(find, data[b..]) == FragmentOf(find, data)
  {
    WalkShifts(find, data, b, 0);
    DropOfDrop(data, b, LastFrom(find, data[b..], 0));
  }

  /** The bytes between two record ends are the records between them. */
  lemma BytesBetweenBounds(find: Finder, data: Bytes, j: nat, k: nat)
    requires j <= k < |Bounds(find, data)|
    ensures k <= |RecordsOf(find, data)|
    ensures Bounds(find, data)[j] <= Bounds(find, data)[k] <= |data|
    ensures data[Bounds(find, data)[j]..Bounds(find, data)[k]] == Flatten(RecordsOf(find, data)[j..k])
  {
    AtBound(find, data, j);
    AtBound(find, data, k);
    if j < k { BoundsRise(find, data, j, k); }
    var rs := RecordsOf(find, data);
    FlattenSplit(rs[..k], j);
    TakeOfTake(rs, j, k);
    DropOfTake(rs, j, k);
    var bj, bk := Bounds(find, data)[j], Bounds(find, data)[k];
    TakeThenSlice(data, bj, bk);
    JoinParts(data[..bj], data[bj..bk]);
    JoinParts(Flatten(rs[..j]), Flatten(rs[j..k]));
  }

  lemma RecordBetweenBounds(find: Finder, data: Bytes, k: nat)
    requires k + 1 < |Bounds(find, data)|
    ensures k < |RecordsOf(find, data)|
    ensures Bounds(find, data)[k] <= Bounds(find, data)[k + 1] <= |data|
    ensures data[Bounds(find, data)[k]..Bounds(find, data)[k + 1]] == RecordsOf(find, data)[k]
  {
    BytesBetweenBounds(find, data, k, k + 1);
    var rs := RecordsOf(find, data);
    FlattenOne(rs[k]);
    assert rs[k..k + 1] == [rs[k]];
  }

  /** What follows the last record end is the fragment. */
  lemma AfterLastBound(find: Finder, data: Bytes)
    ensures var bounds := Bounds(find, data);
            && |RecordsOf(find, data)| == |bounds| - 1
            && bounds[|bounds| - 1] <= |data|
            && data[bounds[|bounds| - 1]..] == FragmentOf(find, data)
  {
    LastBound(find, data);
  }

  /** Stopping at `x` leaves no fragment exactly where `x` is a record end. */
  lemma WholeUpToIffBound(find: Finder, data: Bytes, x: nat)
    requires x <= |data|
    ensures FragmentOf(find, data[..x]) == [] <==> x in Bounds(find, data)
  {
    if FragmentOf(find, data[..x]) == [] {
      WholeUpToIsBound(find, data, x);
    }
    if x in Bounds(find, data) {
      var k :| 0 <= k < |Bounds(find, data)| && Bounds(find, data)[k] == x;
      CutAtBound(find, data, k);
    }
  }

  lemma WholeUpToIsBound(find: Finder, data: Bytes, x: nat)
    requires x <= |data| && FragmentOf(find, data[..x]) == []
    ensures |RecordsOf(find, data[..x])| < |Bounds(find, data)|
    ensures Bounds(find, data)[|RecordsOf(find, data[..x])|] == x
    ensures RecordsOf(find, data[..x]) <= RecordsOf(find, data)
  {
    var held := RecordsOf(find, data[..x]);
    WalkCovers(find, data[..x]);
    EmptyJoins(Flatten(held));
    WholeJoins(find, data[..x], data[x..]);
    SplitAt(data, x);
    JoinParts(held, RecordsOf(find, data[x..]));
    LastBound(find, data);
    AtBound(find, data, |held|);
    assert |data[..x]| == x;
  }

  // ---------------------------------------------------------------- bytes not read yet

  lemma HeldStep(find: Finder, data: Bytes, k: nat, upto: nat, held: Bytes, count: nat)
    requires k < |Bounds(find, data)| && Bounds(find, data)[k] <= upto <= |data|
    requires held == data[Bounds(find, data)[k]..upto]
    requires count < |Bounds(find, held)| && k + count < |Bounds(find, data)|
    requires Bounds(find, held)[count] <= |held|
    requires Bounds(find, data)[k + count] == Bounds(find, data)[k] + Bounds(find, held)[count]
    ensures count + 1 < |Bounds(find, held)| ==>
              && k + count + 1 < |Bounds(find, data)|
              && Bounds(find, data)[k + count + 1] == Bounds(find, data)[k] + Bounds(find, held)[count + 1]
    ensures count + 1 == |Bounds(find, held)| ==>
              k + count + 1 == |Bounds(find, data)| || upto < Bounds(find, data)[k + count + 1]
  {
    DropOfSlice(data, Bounds(find, data)[k], upto, Bounds(find, held)[count]);
    FindAtBound(find, held, count);
    BoundStep(find, data, k + count, upto);
  }

  /** The records held of a larger region are the next ones of that region, and the first one not
      held ends where nothing has been read. */
  lemma {:induction false} HeldBounds(find: Finder, data: Bytes, k: nat, upto: nat, held: Bytes, count: nat)
    requires k < |Bounds(find, data)| && Bounds(find, data)[k] <= upto <= |data|
    requires held == data[Bounds(find, data)[k]..upto]
    requires count < |Bounds(find, held)|
    ensures k + count < |Bounds(find, data)|
    ensures Bounds(find, held)[count] <= |held|
    ensures Bounds(find, data)[k + count] == Bounds(find, data)[k] + Bounds(find, held)[count]
    ensures count + 1 == |Bounds(find, held)| ==>
              k + count + 1 == |Bounds(find, data)| || upto < Bounds(find, data)[k + count + 1]
    decreases count
  {
    BoundWithin(find, held, count);
    if count > 0 {
      HeldBounds(find, data, k, upto, held, count - 1);
      HeldStep(find, data, k, upto, held, count - 1);
    }
    HeldStep(find, data, k, upto, held, count);
  }
}
