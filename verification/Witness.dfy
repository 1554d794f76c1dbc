/** Files long enough to be opened in groups of which the last is short: where a reader opened from a
    later frame (`open_from_frame` of src/reader.rs) answers what a reader of the whole file does not. */
module Witness {
  import opened Bytes
  import opened Seqs
  import opened Records
  import opened Finders
  import opened Frames
  import opened Window
  import opened Cursor
  import opened Placement
  import opened Reader
  import opened Regroup
  import opened Reopen

  /** The size of a record: three fit 32 bits, with a byte to spare each, four do not. */
  const RECORD: nat := 0x4000_0000

  /** Five frames of one record each, and then `rest`. */
  function FiveOf(r: Bytes, rest: Bytes): File {
    File(ByFixed(|r|), [r, r, r, r, r + rest], 1, false)
  }

  lemma EachHoldsOne(r: Bytes, rest: Bytes)
    requires 0 < |r| && |rest| < |r|
    ensures var find := ByFixed(|r|);
            && RecordsOf(find, r) == [r] && FragmentOf(find, r) == []
            && RecordsOf(find, r + rest) == [r] && FragmentOf(find, r + rest) == rest
  {
    var find := ByFixed(|r|);
    OneRecord(find, r);
    Whole(rest);
    assert find(rest) == None;
    assert RecordsOf(find, rest) == [] && FragmentOf(find, rest) == rest;
    WholeJoins(find, r, rest);
    EmptyJoins([r]);
  }

  lemma FiveAreUniform(r: Bytes, rest: Bytes)
    requires |r| == RECORD && |rest| <= 1
    ensures var f := FiveOf(r, rest);
            && Uniform(f.find, f.contents, f.perFrame) && LastIsFull(f) && Places(f, 1) == 4
            && FragmentOf(f.find, f.contents[4]) == rest
  {
    var f := FiveOf(r, rest);
    EachHoldsOne(r, rest);
    assert f.contents[..4] == [r, r, r, r];
    FirstRecordIsProduct(1, 4);
  }

  /** Opened from frame 1 they are read three to a group, whatever they compress to. */
  lemma FiveMakeThrees(r: Bytes, rest: Bytes, packed: seq<Bytes>, g: nat)
    requires |r| == RECORD && |rest| <= 1 && |packed| == 5 && forall i :: 0 <= i < 5 ==> 0 < |packed[i]| <= RECORD
    ensures Tabled(packed) && Tabled(FiveOf(r, rest).contents)
    ensures SizeFits(packed, FiveOf(r, rest).contents, 1, g) <==> g == 3
    ensures LastIsShort(FiveOf(r, rest), 1, 3)
  {
    var contents := FiveOf(r, rest).contents;
    LongestIsLongest(contents, 0);
    LongestWithin(contents, RECORD + 1);
    LongestWithin(packed, RECORD);
    RowsOfThree(Longest(packed), g);
    RowsOfThree(Longest(contents), g);
    FourAreTooLong(r, rest);
    SameGroups(contents[1..], [[], [], [], []], 3);
    FirstRecordIsProduct(3, 2);
    assert |Groups([[], [], [], []], 3)| == 2;
  }

  /** How many frames of a size fit a row. */
  lemma RowsOfThree(longest: nat, g: nat)
    requires longest <= RECORD + 1
    ensures g <= 3 ==> FirstRecord(longest, g) <= U32_MAX
    ensures RECORD <= longest && g > 3 ==> FirstRecord(longest, g) > U32_MAX
    ensures g + 1 <= 3 ==> FirstRecord(longest, g + 1) <= U32_MAX
    ensures RECORD <= longest && g + 1 > 3 ==> FirstRecord(longest, g + 1) > U32_MAX
  {
    FirstRecordIsProduct(longest, 3);
    FirstRecordIsProduct(longest, 4);
    FirstRecordMonotone(longest, if g <= 3 then g else 4, if g <= 3 then 3 else g);
    FirstRecordMonotone(longest, if g < 3 then g + 1 else 4, if g < 3 then 3 else g + 1);
  }

  lemma FourAreTooLong(r: Bytes, rest: Bytes)
    requires |r| == RECORD
    ensures |Flatten(FiveOf(r, rest).contents[1..])| > U32_MAX
  {
    assert FiveOf(r, rest).contents[1..] == [r] + ([r] + ([r] + [r + rest]));
    FlattenCons(r, [r] + ([r] + [r + rest]));
    FlattenCons(r, [r] + [r + rest]);
    FlattenCons(r, [r + rest]);
    FlattenOne(r + rest);
  }

  /** With a byte after the last record, the place after it is refused by the reopened reader alone. */
  lemma SlotIsRefused(r: Bytes, x: Byte)
    requires |r| == RECORD
    ensures var f, to := FiveOf(r, [x]), From(FiveOf(r, [x]), 1, 3);
            && FreshReply(f, CallRecord(1 + 4)) == ReplyRecord(Nothing)
            && to.perFrame > 0 && to.contents != []
            && FreshReply(to, CallRecord(4)) == ReplyRecord(Failed(IncompleteFinalRecord))
  {
    var f := FiveOf(r, [x]);
    FiveAreUniform(r, [x]);
    FiveMakeThrees(r, [x], [[0], [0], [0], [0], [0]], 3);
    FirstRecordIsProduct(1, 1);
    SlotDiffers(f, From(f, 1, 3), 1, 3, 1, 4);
  }

  /** With nothing after it, the end of the file is refused by the whole reader alone: the reopened one
      hands out nothing, and no error. */
  lemma EndIsAccepted(r: Bytes, cnt: nat)
    requires |r| == RECORD
    ensures var f, to := FiveOf(r, []), From(FiveOf(r, []), 1, 3);
            && FreshReply(f, CallRange(1 + 4, cnt)) == ReplyRange(Err(PastTheEnd))
            && to.perFrame > 0 && to.contents != []
            && FreshReply(to, CallRange(4, cnt)) == ReplyRange(Ok([]))
  {
    var f := FiveOf(r, []);
    FiveAreUniform(r, []);
    FiveMakeThrees(r, [], [[0], [0], [0], [0], [0]], 3);
    FirstRecordIsProduct(1, 1);
    FiveLeaveRoom(f);
    MissingFrameDiffers(f, From(f, 1, 3), 1, 3, 1, 4, cnt);
  }

  lemma FiveLeaveRoom(f: File)
    requires f.perFrame == 1 && |f.contents| == 5 && LastIsShort(f, 1, 3)
    ensures Places(f, 1) == 4 < GroupPlaces(f, 1, 3)
  {
    PlacesLeft(f, 1, 3);
    FirstRecordIsProduct(1, 4);
  }
}
