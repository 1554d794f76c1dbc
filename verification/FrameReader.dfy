/** Decoding frames to look at their records (`FrameReader` and `walk_frame` of src/edit.rs). */
module FrameReader {
  import opened Bytes
  import opened Seqs
  import opened Records
  import opened Frames
  import opened Window
  import opened Cursor
  import opened SeekableFile

  /** What decoding the first `k` frames a table places in `body` gives. */
  function Decoded(codec: Codec, body: Bytes, table: seq<Entry>, k: nat): Bytes
    requires k <= |table|
  {
    if k == 0 then []
    else Decoded(codec, body, table, k - 1)
         + codec.decompress(Cut(body, CompStart(table, k - 1), CompStart(table, k)))
  }

  lemma {:induction false} DecodedIsContents(codec: Codec, parts: seq<Bytes>, k: nat)
    requires k <= |parts|
    ensures Decoded(codec, Flatten(parts), TableOf(codec, parts), k) == Flatten(Contents(codec, parts)[..k])
    decreases k
  {
    if k > 0 {
      DecodedIsContents(codec, parts, k - 1);
      StartsArePlaces(codec, parts, k - 1);
      StartsArePlaces(codec, parts, k);
      FrameIsSpan(parts, k - 1);
      StartStep(parts, k - 1);
      ContentAt(codec, parts, k - 1);
      FlattenTake(Contents(codec, parts), k - 1);
    }
  }

  /** What a walk of a frame says of it: its whole records, and whether it ends with one. */
  function Walked(find: Finder, content: Bytes): (nat, bool) {
    (|RecordsOf(find, content)|, content != [] && FragmentOf(find, content) == [])
  }

  class FrameReader {
    const find: Finder
    const window: Window
    const table: seq<Entry>
    ghost const contents: seq<Bytes>

    /** The table places the frames in the decoded stream. */
    ghost predicate Placed(i: nat)
    {
      i < |contents| == |table| ==>
        && DecompStart(table, i) == StartOf(contents, i) && table[i].decomp == |contents[i]|
    }

    ghost predicate Valid()
      reads window, window.source
    {
      && window.Consistent() && window.frameEnds == [] && |table| == |contents|
      && window.source.content == Flatten(contents)
      && forall i :: 0 <= i < |contents| ==> Placed(i)
    }

    constructor (codec: Codec, find: Finder, file: File)
      requires file.Valid(codec)
      ensures Valid() && fresh(window) && fresh(window.source)
      ensures this.find == find && Some(table) == file.table && contents == Contents(codec, file.parts)
    {
      var t := file.table.value;
      var source := new Source(Decoded(codec, file.body, t, |t|));
      this.find, table := find, t;
      window := new Window(source, [], 0, 0);
      contents := Contents(codec, file.parts);
      new;
      DecodedIsContents(codec, file.parts, |file.parts|);
      Whole(Contents(codec, file.parts));
      forall i | 0 <= i < |contents|
        ensures Placed(i)
      {
        StartsArePlaces(codec, file.parts, i);
        ContentAt(codec, file.parts, i);
      }
    }

    /** Points the window at frame `i`. */
    method SeekFrame(i: nat)
      requires Valid() && i < |table|
      modifies window, window.source
      ensures Valid() && window.Valid(find) && window.region == contents[i]
      ensures window.walked == 0 && !window.TailTaken() && window.clean
    {
      assert Placed(i);
      FrameIsSpan(contents, i);
      window.SeekTo(find, DecompStart(table, i), table[i].decomp, contents[i]);
    }

    /** `walk_frame`: the records of frame `i`, and whether it ends whole; an empty one does not. */
    method Walk(i: nat) returns (count: nat, whole: bool)
      requires Valid() && i < |table|
      modifies window, window.source
      ensures Valid() && (count, whole) == Walked(find, contents[i])
    {
      assert Placed(i);
      if table[i].decomp == 0 {
        FinderOnEmpty(find);
        return 0, false;
      }
      SeekFrame(i);
      count, whole := CountPointed(i);
    }

    /** Counts frame `i`, which the window was just pointed at. */
    method CountPointed(ghost i: nat) returns (count: nat, whole: bool)
      requires i < |contents| && contents[i] != [] && window.Valid(find) && window.region == contents[i]
      requires window.walked == 0 && !window.TailTaken() && window.clean
      modifies window, window.source
      ensures window.Valid(find) && (count, whole) == Walked(find, contents[i])
    {
      RestIsFragment(find, contents[i]);
      LastBound(find, contents[i]);
      var counted := window.CountRecords(find);
      return counted.value, window.Remainder() == [];
    }

    /** The bytes of frame `i`. */
    method Read(i: nat) returns (bytes: Bytes)
      requires Valid() && i < |table|
      ensures bytes == contents[i]
    {
      assert Placed(i);
      FrameIsSpan(contents, i);
      var start, len := DecompStart(table, i), table[i].decomp;
      return window.source.content[start..start + len];
    }
  }
}
