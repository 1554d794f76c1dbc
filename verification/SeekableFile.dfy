/** A seekable zstd file: compressed frames one after another, and the seek table of their sizes that
    follows them. */
module SeekableFile {
  import opened Bytes
  import opened Seqs

  /** The zstd codec, which is not part of this model: what a frame is compressed to decompresses to
      the same bytes, and its header says whether it carries a checksum. */
  datatype Codec = Codec(
    compress: (Bytes, bool) -> Bytes,
    decompress: Bytes -> Bytes,
    hasChecksum: Bytes -> bool)

  ghost predicate Inverts(codec: Codec) {
    forall data, checksum ::
      && codec.decompress(codec.compress(data, checksum)) == data
      && codec.hasChecksum(codec.compress(data, checksum)) == checksum
  }

  /** One row of the seek table. */
  datatype Entry = Entry(comp: nat, decomp: nat)

  /** What the frames hold. */
  function Contents(codec: Codec, parts: seq<Bytes>): (contents: seq<Bytes>)
    ensures |contents| == |parts|
  {
    if parts == [] then [] else Contents(codec, parts[..|parts| - 1]) + [codec.decompress(parts[|parts| - 1])]
  }

  /** The table that describes the frames. */
  function TableOf(codec: Codec, parts: seq<Bytes>): (table: seq<Entry>)
    ensures |table| == |parts|
  {
    if parts == [] then []
    else
      var last := parts[|parts| - 1];
      TableOf(codec, parts[..|parts| - 1]) + [Entry(|last|, |codec.decompress(last)|)]
  }

  /** Where frame `k` starts in the file, and where frame `k - 1` ends. */
  function CompStart(table: seq<Entry>, k: nat): nat
    requires k <= |table|
  {
    if k == 0 then 0 else CompStart(table, k - 1) + table[k - 1].comp
  }

  /** Where it starts in the decompressed stream. */
  function DecompStart(table: seq<Entry>, k: nat): nat
    requires k <= |table|
  {
    if k == 0 then 0 else DecompStart(table, k - 1) + table[k - 1].decomp
  }

  lemma {:induction false} ContentAt(codec: Codec, parts: seq<Bytes>, i: nat)
    requires i < |parts|
    ensures Contents(codec, parts)[i] == codec.decompress(parts[i])
    ensures TableOf(codec, parts)[i] == Entry(|parts[i]|, |Contents(codec, parts)[i]|)
    decreases |parts|
  {
    if i < |parts| - 1 {
      ContentAt(codec, parts[..|parts| - 1], i);
    }
  }

  lemma ContentsSnoc(codec: Codec, parts: seq<Bytes>, last: Bytes)
    ensures Contents(codec, parts + [last]) == Contents(codec, parts) + [codec.decompress(last)]
    ensures TableOf(codec, parts + [last]) == TableOf(codec, parts) + [Entry(|last|, |codec.decompress(last)|)]
  {
    assert (parts + [last])[..|parts|] == parts;
  }

  lemma {:induction false} ContentsConcat(codec: Codec, a: seq<Bytes>, b: seq<Bytes>)
    ensures Contents(codec, a + b) == Contents(codec, a) + Contents(codec, b)
    ensures TableOf(codec, a + b) == TableOf(codec, a) + TableOf(codec, b)
    decreases |b|
  {
    if b == [] {
      EmptyJoins(a);
      EmptyJoins(Contents(codec, a));
      EmptyJoins(TableOf(codec, a));
    } else {
      var shorter, last := b[..|b| - 1], b[|b| - 1];
      ContentsConcat(codec, a, shorter);
      TakeSnoc(b, |shorter|);
      Whole(b);
      Assoc(a, shorter, [last]);
      ContentsSnoc(codec, a + shorter, last);
      ContentsSnoc(codec, shorter, last);
      Assoc(Contents(codec, a), Contents(codec, shorter), [codec.decompress(last)]);
      Assoc(TableOf(codec, a), TableOf(codec, shorter), [Entry(|last|, |codec.decompress(last)|)]);
    }
  }

  /** A run of frames holds that run of the contents, and has those rows. */
  lemma ContentsSlice(codec: Codec, parts: seq<Bytes>, j: nat, k: nat)
    requires j <= k <= |parts|
    ensures Contents(codec, parts[j..k]) == Contents(codec, parts)[j..k]
    ensures TableOf(codec, parts[j..k]) == TableOf(codec, parts)[j..k]
  {
    var a, b, c := parts[..j], parts[j..k], parts[k..];
    Slices(parts, 0, j, k);
    SplitAt(parts, k);
    ContentsConcat(codec, a, b);
    ContentsConcat(codec, a + b, c);
    assert parts == a + b + c;
    assert Contents(codec, parts)[j..k] == Contents(codec, b);
    assert TableOf(codec, parts)[j..k] == TableOf(codec, b);
  }

  /** The sizes in the table place every frame. */
  lemma {:induction false} StartsArePlaces(codec: Codec, parts: seq<Bytes>, k: nat)
    requires k <= |parts|
    ensures CompStart(TableOf(codec, parts), k) == |Flatten(parts[..k])|
    ensures DecompStart(TableOf(codec, parts), k) == |Flatten(Contents(codec, parts)[..k])|
    decreases k
  {
    if k > 0 {
      StartsArePlaces(codec, parts, k - 1);
      ContentAt(codec, parts, k - 1);
      FlattenTake(parts, k - 1);
      FlattenTake(Contents(codec, parts), k - 1);
    }
  }

  /** Compressing frame by frame. */
  function Compressed(codec: Codec, contents: seq<Bytes>, checksum: bool): (parts: seq<Bytes>)
    ensures |parts| == |contents|
  {
    if contents == [] then []
    else Compressed(codec, contents[..|contents| - 1], checksum) + [codec.compress(contents[|contents| - 1], checksum)]
  }

  lemma {:induction false} CompressedHolds(codec: Codec, contents: seq<Bytes>, checksum: bool)
    requires Inverts(codec)
    ensures Contents(codec, Compressed(codec, contents, checksum)) == contents
    ensures contents != [] ==>
              codec.hasChecksum(Compressed(codec, contents, checksum)[|contents| - 1]) == checksum
    decreases |contents|
  {
    if contents != [] {
      var shorter, last := contents[..|contents| - 1], contents[|contents| - 1];
      var parts := Compressed(codec, contents, checksum);
      CompressedHolds(codec, shorter, checksum);
      assert parts[..|parts| - 1] == Compressed(codec, shorter, checksum);
      assert shorter + [last] == contents;
    }
  }

  lemma CompressedSnoc(codec: Codec, contents: seq<Bytes>, last: Bytes, checksum: bool)
    ensures Compressed(codec, contents + [last], checksum)
            == Compressed(codec, contents, checksum) + [codec.compress(last, checksum)]
  {
    assert (contents + [last])[..|contents|] == contents;
  }

  // ---------------------------------------------------------------- the file

  class File {
    /** The compressed frames, end to end. */
    var body: Bytes
    /** The seek table behind them, while there is one. */
    var table: Option<seq<Entry>>

    /** The frames `body` is made of. */
    ghost var parts: seq<Bytes>

    ghost predicate Holds(parts: seq<Bytes>)
      reads this
    {
      this.parts == parts && body == Flatten(parts)
    }

    /** The file can be read: its table describes its frames. */
    ghost predicate Valid(codec: Codec)
      reads this
    {
      Holds(parts) && table == Some(TableOf(codec, parts))
    }

    /** Nothing yet, to be written to. */
    constructor ()
      ensures Holds([]) && table == None
    {
      body, table, parts := [], None, [];
    }

    /** `cut_at`: the frames before `cut`, and nothing behind them. */
    method CutAt(cut: nat, ghost k: nat)
      requires Holds(parts) && k <= |parts| && cut == |Flatten(parts[..k])| <= |body|
      modifies this
      ensures Holds(old(parts[..k])) && table == None
    {
      FlattenSplit(parts, k);
      JoinParts(Flatten(parts[..k]), Flatten(parts[k..]));
      body, table := body[..cut], None;
      parts := parts[..k];
    }

    /** Writes the bytes of one or more whole frames. */
    method Write(bytes: Bytes, ghost more: seq<Bytes>)
      requires Holds(parts) && bytes == Flatten(more)
      modifies this`body, this`parts
      ensures Holds(old(parts) + more)
    {
      FlattenConcat(parts, more);
      body := body + bytes;
      parts := parts + more;
    }

    method WriteTable(t: seq<Entry>)
      modifies this`table
      ensures table == Some(t)
    {
      table := Some(t);
    }
  }
}
