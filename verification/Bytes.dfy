/** Values shared by every module: bytes, optional and fallible results, and the flattening that
    turns a list of byte strings back into the byte string they were cut from. */
module Bytes {
  import opened Seqs

  type Byte = b: int | 0 <= b < 256

  type Bytes = seq<Byte>

  datatype Option<+T> = None | Some(value: T)

  datatype Result<+T, +E> = Ok(value: T) | Err(error: E)

  function Min(a: int, b: int): int {
    if a <= b then a else b
  }

  function Flatten(parts: seq<Bytes>): Bytes {
    if parts == [] then [] else parts[0] + Flatten(parts[1..])
  }

  lemma {:induction false} FlattenConcat(a: seq<Bytes>, b: seq<Bytes>)
    ensures Flatten(a + b) == Flatten(a) + Flatten(b)
  {
    if a == [] {
      EmptyJoins(b);
      EmptyJoins(Flatten(b));
    } else {
      FlattenConcat(a[1..], b);
      JoinTail(a, b);
      Assoc(a[0], Flatten(a[1..]), Flatten(b));
    }
  }

  lemma FlattenOne(part: Bytes)
    ensures Flatten([part]) == part
  {
    ConsTail(part, []);
    EmptyJoins([part]);
    EmptyJoins(part);
  }

  lemma FlattenCons(first: Bytes, rest: seq<Bytes>)
    ensures Flatten([first] + rest) == first + Flatten(rest)
  {
    ConsTail(first, rest);
  }

  /** Cutting the list in two cuts the bytes in two. */
  lemma FlattenSplit(parts: seq<Bytes>, k: nat)
    requires k <= |parts|
    ensures Flatten(parts) == Flatten(parts[..k]) + Flatten(parts[k..])
  {
    FlattenConcat(parts[..k], parts[k..]);
    SplitAt(parts, k);
  }

  lemma FlattenSnoc(parts: seq<Bytes>, last: Bytes)
    ensures Flatten(parts + [last]) == Flatten(parts) + last
  {
    FlattenConcat(parts, [last]);
    FlattenOne(last);
  }

  lemma FlattenTake(parts: seq<Bytes>, k: nat)
    requires k < |parts|
    ensures Flatten(parts[..k + 1]) == Flatten(parts[..k]) + parts[k]
  {
    TakeSnoc(parts, k);
    FlattenSnoc(parts[..k], parts[k]);
  }
}
