/** The shipped record finders (src/find.rs) and the contract every one of them keeps. */
module Finders {
  import opened Bytes
  import opened Records
  import opened MsgPack

  // ---------------------------------------------------------------- by_separator

  predicate MatchesAt(sep: Bytes, data: Bytes, i: nat) {
    i + |sep| <= |data| && data[i..i + |sep|] == sep
  }

  /** The first place at or after `from` where `sep` occurs. */
  function IndexFrom(sep: Bytes, data: Bytes, from: nat): (at: Option<nat>)
    ensures at.Some? ==> from <= at.value && MatchesAt(sep, data, at.value)
    ensures at.Some? ==> forall j :: from <= j < at.value ==> !MatchesAt(sep, data, j)
    ensures at.None? ==> forall j :: from <= j ==> !MatchesAt(sep, data, j)
    decreases |data| - from
  {
    if from + |sep| > |data| then None
    else if MatchesAt(sep, data, from) then Some(from)
    else if from == |data| then None
    else IndexFrom(sep, data, from + 1)
  }

  function SeparatorEnd(sep: Bytes, data: Bytes): Option<nat> {
    match IndexFrom(sep, data, 0)
    case None => None
    case Some(at) => Some(at + |sep|)
  }

  function SeparatorFn(sep: Bytes): Bytes -> Option<nat> {
    (data: Bytes) => SeparatorEnd(sep, data)
  }

  lemma SeparatorKeepsContract(sep: Bytes)
    requires sep != []
    ensures Contract(SeparatorFn(sep)) && Stable(SeparatorFn(sep))
  {
    forall d: Bytes, e: Bytes
      ensures Agrees(SeparatorFn(sep), d, e)
    {
      if d <= e {
        forall i: nat | i + |sep| <= |d|
          ensures MatchesAt(sep, d, i) <==> MatchesAt(sep, e, i)
        {
          assert d[i..i + |sep|] == e[i..i + |sep|];
        }
      }
    }
  }

  /** Records that end with `sep`, which the source refuses to be empty (src/record.rs:23-28). */
  function BySeparator(sep: Bytes): (find: Finder)
    requires sep != []
    ensures forall d :: find(d) == SeparatorEnd(sep, d)
  {
    SeparatorKeepsContract(sep);
    SeparatorFn(sep)
  }

  // ---------------------------------------------------------------- by_le32_prefix, by_fixed

  function Le32Length(data: Bytes): Option<nat> {
    if |data| < 4 then None
    else
      var n: nat := data[0] as int + 256 * (data[1] as int) + 65536 * (data[2] as int) + 16777216 * (data[3] as int);
      if |data| >= 4 + n then Some(4 + n) else None
  }

  function Le32Fn(): Bytes -> Option<nat> {
    (data: Bytes) => Le32Length(data)
  }

  lemma Le32KeepsContract()
    ensures Contract(Le32Fn()) && Stable(Le32Fn())
  {
    forall d: Bytes, e: Bytes
      ensures Agrees(Le32Fn(), d, e)
    {
    }
  }

  /** Records of a little-endian length and that many bytes. */
  function ByLe32Prefix(): (find: Finder)
    ensures forall d :: find(d) == Le32Length(d)
  {
    Le32KeepsContract();
    Le32Fn()
  }

  function FixedLength(len: nat, data: Bytes): Option<nat> {
    if len > 0 && |data| >= len then Some(len) else None
  }

  function FixedFn(len: nat): Bytes -> Option<nat> {
    (data: Bytes) => FixedLength(len, data)
  }

  lemma FixedKeepsContract(len: nat)
    ensures Contract(FixedFn(len)) && Stable(FixedFn(len))
  {
    forall d: Bytes, e: Bytes
      ensures Agrees(FixedFn(len), d, e)
    {
    }
  }

  /** Records of a constant length; a length of 0 ends none. */
  function ByFixed(len: nat): (find: Finder)
    ensures forall d :: find(d) == FixedLength(len, d)
  {
    FixedKeepsContract(len);
    FixedFn(len)
  }

  // ---------------------------------------------------------------- by_msgpack

  function ValueFn(): Bytes -> Option<nat> {
    (data: Bytes) => ValueLen(MsgpackHeader(), data)
  }

  lemma MsgpackKeepsContract()
    ensures Contract(ValueFn()) && Stable(ValueFn())
  {
    MsgpackHeaderIsStable();
    forall d: Bytes, e: Bytes
      ensures Agrees(ValueFn(), d, e)
    {
      if d <= e {
        ValueLenPrefix(MsgpackHeader(), d, e);
      }
    }
  }

  /** Records of one MessagePack value. */
  function ByMsgpack(): (find: Finder)
    ensures forall d :: find(d) == ValueLen(MsgpackHeader(), d)
  {
    MsgpackKeepsContract();
    ValueFn()
  }
}
