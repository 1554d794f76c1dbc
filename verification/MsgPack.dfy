/** `by_msgpack` (src/find.rs:108-179): an explicit counter of values still owed, shown to answer
    exactly what the recursive MessagePack grammar (MessagePack specification, section "Formats")
    answers. */
module MsgPack {
  import opened Bytes
  import opened Seqs

  const U64_LIMIT: nat := 0x1_0000_0000_0000_0000

  /** No Rust slice is longer than `isize::MAX`. */
  const SLICE_LIMIT: nat := 0x8000_0000_0000_0000

  // ---------------------------------------------------------------- one value's head

  /** The big-endian fold of `msgpack_len`. */
  function BigEndian(bytes: Bytes): nat {
    if bytes == [] then 0
    else 256 * BigEndian(bytes[..|bytes| - 1]) + bytes[|bytes| - 1]
  }

  function LengthField(rest: Bytes, width: nat): Option<nat> {
    if 1 + width <= |rest| then Some(BigEndian(rest[1..1 + width])) else None
  }

  /** The size of a value without the values nested in it, and their number. */
  datatype Head = Head(len: nat, children: nat)

  function Sized(fixed: nat, payload: Option<nat>): Option<Head> {
    match payload case None => None case Some(n) => Some(Head(fixed + n, 0))
  }

  function Owing(fixed: nat, each: nat, items: Option<nat>): Option<Head> {
    match items case None => None case Some(n) => Some(Head(fixed, each * n))
  }

  function HeadOf(rest: Bytes): (head: Option<Head>)
    ensures head.Some? ==> 0 < head.value.len
  {
    if rest == [] then None
    else
      var b := rest[0];
      if b <= 0x7f then Some(Head(1, 0))
      else if b <= 0x8f then Some(Head(1, 2 * (b - 0x80)))
      else if b <= 0x9f then Some(Head(1, b - 0x90))
      else if b <= 0xbf then Some(Head(1 + (b - 0xa0), 0))
      else if b == 0xc1 then None
      else if b <= 0xc3 then Some(Head(1, 0))
      else if b == 0xc4 then Sized(2, LengthField(rest, 1))
      else if b == 0xc5 then Sized(3, LengthField(rest, 2))
      else if b == 0xc6 then Sized(5, LengthField(rest, 4))
      else if b == 0xc7 then Sized(3, LengthField(rest, 1))
      else if b == 0xc8 then Sized(4, LengthField(rest, 2))
      else if b == 0xc9 then Sized(6, LengthField(rest, 4))
      else if b <= 0xd3 then Some(Head(1 + NumberSize(b), 0))
      else if b <= 0xd8 then Some(Head(2 + FixExtSize(b), 0))
      else if b == 0xd9 then Sized(2, LengthField(rest, 1))
      else if b == 0xda then Sized(3, LengthField(rest, 2))
      else if b == 0xdb then Sized(5, LengthField(rest, 4))
      else if b == 0xdc then Owing(3, 1, LengthField(rest, 2))
      else if b == 0xdd then Owing(5, 1, LengthField(rest, 4))
      else if b == 0xde then Owing(3, 2, LengthField(rest, 2))
      else if b == 0xdf then Owing(5, 2, LengthField(rest, 4))
      else Some(Head(1, 0))
  }

  /** Payload bytes of float 32/64 and of the 8, 16, 32 and 64 bit integers, by type byte. */
  function NumberSize(b: Byte): nat {
    if b == 0xca then 4
    else if b == 0xcb then 8
    else if b == 0xcc || b == 0xd0 then 1
    else if b == 0xcd || b == 0xd1 then 2
    else if b == 0xce || b == 0xd2 then 4
    else 8
  }

  /** Payload bytes of fixext 1/2/4/8/16, by type byte. */
  function FixExtSize(b: Byte): nat {
    if b == 0xd4 then 1
    else if b == 0xd5 then 2
    else if b == 0xd6 then 4
    else if b == 0xd7 then 8
    else 16
  }

  /** A reader of heads: never a head of no bytes. */
  type Header = head: Bytes -> Option<Head> | forall d :: head(d).Some? ==> 0 < head(d).value.len
    witness (d: Bytes) => None

  function MsgpackHeader(): (head: Header)
    ensures forall d :: head(d) == HeadOf(d)
  {
    (rest: Bytes) => HeadOf(rest)
  }

  // ---------------------------------------------------------------- recursive descent

  /** The length of the one value at the front of `rest`, by recursive descent. */
  function ValueLen(head: Header, rest: Bytes): (n: Option<nat>)
    ensures n.Some? ==> 0 < n.value <= |rest|
    decreases |rest|, 0, 0
  {
    match head(rest)
    case None => None
    case Some(h) =>
      if h.len > |rest| then None
      else Plus(h.len, ValuesLen(head, rest[h.len..], h.children))
  }

  /** The length of the `k` values at the front of `rest`: at least one byte each. */
  function ValuesLen(head: Header, rest: Bytes, k: nat): (n: Option<nat>)
    ensures n.Some? ==> k <= n.value <= |rest|
    decreases |rest|, 1, k
  {
    if k == 0 then Some(0)
    else
      match ValueLen(head, rest)
      case None => None
      case Some(n) => Plus(n, ValuesLen(head, rest[n..], k - 1))
  }

  function Plus(n: nat, m: Option<nat>): Option<nat> {
    match m case None => None case Some(x) => Some(n + x)
  }

  /** `a` values, then `b` more behind them. */
  function Then(head: Header, rest: Bytes, n: Option<nat>, b: nat): Option<nat>
    requires n.Some? ==> n.value <= |rest|
  {
    match n case None => None case Some(x) => Plus(x, ValuesLen(head, rest[x..], b))
  }

  lemma ThenShifts(head: Header, rest: Bytes, n: nat, m: Option<nat>, b: nat)
    requires n <= |rest| && (m.Some? ==> n + m.value <= |rest|)
    ensures Then(head, rest, Plus(n, m), b) == Plus(n, Then(head, rest[n..], m, b))
  {
    if m.Some? {
      DropOfDrop(rest, n, m.value);
    }
  }

  lemma {:induction false} ValuesAdd(head: Header, rest: Bytes, a: nat, b: nat)
    ensures ValuesLen(head, rest, a + b) == Then(head, rest, ValuesLen(head, rest, a), b)
    decreases a
  {
    if a == 0 {
      Whole(rest);
    } else {
      var n := ValueLen(head, rest);
      if n.Some? {
        ValuesAdd(head, rest[n.value..], a - 1, b);
        ThenShifts(head, rest, n.value, ValuesLen(head, rest[n.value..], a - 1), b);
      }
    }
  }

  /** `goal` is what is left to be found: `pending` values from `at` on. */
  ghost predicate Owes(goal: Option<nat>, head: Header, data: Bytes, at: nat, pending: nat) {
    at <= |data| && goal == Plus(at, ValuesLen(head, data[at..], pending))
  }

  /** One turn of the walker's loop: take a head off, owe its children instead. */
  lemma OweChildren(head: Header, rest: Bytes, pending: nat)
    requires pending > 0
    ensures var h := head(rest);
            ValuesLen(head, rest, pending) ==
            if h.None? || h.value.len > |rest| then None
            else Plus(h.value.len, ValuesLen(head, rest[h.value.len..], h.value.children + (pending - 1)))
  {
    var h := head(rest);
    ValuesAdd(head, rest, 1, pending - 1);
    OneValue(head, rest);
    if h.Some? && h.value.len <= |rest| {
      var len, children := h.value.len, h.value.children;
      ValuesAdd(head, rest[len..], children, pending - 1);
      ThenShifts(head, rest, len, ValuesLen(head, rest[len..], children), pending - 1);
    }
  }

  lemma OneValue(head: Header, rest: Bytes)
    ensures ValuesLen(head, rest, 1) == ValueLen(head, rest)
  {
    var n := ValueLen(head, rest);
    if n.Some? {
      assert ValuesLen(head, rest[n.value..], 0) == Some(0);
    }
  }

  lemma OwesStep(goal: Option<nat>, head: Header, data: Bytes, at: nat, pending: nat, h: Option<Head>)
    requires pending > 0 && Owes(goal, head, data, at, pending) && h == head(data[at..])
    ensures h.None? || at + h.value.len > |data| ==> goal == None
    ensures h.Some? && at + h.value.len <= |data| ==>
              Owes(goal, head, data, at + h.value.len, h.value.children + (pending - 1))
  {
    OweChildren(head, data[at..], pending);
    if h.Some? && at + h.value.len <= |data| {
      DropOfDrop(data, at, h.value.len);
    }
  }

  /** The loop of `by_msgpack`, with the 64-bit arithmetic it checks. It terminates on every input,
      and running out of 64 bits never answers wrongly: a count of owed values that does not fit
      could not have been met by the bytes either. */
  method WalkMsgpack(data: Bytes) returns (r: Option<nat>)
    requires |data| < SLICE_LIMIT
    ensures r == ValueLen(MsgpackHeader(), data)
  {
    r := WalkValues(MsgpackHeader(), data);
  }

  method WalkValues(head: Header, data: Bytes) returns (r: Option<nat>)
    requires |data| < SLICE_LIMIT
    ensures r == ValueLen(head, data)
  {
    var at: nat := 0;
    var pending: nat := 1;
    ghost var goal := ValueLen(head, data);
    Whole(data);
    OneValue(head, data);
    while pending > 0
      invariant Owes(goal, head, data, at, pending)
      decreases |data| - at, pending
    {
      var h := head(data[at..]);
      OwesStep(goal, head, data, at, pending, h);
      pending := pending - 1;
      if h.None? { return None; }
      if at + h.value.len >= U64_LIMIT { return None; }
      at := at + h.value.len;
      if at > |data| { return None; }
      if pending + h.value.children >= U64_LIMIT { return None; }
      pending := pending + h.value.children;
    }
    return Some(at);
  }

  // ---------------------------------------------------------------- contract and stability

  /** Bytes past a head do not change it, and a head that fits a prefix is read from it. */
  ghost predicate HeadAgrees(head: Header, d: Bytes, e: Bytes) {
    d <= e ==>
      && (head(d).Some? ==> head(e) == head(d))
      && (head(e).Some? && head(e).value.len <= |d| ==> head(d) == head(e))
  }

  ghost predicate StableHeader(head: Header) {
    forall d, e :: HeadAgrees(head, d, e)
  }

  lemma MsgpackHeaderIsStable()
    ensures StableHeader(MsgpackHeader())
  {
    forall d: Bytes, e: Bytes
      ensures HeadAgrees(MsgpackHeader(), d, e)
    {
      if d <= e {
        HeadOfPrefix(d, e);
      }
    }
  }

  lemma LengthFieldPrefix(d: Bytes, e: Bytes, w: nat)
    requires d <= e && 1 + w <= |d|
    ensures LengthField(d, w) == LengthField(e, w)
  {
    assert d[1..1 + w] == e[1..1 + w];
  }

  lemma HeadOfPrefix(d: Bytes, e: Bytes)
    requires d <= e
    ensures HeadOf(d).Some? ==> HeadOf(e) == HeadOf(d)
    ensures HeadOf(e).Some? && HeadOf(e).value.len <= |d| ==> HeadOf(d) == HeadOf(e)
  {
    if d != [] {
      assert d[0] == e[0];
      forall w: nat | 1 + w <= |d|
        ensures LengthField(d, w) == LengthField(e, w)
      {
        LengthFieldPrefix(d, e, w);
      }
    }
  }

  lemma {:induction false} ValueLenPrefix(head: Header, d: Bytes, e: Bytes)
    requires d <= e && StableHeader(head)
    ensures ValueLen(head, d).Some? ==> ValueLen(head, e) == ValueLen(head, d)
    ensures ValueLen(head, e).Some? && ValueLen(head, e).value <= |d| ==>
              ValueLen(head, d) == ValueLen(head, e)
    decreases |d|, 0, 0
  {
    assert HeadAgrees(head, d, e);
    var h := head(d);
    if h.Some? && h.value.len <= |d| {
      DropPrefix(d, e, h.value.len);
      ValuesLenPrefix(head, d[h.value.len..], e[h.value.len..], h.value.children);
    }
  }

  lemma {:induction false} ValuesLenPrefix(head: Header, d: Bytes, e: Bytes, k: nat)
    requires d <= e && StableHeader(head)
    ensures ValuesLen(head, d, k).Some? ==> ValuesLen(head, e, k) == ValuesLen(head, d, k)
    ensures ValuesLen(head, e, k).Some? && ValuesLen(head, e, k).value <= |d| ==>
              ValuesLen(head, d, k) == ValuesLen(head, e, k)
    decreases |d|, 1, k
  {
    if k > 0 {
      ValueLenPrefix(head, d, e);
      var n := ValueLen(head, d);
      if n.Some? {
        DropPrefix(d, e, n.value);
        ValuesLenPrefix(head, d[n.value..], e[n.value..], k - 1);
      }
    }
  }

  // ---------------------------------------------------------------- the grammar

  datatype Width = Fix | W8 | W16 | W32

  /** One MessagePack value, with the width its writer chose. */
  datatype Value =
    | Single(b: Byte)
    | Number(b: Byte, payload: Bytes)
    | Str(width: Width, text: Bytes)
    | Bin(width: Width, payload: Bytes)
    | Ext(width: Width, kind: Byte, payload: Bytes)
    | Array(width: Width, items: seq<Value>)
    | Map(width: Width, items: seq<Value>)

  function Pow256(w: nat): nat {
    if w == 0 then 1 else 256 * Pow256(w - 1)
  }

  function Field(w: nat, n: nat): (bytes: Bytes)
    ensures |bytes| == w
  {
    if w == 0 then [] else Field(w - 1, n / 256) + [n % 256]
  }

  function WidthBytes(width: Width): nat {
    match width case Fix => 0 case W8 => 1 case W16 => 2 case W32 => 4
  }

  predicate WellFormed(v: Value)
    decreases v, 0
  {
    match v
    case Single(b) => b <= 0x7f || b == 0xc0 || b == 0xc2 || b == 0xc3 || 0xe0 <= b
    case Number(b, payload) => 0xca <= b <= 0xd3 && |payload| == NumberSize(b)
    case Str(width, text) => |text| < if width == Fix then 32 else Pow256(WidthBytes(width))
    case Bin(width, payload) => width != Fix && |payload| < Pow256(WidthBytes(width))
    case Ext(width, _, payload) =>
      if width == Fix then |payload| in {1, 2, 4, 8, 16} else |payload| < Pow256(WidthBytes(width))
    case Array(width, items) =>
      && width != W8
      && |items| < (if width == Fix then 16 else Pow256(WidthBytes(width)))
      && AllWellFormed(items)
    case Map(width, items) =>
      && width != W8
      && |items| % 2 == 0
      && |items| / 2 < (if width == Fix then 16 else Pow256(WidthBytes(width)))
      && AllWellFormed(items)
  }

  predicate AllWellFormed(vs: seq<Value>)
    decreases vs, 1
  {
    vs == [] || (WellFormed(vs[0]) && AllWellFormed(vs[1..]))
  }

  function FixExtByte(n: nat): Byte {
    if n == 1 then 0xd4 else if n == 2 then 0xd5 else if n == 4 then 0xd6 else if n == 8 then 0xd7 else 0xd8
  }

  /** A type byte from a base and the width chosen, and the length field that follows it. */
  function Tag(width: Width, base8: Byte, n: nat): Bytes
    requires base8 + 2 < 256
  {
    match width
    case Fix => []
    case W8 => [base8] + Field(1, n)
    case W16 => [base8 + 1] + Field(2, n)
    case W32 => [base8 + 2] + Field(4, n)
  }

  function Encode(v: Value): Bytes
    requires WellFormed(v)
    decreases v, 0
  {
    match v
    case Single(b) => [b]
    case Number(b, payload) => [b] + payload
    case Str(width, text) =>
      (if width == Fix then [0xa0 + |text|] else Tag(width, 0xd9, |text|)) + text
    case Bin(width, payload) => Tag(width, 0xc4, |payload|) + payload
    case Ext(width, kind, payload) =>
      (if width == Fix then [FixExtByte(|payload|)] else Tag(width, 0xc7, |payload|)) + [kind] + payload
    case Array(width, items) =>
      (if width == Fix then [0x90 + |items|] else Tag(width, 0xdb, |items|)) + EncodeAll(items)
    case Map(width, items) =>
      (if width == Fix then [0x80 + |items| / 2] else Tag(width, 0xdd, |items| / 2)) + EncodeAll(items)
  }

  function EncodeAll(vs: seq<Value>): Bytes
    requires AllWellFormed(vs)
    decreases vs, 1
  {
    if vs == [] then [] else Encode(vs[0]) + EncodeAll(vs[1..])
  }

  lemma {:induction false} FieldReadsBack(w: nat, n: nat)
    requires n < Pow256(w)
    ensures BigEndian(Field(w, n)) == n
  {
    if w > 0 {
      FieldReadsBack(w - 1, n / 256);
      assert Field(w, n)[..w - 1] == Field(w - 1, n / 256);
    }
  }

  lemma {:induction false} FieldOfBigEndian(bytes: Bytes)
    ensures BigEndian(bytes) < Pow256(|bytes|)
    ensures Field(|bytes|, BigEndian(bytes)) == bytes
  {
    if bytes != [] {
      FieldOfBigEndian(bytes[..|bytes| - 1]);
      assert bytes == bytes[..|bytes| - 1] + [bytes[|bytes| - 1]];
    }
  }

  function ChildrenOf(v: Value): seq<Value> {
    match v
    case Array(_, items) => items
    case Map(_, items) => items
    case _ => []
  }

  /** Reading a tag back: the type byte, then the length it was written with. */
  lemma TagReadsBack(width: Width, base8: Byte, n: nat, rest: Bytes)
    requires width != Fix && base8 + 2 < 256 && n < Pow256(WidthBytes(width))
    ensures var t := Tag(width, base8, n);
            && |t| == 1 + WidthBytes(width)
            && (t + rest)[0] == t[0] == base8 + (match width case W8 => 0 case W16 => 1 case _ => 2)
            && LengthField(t + rest, WidthBytes(width)) == Some(n)
  {
    var w := WidthBytes(width);
    var t := Tag(width, base8, n);
    FieldReadsBack(w, n);
    assert (t + rest)[1..1 + w] == Field(w, n);
  }

  /** The head of an encoded value takes everything but its children, and owes exactly those. */
  ghost predicate HeadFits(v: Value, rest: Bytes)
    requires WellFormed(v) && AllWellFormed(ChildrenOf(v))
  {
    var below := EncodeAll(ChildrenOf(v));
    && |below| < |Encode(v)|
    && HeadOf(Encode(v) + rest) == Some(Head(|Encode(v)| - |below|, |ChildrenOf(v)|))
    && Encode(v)[|Encode(v)| - |below|..] == below
  }

  lemma HeadOfBytes(v: Value, rest: Bytes)
    requires WellFormed(v) && (v.Str? || v.Bin?) && v.width != Fix
    ensures HeadFits(v, rest)
  {
    var base8: Byte := if v.Str? then 0xd9 else 0xc4;
    var after := if v.Str? then v.text else v.payload;
    Assoc(Tag(v.width, base8, |after|), after, rest);
    TagReadsBack(v.width, base8, |after|, after + rest);
    Whole(Encode(v));
  }

  lemma HeadOfExt(v: Value, rest: Bytes)
    requires WellFormed(v) && v.Ext? && v.width != Fix
    ensures HeadFits(v, rest)
  {
    var n, after := |v.payload|, [v.kind] + v.payload;
    Assoc(Tag(v.width, 0xc7, n), [v.kind], v.payload);
    Assoc(Tag(v.width, 0xc7, n), after, rest);
    TagReadsBack(v.width, 0xc7, n, after + rest);
    Whole(Encode(v));
  }

  lemma HeadOfContainer(v: Value, rest: Bytes)
    requires WellFormed(v) && (v.Array? || v.Map?) && v.width != Fix
    ensures HeadFits(v, rest)
  {
    var n := if v.Array? then |v.items| else |v.items| / 2;
    var base8: Byte := if v.Array? then 0xdb else 0xdd;
    var after := EncodeAll(v.items);
    Assoc(Tag(v.width, base8, n), after, rest);
    JoinParts(Tag(v.width, base8, n), after);
    TagReadsBack(v.width, base8, n, after + rest);
  }

  lemma HeadOfEncoded(v: Value, rest: Bytes)
    requires WellFormed(v)
    ensures AllWellFormed(ChildrenOf(v)) && HeadFits(v, rest)
  {
    match v
    case Single(b) =>
    case Number(b, payload) =>
    case Str(width, text) => if width != Fix { HeadOfBytes(v, rest); }
    case Bin(width, payload) => HeadOfBytes(v, rest);
    case Ext(width, kind, payload) => if width != Fix { HeadOfExt(v, rest); }
    case Array(width, items) => if width != Fix { HeadOfContainer(v, rest); }
    case Map(width, items) => if width != Fix { HeadOfContainer(v, rest); }
  }

  /** Reading the head of an encoded value, whatever follows it. */
  ghost predicate HeadReads(head: Header, v: Value, rest: Bytes) {
    WellFormed(v) ==>
      && AllWellFormed(ChildrenOf(v))
      && var below := EncodeAll(ChildrenOf(v));
         && |below| < |Encode(v)|
         && head(Encode(v) + rest) == Some(Head(|Encode(v)| - |below|, |ChildrenOf(v)|))
         && Encode(v)[|Encode(v)| - |below|..] == below
  }

  ghost predicate ReadsHeads(head: Header) {
    forall v, rest :: HeadReads(head, v, rest)
  }

  lemma MsgpackReadsHeads()
    ensures ReadsHeads(MsgpackHeader())
  {
    forall v: Value, rest: Bytes
      ensures HeadReads(MsgpackHeader(), v, rest)
    {
      if WellFormed(v) {
        HeadOfEncoded(v, rest);
      }
    }
  }

  lemma {:induction false} ValueIsMeasured(head: Header, v: Value, rest: Bytes)
    requires WellFormed(v) && ReadsHeads(head)
    ensures ValueLen(head, Encode(v) + rest) == Some(|Encode(v)|)
    decreases v, 0
  {
    assert HeadReads(head, v, rest);
    var children := ChildrenOf(v);
    var h := |Encode(v)| - |EncodeAll(children)|;
    SliceOfJoinLeft(Encode(v), rest, h, h);
    if children == [] {
      assert ValuesLen(head, EncodeAll(children) + rest, 0) == Some(0);
    } else {
      ValuesAreMeasured(head, children, rest);
    }
  }

  lemma {:induction false} ValuesAreMeasured(head: Header, vs: seq<Value>, rest: Bytes)
    requires AllWellFormed(vs) && ReadsHeads(head)
    ensures ValuesLen(head, EncodeAll(vs) + rest, |vs|) == Some(|EncodeAll(vs)|)
    decreases vs, 1
  {
    if vs != [] {
      var first, tail := Encode(vs[0]), EncodeAll(vs[1..]);
      Assoc(first, tail, rest);
      ValueIsMeasured(head, vs[0], tail + rest);
      ValuesAreMeasured(head, vs[1..], rest);
      JoinParts(first, tail + rest);
    }
  }

  /** Completeness: every well-formed value, whatever follows it, is measured exactly. */
  lemma EncodedIsMeasured(v: Value, rest: Bytes)
    requires WellFormed(v)
    ensures ValueLen(MsgpackHeader(), Encode(v) + rest) == Some(|Encode(v)|)
  {
    MsgpackReadsHeads();
    ValueIsMeasured(MsgpackHeader(), v, rest);
  }

  /** No strict prefix of an encoded value is taken for a record. */
  lemma PrefixIsNotYet(v: Value, k: nat)
    requires WellFormed(v) && k < |Encode(v)|
    ensures ValueLen(MsgpackHeader(), Encode(v)[..k]) == None
  {
    EncodedIsMeasured(v, []);
    EmptyJoins(Encode(v));
    MsgpackHeaderIsStable();
    ValueLenPrefix(MsgpackHeader(), Encode(v)[..k], Encode(v));
  }

  // ---------------------------------------------------------------- reading a value back

  /** Soundness: what is measured as one value is the encoding of a well-formed value. */
  lemma MeasuredIsEncoded(d: Bytes) returns (v: Value)
    requires ValueLen(MsgpackHeader(), d).Some?
    ensures WellFormed(v) && Encode(v) == d[..ValueLen(MsgpackHeader(), d).value]
  {
    v := ReadBack(MsgpackHeader(), d);
  }

  lemma {:induction false} ReadBack(head: Header, d: Bytes) returns (v: Value)
    requires ValueLen(head, d).Some? && forall x :: head(x) == HeadOf(x)
    ensures WellFormed(v) && Encode(v) == d[..ValueLen(head, d).value]
    decreases |d|, 0, 0
  {
    var h := head(d).value;
    var items := ReadAllBack(head, d[h.len..], h.children);
    v := DecodeNode(d, items, h);
    var n := ValueLen(head, d).value;
    TakeThenSlice(d, h.len, n);
    TakeOfDrop(d, h.len, n - h.len);
  }

  lemma {:induction false} ReadAllBack(head: Header, d: Bytes, k: nat) returns (vs: seq<Value>)
    requires ValuesLen(head, d, k).Some? && forall x :: head(x) == HeadOf(x)
    ensures AllWellFormed(vs) && |vs| == k && EncodeAll(vs) == d[..ValuesLen(head, d, k).value]
    decreases |d|, 1, k
  {
    if k == 0 {
      vs := [];
    } else {
      var n := ValueLen(head, d).value;
      var first := ReadBack(head, d);
      var more := ReadAllBack(head, d[n..], k - 1);
      vs := [first] + more;
      EncodeAllCons(first, more);
      var m := ValuesLen(head, d[n..], k - 1).value;
      TakeThenSlice(d, n, n + m);
      TakeOfDrop(d, n, m);
    }
  }

  lemma DecodeNode(d: Bytes, items: seq<Value>, h: Head) returns (v: Value)
    requires HeadOf(d) == Some(h) && h.len <= |d|
    requires AllWellFormed(items) && |items| == h.children
    ensures WellFormed(v) && Encode(v) == d[..h.len] + EncodeAll(items)
  {
    if 0x80 <= d[0] <= 0x9f || 0xdc <= d[0] <= 0xdf {
      v := DecodeContainer(d, items);
    } else {
      v := DecodeLeaf(d);
      EmptyJoins(d[..h.len]);
    }
  }

  lemma EncodeAllCons(v: Value, vs: seq<Value>)
    requires WellFormed(v) && AllWellFormed(vs)
    ensures AllWellFormed([v] + vs) && EncodeAll([v] + vs) == Encode(v) + EncodeAll(vs)
  {
    ConsTail(v, vs);
  }

  function WidthOf(w: nat): Width {
    if w == 1 then W8 else if w == 2 then W16 else W32
  }

  lemma TagOfBytes(d: Bytes, base8: Byte, w: nat)
    requires w in {1, 2, 4} && base8 + 2 < 256 && 1 + w <= |d|
    requires d[0] == base8 + (if w == 1 then 0 else if w == 2 then 1 else 2)
    ensures LengthField(d, w).Some?
    ensures LengthField(d, w).value < Pow256(w)
    ensures Tag(WidthOf(w), base8, LengthField(d, w).value) == d[..1 + w]
  {
    FieldOfBigEndian(d[1..1 + w]);
    assert d[..1 + w] == [d[0]] + d[1..1 + w];
  }

  lemma DecodeLeaf(d: Bytes) returns (v: Value)
    requires HeadOf(d).Some? && HeadOf(d).value.len <= |d|
    requires !(0x80 <= d[0] <= 0x9f || 0xdc <= d[0] <= 0xdf)
    ensures WellFormed(v) && Encode(v) == d[..HeadOf(d).value.len]
  {
    var b := d[0];
    var n := HeadOf(d).value.len;
    if b <= 0x7f || 0xe0 <= b || b == 0xc0 || b == 0xc2 || b == 0xc3 {
      v := Single(b);
    } else if b <= 0xbf {
      v := Str(Fix, d[1..n]);
    } else if 0xca <= b <= 0xd3 {
      v := Number(b, d[1..n]);
    } else if 0xd4 <= b <= 0xd8 {
      v := Ext(Fix, d[1], d[2..n]);
    } else {
      v := DecodeTaggedLeaf(d);
    }
  }

  lemma DecodeTaggedLeaf(d: Bytes) returns (v: Value)
    requires HeadOf(d).Some? && HeadOf(d).value.len <= |d|
    requires 0xc4 <= d[0] <= 0xc9 || 0xd9 <= d[0] <= 0xdb
    ensures WellFormed(v) && Encode(v) == d[..HeadOf(d).value.len]
  {
    var b := d[0];
    if b <= 0xc6 {
      v := DecodeBin(d, if b == 0xc4 then 1 else if b == 0xc5 then 2 else 4);
    } else if b <= 0xc9 {
      v := DecodeExt(d, if b == 0xc7 then 1 else if b == 0xc8 then 2 else 4);
    } else {
      v := DecodeStr(d, if b == 0xd9 then 1 else if b == 0xda then 2 else 4);
    }
  }

  lemma DecodeBin(d: Bytes, w: nat) returns (v: Value)
    requires w in {1, 2, 4} && 1 + w <= |d| && LengthField(d, w).Some?
    requires d[0] == 0xc4 + (if w == 1 then 0 else if w == 2 then 1 else 2)
    requires 1 + w + LengthField(d, w).value <= |d|
    ensures WellFormed(v) && Encode(v) == d[..1 + w + LengthField(d, w).value]
  {
    TagOfBytes(d, 0xc4, w);
    v := Bin(WidthOf(w), d[1 + w..1 + w + LengthField(d, w).value]);
  }

  lemma DecodeStr(d: Bytes, w: nat) returns (v: Value)
    requires w in {1, 2, 4} && 1 + w <= |d| && LengthField(d, w).Some?
    requires d[0] == 0xd9 + (if w == 1 then 0 else if w == 2 then 1 else 2)
    requires 1 + w + LengthField(d, w).value <= |d|
    ensures WellFormed(v) && Encode(v) == d[..1 + w + LengthField(d, w).value]
  {
    TagOfBytes(d, 0xd9, w);
    v := Str(WidthOf(w), d[1 + w..1 + w + LengthField(d, w).value]);
  }

  lemma DecodeExt(d: Bytes, w: nat) returns (v: Value)
    requires w in {1, 2, 4} && 1 + w <= |d| && LengthField(d, w).Some?
    requires d[0] == 0xc7 + (if w == 1 then 0 else if w == 2 then 1 else 2)
    requires 2 + w + LengthField(d, w).value <= |d|
    ensures WellFormed(v) && Encode(v) == d[..2 + w + LengthField(d, w).value]
  {
    TagOfBytes(d, 0xc7, w);
    v := Ext(WidthOf(w), d[1 + w], d[2 + w..2 + w + LengthField(d, w).value]);
  }

  lemma DecodeContainer(d: Bytes, items: seq<Value>) returns (v: Value)
    requires HeadOf(d).Some? && HeadOf(d).value.len <= |d|
    requires 0x80 <= d[0] <= 0x9f || 0xdc <= d[0] <= 0xdf
    requires AllWellFormed(items) && |items| == HeadOf(d).value.children
    ensures WellFormed(v) && Encode(v) == d[..HeadOf(d).value.len] + EncodeAll(items)
  {
    var b := d[0];
    if b <= 0x8f {
      v := Map(Fix, items);
    } else if b <= 0x9f {
      v := Array(Fix, items);
    } else {
      v := DecodeTaggedContainer(d, items, if b == 0xdc || b == 0xde then 2 else 4);
    }
  }

  lemma DecodeTaggedContainer(d: Bytes, items: seq<Value>, w: nat) returns (v: Value)
    requires w in {2, 4} && 1 + w <= |d| && LengthField(d, w).Some?
    requires d[0] == (if w == 2 then 0xdc else 0xdd) || d[0] == (if w == 2 then 0xde else 0xdf)
    requires AllWellFormed(items)
    requires |items| == LengthField(d, w).value * (if d[0] <= 0xdd then 1 else 2)
    ensures WellFormed(v) && Encode(v) == d[..1 + w] + EncodeAll(items)
  {
    if d[0] <= 0xdd {
      TagOfBytes(d, 0xdb, w);
      v := Array(WidthOf(w), items);
    } else {
      TagOfBytes(d, 0xdd, w);
      v := Map(WidthOf(w), items);
    }
  }
}
