/** Descriptors, messages and what their encoding is (pb.h, pb_encode.c). */
module PbMessage {
  import opened Options
  import opened DbFormat
  import opened Coding
  import opened PbWire

  /** PB_LTYPE_*: how a field's data looks. The first six may be packed. */
  datatype LType =
    | LBool | LVarint | LUvarint | LSvarint | LFixed32 | LFixed64
    | LBytes | LString | LFixedBytes
    | LSubmessage(sub: Desc)

  /** PB_HTYPE_*: how often a field occurs. A singular field of proto3 is optional without a
      has_ flag; the fields of one oneof share its number. */
  datatype HType = Required | Optional | Singular | Repeated | Oneof(group: nat)

  datatype Field = Field(tag: nat, htype: HType, ltype: LType, dataSize: nat, arraySize: nat, default: Value)

  datatype Desc = Desc(fields: seq<Field>)

  datatype Value = Num(n: int) | Blob(b: Bytes) | Sub(slots: seq<Slot>)

  /** A field of a message: absent (has_ false, or another member of the oneof set), a single
      value, or the entries of an array. */
  datatype Slot = Absent | Single(v: Value) | Many(vs: seq<Value>)

  predicate Packable(t: LType) {
    t.LBool? || t.LVarint? || t.LUvarint? || t.LSvarint? || t.LFixed32? || t.LFixed64?
  }

  /** pb_encode_tag_for_field */
  function WireType(t: LType): nat {
    match t
    case LBool | LVarint | LUvarint | LSvarint => WT_VARINT
    case LFixed32 => WT_32BIT
    case LFixed64 => WT_64BIT
    case _ => WT_STRING
  }

  // ----- Values that fit their C type -----

  const BYTES_OFFSET: nat := 2        // offsetof(pb_bytes_array_t, bytes)
  const PB_SIZE_MAX: nat := 0xffff
  const MAX_REQUIRED: nat := 64       // PB_MAX_REQUIRED_FIELDS

  function Half(dataSize: nat): nat {
    if dataSize == 1 then 0x80 else if dataSize == 2 then 0x8000 else if dataSize == 4 then TWO31 else TWO63
  }

  predicate IntSize(dataSize: nat) {
    dataSize == 1 || dataSize == 2 || dataSize == 4 || dataSize == 8
  }

  predicate SignedFits(n: int, dataSize: nat) {
    -(Half(dataSize) as int) <= n < Half(dataSize)
  }

  predicate UnsignedFits(n: int, dataSize: nat) {
    0 <= n < 2 * Half(dataSize)
  }

  /** The C value is of the field's type. */
  ghost predicate Typed(f: Field, v: Value)
    decreases f, 1
  {
    match f.ltype
    case LBool => v == Num(0) || v == Num(1)
    case LVarint | LSvarint => v.Num? && IntSize(f.dataSize) && SignedFits(v.n, f.dataSize)
    case LUvarint => v.Num? && IntSize(f.dataSize) && UnsignedFits(v.n, f.dataSize)
    case LFixed32 => v.Num? && 0 <= v.n < TWO32
    case LFixed64 => v.Num? && 0 <= v.n < TWO64
    case LBytes => v.Blob? && |v.b| <= PB_SIZE_MAX
    case LString => v.Blob? && |v.b| < f.dataSize && forall i :: 0 <= i < |v.b| ==> v.b[i] != 0
    case LFixedBytes => v.Blob? && |v.b| == f.dataSize <= PB_SIZE_MAX
    case LSubmessage(d) => v.Sub? && TypedSlots(d, v.slots)
  }

  ghost predicate TypedSlot(f: Field, s: Slot)
    decreases f, 2
  {
    match f.htype
    case Required => s.Single? && Typed(f, s.v)
    case Singular => s.Single? && Typed(f, s.v)
    case Repeated => s.Many? && forall i :: 0 <= i < |s.vs| ==> Typed(f, s.vs[i])
    case _ => s.Absent? || (s.Single? && Typed(f, s.v))
  }

  ghost predicate TypedSlots(d: Desc, slots: seq<Slot>)
    decreases d, 3
  {
    |slots| == |d.fields| && forall i :: 0 <= i < |slots| ==> TypedSlot(d.fields[i], slots[i])
  }

  // ----- Zero values (pb_check_proto3_default_value) -----

  predicate ZeroValue(f: Field, v: Value)
    decreases f, 1
  {
    match v
    case Num(n) => n == 0
    case Blob(b) => if f.ltype.LFixedBytes? then f.dataSize == 0 else b == []
    case Sub(slots) => f.ltype.LSubmessage? ==> ZeroSlots(f.ltype.sub, slots, 0)
  }

  predicate ZeroSlot(f: Field, s: Slot)
    decreases f, 2
  {
    match f.htype
    case Required => false
    case Repeated => s == Many([])
    case Singular => s.Single? ==> ZeroValue(f, s.v)
    case _ => s.Absent?
  }

  predicate ZeroSlots(d: Desc, slots: seq<Slot>, i: nat)
    decreases d, if i < |d.fields| then |d.fields| - i else 0
  {
    i >= |d.fields| || i >= |slots| || (ZeroSlot(d.fields[i], slots[i]) && ZeroSlots(d, slots, i + 1))
  }

  // ----- The encoding of values -----

  function ZigZag(n: int): nat {
    if n < 0 then -2 * n - 1 else 2 * n
  }

  /** The 64-bit word of a number: a negative one is extended by its sign. */
  function ToWord(n: int): nat
    requires -(TWO63 as int) <= n
  {
    if n < 0 then n + TWO64 else n
  }

  /** The data of one value without its tag; nothing when it does not fit its field. */
  function EncodeValue(f: Field, v: Value): Option<Bytes>
    requires Typed(f, v)
    decreases f, 1
  {
    match f.ltype
    case LBool => Some(PutVarint(v.n))
    case LVarint => Some(PutVarint(ToWord(v.n)))
    case LUvarint => Some(PutVarint(v.n))
    case LSvarint => Some(PutVarint(ZigZag(v.n)))
    case LFixed32 => Some(EncodeFixed(v.n, 4))
    case LFixed64 => Some(EncodeFixed(v.n, 8))
    case LBytes => if |v.b| + BYTES_OFFSET > f.dataSize then None else Some(PutSlice(v.b))
    case LString => Some(PutSlice(v.b))
    case LFixedBytes => Some(PutSlice(v.b))
    case LSubmessage(d) =>
      match EncodeFrom(d, v.slots, 0)
      case None => None
      case Some(b) => Some(PutSlice(b))
  }

  /** The entries of a packed array, one behind the other. */
  function EncodeItems(f: Field, vs: seq<Value>): Option<Bytes>
    requires forall i :: 0 <= i < |vs| ==> Typed(f, vs[i])
    decreases f, 2, |vs|
  {
    if vs == [] then Some([])
    else Append(EncodeValue(f, vs[0]), EncodeItems(f, vs[1..]))
  }

  function Append(a: Option<Bytes>, b: Option<Bytes>): Option<Bytes> {
    if a.Some? && b.Some? then Some(a.value + b.value) else None
  }

  /** A value behind its tag. */
  function EncodeTagged(f: Field, v: Value): Option<Bytes>
    requires Typed(f, v)
    decreases f, 2
  {
    Append(Some(TagBytes(WireType(f.ltype), f.tag)), EncodeValue(f, v))
  }

  /** The entries of an array that is not packed, each behind its own tag. */
  function EncodeEntries(f: Field, vs: seq<Value>): Option<Bytes>
    requires forall i :: 0 <= i < |vs| ==> Typed(f, vs[i])
    decreases f, 3, |vs|
  {
    if vs == [] then Some([])
    else Append(EncodeTagged(f, vs[0]), EncodeEntries(f, vs[1..]))
  }

  /** encode_array */
  function EncodeArray(f: Field, vs: seq<Value>): Option<Bytes>
    requires forall i :: 0 <= i < |vs| ==> Typed(f, vs[i])
    decreases f, 4
  {
    if vs == [] then Some([])
    else if |vs| > f.arraySize then None
    else if Packable(f.ltype) then
      match EncodeItems(f, vs)
      case None => None
      case Some(b) => Some(TagBytes(WT_STRING, f.tag) + PutSlice(b))
    else EncodeEntries(f, vs)
  }

  /** encode_basic_field */
  function EncodeSlot(f: Field, s: Slot): Option<Bytes>
    requires TypedSlot(f, s)
    decreases f, 5
  {
    match s
    case Absent => Some([])
    case Many(vs) => EncodeArray(f, vs)
    case Single(v) => if f.htype.Singular? && ZeroValue(f, v) then Some([]) else EncodeTagged(f, v)
  }

  /** pb_encode, from field `i` on. */
  function EncodeFrom(d: Desc, slots: seq<Slot>, i: nat): Option<Bytes>
    requires TypedSlots(d, slots) && i <= |slots|
    decreases d, |slots| - i
  {
    if i == |slots| then Some([])
    else Append(EncodeSlot(d.fields[i], slots[i]), EncodeFrom(d, slots, i + 1))
  }

  function Encode(d: Desc, slots: seq<Slot>): Option<Bytes>
    requires TypedSlots(d, slots)
  {
    EncodeFrom(d, slots, 0)
  }

  // ----- When a message encodes -----

  /** Arrays and byte strings keep within the space the C struct has for them. */
  predicate FitsValue(f: Field, v: Value)
    decreases f, 1
  {
    match v
    case Num(_) => true
    case Blob(b) => f.ltype.LBytes? ==> |b| + BYTES_OFFSET <= f.dataSize
    case Sub(slots) => f.ltype.LSubmessage? ==> FitsFrom(f.ltype.sub, slots, 0)
  }

  predicate FitsSlot(f: Field, s: Slot)
    decreases f, 2
  {
    match s
    case Absent => true
    case Single(v) => (f.htype.Singular? && ZeroValue(f, v)) || FitsValue(f, v)
    case Many(vs) => |vs| <= f.arraySize && forall i :: 0 <= i < |vs| ==> FitsValue(f, vs[i])
  }

  predicate FitsFrom(d: Desc, slots: seq<Slot>, i: nat)
    decreases d, if i < |d.fields| then |d.fields| - i else 0
  {
    i >= |d.fields| || i >= |slots| || (FitsSlot(d.fields[i], slots[i]) && FitsFrom(d, slots, i + 1))
  }

  /** Encoding fails for no other reason than a value that does not fit. */
  lemma {:induction false} EncodesIff(d: Desc, slots: seq<Slot>, i: nat)
    requires TypedSlots(d, slots) && i <= |slots|
    ensures EncodeFrom(d, slots, i).Some? <==> FitsFrom(d, slots, i)
    decreases d, |slots| - i
  {
    if i < |slots| {
      assert TypedSlot(d.fields[i], slots[i]);
      SlotEncodesIff(d.fields[i], slots[i]);
      EncodesIff(d, slots, i + 1);
    }
  }

  lemma {:induction false} SlotEncodesIff(f: Field, s: Slot)
    requires TypedSlot(f, s)
    ensures EncodeSlot(f, s).Some? <==> FitsSlot(f, s)
    decreases f, 5
  {
    match s
    case Absent =>
    case Single(v) => ValueEncodesIff(f, v);
    case Many(vs) => ItemsEncodeIff(f, vs);
  }

  lemma {:induction false} ValueEncodesIff(f: Field, v: Value)
    requires Typed(f, v)
    ensures EncodeValue(f, v).Some? <==> FitsValue(f, v)
    decreases f, 1
  {
    if f.ltype.LSubmessage? {
      EncodesIff(f.ltype.sub, v.slots, 0);
    }
  }

  lemma {:induction false} ItemsEncodeIff(f: Field, vs: seq<Value>)
    requires forall i :: 0 <= i < |vs| ==> Typed(f, vs[i])
    ensures EncodeItems(f, vs).Some? <==> forall i :: 0 <= i < |vs| ==> FitsValue(f, vs[i])
    ensures EncodeEntries(f, vs).Some? <==> forall i :: 0 <= i < |vs| ==> FitsValue(f, vs[i])
    decreases f, 2, |vs|
  {
    if vs != [] {
      hide EncodeValue, FitsValue, Typed;
      ValueEncodesIff(f, vs[0]);
      ItemsEncodeIff(f, vs[1..]);
      assert forall i :: 1 <= i < |vs| ==> vs[i] == vs[1..][i - 1];
    }
  }
}
