/** The protobuf wire format, stated on its own, and that what the encoder writes is in it
    (pb_encode.c; the encoding chapter of the Protocol Buffers documentation). */
module PbGrammar {
  import opened DbFormat
  import opened Coding
  import opened PbWire
  import opened PbMessage

  // ----- Byte strings and what they stand for -----

  /** A payload. Byte strings, packed arrays and submessages all are delimited by their length. */
  datatype Payload =
    | Varint(v: nat)
    | Word64(v: nat)
    | Word32(v: nat)
    | Data(b: Bytes)
    | Packed(items: seq<Payload>)
    | Message(records: seq<Record>)

  datatype Record = Record(number: nat, payload: Payload)

  function WireCode(p: Payload): nat {
    match p
    case Varint(_) => 0
    case Word64(_) => 1
    case Word32(_) => 5
    case _ => 2
  }

  /** Varints have at most ten bytes. */
  predicate IsVarint(b: Bytes, v: nat) {
    VarintShape(b) && |b| <= 10 && VarintValue(b) == v
  }

  /** The first `n` bytes give the length of the rest. */
  predicate Delimited(b: Bytes, n: nat) {
    n <= |b| && IsVarint(b[..n], |b| - n)
  }

  ghost predicate IsPayload(p: Payload, b: Bytes)
    decreases |b|, 1
  {
    match p
    case Varint(v) => IsVarint(b, v)
    case Word64(v) => |b| == 8 && WordValue(b) == v
    case Word32(v) => |b| == 4 && WordValue(b) == v
    case Data(x) => exists n: nat :: Delimited(b, n) && b[n..] == x
    case Packed(items) => exists n: nat :: Delimited(b, n) && IsItems(items, b[n..])
    case Message(records) => exists n: nat :: Delimited(b, n) && IsRecords(records, b[n..])
  }

  /** The number and the wire type in one varint, then the payload. */
  ghost predicate IsRecord(r: Record, b: Bytes)
    decreases |b|, 2
  {
    exists n: nat :: n <= |b| && IsVarint(b[..n], r.number * 8 + WireCode(r.payload)) && IsPayload(r.payload, b[n..])
  }

  ghost predicate IsItems(ps: seq<Payload>, b: Bytes)
    decreases |b|, 3, |ps|
  {
    if ps == [] then b == [] else exists n: nat :: n <= |b| && IsPayload(ps[0], b[..n]) && IsItems(ps[1..], b[n..])
  }

  ghost predicate IsRecords(rs: seq<Record>, b: Bytes)
    decreases |b|, 3, |rs|
  {
    if rs == [] then b == [] else exists n: nat :: n <= |b| && IsRecord(rs[0], b[..n]) && IsRecords(rs[1..], b[n..])
  }

  // ----- The records of a message -----

  /** The types whose arrays are packed. */
  predicate IsNumber(t: LType) {
    match t
    case LBytes | LString | LFixedBytes | LSubmessage(_) => false
    case _ => true
  }

  /** A value that stands for nothing when it is the only one of a proto3 field. */
  ghost predicate IsNothing(f: Field, v: Value)
    decreases f, 1
  {
    match v
    case Num(n) => n == 0
    case Blob(b) => b == []
    case Sub(slots) => f.ltype.LSubmessage? ==> forall k :: 0 <= k < |slots| && k < |f.ltype.sub.fields| ==> HoldsNothing(f.ltype.sub.fields[k], slots[k])
  }

  ghost predicate HoldsNothing(f: Field, s: Slot)
    decreases f, 2
  {
    match s
    case Absent => true
    case Single(v) => f.htype.Singular? && IsNothing(f, v)
    case Many(vs) => vs == []
  }

  ghost function PayloadOf(f: Field, v: Value): Payload
    requires Typed(f, v)
    decreases f, 1
  {
    match f.ltype
    case LBool | LUvarint => Varint(v.n)
    case LVarint => Varint(if v.n < 0 then v.n + 0x1_0000_0000_0000_0000 else v.n)
    case LSvarint => Varint(if v.n < 0 then -2 * v.n - 1 else 2 * v.n)
    case LFixed32 => Word32(v.n)
    case LFixed64 => Word64(v.n)
    case LSubmessage(d) => Message(RecordsFrom(d, v.slots, 0))
    case _ => Data(v.b)
  }

  ghost function PayloadsOf(f: Field, vs: seq<Value>): (ps: seq<Payload>)
    requires forall i :: 0 <= i < |vs| ==> Typed(f, vs[i])
    ensures |ps| == |vs|
    decreases f, 2, |vs|
  {
    if vs == [] then [] else [PayloadOf(f, vs[0])] + PayloadsOf(f, vs[1..])
  }

  /** Each payload in a record of its own. */
  function RecordEach(number: nat, ps: seq<Payload>): seq<Record> {
    if ps == [] then [] else [Record(number, ps[0])] + RecordEach(number, ps[1..])
  }

  ghost function RecordsOf(f: Field, s: Slot): seq<Record>
    requires TypedSlot(f, s)
    decreases f, 3
  {
    match s
    case Absent => []
    case Single(v) => if f.htype.Singular? && IsNothing(f, v) then [] else [Record(f.tag, PayloadOf(f, v))]
    case Many(vs) =>
      if vs == [] then []
      else if IsNumber(f.ltype) then [Record(f.tag, Packed(PayloadsOf(f, vs)))]
      else RecordEach(f.tag, PayloadsOf(f, vs))
  }

  ghost function RecordsFrom(d: Desc, slots: seq<Slot>, i: nat): seq<Record>
    requires TypedSlots(d, slots) && i <= |slots|
    decreases d, |slots| - i
  {
    if i == |slots| then [] else RecordsOf(d.fields[i], slots[i]) + RecordsFrom(d, slots, i + 1)
  }

  // ----- Varints and words -----

  lemma WordIsVarint(v: nat)
    requires v < TWO64
    ensures IsVarint(PutVarint(v), v)
  {
    Pow128Values();
    VarintWritten(v, 10);
  }

  lemma SliceIsDelimited(b: Bytes)
    requires |b| < TWO32
    ensures Delimited(PutSlice(b), |PutVarint(|b|)|) && PutSlice(b)[|PutVarint(|b|)|..] == b
  {
    WordIsVarint(|b|);
    assert PutSlice(b)[..|PutVarint(|b|)|] == PutVarint(|b|);
  }

  // ----- Sequences of records -----

  lemma {:induction false} RecordsConcat(a: seq<Record>, x: Bytes, b: seq<Record>, y: Bytes)
    requires IsRecords(a, x) && IsRecords(b, y)
    ensures IsRecords(a + b, x + y)
    decreases |a|
  {
    if a == [] {
      assert a + b == b && x + y == y;
    } else {
      var n: nat :| n <= |x| && IsRecord(a[0], x[..n]) && IsRecords(a[1..], x[n..]);
      RecordsConcat(a[1..], x[n..], b, y);
      assert (a + b)[1..] == a[1..] + b && (x + y)[..n] == x[..n] && (x + y)[n..] == x[n..] + y;
    }
  }

  lemma ItemsCons(p: Payload, x: Bytes, ps: seq<Payload>, y: Bytes)
    requires IsPayload(p, x) && IsItems(ps, y)
    ensures IsItems([p] + ps, x + y)
  {
    var all, b := [p] + ps, x + y;
    assert all[0] == p && all[1..] == ps && b[..|x|] == x && b[|x|..] == y;
  }

  lemma OneRecord(r: Record, b: Bytes)
    requires IsRecord(r, b)
    ensures IsRecords([r], b)
  {
    assert b[..|b|] == b && b[|b|..] == [];
    assert IsRecords([r][1..], b[|b|..]);
  }

  lemma TaggedIsRecord(number: nat, p: Payload, wire: nat, b: Bytes)
    requires wire == WireCode(p) && number * 8 + 7 < TWO32 && IsPayload(p, b)
    ensures IsRecord(Record(number, p), TagBytes(wire, number) + b)
  {
    hide PutVarint;
    WordIsVarint(number * 8 + wire);
    var t := TagBytes(wire, number);
    assert (t + b)[..|t|] == t && (t + b)[|t|..] == b;
  }

  // ----- What the encoder writes -----

  /** Field numbers that fit their tag, at every level. */
  ghost predicate NumbersFit(d: Desc)
    decreases d
  {
    forall i :: 0 <= i < |d.fields| ==> FieldFits(d.fields[i])
  }

  ghost predicate FieldFits(f: Field)
    decreases f
  {
    f.tag * 8 + 7 < TWO32 && (f.ltype.LSubmessage? ==> NumbersFit(f.ltype.sub))
  }

  lemma {:induction false} ZeroIsNothing(f: Field, v: Value)
    requires Typed(f, v)
    ensures ZeroValue(f, v) <==> IsNothing(f, v)
    decreases f, 1
  {
    if f.ltype.LSubmessage? {
      ZeroHoldsNothing(f.ltype.sub, v.slots, 0);
    }
  }

  lemma {:induction false} ZeroHoldsNothing(d: Desc, slots: seq<Slot>, i: nat)
    requires TypedSlots(d, slots) && i <= |slots|
    ensures ZeroSlots(d, slots, i) <==> forall k :: i <= k < |slots| ==> HoldsNothing(d.fields[k], slots[k])
    decreases d, |slots| - i
  {
    if i < |slots| {
      assert TypedSlot(d.fields[i], slots[i]);
      if slots[i].Single? {
        ZeroIsNothing(d.fields[i], slots[i].v);
      }
      ZeroHoldsNothing(d, slots, i + 1);
    }
  }

  lemma {:induction false} ValueWritten(f: Field, v: Value)
    requires Typed(f, v) && FieldFits(f) && EncodeValue(f, v).Some? && |EncodeValue(f, v).value| < TWO32
    ensures IsPayload(PayloadOf(f, v), EncodeValue(f, v).value) && WireCode(PayloadOf(f, v)) == WireType(f.ltype)
    decreases f, 1
  {
    hide PutVarint, EncodeFixed, TypedSlots, EncodeFrom, RecordsFrom, NumbersFit;
    match f.ltype
    case LBool => WordIsVarint(v.n);
    case LUvarint => WordIsVarint(v.n);
    case LVarint => WordIsVarint(ToWord(v.n));
    case LSvarint => WordIsVarint(ZigZag(v.n));
    case LFixed32 =>
      assert Pow256(4) == TWO32;
      WordWritten(v.n, 4);
    case LFixed64 =>
      assert Pow256(4) == TWO32 && Pow256(8) == TWO64;
      WordWritten(v.n, 8);
    case LSubmessage(d) =>
      MessageWritten(d, v.slots, 0);
      SliceIsDelimited(EncodeFrom(d, v.slots, 0).value);
    case _ => SliceIsDelimited(v.b);
  }

  lemma {:induction false} ItemsWritten(f: Field, vs: seq<Value>)
    requires (forall i :: 0 <= i < |vs| ==> Typed(f, vs[i])) && FieldFits(f)
    requires EncodeItems(f, vs).Some? && |EncodeItems(f, vs).value| < TWO32
    ensures IsItems(PayloadsOf(f, vs), EncodeItems(f, vs).value)
    decreases f, 2, |vs|
  {
    hide EncodeValue, PayloadOf, Typed, FieldFits;
    if vs != [] {
      ValueWritten(f, vs[0]);
      ItemsWritten(f, vs[1..]);
      ItemsCons(PayloadOf(f, vs[0]), EncodeValue(f, vs[0]).value, PayloadsOf(f, vs[1..]), EncodeItems(f, vs[1..]).value);
    }
  }

  lemma TaggedWritten(f: Field, v: Value)
    requires Typed(f, v) && FieldFits(f) && EncodeTagged(f, v).Some? && |EncodeTagged(f, v).value| < TWO32
    ensures IsRecord(Record(f.tag, PayloadOf(f, v)), EncodeTagged(f, v).value)
    decreases f, 2
  {
    hide EncodeValue, PayloadOf, Typed, WireType, TagBytes;
    ValueWritten(f, v);
    TaggedIsRecord(f.tag, PayloadOf(f, v), WireType(f.ltype), EncodeValue(f, v).value);
  }

  lemma {:induction false} EntriesWritten(f: Field, vs: seq<Value>)
    requires (forall i :: 0 <= i < |vs| ==> Typed(f, vs[i])) && FieldFits(f)
    requires EncodeEntries(f, vs).Some? && |EncodeEntries(f, vs).value| < TWO32
    ensures IsRecords(RecordEach(f.tag, PayloadsOf(f, vs)), EncodeEntries(f, vs).value)
    decreases f, 3, |vs|
  {
    hide EncodeTagged, PayloadOf, Typed, FieldFits;
    if vs != [] {
      TaggedWritten(f, vs[0]);
      EntriesWritten(f, vs[1..]);
      var r := Record(f.tag, PayloadOf(f, vs[0]));
      OneRecord(r, EncodeTagged(f, vs[0]).value);
      RecordsConcat([r], EncodeTagged(f, vs[0]).value, RecordEach(f.tag, PayloadsOf(f, vs[1..])), EncodeEntries(f, vs[1..]).value);
      EachCons(f.tag, PayloadOf(f, vs[0]), PayloadsOf(f, vs[1..]));
    }
  }

  lemma EachCons(number: nat, p: Payload, ps: seq<Payload>)
    ensures RecordEach(number, [p] + ps) == [Record(number, p)] + RecordEach(number, ps)
  {
    assert ([p] + ps)[1..] == ps;
  }

  lemma {:induction false} SlotWritten(f: Field, s: Slot)
    requires TypedSlot(f, s) && FieldFits(f) && EncodeSlot(f, s).Some? && |EncodeSlot(f, s).value| < TWO32
    ensures IsRecords(RecordsOf(f, s), EncodeSlot(f, s).value)
    decreases f, 4
  {
    hide EncodeTagged, EncodeItems, EncodeEntries, Typed, PayloadOf, PayloadsOf, IsRecord, PutVarint;
    match s
    case Absent =>
    case Single(v) =>
      ZeroIsNothing(f, v);
      if !(f.htype.Singular? && ZeroValue(f, v)) {
        TaggedWritten(f, v);
        OneRecord(Record(f.tag, PayloadOf(f, v)), EncodeTagged(f, v).value);
      }
    case Many(vs) =>
      if vs != [] {
        if IsNumber(f.ltype) {
          PackedWritten(f, vs);
        } else {
          EntriesWritten(f, vs);
        }
      }
  }

  lemma PackedWritten(f: Field, vs: seq<Value>)
    requires (forall i :: 0 <= i < |vs| ==> Typed(f, vs[i])) && FieldFits(f) && vs != [] && IsNumber(f.ltype)
    requires EncodeArray(f, vs).Some? && |EncodeArray(f, vs).value| < TWO32
    ensures IsRecords([Record(f.tag, Packed(PayloadsOf(f, vs)))], EncodeArray(f, vs).value)
    decreases f, 3
  {
    hide EncodeItems, PayloadsOf, Typed, PutVarint, IsRecord, IsItems, Delimited;
    var b, p := EncodeItems(f, vs).value, Packed(PayloadsOf(f, vs));
    assert |b| <= |PutSlice(b)| <= |EncodeArray(f, vs).value|;
    ItemsWritten(f, vs);
    SliceIsDelimited(b);
    TaggedIsRecord(f.tag, p, 2, PutSlice(b));
    OneRecord(Record(f.tag, p), EncodeArray(f, vs).value);
  }

  /** Main theorem about the encoder. What it writes is a sequence of records of the wire format: those
      of the fields in the descriptor's order, with their numbers and values. */
  lemma {:induction false} MessageWritten(d: Desc, slots: seq<Slot>, i: nat)
    requires TypedSlots(d, slots) && i <= |slots| && NumbersFit(d)
    requires EncodeFrom(d, slots, i).Some? && |EncodeFrom(d, slots, i).value| < TWO32
    ensures IsRecords(RecordsFrom(d, slots, i), EncodeFrom(d, slots, i).value)
    decreases d, |slots| - i
  {
    hide EncodeSlot, RecordsOf, TypedSlot, FieldFits;
    if i < |slots| {
      SlotWritten(d.fields[i], slots[i]);
      MessageWritten(d, slots, i + 1);
      RecordsConcat(RecordsOf(d.fields[i], slots[i]), EncodeSlot(d.fields[i], slots[i]).value,
                    RecordsFrom(d, slots, i + 1), EncodeFrom(d, slots, i + 1).value);
    }
  }
}
