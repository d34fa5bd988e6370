/** Decoding undoes encoding, and unknown fields make no difference. */
module PbRoundTrip {
  import opened Options
  import opened DbFormat
  import opened Coding
  import opened PbWire
  import opened PbMessage
  import opened PbIter
  import opened PbDecodeSpec

  // ----- Descriptors and messages for which the round trip is promised -----

  /** What a field without a default value of its own is filled with. */
  function ZeroOf(f: Field): Value {
    if Packable(f.ltype) then Num(0) else if f.ltype.LFixedBytes? then Blob(Zeros(f.dataSize)) else Blob([])
  }

  /** A sound descriptor entry. A singular field of proto3 has the zero default. */
  ghost predicate ValidField(f: Field)
    decreases f, 1
  {
    && 0 < f.tag && f.tag * 8 + 7 < TWO32
    && (f.ltype.LSubmessage? ==> ValidDesc(f.ltype.sub))
    && (f.htype.Singular? && !f.ltype.LSubmessage? ==> f.default == ZeroOf(f))
  }

  ghost predicate ValidDesc(d: Desc)
    decreases d, 2
  {
    && (forall i :: 0 <= i < |d.fields| ==> ValidField(d.fields[i]))
    && (forall i, j :: 0 <= i < j < |d.fields| ==> d.fields[i].tag != d.fields[j].tag)
  }

  /** At most one member of each oneof is present, at every level. */
  ghost predicate Exclusive(d: Desc, slots: seq<Slot>)
    decreases d, 3
  {
    && |slots| == |d.fields|
    && (forall i, j :: 0 <= i < j < |slots| && d.fields[i].htype.Oneof? && d.fields[i].htype == d.fields[j].htype ==>
          slots[i].Absent? || slots[j].Absent?)
    && (forall i :: 0 <= i < |slots| ==> ExclusiveSlot(d.fields[i], slots[i]))
  }

  ghost predicate ExclusiveSlot(f: Field, s: Slot)
    decreases f, 2
  {
    match s
    case Absent => true
    case Single(v) => ExclusiveValue(f, v)
    case Many(vs) => forall i :: 0 <= i < |vs| ==> ExclusiveValue(f, vs[i])
  }

  ghost predicate ExclusiveValue(f: Field, v: Value)
    decreases f, 1
  {
    f.ltype.LSubmessage? && v.Sub? ==> Exclusive(f.ltype.sub, v.slots)
  }

  // ----- Single values -----

  lemma ZigZagRoundTrip(n: int)
    ensures UnZigZag(ZigZag(n)) == n
  {
  }

  lemma WordRoundTrip(n: int, size: nat)
    requires IntSize(size) && SignedFits(n, size)
    ensures ToWord(n) < TWO64
    ensures (if size == 8 then Signed64(ToWord(n)) else Signed32(ToWord(n))) == n
  {
    if n < 0 {
      assert (n + TWO64) % TWO32 == (n + TWO32) % TWO32;
    }
  }

  lemma FixedTaken(n: nat, w: nat, rest: Bytes)
    requires n < Pow256(w)
    ensures TakeFixed(EncodeFixed(n, w) + rest, w) == Some((Num(n), rest))
  {
    FixedRoundTrip(n, w);
    var b := EncodeFixed(n, w) + rest;
    assert b[..w] == EncodeFixed(n, w) && b[w..] == rest;
  }

  lemma NumberRoundTrip(f: Field, v: Value, rest: Bytes)
    requires Packable(f.ltype) && Typed(f, v)
    ensures EncodeValue(f, v).Some? && DecodeNumber(f, EncodeValue(f, v).value + rest) == Some((v, rest))
  {
    hide PutVarint, Decode64, Decode32, EncodeFixed, DecodeFixed, TakeFixed, ToWord, ZigZag, UnZigZag, Signed64, Signed32;
    match f.ltype
    case LBool => Varint32RoundTrip(v.n, rest);
    case LFixed32 =>
      assert Pow256(4) == TWO32;
      FixedTaken(v.n, 4, rest);
    case LFixed64 =>
      assert Pow256(4) == TWO32 && Pow256(8) == TWO64;
      FixedTaken(v.n, 8, rest);
    case LUvarint => Varint64RoundTrip(v.n, rest);
    case LSvarint =>
      ZigZagFits(v.n, f.dataSize);
      ZigZagRoundTrip(v.n);
      Varint64RoundTrip(ZigZag(v.n), rest);
    case LVarint =>
      WordRoundTrip(v.n, f.dataSize);
      Varint64RoundTrip(ToWord(v.n), rest);
  }

  lemma ZigZagFits(n: int, size: nat)
    requires IntSize(size) && SignedFits(n, size)
    ensures ZigZag(n) < TWO64
  {
  }

  lemma {:induction false} NoNulToCut(b: Bytes)
    requires forall i :: 0 <= i < |b| ==> b[i] != 0
    ensures UpToNul(b) == b
  {
    if b != [] {
      NoNulToCut(b[1..]);
    }
  }

  lemma BlobRoundTrip(f: Field, v: Value, rest: Bytes)
    requires (f.ltype.LBytes? || f.ltype.LString? || f.ltype.LFixedBytes?) && Typed(f, v)
    requires EncodeValue(f, v).Some? && |v.b| < TWO32
    ensures DecodeBlob(f, EncodeValue(f, v).value + rest) == Some((v, rest))
  {
    hide PutVarint, Decode32, UpToNul;
    var b := v.b;
    assert PutSlice(b) + rest == PutVarint(|b|) + (b + rest);
    Varint32RoundTrip(|b|, b + rest);
    assert (b + rest)[..|b|] == b && (b + rest)[|b|..] == rest;
    if f.ltype.LString? {
      NoNulToCut(b);
    } else if b == [] {
      assert Zeros(0) == [] && b + rest == rest;
    }
  }

  // ----- Records -----

  /** `a` consists of whole records that the decoder takes one after the other. */
  ghost predicate WholeRecords(d: Desc, slots: seq<Slot>, seen: set<nat>, a: Bytes)
    requires |slots| == |d.fields|
    decreases |a|
  {
    a == [] ||
    match DecodeTag(a)
    case Eof => false
    case TagError => false
    case Tag(wire, tag, rest) =>
      match FindTag(d, tag, 0)
      case None =>
        (match SkipField(wire, rest)
         case None => false
         case Some(next) => WholeRecords(d, slots, seen, next))
      case Some(i) =>
        match DecodeSlot(d.fields[i], slots[i], wire, rest)
        case None => false
        case Some((s, next)) => WholeRecords(d, SetSlot(d, slots, i, s), seen + Bit(d, i), next)
  }

  /** Reading `b` first brings the decoder to a state from which `rest` is still to be read. */
  ghost predicate LeadsTo(d: Desc, cur: seq<Slot>, seen: set<nat>, b: Bytes, cur': seq<Slot>, seen': set<nat>, rest: Bytes)
    requires |cur| == |d.fields| && |cur'| == |d.fields|
  {
    && DecodeLoop(d, cur, seen, b) == DecodeLoop(d, cur', seen', rest)
    && (WholeRecords(d, cur, seen, b) <==> WholeRecords(d, cur', seen', rest))
  }

  // ----- Messages -----

  /** Zero messages are the default ones, so leaving them out loses nothing. */
  lemma {:induction false} ZeroIsDefault(d: Desc, slots: seq<Slot>, i: nat)
    requires ValidDesc(d) && TypedSlots(d, slots) && i <= |slots| && ZeroSlots(d, slots, i)
    ensures forall k :: i <= k < |slots| ==> slots[k] == DefaultSlot(d.fields[k])
    decreases d, |slots| - i
  {
    if i < |slots| {
      var f := d.fields[i];
      assert ValidField(f) && TypedSlot(f, slots[i]);
      if f.htype.Singular? {
        ZeroValueIsDefault(f, slots[i].v);
      }
      ZeroIsDefault(d, slots, i + 1);
    }
  }

  lemma {:induction false} ZeroValueIsDefault(f: Field, v: Value)
    requires ValidField(f) && f.htype.Singular? && Typed(f, v) && ZeroValue(f, v)
    ensures v == DefaultValue(f)
    decreases f, 1
  {
    if f.ltype.LSubmessage? {
      ZeroIsDefault(f.ltype.sub, v.slots, 0);
      assert v.slots == Defaults(f.ltype.sub);
    }
  }

  /** The bytes of a value that fits a length of 32 bits. */
  ghost predicate Encodes(e: Option<Bytes>) {
    e.Some? && |e.value| < TWO32
  }

  lemma {:induction false} ValueRoundTrip(f: Field, v: Value, base: Value, rest: Bytes)
    requires ValidField(f) && Typed(f, v) && ExclusiveValue(f, v) && Encodes(EncodeValue(f, v))
    requires f.ltype.LSubmessage? && !f.htype.Repeated? ==> base == Sub(Defaults(f.ltype.sub))
    ensures DecodeValue(f, base, EncodeValue(f, v).value + rest) == Some((v, rest))
    decreases f, 1
  {
    hide DecodeNumber, DecodeBlob, PutVarint, DecodeLoop, WholeRecords, DecodeString, EncodeFrom, Defaults;
    if Packable(f.ltype) {
      NumberRoundTrip(f, v, rest);
    } else if !f.ltype.LSubmessage? {
      BlobRoundTrip(f, v, rest);
    } else {
      var d := f.ltype.sub;
      var b := EncodeFrom(d, v.slots, 0).value;
      MessageRoundTrip(d, v.slots);
      StringRoundTrip(b, rest);
    }
  }

  /** Main theorem. Decoding the encoding of a message gives the message. */
  lemma {:induction false} MessageRoundTrip(d: Desc, slots: seq<Slot>)
    requires ValidDesc(d) && TypedSlots(d, slots) && Exclusive(d, slots) && Encodes(Encode(d, slots))
    ensures Decode(d, Encode(d, slots).value) == Some(slots)
    decreases d, |slots| + 1
  {
    FromRoundTrip(d, slots, 0, Defaults(d), {});
  }

  /** The message as far as the first `i` fields have been decoded. */
  ghost predicate Partly(d: Desc, slots: seq<Slot>, i: nat, cur: seq<Slot>) {
    && |cur| == |slots| == |d.fields| && i <= |slots|
    && (forall k :: 0 <= k < i ==> cur[k] == slots[k])
    && (forall k :: i <= k < |slots| ==> cur[k] == DefaultSlot(d.fields[k]))
  }

  ghost predicate SeenBefore(d: Desc, i: nat, seen: set<nat>)
    requires i <= |d.fields|
  {
    forall r: nat :: r < Min(RequiredBefore(d.fields, i), MAX_REQUIRED) ==> r in seen
  }

  lemma {:induction false} FindUnique(d: Desc, i: nat, j: nat)
    requires ValidDesc(d) && j <= i < |d.fields|
    ensures FindTag(d, d.fields[i].tag, j) == Some(i)
    decreases i - j
  {
    if j < i {
      FindUnique(d, i, j + 1);
    }
  }

  /** One record of a known field. */
  lemma OneRecord(d: Desc, cur: seq<Slot>, seen: set<nat>, i: nat, wire: nat, payload: Bytes, rest: Bytes, s: Slot)
    requires ValidDesc(d) && |cur| == |d.fields| && i < |cur| && wire < 8
    requires DecodeSlot(d.fields[i], cur[i], wire, payload + rest) == Some((s, rest))
    ensures LeadsTo(d, cur, seen, TagBytes(wire, d.fields[i].tag) + payload + rest, SetSlot(d, cur, i, s), seen + Bit(d, i), rest)
  {
    hide DecodeSlot, SetSlot, DecodeTag, Finished, TagBytes, Bit;
    var f := d.fields[i];
    assert ValidField(f);
    var b := TagBytes(wire, f.tag) + payload + rest;
    assert b == TagBytes(wire, f.tag) + (payload + rest);
    TagRoundTrip(wire, f.tag, payload + rest);
    TagNotEmpty(wire, f.tag);
    FindUnique(d, i, 0);
  }

  lemma TagNotEmpty(wire: nat, tag: nat)
    ensures TagBytes(wire, tag) != []
  {
  }

  lemma SetKeepsPartly(d: Desc, slots: seq<Slot>, i: nat, cur: seq<Slot>)
    requires Exclusive(d, slots) && Partly(d, slots, i, cur) && i < |slots| && !slots[i].Absent?
    ensures Partly(d, slots, i + 1, SetSlot(d, cur, i, slots[i]))
  {
  }

  lemma SeenGrows(d: Desc, i: nat, seen: set<nat>)
    requires i < |d.fields| && SeenBefore(d, i, seen)
    ensures SeenBefore(d, i + 1, seen + Bit(d, i))
    ensures !d.fields[i].htype.Required? ==> SeenBefore(d, i + 1, seen)
  {
    forall r: nat | r < Min(RequiredBefore(d.fields, i + 1), MAX_REQUIRED)
      ensures r in seen + Bit(d, i)
    {
      if r < RequiredBefore(d.fields, i) {
        assert r in seen;
      }
    }
  }

  /** The packed entries from the j-th on. */
  lemma {:induction false} PackedRoundTrip(f: Field, vs: seq<Value>, j: nat)
    requires ValidField(f) && Packable(f.ltype) && j <= |vs| <= f.arraySize
    requires forall k :: 0 <= k < |vs| ==> Typed(f, vs[k])
    ensures EncodeItems(f, vs[j..]).Some?
    ensures DecodePacked(f, vs[..j], EncodeItems(f, vs[j..]).value) == Some(vs)
    decreases |vs| - j
  {
    hide EncodeValue, DecodeNumber;
    if j == |vs| {
      assert vs[..j] == vs && vs[j..] == [];
    } else {
      PackedRoundTrip(f, vs, j + 1);
      assert vs[j..][1..] == vs[j + 1..] && vs[..j] + [vs[j]] == vs[..j + 1];
      var rest := EncodeItems(f, vs[j + 1..]).value;
      NumberRoundTrip(f, vs[j], rest);
      NumberNotEmpty(f, vs[j]);
    }
  }

  lemma NumberNotEmpty(f: Field, v: Value)
    requires Packable(f.ltype) && Typed(f, v)
    ensures EncodeValue(f, v).Some? && EncodeValue(f, v).value != []
  {
  }

  /** The unpacked entries from the j-th on. */
  lemma {:induction false} EntriesRoundTrip(d: Desc, i: nat, vs: seq<Value>, j: nat, cur: seq<Slot>, seen: set<nat>, rest: Bytes)
    requires ValidDesc(d) && i < |d.fields| == |cur| && d.fields[i].htype.Repeated? && !Packable(d.fields[i].ltype)
    requires j <= |vs| <= d.fields[i].arraySize && cur[i] == Many(vs[..j])
    requires forall k :: 0 <= k < |vs| ==> Typed(d.fields[i], vs[k]) && ExclusiveValue(d.fields[i], vs[k])
    requires Encodes(EncodeEntries(d.fields[i], vs[j..]))
    ensures LeadsTo(d, cur, seen, EncodeEntries(d.fields[i], vs[j..]).value + rest, cur[i := Many(vs)], seen, rest)
    decreases d, 0, |vs| - j
  {
    hide DecodeLoop, WholeRecords, EncodeValue, DecodeValue, TagBytes, Typed, ExclusiveValue;
    var f := d.fields[i];
    assert ValidField(f);
    if j == |vs| {
      assert vs[j..] == [] && vs[..j] == vs && cur[i := Many(vs)] == cur && [] + rest == rest;
    } else {
      var v := vs[j];
      assert vs[j..][1..] == vs[j + 1..] && vs[..j] + [v] == vs[..j + 1];
      var later := EncodeEntries(f, vs[j + 1..]).value;
      var payload := EncodeValue(f, v).value;
      ValueRoundTrip(f, v, f.default, later + rest);
      OneRecord(d, cur, seen, i, WireType(f.ltype), payload, later + rest, Many(vs[..j + 1]));
      RepeatedSets(d, cur, seen, i, Many(vs[..j + 1]));
      EntriesRoundTrip(d, i, vs, j + 1, cur[i := Many(vs[..j + 1])], seen, rest);
      assert cur[i := Many(vs[..j + 1])][i := Many(vs)] == cur[i := Many(vs)];
      var tag := TagBytes(WireType(f.ltype), f.tag);
      assert tag + payload + later + rest == tag + payload + (later + rest);
    }
  }

  lemma RepeatedSets(d: Desc, cur: seq<Slot>, seen: set<nat>, i: nat, s: Slot)
    requires i < |d.fields| == |cur| && d.fields[i].htype.Repeated?
    ensures SetSlot(d, cur, i, s) == cur[i := s] && seen + Bit(d, i) == seen
  {
  }

  lemma {:induction false} FromRoundTrip(d: Desc, slots: seq<Slot>, i: nat, cur: seq<Slot>, seen: set<nat>)
    requires ValidDesc(d) && TypedSlots(d, slots) && Exclusive(d, slots)
    requires Partly(d, slots, i, cur) && SeenBefore(d, i, seen) && Encodes(EncodeFrom(d, slots, i))
    ensures DecodeLoop(d, cur, seen, EncodeFrom(d, slots, i).value) == Some(slots)
    decreases d, |slots| - i, 1
  {
    hide EncodeSlot, DecodeSlot, TypedSlot, ExclusiveSlot, ValidField, DefaultSlot;
    if i == |slots| {
      assert cur == slots;
    } else {
      assert TypedSlot(d.fields[i], slots[i]) && ExclusiveSlot(d.fields[i], slots[i]);
      var rest := EncodeFrom(d, slots, i + 1).value;
      var cur', seen' := FieldRoundTrip(d, slots, i, cur, seen, rest);
      FromRoundTrip(d, slots, i + 1, cur', seen');
    }
  }

  /** The bytes of field `i` bring the decoder from its default to its value. */
  lemma {:induction false} FieldRoundTrip(d: Desc, slots: seq<Slot>, i: nat, cur: seq<Slot>, seen: set<nat>, rest: Bytes)
    returns (cur': seq<Slot>, seen': set<nat>)
    requires ValidDesc(d) && TypedSlots(d, slots) && Exclusive(d, slots) && i < |slots|
    requires Partly(d, slots, i, cur) && SeenBefore(d, i, seen) && Encodes(EncodeSlot(d.fields[i], slots[i]))
    ensures Partly(d, slots, i + 1, cur') && SeenBefore(d, i + 1, seen')
    ensures |cur'| == |d.fields| && LeadsTo(d, cur, seen, EncodeSlot(d.fields[i], slots[i]).value + rest, cur', seen', rest)
    decreases d, |slots| - i, 0
  {
    var f, x := d.fields[i], slots[i];
    assert ValidField(f) && TypedSlot(f, x) && ExclusiveSlot(f, x);
    hide DecodeLoop, WholeRecords, EncodeValue, DecodeValue, TagBytes, EncodeItems, EncodeEntries, DecodePacked, PutVarint, DecodeString,
      SetSlot, Partly, SeenBefore, Exclusive, ValidField, Typed, ZeroValue, ExclusiveValue, TypedSlots, DefaultValue;
    if x.Absent? || x == Many([]) || (f.htype.Singular? && ZeroValue(f, x.v)) {
      LeftOut(d, slots, i, cur, seen);
      cur', seen' := cur, seen;
      assert [] + rest == rest;
    } else {
      SetKeepsPartly(d, slots, i, cur);
      SeenGrows(d, i, seen);
      cur', seen' := SetSlot(d, cur, i, x), seen + Bit(d, i);
      if x.Single? {
        SingleRoundTrip(d, i, cur, seen, x.v, rest, slots);
      } else if Packable(f.ltype) {
        PackedRecord(d, i, cur, seen, x.vs, rest, slots);
      } else {
        UnpackedRecords(d, i, cur, seen, x.vs, rest, slots);
      }
    }
  }

  lemma LeftOut(d: Desc, slots: seq<Slot>, i: nat, cur: seq<Slot>, seen: set<nat>)
    requires ValidDesc(d) && TypedSlots(d, slots) && i < |slots| && Partly(d, slots, i, cur) && SeenBefore(d, i, seen)
    requires var f, x := d.fields[i], slots[i]; x.Absent? || x == Many([]) || (f.htype.Singular? && x.Single? && ZeroValue(f, x.v))
    ensures Partly(d, slots, i + 1, cur) && SeenBefore(d, i + 1, seen)
    ensures EncodeSlot(d.fields[i], slots[i]) == Some([])
  {
    var f, x := d.fields[i], slots[i];
    assert ValidField(f) && TypedSlot(f, x);
    if f.htype.Singular? {
      ZeroValueIsDefault(f, x.v);
    }
    SeenGrows(d, i, seen);
  }

  lemma {:induction false} SingleRoundTrip(d: Desc, i: nat, cur: seq<Slot>, seen: set<nat>, v: Value, rest: Bytes, slots: seq<Slot>)
    requires ValidDesc(d) && i < |d.fields| && Partly(d, slots, i, cur) && !d.fields[i].htype.Repeated?
    requires Typed(d.fields[i], v) && ExclusiveValue(d.fields[i], v) && Encodes(EncodeTagged(d.fields[i], v))
    ensures LeadsTo(d, cur, seen, EncodeTagged(d.fields[i], v).value + rest, SetSlot(d, cur, i, Single(v)), seen + Bit(d, i), rest)
    decreases d, 0, 1
  {
    hide DecodeLoop, WholeRecords, EncodeValue, DecodeValue, TagBytes, Typed, ExclusiveValue, SetSlot;
    var f := d.fields[i];
    assert ValidField(f) && cur[i] == DefaultSlot(f);
    ValueRoundTrip(f, v, DefaultValue(f), rest);
    OneRecord(d, cur, seen, i, WireType(f.ltype), EncodeValue(f, v).value, rest, Single(v));
  }

  lemma PackedRecord(d: Desc, i: nat, cur: seq<Slot>, seen: set<nat>, vs: seq<Value>, rest: Bytes, slots: seq<Slot>)
    requires ValidDesc(d) && i < |d.fields| && Partly(d, slots, i, cur) && d.fields[i].htype.Repeated? && Packable(d.fields[i].ltype)
    requires vs != [] && (forall k :: 0 <= k < |vs| ==> Typed(d.fields[i], vs[k])) && Encodes(EncodeArray(d.fields[i], vs))
    ensures LeadsTo(d, cur, seen, EncodeArray(d.fields[i], vs).value + rest, SetSlot(d, cur, i, Many(vs)), seen + Bit(d, i), rest)
  {
    hide DecodeLoop, WholeRecords, EncodeValue, DecodeValue, TagBytes, Typed, SetSlot, EncodeItems, DecodePacked, PutSlice, DecodeString;
    var f := d.fields[i];
    assert ValidField(f) && cur[i] == Many([]);
    PackedRoundTrip(f, vs, 0);
    assert vs[0..] == vs && vs[..0] == [];
    var b := EncodeItems(f, vs).value;
    SliceLonger(b);
    StringRoundTrip(b, rest);
    OneRecord(d, cur, seen, i, WT_STRING, PutSlice(b), rest, Many(vs));
  }

  lemma SliceLonger(b: Bytes)
    ensures |b| <= |PutSlice(b)|
  {
  }

  lemma {:induction false} UnpackedRecords(d: Desc, i: nat, cur: seq<Slot>, seen: set<nat>, vs: seq<Value>, rest: Bytes, slots: seq<Slot>)
    requires ValidDesc(d) && i < |d.fields| && Partly(d, slots, i, cur) && d.fields[i].htype.Repeated? && !Packable(d.fields[i].ltype)
    requires vs != [] && forall k :: 0 <= k < |vs| ==> Typed(d.fields[i], vs[k]) && ExclusiveValue(d.fields[i], vs[k])
    requires Encodes(EncodeArray(d.fields[i], vs))
    ensures LeadsTo(d, cur, seen, EncodeArray(d.fields[i], vs).value + rest, SetSlot(d, cur, i, Many(vs)), seen + Bit(d, i), rest)
    decreases d, 0, |vs| + 1
  {
    hide DecodeLoop, WholeRecords, EncodeEntries, Typed, ExclusiveValue;
    assert vs[0..] == vs && vs[..0] == [];
    EntriesRoundTrip(d, i, vs, 0, cur, seen, rest);
    RepeatedSets(d, cur, seen, i, Many(vs));
  }
}
