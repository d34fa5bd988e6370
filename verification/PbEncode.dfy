/** The nanopb encoder: one pass that writes and one that only counts (pb_encode.c). */
module PbEncode {
  import opened Options
  import opened DbFormat
  import opened Coding
  import opened PbWire
  import opened PbMessage
  import opened PbIter

  /** An output stream into a buffer, or one without a callback that only counts. */
  class OStream {
    const sizing: bool
    const maxSize: nat
    var out: Bytes
    var written: nat

    constructor (counting: bool, size: nat, done: Bytes)
      ensures sizing == counting && maxSize == size && out == done && written == 0
    {
      sizing, maxSize, out, written := counting, size, done, 0;
    }

    predicate Valid()
      reads this
    {
      !sizing ==> written <= maxSize
    }

    /** There is room for `n` more bytes; a counting stream has room for any number. */
    predicate Room(n: nat)
      reads this
    {
      sizing || written + n <= maxSize
    }

    /** pb_write without data, on a stream that only counts. */
    method Count(n: nat)
      requires sizing
      modifies `written
      ensures written == old(written) + n
    {
      written := written + n;
    }

    /** pb_write */
    method Write(b: Bytes) returns (ok: bool)
      requires Valid()
      modifies this
      ensures Valid() && ok == old(Room(|b|))
      ensures ok ==> written == old(written) + |b| && out == if sizing then old(out) else old(out) + b
      ensures !ok ==> written == old(written) && out == old(out)
    {
      if |b| > 0 && !sizing {
        if written + |b| > maxSize {
          return false;
        }
        out := out + b;
      }
      written := written + |b|;
      ok := true;
    }
  }

  /** The stream took exactly `b`. */
  twostate predicate Took(s: OStream, new b: Bytes)
    reads s
  {
    s.Valid() && s.written == old(s.written) + |b| && s.out == if s.sizing then old(s.out) else old(s.out) + b
  }

  /** pb_encode_varint: the bytes are collected with the top bit set, then the last is cleared. The
      local buffer has room for ten. */
  method EncodeVarint(s: OStream, value: nat) returns (ok: bool)
    requires s.Valid()
    modifies s
    ensures s.Valid() && ok == old(s.Room(|PutVarint(value)|))
    ensures ok ==> Took(s, PutVarint(value))
  {
    hide PutVarint, Collected;
    PutVarintUnfold(value);
    CollectStarts(value);
    if value <= 0x7f {
      ok := s.Write([value]);
      return;
    }
    var buffer: Bytes := [];
    var rest := value;
    if value < TWO64 {
      VarintFitsBuffer(value);
    }
    while rest != 0
      invariant unchanged(s)
      invariant Collected(value, buffer, rest)
      invariant value < TWO64 ==> |buffer| <= 10
    {
      CollectOne(value, buffer, rest);
      buffer := buffer + [rest % 128 + 128];
      rest := rest / 128;
    }
    CollectEnds(value, buffer);
    buffer := ClearLast(buffer);
    ok := s.Write(buffer);
  }

  lemma CollectStarts(value: nat)
    ensures value != 0 ==> Collected(value, [], value)
  {
    hide PutVarint;
    assert [] + PutVarint(value) == PutVarint(value);
  }

  lemma CollectEnds(value: nat, buffer: Bytes)
    requires Collected(value, buffer, 0)
    ensures buffer != [] && buffer[|buffer| - 1] >= 128 && ClearLast(buffer) == PutVarint(value)
  {
  }

  /** The bytes in the buffer and what is left of the number. */
  ghost predicate Collected(value: nat, buffer: Bytes, rest: nat) {
    if rest != 0 then buffer + PutVarint(rest) == PutVarint(value)
    else buffer != [] && buffer[|buffer| - 1] >= 128 && ClearLast(buffer) == PutVarint(value)
  }

  lemma CollectOne(value: nat, buffer: Bytes, rest: nat)
    requires rest != 0 && Collected(value, buffer, rest)
    ensures Collected(value, buffer + [rest % 128 + 128], rest / 128)
    ensures |buffer| < |PutVarint(value)|
  {
    hide PutVarint;
    PutVarintUnfold(rest);
    if rest < 128 {
      assert ClearLast(buffer + [rest % 128 + 128]) == buffer + PutVarint(rest);
    } else {
      assert buffer + PutVarint(rest) == buffer + [rest % 128 + 128] + PutVarint(rest / 128);
    }
  }

  function ClearLast(b: Bytes): Bytes
    requires b != [] && b[|b| - 1] >= 128
  {
    b[|b| - 1 := b[|b| - 1] - 128]
  }

  /** pb_encode_tag */
  method EncodeTag(s: OStream, wire: nat, tag: nat) returns (ok: bool)
    requires s.Valid()
    modifies s
    ensures s.Valid() && ok == old(s.Room(|TagBytes(wire, tag)|))
    ensures ok ==> Took(s, TagBytes(wire, tag))
  {
    ok := EncodeVarint(s, tag * 8 + wire);
  }

  /** pb_encode_string */
  method EncodeString(s: OStream, b: Bytes) returns (ok: bool)
    requires s.Valid()
    modifies s
    ensures s.Valid() && ok == old(s.Room(|PutSlice(b)|))
    ensures ok ==> Took(s, PutSlice(b))
  {
    ok := EncodeVarint(s, |b|);
    if !ok {
      return;
    }
    ok := s.Write(b);
  }

  /** The local buffer of ten bytes is large enough for every 64-bit number. */
  lemma VarintFitsBuffer(value: nat)
    requires value < TWO64
    ensures |PutVarint(value)| <= 10
  {
    Pow128Values();
    VarintLength(value, 10);
  }

  lemma {:induction false} VarintLength(value: nat, n: nat)
    requires n >= 1 && value < Pow128(n)
    ensures |PutVarint(value)| <= n
  {
    if value >= 128 {
      Pow128Step(value, n);
      VarintLength(value / 128, n - 1);
    }
  }

  lemma ConcatAssociates(a: Bytes, b: Bytes, c: Bytes)
    ensures a + b + c == a + (b + c)
  {
  }

  lemma AppendAssociates(done: Bytes, e: Option<Bytes>, r: Option<Bytes>)
    ensures Append(Some(done), Append(e, r)) == if e.Some? then Append(Some(done + e.value), r) else None
    ensures Append(Some([]), e) == e
    ensures Append(Some(done), Some([])) == Some(done)
    ensures e.Some? && Append(Some(done), Append(e, r)).Some? ==>
              |Append(Some(done), Append(e, r)).value| >= |done| + |e.value|
  {
    assert done + [] == done;
    if e.Some? && r.Some? {
      assert done + (e.value + r.value) == done + e.value + r.value;
    }
    if e.Some? {
      assert [] + e.value == e.value;
    }
  }

  lemma ItemsUnfold(f: Field, vs: seq<Value>, i: nat)
    requires i < |vs| && forall k :: 0 <= k < |vs| ==> Typed(f, vs[k])
    ensures EncodeItems(f, vs[i..]) == Append(EncodeValue(f, vs[i]), EncodeItems(f, vs[i + 1..]))
  {
    assert vs[i..][1..] == vs[i + 1..];
  }

  lemma EntriesUnfold(f: Field, vs: seq<Value>, i: nat)
    requires i < |vs| && forall k :: 0 <= k < |vs| ==> Typed(f, vs[k])
    ensures EncodeEntries(f, vs[i..]) == Append(EncodeTagged(f, vs[i]), EncodeEntries(f, vs[i + 1..]))
  {
    assert vs[i..][1..] == vs[i + 1..];
  }

  lemma NothingLeft(f: Field)
    ensures EncodeItems(f, []) == Some([]) && EncodeEntries(f, []) == Some([])
  {
  }

  lemma FieldsUnfold(d: Desc, slots: seq<Slot>, i: nat)
    requires TypedSlots(d, slots) && i <= |slots|
    ensures i < |slots| ==> TypedSlot(d.fields[i], slots[i])
    ensures i < |slots| ==> EncodeFrom(d, slots, i) == Append(EncodeSlot(d.fields[i], slots[i]), EncodeFrom(d, slots, i + 1))
    ensures i == |slots| ==> EncodeFrom(d, slots, i) == Some([])
    ensures |slots| == |d.fields|
  {
  }

  // ----- Values -----

  /** What an encoder that succeeds or fails as `e` does to a stream. */
  twostate predicate Wrote(s: OStream, new e: Option<Bytes>, ok: bool)
    reads s
  {
    && s.Valid()
    && (ok <==> e.Some? && old(s.Room(|e.value|)))
    && (ok ==> Took(s, e.value))
  }

  /** The encoders of PB_ENCODERS. */
  method EncodeData(s: OStream, f: Field, v: Value) returns (ok: bool)
    requires s.Valid() && Typed(f, v)
    modifies s
    ensures Wrote(s, EncodeValue(f, v), ok)
    decreases f, 1
  {
    match f.ltype
    case LBool => ok := EncodeVarint(s, v.n);
    case LVarint => ok := EncodeVarint(s, ToWord(v.n));
    case LUvarint => ok := EncodeVarint(s, v.n);
    case LSvarint => ok := EncodeVarint(s, ZigZag(v.n));
    case LFixed32 => ok := s.Write(EncodeFixed(v.n, 4));
    case LFixed64 => ok := s.Write(EncodeFixed(v.n, 8));
    case LBytes =>
      if |v.b| + BYTES_OFFSET > f.dataSize {
        return false;
      }
      ok := EncodeString(s, v.b);
    case LString => ok := EncodeString(s, v.b);
    case LFixedBytes => ok := EncodeString(s, v.b);
    case LSubmessage(d) => ok := EncodeSubmessage(s, d, v.slots);
  }

  /** pb_encode_submessage: a counting pass for the length, then the writing pass. */
  method EncodeSubmessage(s: OStream, d: Desc, slots: seq<Slot>) returns (ok: bool)
    requires s.Valid() && TypedSlots(d, slots)
    modifies s
    ensures Wrote(s, if EncodeFrom(d, slots, 0).Some? then Some(PutSlice(EncodeFrom(d, slots, 0).value)) else None, ok)
    decreases d, |slots| + 2
  {
    var counter := new OStream(true, 0, []);
    ok := EncodeMessage(counter, d, slots);
    if !ok {
      return;
    }
    var size := counter.written;
    ok := EncodeVarint(s, size);
    if !ok {
      return;
    }
    if s.sizing {
      s.Count(size);
      return true;
    }
    if s.written + size > s.maxSize {
      return false;
    }
    var sub := new OStream(false, size, s.out);
    ok := EncodeMessage(sub, d, slots);
    s.written := s.written + sub.written;
    s.out := sub.out;
    // The source reports an error here when the second pass wrote another number of bytes.
    assert sub.written == size;
  }

  /** pb_encode */
  method EncodeMessage(s: OStream, d: Desc, slots: seq<Slot>) returns (ok: bool)
    requires s.Valid() && TypedSlots(d, slots)
    modifies s
    ensures Wrote(s, Encode(d, slots), ok)
    decreases d, |slots| + 1
  {
    hide EncodeFrom, EncodeSlot, TypedSlot, TypedSlots, Append, RequiredBefore;
    var iter := new FieldIter(d);
    FieldsUnfold(d, slots, |slots|);
    if d.fields == [] {
      return true;
    }
    ghost var done: Bytes := [];
    AppendAssociates([], Encode(d, slots), None);
    var more := true;
    while more
      invariant s.Valid() && iter.Valid() && iter.d == d && fresh(iter)
      invariant more ==> iter.pos < |slots|
      invariant s.written == old(s.written) + |done| && s.out == if s.sizing then old(s.out) else old(s.out) + done
      invariant Encode(d, slots) == Append(Some(done), EncodeFrom(d, slots, if more then iter.pos else |slots|))
      invariant old(s.Room(|done|))
      decreases if more then |slots| - iter.pos else 0
    {
      var i := iter.pos;
      FieldsUnfold(d, slots, i);
      AppendAssociates(done, EncodeSlot(d.fields[i], slots[i]), EncodeFrom(d, slots, i + 1));
      ok := EncodeField(s, d.fields[i], slots[i]);
      if !ok {
        return;
      }
      ConcatAssociates(old(s.out), done, EncodeSlot(d.fields[i], slots[i]).value);
      done := done + EncodeSlot(d.fields[i], slots[i]).value;
      more := iter.Next();
    }
    AppendAssociates(done, Some([]), None);
    ok := true;
  }

  /** encode_basic_field */
  method EncodeField(s: OStream, f: Field, x: Slot) returns (ok: bool)
    requires s.Valid() && TypedSlot(f, x)
    modifies s
    ensures Wrote(s, EncodeSlot(f, x), ok)
    decreases f, 5
  {
    match x
    case Absent => ok := true;
    case Many(vs) => ok := EncodeEach(s, f, vs);
    case Single(v) =>
      if f.htype.Singular? && ZeroValue(f, v) {
        return true;
      }
      ok := EncodeBehindTag(s, f, v);
  }

  method EncodeBehindTag(s: OStream, f: Field, v: Value) returns (ok: bool)
    requires s.Valid() && Typed(f, v)
    modifies s
    ensures Wrote(s, EncodeTagged(f, v), ok)
    decreases f, 2
  {
    ok := EncodeTag(s, WireType(f.ltype), f.tag);
    if !ok {
      return;
    }
    ok := EncodeData(s, f, v);
  }

  /** The entries one behind the other, which is what the counting pass and the writing pass
      over a packed array do. */
  method EncodeAll(s: OStream, f: Field, vs: seq<Value>) returns (ok: bool)
    requires s.Valid() && forall i :: 0 <= i < |vs| ==> Typed(f, vs[i])
    modifies s
    ensures Wrote(s, EncodeItems(f, vs), ok)
    decreases f, 2
  {
    hide EncodeItems, EncodeValue, Typed, Append;
    ghost var done: Bytes := [];
    AppendAssociates([], EncodeItems(f, vs), None);
    assert vs[0..] == vs;
    var i := 0;
    while i < |vs|
      invariant 0 <= i <= |vs| && s.Valid() && old(s.Room(|done|))
      invariant s.written == old(s.written) + |done| && s.out == if s.sizing then old(s.out) else old(s.out) + done
      invariant EncodeItems(f, vs) == Append(Some(done), EncodeItems(f, vs[i..]))
    {
      ItemsUnfold(f, vs, i);
      AppendAssociates(done, EncodeValue(f, vs[i]), EncodeItems(f, vs[i + 1..]));
      ok := EncodeData(s, f, vs[i]);
      if !ok {
        return;
      }
      ConcatAssociates(old(s.out), done, EncodeValue(f, vs[i]).value);
      done := done + EncodeValue(f, vs[i]).value;
      i := i + 1;
    }
    assert vs[i..] == [];
    NothingLeft(f);
    AppendAssociates(done, Some([]), None);
    ok := true;
  }

  /** encode_array */
  method EncodeEach(s: OStream, f: Field, vs: seq<Value>) returns (ok: bool)
    requires s.Valid() && forall i :: 0 <= i < |vs| ==> Typed(f, vs[i])
    modifies s
    ensures Wrote(s, EncodeArray(f, vs), ok)
    decreases f, 4
  {
    if |vs| == 0 {
      return true;
    }
    if |vs| > f.arraySize {
      return false;
    }
    if Packable(f.ltype) {
      ok := EncodePacked(s, f, vs);
    } else {
      ok := EncodeUnpacked(s, f, vs);
    }
  }

  method EncodeUnpacked(s: OStream, f: Field, vs: seq<Value>) returns (ok: bool)
    requires s.Valid() && forall i :: 0 <= i < |vs| ==> Typed(f, vs[i])
    modifies s
    ensures Wrote(s, EncodeEntries(f, vs), ok)
    decreases f, 3
  {
    hide EncodeEntries, EncodeTagged, Typed, Append;
    ghost var done: Bytes := [];
    AppendAssociates([], EncodeEntries(f, vs), None);
    assert vs[0..] == vs;
    var i := 0;
    while i < |vs|
      invariant 0 <= i <= |vs| && s.Valid() && old(s.Room(|done|))
      invariant s.written == old(s.written) + |done| && s.out == if s.sizing then old(s.out) else old(s.out) + done
      invariant EncodeEntries(f, vs) == Append(Some(done), EncodeEntries(f, vs[i..]))
    {
      EntriesUnfold(f, vs, i);
      AppendAssociates(done, EncodeTagged(f, vs[i]), EncodeEntries(f, vs[i + 1..]));
      ok := EncodeBehindTag(s, f, vs[i]);
      if !ok {
        return;
      }
      ConcatAssociates(old(s.out), done, EncodeTagged(f, vs[i]).value);
      done := done + EncodeTagged(f, vs[i]).value;
      i := i + 1;
    }
    assert vs[i..] == [];
    NothingLeft(f);
    AppendAssociates(done, Some([]), None);
    ok := true;
  }

  method EncodePacked(s: OStream, f: Field, vs: seq<Value>) returns (ok: bool)
    requires s.Valid() && Packable(f.ltype) && forall i :: 0 <= i < |vs| ==> Typed(f, vs[i])
    modifies s
    ensures Wrote(s, if EncodeItems(f, vs).Some? then Some(TagBytes(WT_STRING, f.tag) + PutSlice(EncodeItems(f, vs).value)) else None, ok)
    decreases f, 3
  {
    hide EncodeItems, EncodeValue, Typed, PutVarint;
    PackedEncodes(f, vs);
    ok := EncodeTag(s, WT_STRING, f.tag);
    if !ok {
      return;
    }
    var size: nat;
    if f.ltype.LFixed32? {
      size := 4 * |vs|;
    } else if f.ltype.LFixed64? {
      size := 8 * |vs|;
    } else {
      var counter := new OStream(true, 0, []);
      ok := EncodeAll(counter, f, vs);
      if !ok {
        return;
      }
      size := counter.written;
    }
    ok := EncodeVarint(s, size);
    if !ok {
      return;
    }
    if s.sizing {
      s.Count(size);
      return true;
    }
    ok := EncodeAll(s, f, vs);
  }

  /** Numbers always encode, and the fixed ones to a known size. */
  lemma {:induction false} PackedEncodes(f: Field, vs: seq<Value>)
    requires Packable(f.ltype) && forall i :: 0 <= i < |vs| ==> Typed(f, vs[i])
    ensures EncodeItems(f, vs).Some?
    ensures f.ltype.LFixed32? ==> |EncodeItems(f, vs).value| == 4 * |vs|
    ensures f.ltype.LFixed64? ==> |EncodeItems(f, vs).value| == 8 * |vs|
    decreases |vs|
  {
    if vs != [] {
      PackedEncodes(f, vs[1..]);
    }
  }

  // ----- The two passes agree -----

  /** pb_get_encoded_size */
  method GetEncodedSize(d: Desc, slots: seq<Slot>) returns (ok: bool, size: nat)
    requires TypedSlots(d, slots)
    ensures ok <==> Encode(d, slots).Some?
    ensures ok ==> size == |Encode(d, slots).value|
  {
    var s := new OStream(true, 0, []);
    ok := EncodeMessage(s, d, slots);
    size := s.written;
  }

  /** pb_encode on a stream from pb_ostream_from_buffer. */
  method EncodeToBuffer(d: Desc, slots: seq<Slot>, bufSize: nat) returns (ok: bool, written: Bytes)
    requires TypedSlots(d, slots)
    ensures ok <==> Encode(d, slots).Some? && |Encode(d, slots).value| <= bufSize
    ensures ok ==> written == Encode(d, slots).value
  {
    var s := new OStream(false, bufSize, []);
    ok := EncodeMessage(s, d, slots);
    written := s.out;
    if ok {
      assert [] + Encode(d, slots).value == Encode(d, slots).value;
    }
  }

  /** Encoding into a buffer succeeds exactly when the counting pass does and its count fits,
      and then writes exactly as many bytes as were counted. */
  method SizingAgrees(d: Desc, slots: seq<Slot>, bufSize: nat) returns (sized: bool, size: nat, ok: bool, written: Bytes)
    requires TypedSlots(d, slots)
    ensures ok <==> sized && size <= bufSize
    ensures ok ==> |written| == size
  {
    sized, size := GetEncodedSize(d, slots);
    ok, written := EncodeToBuffer(d, slots, bufSize);
  }
}
