/** The nanopb decoder: a stream of bytes, limited substreams and the loop over the fields of a
    message (pb_decode.c). */
module PbDecode {
  import opened Options
  import opened DbFormat
  import opened Coding
  import opened PbWire
  import opened PbMessage
  import opened PbIter
  import opened PbDecodeSpec
  import opened PbRoundTrip
  import PbEncode

  /** An input stream over a buffer: the memory from the read pointer on, and how much of it
      belongs to the stream. */
  class IStream {
    var buf: Bytes
    var left: nat

    constructor (memory: Bytes, size: nat)
      requires size <= |memory|
      ensures buf == memory && left == size && Valid()
    {
      buf, left := memory, size;
    }

    predicate Valid()
      reads this
    {
      left <= |buf|
    }

    function View(): Bytes
      requires Valid()
      reads this
    {
      buf[..left]
    }

    /** pb_readbyte */
    method ReadByte() returns (ok: bool, byte: Byte)
      requires Valid()
      modifies this
      ensures Moved(this)
      ensures ok == (old(View()) != [])
      ensures ok ==> byte == old(View())[0] && View() == old(View())[1..]
      ensures !ok ==> View() == []
    {
      if left == 0 {
        return false, 0;
      }
      byte := buf[0];
      buf, left := buf[1..], left - 1;
      ok := true;
    }

    /** pb_read */
    method Read(count: nat) returns (ok: bool, bytes: Bytes)
      requires Valid()
      modifies this
      ensures Moved(this)
      ensures ok == (count <= |old(View())|)
      ensures ok ==> bytes == old(View())[..count] && View() == old(View())[count..]
    {
      if count == 0 {
        return true, [];
      }
      if left < count {
        return false, [];
      }
      bytes := buf[..count];
      buf, left := buf[count..], left - count;
      ok := true;
    }
  }

  /** The read pointer went forward by as much as the stream got shorter. */
  twostate predicate Moved(s: IStream)
    reads s
  {
    s.Valid() && s.left <= old(s.left) && old(s.left) - s.left <= |old(s.buf)| && s.buf == old(s.buf)[old(s.left) - s.left..]
  }

  /** pb_decode_varint32 */
  method DecodeVarint32(s: IStream) returns (ok: bool, dest: nat)
    requires s.Valid()
    modifies s
    ensures Moved(s)
    ensures ok <==> Decode32(old(s.View())).Some?
    ensures ok ==> Decode32(old(s.View())) == Some((dest, s.View()))
    ensures ok && |old(s.View())| - |s.View()| <= 10 ==>
              Decode64(old(s.View())).Some? && Decode64(old(s.View())).value.1 == s.View() && Decode64(old(s.View())).value.0 % TWO32 == dest
  {
    hide Pow2, Or, Loop32, BitPos, Decode64;
    ShortIsLowWord(s.View());
    var byte;
    ok, byte := s.ReadByte();
    if !ok {
      return false, 0;
    }
    if byte < 128 {
      return true, byte;
    }
    var result: nat := byte - 128;
    var bitpos := 7;
    ghost var n := 1;
    BitPosNext(0);
    while true
      invariant Moved(s) && n >= 1 && bitpos == BitPos(n)
      invariant Decode32(old(s.View())) == Loop32(s.View(), result, n)
      decreases s.left
    {
      Loop32Unfold(s.View(), result, n);
      BitPosNext(n);
      ok, byte := s.ReadByte();
      if !ok {
        return false, 0;
      }
      if bitpos >= 32 {
        var signExtension := if bitpos < 63 then 0xff else 0x01;
        if byte % 128 != 0 && (result < TWO31 || byte != signExtension) {
          return false, 0;
        }
      } else {
        result := Or(result, byte % 128 * Pow2(bitpos) % TWO32);
      }
      bitpos := (bitpos + 7) % 256;
      n := n + 1;
      if byte < 128 {
        if bitpos == 35 && byte / 16 % 8 != 0 {
          return false, 0;
        }
        return true, result;
      }
    }
  }

  lemma ShortIsLowWord(b: Bytes)
    ensures Decode32(b).Some? && |b| - |Decode32(b).value.1| <= 10 ==>
              Decode64(b).Some? && Decode64(b).value.1 == Decode32(b).value.1 && Decode64(b).value.0 % TWO32 == Decode32(b).value.0
  {
    hide Decode32, Decode64;
    if Decode32(b).Some? && |b| - |Decode32(b).value.1| <= 10 {
      Decode32IsLowWord(b);
    }
  }

  lemma BitPosNext(n: nat)
    ensures BitPos(n + 1) == (BitPos(n) + 7) % 256 && BitPos(0) == 0
  {
  }

  /** pb_decode_varint */
  method DecodeVarint(s: IStream) returns (ok: bool, dest: nat)
    requires s.Valid()
    modifies s
    ensures Moved(s)
    ensures ok <==> Decode64(old(s.View())).Some?
    ensures ok ==> Decode64(old(s.View())) == Some((dest, s.View()))
  {
    hide Pow128, Digits64;
    var result: nat, n := 0, 0;
    ghost var acc: nat := 0;
    DigitsFrom(Digits64(s.View(), 0));
    while true
      invariant Moved(s) && result == acc % TWO64
      invariant Digits64(old(s.View()), 0) == Scaled(acc, n, Digits64(s.View(), n))
      decreases s.left
    {
      Digits64Unfold(s.View(), n);
      if n >= 10 {
        return false, 0;
      }
      var byte;
      ok, byte := s.ReadByte();
      if !ok {
        return false, 0;
      }
      // The bits of `result` all lie below bit 7 * n, so `|=` adds; the shift drops bits over 64.
      result := (result + byte % 128 * Pow128(n)) % TWO64;
      ScaledNext(acc, n, byte, s.View());
      acc := acc + byte % 128 * Pow128(n);
      n := n + 1;
      if byte < 128 {
        return true, result;
      }
    }
  }

  /** Digits `acc` read, the rest weighing 128 to the n-th. */
  ghost function Scaled(acc: nat, n: nat, r: Option<(nat, Bytes)>): Option<(nat, Bytes)> {
    match r
    case None => None
    case Some((v, rest)) => Some((acc + Pow128(n) * v, rest))
  }

  lemma DigitsFrom(r: Option<(nat, Bytes)>)
    ensures Scaled(0, 0, r) == r
  {
  }

  lemma ScaledNext(acc: nat, n: nat, byte: Byte, rest: Bytes)
    ensures byte < 128 ==> Scaled(acc, n, Some((byte, rest))) == Some((acc + byte % 128 * Pow128(n), rest))
    ensures byte >= 128 && Digits64(rest, n + 1).Some? ==>
      (var r := Digits64(rest, n + 1).value;
       Scaled(acc, n, Some((byte - 128 + 128 * r.0, r.1))) == Scaled(acc + byte % 128 * Pow128(n), n + 1, Some(r)))
    ensures (acc % TWO64 + byte % 128 * Pow128(n)) % TWO64 == (acc + byte % 128 * Pow128(n)) % TWO64
  {
    hide Digits64, Pow128;
    assert byte % 128 == if byte < 128 then byte else byte - 128;
    Pow128Next(n);
    if byte >= 128 && Digits64(rest, n + 1).Some? {
      var v := Digits64(rest, n + 1).value.0;
      ScaledArith(acc, Pow128(n), byte - 128, v);
    }
    ModAdds(acc, byte % 128 * Pow128(n));
  }

  lemma ScaledArith(acc: nat, p: nat, x: nat, v: nat)
    ensures acc + p * (x + 128 * v) == (acc + x * p) + (128 * p) * v
  {
  }

  lemma ModAdds(a: nat, b: nat)
    ensures (a % TWO64 + b) % TWO64 == (a + b) % TWO64
  {
  }

  /** pb_decode_tag */
  method DecodeTagFrom(s: IStream) returns (r: TagResult)
    requires s.Valid()
    modifies s
    ensures Moved(s)
    ensures match r
            case Tag(wire, tag, rest) => DecodeTag(old(s.View())) == r && rest == s.View()
            case _ => DecodeTag(old(s.View())) == r
  {
    hide Decode32, Decode64;
    if s.left == 0 {
      return Eof;
    }
    var ok, temp := DecodeVarint32(s);
    if !ok {
      return TagError;
    }
    if temp == 0 {
      return Eof;
    }
    r := Tag(temp % 8, temp / 8, s.View());
  }

  /** pb_skip_varint */
  method SkipVarintIn(s: IStream) returns (ok: bool)
    requires s.Valid()
    modifies s
    ensures Moved(s)
    ensures ok <==> SkipVarint(old(s.View())).Some?
    ensures ok ==> SkipVarint(old(s.View())) == Some(s.View())
  {
    while true
      invariant Moved(s) && SkipVarint(old(s.View())) == SkipVarint(s.View())
      decreases s.left
    {
      var byte;
      ok, byte := s.ReadByte();
      if !ok || byte < 128 {
        return;
      }
    }
  }

  /** A length-delimited piece of the input, read as a whole. */
  method ReadString(s: IStream) returns (ok: bool, b: Bytes)
    requires s.Valid()
    modifies s
    ensures Moved(s)
    ensures ok <==> DecodeString(old(s.View())).Some?
    ensures ok ==> DecodeString(old(s.View())) == Some((b, s.View()))
  {
    hide Decode32, Decode64;
    var size;
    ok, size := DecodeVarint32(s);
    if !ok {
      return false, [];
    }
    ok, b := s.Read(size);
  }

  /** pb_skip_field */
  method SkipFieldIn(s: IStream, wire: nat) returns (ok: bool)
    requires s.Valid()
    modifies s
    ensures Moved(s)
    ensures ok <==> SkipField(wire, old(s.View())).Some?
    ensures ok ==> SkipField(wire, old(s.View())) == Some(s.View())
  {
    hide SkipVarint, DecodeString;
    var skipped: Bytes;
    if wire == WT_VARINT {
      ok := SkipVarintIn(s);
    } else if wire == WT_64BIT {
      ok, skipped := s.Read(8);
    } else if wire == WT_STRING {
      ok, skipped := ReadString(s);
    } else if wire == WT_32BIT {
      ok, skipped := s.Read(4);
    } else {
      ok := false;
    }
  }

  // ----- Values -----

  /** What a decoder of a value does to its stream. */
  twostate predicate Got(s: IStream, new r: Option<(Value, Bytes)>, ok: bool, new v: Value)
    reads s
  {
    && Moved(s)
    && (ok <==> r.Some?)
    && (ok ==> r == Some((v, s.View())))
  }

  /** The decoders of PB_DECODERS for numbers. */
  method DecodeNumberFrom(s: IStream, f: Field) returns (ok: bool, v: Value)
    requires s.Valid() && Packable(f.ltype)
    modifies s
    ensures Got(s, DecodeNumber(f, old(s.View())), ok, v)
  {
    hide Decode32, Decode64, DecodeFixed, UnZigZag, Signed32, Signed64;
    v := Num(0);
    if f.ltype.LFixed32? || f.ltype.LFixed64? {
      var b;
      ok, b := s.Read(if f.ltype.LFixed32? then 4 else 8);
      if ok {
        v := Num(DecodeFixed(b));
      }
      return;
    }
    var u;
    if f.ltype.LBool? {
      ok, u := DecodeVarint32(s);
      v := Num(if u != 0 then 1 else 0);
      return;
    }
    ok, u := DecodeVarint(s);
    if !ok {
      return;
    }
    if !IntSize(f.dataSize) {
      return false, v;
    }
    if f.ltype.LUvarint? {
      return UnsignedFits(u, f.dataSize), Num(u);
    }
    var n := if f.ltype.LSvarint? then UnZigZag(u) else if f.dataSize == 8 then Signed64(u) else Signed32(u);
    return SignedFits(n, f.dataSize), Num(n);
  }

  /** pb_dec_bytes, pb_dec_string and pb_dec_fixed_length_bytes */
  method DecodeBlobFrom(s: IStream, f: Field) returns (ok: bool, v: Value)
    requires s.Valid() && !Packable(f.ltype) && !f.ltype.LSubmessage?
    modifies s
    ensures Got(s, DecodeBlob(f, old(s.View())), ok, v)
  {
    hide Decode32, Decode64, UpToNul;
    v := Blob([]);
    var size, b;
    ok, size := DecodeVarint32(s);
    if !ok {
      return;
    }
    match f.ltype {
      case LString =>
        if size + 1 > f.dataSize {
          return false, v;
        }
        ok, b := s.Read(size);
        v := Blob(UpToNul(b));
      case LFixedBytes =>
        if size > PB_SIZE_MAX {
          return false, v;
        }
        if size == 0 {
          return true, Blob(Zeros(f.dataSize));
        }
        if size != f.dataSize {
          return false, v;
        }
        ok, b := s.Read(f.dataSize);
        v := Blob(b);
      case LBytes =>
        if size > PB_SIZE_MAX || size + BYTES_OFFSET > f.dataSize {
          return false, v;
        }
        ok, b := s.Read(size);
        v := Blob(b);
    }
  }

  /** PB_DECODERS */
  method DecodeData(s: IStream, f: Field, base: Value) returns (ok: bool, v: Value)
    requires s.Valid() && ValidField(f)
    modifies s
    ensures Got(s, DecodeValue(f, base, old(s.View())), ok, v)
    decreases f, 1
  {
    if Packable(f.ltype) {
      ok, v := DecodeNumberFrom(s, f);
    } else if !f.ltype.LSubmessage? {
      ok, v := DecodeBlobFrom(s, f);
    } else {
      ok, v := DecodeSubmessage(s, f, base);
    }
  }

  /** pb_dec_submessage: a substream for the submessage, which is closed behind it. */
  method DecodeSubmessage(s: IStream, f: Field, base: Value) returns (ok: bool, v: Value)
    requires s.Valid() && ValidField(f) && f.ltype.LSubmessage?
    modifies s
    ensures Got(s, DecodeValue(f, base, old(s.View())), ok, v)
    decreases f, 0
  {
    hide Decode32, Decode64, DecodeLoop, ValidDesc, Defaults;
    var d := f.ltype.sub;
    v := base;
    var size;
    ok, size := DecodeVarint32(s);
    if !ok {
      return;
    }
    if s.left < size {
      return false, v;
    }
    ghost var rest, memory := s.View(), s.buf;
    assert rest[..size] == s.buf[..size];
    var sub := new IStream(s.buf, size);
    s.left := s.left - size;
    var start := if f.htype.Repeated? || !base.Sub? || |base.slots| != |d.fields| then Defaults(d) else base.slots;
    var slots;
    ok, slots := DecodeMessage(sub, d, start);
    var _, _ := sub.Read(sub.left);
    s.buf := sub.buf;
    assert s.buf == memory[size..] && s.View() == rest[size..];
    v := Sub(slots);
  }

  // ----- Fields and messages -----

  /** The packed entries: while there is input and room. */
  method DecodePackedFrom(s: IStream, f: Field, entries: seq<Value>) returns (ok: bool, vs: seq<Value>)
    requires s.Valid() && ValidField(f) && Packable(f.ltype)
    modifies s
    ensures Moved(s)
    ensures ok <==> DecodePacked(f, entries, old(s.View())).Some?
    ensures ok ==> DecodePacked(f, entries, old(s.View())) == Some(vs)
  {
    hide DecodeNumber, DecodePacked, ValidField;
    vs := entries;
    while s.left > 0 && |vs| < f.arraySize
      invariant Moved(s)
      invariant DecodePacked(f, entries, old(s.View())) == DecodePacked(f, vs, s.View())
      decreases s.left
    {
      PackedUnfold(f, vs, s.View());
      var v;
      ok, v := DecodeNumberFrom(s, f);
      if !ok {
        return;
      }
      vs := vs + [v];
    }
    PackedEnds(f, vs, s.View());
    ok := s.left == 0;
  }

  lemma PackedEnds(f: Field, vs: seq<Value>, b: Bytes)
    ensures b == [] ==> DecodePacked(f, vs, b) == Some(vs)
    ensures b != [] && |vs| >= f.arraySize ==> DecodePacked(f, vs, b) == None
  {
    hide DecodeValue;
  }

  lemma PackedUnfold(f: Field, vs: seq<Value>, b: Bytes)
    requires Packable(f.ltype) && b != [] && |vs| < f.arraySize
    ensures DecodeNumber(f, b).None? ==> DecodePacked(f, vs, b) == None
    ensures DecodeNumber(f, b).Some? ==>
              DecodePacked(f, vs, b) == DecodePacked(f, vs + [DecodeNumber(f, b).value.0], DecodeNumber(f, b).value.1)
  {
  }

  /** decode_static_field, for the slot of the field. */
  method DecodeField(s: IStream, f: Field, x: Slot, wire: nat) returns (ok: bool, r: Slot)
    requires s.Valid() && ValidField(f)
    modifies s
    ensures Moved(s)
    ensures ok <==> DecodeSlot(f, x, wire, old(s.View())).Some?
    ensures ok ==> DecodeSlot(f, x, wire, old(s.View())) == Some((r, s.View()))
    decreases f, 2
  {
    hide DecodeValue, DecodePacked, DecodeString, ValidField, DefaultValue;
    r := x;
    var v;
    if !f.htype.Repeated? {
      ok, v := DecodeData(s, f, BaseOf(f, x));
      r := Single(v);
    } else if wire == WT_STRING && Packable(f.ltype) {
      ok, r := DecodePackedField(s, f, x);
    } else {
      if |EntriesOf(x)| >= f.arraySize {
        return false, r;
      }
      ok, v := DecodeData(s, f, f.default);
      r := Many(EntriesOf(x) + [v]);
    }
  }

  /** A packed array from its own substream. */
  method DecodePackedField(s: IStream, f: Field, x: Slot) returns (ok: bool, r: Slot)
    requires s.Valid() && ValidField(f) && f.htype.Repeated? && Packable(f.ltype)
    modifies s
    ensures Moved(s)
    ensures ok <==> DecodeSlot(f, x, WT_STRING, old(s.View())).Some?
    ensures ok ==> DecodeSlot(f, x, WT_STRING, old(s.View())) == Some((r, s.View()))
  {
    hide Decode32, Decode64, DecodePacked, ValidField;
    r := x;
    var size;
    ok, size := DecodeVarint32(s);
    if !ok {
      return;
    }
    if s.left < size {
      return false, r;
    }
    ghost var rest, memory := s.View(), s.buf;
    assert rest[..size] == s.buf[..size];
    var sub := new IStream(s.buf, size);
    s.left := s.left - size;
    var vs;
    ok, vs := DecodePackedFrom(sub, f, EntriesOf(x));
    var _, _ := sub.Read(sub.left);
    s.buf := sub.buf;
    assert s.buf == memory[size..] && s.View() == rest[size..];
    r := Many(vs);
  }

  lemma FieldValid(d: Desc, i: nat)
    requires ValidDesc(d) && i < |d.fields|
    ensures ValidField(d.fields[i])
  {
  }

  /** The tag of field `i` leads to field `i` alone. */
  lemma TagFinds(d: Desc, i: nat)
    requires ValidDesc(d) && i < |d.fields|
    ensures FindTag(d, d.fields[i].tag, 0) == Some(i)
  {
    FindUnique(d, i, 0);
  }

  /** pb_decode_noinit */
  method DecodeMessage(s: IStream, d: Desc, start: seq<Slot>) returns (ok: bool, slots: seq<Slot>)
    requires s.Valid() && ValidDesc(d) && |start| == |d.fields|
    modifies s
    ensures Moved(s)
    ensures ok <==> DecodeLoop(d, start, {}, old(s.View())).Some?
    ensures ok ==> DecodeLoop(d, start, {}, old(s.View())) == Some(slots)
    decreases d, 0, 2
  {
    hide ValidDesc, Finished, DecodeLoop;
    slots := start;
    var fieldsSeen: set<nat> := {};
    var iter := new FieldIter(d);
    var turn := Next;
    while s.left > 0 && turn.Next?
      invariant Moved(s) && iter.Valid() && iter.d == d && fresh(iter) && |slots| == |d.fields|
      invariant turn.Next? ==> DecodeLoop(d, start, {}, old(s.View())) == DecodeLoop(d, slots, fieldsSeen, s.View())
      invariant turn.Last? ==> DecodeLoop(d, start, {}, old(s.View())) == Finished(d, slots, fieldsSeen)
      invariant turn.Failed? ==> DecodeLoop(d, start, {}, old(s.View())) == None
      decreases turn.Next?, s.left
    {
      turn, slots, fieldsSeen := DecodeRecord(s, iter, slots, fieldsSeen);
    }
    LoopEnd(d, slots, fieldsSeen);
    if turn.Failed? {
      return false, slots;
    }
    ok := MessageFinished(iter, slots, fieldsSeen);
  }

  /** How one turn of the loop ended. */
  datatype Turn = Next | Last | Failed

  /** One turn of the loop of pb_decode_noinit: a tag, its field, and the data. */
  method DecodeRecord(s: IStream, iter: FieldIter, slots: seq<Slot>, seen: set<nat>)
      returns (turn: Turn, slots': seq<Slot>, seen': set<nat>)
    requires s.Valid() && s.left > 0 && iter.Valid() && ValidDesc(iter.d) && |slots| == |iter.d.fields|
    modifies s, iter
    ensures Moved(s) && iter.Valid() && |slots'| == |slots| && (turn.Next? ==> s.left < old(s.left))
    ensures var before := DecodeLoop(iter.d, slots, seen, old(s.View()));
      match turn
      case Next => before == DecodeLoop(iter.d, slots', seen', s.View())
      case Last => before == Finished(iter.d, slots', seen')
      case Failed => before == None
    decreases iter.d, 0, 1
  {
    hide DecodeSlot, SkipField, DecodeTag, ValidDesc, FindTag, SetSlot, Finished, RequiredBefore, Bit, DecodeLoop;
    slots', seen' := slots, seen;
    LoopUnfold(iter.d, slots, seen, s.View());
    var t := DecodeTagFrom(s);
    if t == Eof {
      return Last, slots, seen;
    } else if t == TagError {
      return Failed, slots, seen;
    }
    var ok;
    var found := iter.Find(t.tag);
    if !found {
      ok := SkipFieldIn(s, t.wire);
    } else {
      TagFinds(iter.d, iter.pos);
      ok, slots', seen' := DecodeKnown(s, iter, slots, seen, t.wire);
    }
    turn := if ok then Next else Failed;
  }

  /** A field the iterator has found: marked as seen and decoded into its slot. */
  method DecodeKnown(s: IStream, iter: FieldIter, slots: seq<Slot>, seen: set<nat>, wire: nat)
      returns (ok: bool, slots': seq<Slot>, seen': set<nat>)
    requires s.Valid() && iter.Valid() && ValidDesc(iter.d) && |slots| == |iter.d.fields| && iter.pos < |slots|
    modifies s
    ensures Moved(s) && |slots'| == |slots|
    ensures var r := DecodeSlot(iter.d.fields[iter.pos], slots[iter.pos], wire, old(s.View()));
      && (ok <==> r.Some?)
      && (ok ==> r.value.1 == s.View() && slots' == SetSlot(iter.d, slots, iter.pos, r.value.0) && seen' == seen + Bit(iter.d, iter.pos))
    decreases iter.d, 0, 0
  {
    hide DecodeSlot, ValidDesc, SetSlot, Bit, RequiredBefore;
    var d, i := iter.d, iter.pos;
    FieldValid(d, i);
    slots' := slots;
    seen' := Mark(iter, seen);
    var r;
    ok, r := DecodeField(s, d.fields[i], slots[i], wire);
    if ok {
      slots' := SetSlot(d, slots, i, r);
    }
  }

  /** Sets the bit of a required field in fields_seen. */
  method Mark(iter: FieldIter, seen: set<nat>) returns (r: set<nat>)
    requires iter.Valid() && iter.pos < |iter.d.fields|
    ensures r == seen + Bit(iter.d, iter.pos)
  {
    r := seen;
    if iter.d.fields[iter.pos].htype.Required? && iter.requiredIndex < MAX_REQUIRED {
      r := r + {iter.requiredIndex};
    }
  }

  /** The check that every required field was present. */
  method MessageFinished(iter: FieldIter, slots: seq<Slot>, seen: set<nat>) returns (ok: bool)
    requires iter.Valid()
    modifies iter
    ensures ok <==> Finished(iter.d, slots, seen) == Some(slots)
    ensures !ok ==> Finished(iter.d, slots, seen) == None
  {
    var count := CountRequired(iter);
    if count > MAX_REQUIRED {
      count := MAX_REQUIRED;
    }
    var r := 0;
    while r < count
      invariant 0 <= r <= count && forall k: nat :: k < r ==> k in seen
    {
      if r !in seen {
        return false;
      }
      r := r + 1;
    }
    return true;
  }

  lemma LoopEnd(d: Desc, slots: seq<Slot>, seen: set<nat>)
    requires |slots| == |d.fields|
    ensures DecodeLoop(d, slots, seen, []) == Finished(d, slots, seen)
  {
  }

  lemma LoopUnfold(d: Desc, slots: seq<Slot>, seen: set<nat>, b: Bytes)
    requires |slots| == |d.fields| && b != []
    ensures DecodeTag(b).Eof? ==> DecodeLoop(d, slots, seen, b) == Finished(d, slots, seen)
    ensures DecodeTag(b).TagError? ==> DecodeLoop(d, slots, seen, b) == None
    ensures DecodeTag(b).Tag? && FindTag(d, DecodeTag(b).tag, 0).None? ==>
      (var t := DecodeTag(b);
       DecodeLoop(d, slots, seen, b) ==
         match SkipField(t.wire, t.rest)
         case None => None
         case Some(next) => DecodeLoop(d, slots, seen, next))
    ensures DecodeTag(b).Tag? && FindTag(d, DecodeTag(b).tag, 0).Some? ==>
      (var t, i := DecodeTag(b), FindTag(d, DecodeTag(b).tag, 0).value;
       DecodeLoop(d, slots, seen, b) ==
         match DecodeSlot(d.fields[i], slots[i], t.wire, t.rest)
         case None => None
         case Some((s, next)) => DecodeLoop(d, SetSlot(d, slots, i, s), seen + Bit(d, i), next))
  {
    hide DecodeSlot, SkipField, DecodeTag, FindTag, SetSlot, Finished;
  }

  /** How many required fields there are, found by stepping from the current field to the end. */
  method CountRequired(iter: FieldIter) returns (count: nat)
    requires iter.Valid()
    modifies iter
    ensures count == RequiredBefore(iter.d.fields, |iter.d.fields|)
  {
    var last: HType := Required;
    var more := true;
    count := 0;
    ghost var n := |iter.d.fields|;
    while more
      invariant iter.Valid()
      invariant !more ==> count == if n == 0 then 0 else RequiredBefore(iter.d.fields, n - 1)
      invariant !more && n > 0 ==> last == iter.d.fields[n - 1].htype
      decreases if more then 1 else 0, |iter.d.fields| - iter.pos
    {
      count := iter.requiredIndex;
      if iter.d.fields != [] {
        last := iter.d.fields[iter.pos].htype;
      }
      more := iter.Next();
    }
    if last.Required? && iter.d.fields != [] {
      count := count + 1;
    }
  }

  /** pb_decode on a stream from pb_istream_from_buffer. */
  method DecodeFromBuffer(d: Desc, b: Bytes) returns (ok: bool, slots: seq<Slot>)
    requires ValidDesc(d)
    ensures ok <==> Decode(d, b).Some?
    ensures ok ==> Decode(d, b) == Some(slots)
  {
    var s := new IStream(b, |b|);
    assert s.View() == b;
    ok, slots := DecodeMessage(s, d, Defaults(d));
  }

  /** The encoder and the decoder one after the other. */
  method EncodeAndDecode(d: Desc, slots: seq<Slot>, bufSize: nat) returns (encoded: bool, ok: bool, back: seq<Slot>)
    requires ValidDesc(d) && TypedSlots(d, slots) && Exclusive(d, slots) && bufSize < TWO32
    ensures encoded <==> Encode(d, slots).Some? && |Encode(d, slots).value| <= bufSize
    ensures encoded ==> ok && back == slots
  {
    var bytes;
    encoded, bytes := PbEncode.EncodeToBuffer(d, slots, bufSize);
    ok, back := false, [];
    if encoded {
      MessageRoundTrip(d, slots);
      ok, back := DecodeFromBuffer(d, bytes);
    }
  }
}
