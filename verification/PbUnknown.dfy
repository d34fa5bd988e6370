/** Fields a decoder does not know make no difference, wherever they stand between records. */
module PbUnknown {
  import opened Options
  import opened DbFormat
  import opened PbWire
  import opened PbMessage
  import opened PbDecodeSpec
  import opened PbRoundTrip

  // ----- Field decoders do not look past what they take -----

  /** The outcome of a parser when `x` follows what it parsed. */
  ghost function Followed<T>(r: Option<(T, Bytes)>, x: Bytes): Option<(T, Bytes)> {
    match r
    case None => None
    case Some((v, rest)) => Some((v, rest + x))
  }

  lemma FixedExtends(b: Bytes, n: nat, x: Bytes)
    requires TakeFixed(b, n).Some?
    ensures TakeFixed(b + x, n) == Followed(TakeFixed(b, n), x)
  {
    assert (b + x)[..n] == b[..n] && (b + x)[n..] == b[n..] + x;
  }

  lemma NumberExtends(f: Field, b: Bytes, x: Bytes)
    requires Packable(f.ltype) && DecodeNumber(f, b).Some?
    ensures DecodeNumber(f, b + x) == Followed(DecodeNumber(f, b), x)
  {
    hide Decode32, Decode64, TakeFixed, UnZigZag, Signed32, Signed64;
    match f.ltype
    case LFixed32 => FixedExtends(b, 4, x);
    case LFixed64 => FixedExtends(b, 8, x);
    case LBool => Decode32Extends(b, x);
    case _ => Decode64Extends(b, x);
  }

  lemma BlobExtends(f: Field, b: Bytes, x: Bytes)
    requires DecodeBlob(f, b).Some?
    ensures DecodeBlob(f, b + x) == Followed(DecodeBlob(f, b), x)
  {
    hide Decode32, UpToNul;
    Decode32Extends(b, x);
    var size, rest := Decode32(b).value.0, Decode32(b).value.1;
    if size <= |rest| {
      assert (rest + x)[..size] == rest[..size] && (rest + x)[size..] == rest[size..] + x;
    }
  }

  lemma ValueExtends(f: Field, base: Value, b: Bytes, x: Bytes)
    requires DecodeValue(f, base, b).Some?
    ensures DecodeValue(f, base, b + x) == Followed(DecodeValue(f, base, b), x)
  {
    hide DecodeNumber, DecodeBlob, DecodeString, DecodeLoop, Defaults;
    if Packable(f.ltype) {
      NumberExtends(f, b, x);
    } else if !f.ltype.LSubmessage? {
      BlobExtends(f, b, x);
    } else {
      DecodeStringExtends(b, x);
    }
  }

  lemma SlotExtends(f: Field, s: Slot, wire: nat, b: Bytes, x: Bytes)
    requires DecodeSlot(f, s, wire, b).Some?
    ensures DecodeSlot(f, s, wire, b + x) == Followed(DecodeSlot(f, s, wire, b), x)
  {
    hide DecodeValue, DecodePacked, DecodeString, DefaultValue;
    if f.htype.Repeated? {
      if wire == WT_STRING && Packable(f.ltype) {
        DecodeStringExtends(b, x);
      } else {
        ValueExtends(f, f.default, b, x);
      }
    } else {
      ValueExtends(f, BaseOf(f, s), b, x);
    }
  }

  // ----- Records -----

  /** `u` consists of records whose tags the descriptor does not have. */
  ghost predicate AllUnknown(d: Desc, u: Bytes)
    decreases |u|
  {
    u == [] ||
    match DecodeTag(u)
    case Tag(wire, tag, rest) => FindTag(d, tag, 0).None? && SkipField(wire, rest).Some? && AllUnknown(d, SkipField(wire, rest).value)
    case _ => false
  }

  lemma {:induction false} UnknownSkipped(d: Desc, slots: seq<Slot>, seen: set<nat>, u: Bytes, c: Bytes)
    requires |slots| == |d.fields| && AllUnknown(d, u)
    ensures DecodeLoop(d, slots, seen, u + c) == DecodeLoop(d, slots, seen, c)
    decreases |u|
  {
    hide DecodeTag, SkipField, FindTag, DecodeSlot, Finished;
    if u == [] {
      assert u + c == c;
    } else {
      var t := DecodeTag(u);
      DecodeTagExtends(u, c);
      SkipFieldExtends(t.wire, t.rest, c);
      UnknownSkipped(d, slots, seen, SkipField(t.wire, t.rest).value, c);
    }
  }

  /** Main theorem. Unknown fields inserted at any boundary between records do not change
      what the whole decodes into, nor whether it decodes. */
  lemma {:induction false} UnknownFieldsIgnored(d: Desc, slots: seq<Slot>, seen: set<nat>, a: Bytes, u: Bytes, c: Bytes)
    requires |slots| == |d.fields| && WholeRecords(d, slots, seen, a) && AllUnknown(d, u)
    ensures DecodeLoop(d, slots, seen, a + u + c) == DecodeLoop(d, slots, seen, a + c)
    decreases |a|
  {
    hide DecodeTag, SkipField, FindTag, DecodeSlot, Finished, AllUnknown, SetSlot, Bit;
    if a == [] {
      assert a + u + c == u + c && a + c == c;
      UnknownSkipped(d, slots, seen, u, c);
    } else {
      var t := DecodeTag(a);
      assert a + u + c == a + (u + c);
      DecodeTagExtends(a, u + c);
      DecodeTagExtends(a, c);
      match FindTag(d, t.tag, 0)
      case None =>
        var next := SkipField(t.wire, t.rest).value;
        SkipFieldExtends(t.wire, t.rest, u + c);
        SkipFieldExtends(t.wire, t.rest, c);
        UnknownFieldsIgnored(d, slots, seen, next, u, c);
        assert next + u + c == next + (u + c);
      case Some(i) =>
        var f, x := d.fields[i], slots[i];
        var s, next := DecodeSlot(f, x, t.wire, t.rest).value.0, DecodeSlot(f, x, t.wire, t.rest).value.1;
        SlotExtends(f, x, t.wire, t.rest, u + c);
        SlotExtends(f, x, t.wire, t.rest, c);
        UnknownFieldsIgnored(d, SetSlot(d, slots, i, s), seen + Bit(d, i), next, u, c);
        assert next + u + c == next + (u + c);
    }
  }

  // ----- At every boundary at once -----

  /** `a` from byte `p` on, with `us(q)` inserted before byte `q`, or at the end. */
  ghost function Woven(a: Bytes, us: nat -> Bytes, p: nat): Bytes
    requires p <= |a|
    decreases |a| - p
  {
    us(p) + if p == |a| then [] else [a[p]] + Woven(a, us, p + 1)
  }

  /** Something is inserted only where whole records end, and only unknown records. */
  ghost predicate AtBoundaries(d: Desc, slots: seq<Slot>, seen: set<nat>, a: Bytes, us: nat -> Bytes)
    requires |slots| == |d.fields|
  {
    forall p: nat :: p <= |a| && us(p) != [] ==> WholeRecords(d, slots, seen, a[..p]) && AllUnknown(d, us(p))
  }

  lemma {:induction false} WovenFrom(d: Desc, slots: seq<Slot>, seen: set<nat>, a: Bytes, us: nat -> Bytes, p: nat)
    requires |slots| == |d.fields| && AtBoundaries(d, slots, seen, a, us) && p <= |a|
    ensures DecodeLoop(d, slots, seen, a[..p] + Woven(a, us, p)) == DecodeLoop(d, slots, seen, a)
    decreases |a| - p
  {
    hide DecodeLoop, WholeRecords, AllUnknown;
    var rest := if p == |a| then [] else [a[p]] + Woven(a, us, p + 1);
    assert a[..p] + Woven(a, us, p) == a[..p] + us(p) + rest;
    if us(p) != [] {
      UnknownFieldsIgnored(d, slots, seen, a[..p], us(p), rest);
    } else {
      assert a[..p] + us(p) == a[..p];
    }
    if p < |a| {
      WovenFrom(d, slots, seen, a, us, p + 1);
      assert a[..p] + rest == a[..p + 1] + Woven(a, us, p + 1);
    } else {
      assert a[..p] + rest == a;
    }
  }

  /** Main theorem. Unknown records at any number of boundaries change nothing. */
  lemma UnknownEverywhereIgnored(d: Desc, slots: seq<Slot>, seen: set<nat>, a: Bytes, us: nat -> Bytes)
    requires |slots| == |d.fields| && AtBoundaries(d, slots, seen, a, us)
    ensures DecodeLoop(d, slots, seen, Woven(a, us, 0)) == DecodeLoop(d, slots, seen, a)
  {
    hide DecodeLoop, WholeRecords, AllUnknown;
    WovenFrom(d, slots, seen, a, us, 0);
    assert a[..0] + Woven(a, us, 0) == Woven(a, us, 0);
  }

  // ----- Where the boundaries of an encoded message are -----

  /** The encoding of the fields from `i` up to `n`. */
  ghost function EncodeSpan(d: Desc, slots: seq<Slot>, i: nat, n: nat): Bytes
    requires TypedSlots(d, slots) && i <= n <= |slots| && EncodeFrom(d, slots, i).Some?
    decreases n - i
  {
    if i == n then [] else EncodeSlot(d.fields[i], slots[i]).value + EncodeSpan(d, slots, i + 1, n)
  }

  lemma {:induction false} SpanSplits(d: Desc, slots: seq<Slot>, i: nat, n: nat)
    requires TypedSlots(d, slots) && i <= n <= |slots| && EncodeFrom(d, slots, i).Some?
    ensures EncodeFrom(d, slots, n).Some?
    ensures EncodeFrom(d, slots, i).value == EncodeSpan(d, slots, i, n) + EncodeFrom(d, slots, n).value
    decreases n - i
  {
    hide EncodeSlot;
    if i < n {
      SpanSplits(d, slots, i + 1, n);
    } else {
      assert [] + EncodeFrom(d, slots, n).value == EncodeFrom(d, slots, n).value;
    }
  }

  /** The fields before any place bring the decoder to that place. */
  lemma {:induction false} SpanLeads(d: Desc, slots: seq<Slot>, i: nat, n: nat, cur: seq<Slot>, seen: set<nat>, t: Bytes)
      returns (cur': seq<Slot>, seen': set<nat>)
    requires ValidDesc(d) && TypedSlots(d, slots) && Exclusive(d, slots) && i <= n <= |slots|
    requires Partly(d, slots, i, cur) && SeenBefore(d, i, seen) && Encodes(EncodeFrom(d, slots, i))
    ensures Partly(d, slots, n, cur') && SeenBefore(d, n, seen')
    ensures |cur| == |cur'| == |d.fields| && LeadsTo(d, cur, seen, EncodeSpan(d, slots, i, n) + t, cur', seen', t)
    decreases n - i
  {
    hide EncodeSlot, DecodeSlot, TypedSlot, ExclusiveSlot, ValidField, DefaultSlot, DecodeLoop, WholeRecords;
    if i == n {
      cur', seen' := cur, seen;
      assert [] + t == t;
    } else {
      var one, rest := EncodeSlot(d.fields[i], slots[i]).value, EncodeSpan(d, slots, i + 1, n) + t;
      var next, seenNext := FieldRoundTrip(d, slots, i, cur, seen, rest);
      assert EncodeSpan(d, slots, i, n) + t == one + rest;
      cur', seen' := SpanLeads(d, slots, i + 1, n, next, seenNext, t);
    }
  }

  /** The encodings of the fields before any place are whole records. */
  lemma FieldBoundary(d: Desc, slots: seq<Slot>, n: nat)
    requires ValidDesc(d) && TypedSlots(d, slots) && Exclusive(d, slots) && Encodes(Encode(d, slots)) && n <= |slots|
    ensures WholeRecords(d, Defaults(d), {}, EncodeSpan(d, slots, 0, n))
    ensures EncodeSpan(d, slots, 0, n) <= Encode(d, slots).value
  {
    hide EncodeSlot, DecodeSlot, TypedSlot, ExclusiveSlot, ValidField, DefaultSlot, DecodeLoop;
    var cur', seen' := SpanLeads(d, slots, 0, n, Defaults(d), {}, []);
    assert EncodeSpan(d, slots, 0, n) + [] == EncodeSpan(d, slots, 0, n);
    SpanSplits(d, slots, 0, n);
  }

  lemma {:induction false} EntriesSplit(f: Field, vs: seq<Value>, m: nat)
    requires m <= |vs| && (forall i :: 0 <= i < |vs| ==> Typed(f, vs[i])) && EncodeEntries(f, vs).Some?
    ensures EncodeEntries(f, vs[..m]).Some? && EncodeEntries(f, vs[..m]).value <= EncodeEntries(f, vs).value
    decreases m
  {
    hide EncodeTagged, Typed;
    if m > 0 {
      assert vs[..m][0] == vs[0] && vs[..m][1..] == vs[1..][..m - 1];
      EntriesSplit(f, vs[1..], m - 1);
    }
  }

  /** So are they together with any number of entries of the next field, when it is an array that
      is not packed. */
  lemma EntryBoundary(d: Desc, slots: seq<Slot>, n: nat, m: nat)
    requires ValidDesc(d) && TypedSlots(d, slots) && Exclusive(d, slots) && Encodes(Encode(d, slots)) && n < |slots|
    requires d.fields[n].htype.Repeated? && !Packable(d.fields[n].ltype) && slots[n].Many? && m <= |slots[n].vs|
    requires forall k :: 0 <= k < |slots[n].vs| ==> Typed(d.fields[n], slots[n].vs[k])
    ensures EncodeEntries(d.fields[n], slots[n].vs[..m]).Some?
    ensures var b := EncodeSpan(d, slots, 0, n) + EncodeEntries(d.fields[n], slots[n].vs[..m]).value;
      WholeRecords(d, Defaults(d), {}, b) && b <= Encode(d, slots).value
  {
    hide DecodeSlot, ValidField, DecodeLoop, EncodeEntries, Typed, ExclusiveValue, WholeRecords, EncodeSpan;
    var f, vs := d.fields[n], slots[n].vs;
    FieldKnown(d, slots, n);
    SpanSplits(d, slots, 0, n);
    EntriesSplit(f, vs, m);
    var es := EncodeEntries(f, vs[..m]).value;
    var cur', seen' := SpanLeads(d, slots, 0, n, Defaults(d), {}, es);
    assert es + [] == es;
    assert vs[..m][..0] == [] && vs[..m][0..] == vs[..m];
    EntriesRoundTrip(d, n, vs[..m], 0, cur', seen', []);
    NoRecords(d, cur'[n := Many(vs[..m])], seen');
  }

  lemma NoRecords(d: Desc, slots: seq<Slot>, seen: set<nat>)
    requires |slots| == |d.fields|
    ensures WholeRecords(d, slots, seen, [])
  {
  }

  lemma FieldKnown(d: Desc, slots: seq<Slot>, n: nat)
    requires ValidDesc(d) && TypedSlots(d, slots) && Exclusive(d, slots) && Encodes(Encode(d, slots)) && n < |slots|
    requires d.fields[n].htype.Repeated? && !Packable(d.fields[n].ltype) && slots[n].Many?
    requires forall k :: 0 <= k < |slots[n].vs| ==> Typed(d.fields[n], slots[n].vs[k])
    ensures EncodeFrom(d, slots, n).Some? && DefaultSlot(d.fields[n]) == Many([])
    ensures var f, vs := d.fields[n], slots[n].vs;
      && EncodeEntries(f, vs).Some? && EncodeEntries(f, vs).value <= EncodeFrom(d, slots, n).value
      && Encodes(EncodeEntries(f, vs)) && |vs| <= f.arraySize
      && forall k :: 0 <= k < |vs| ==> ExclusiveValue(f, vs[k])
  {
    hide EncodeEntries, Typed, ExclusiveValue;
    SpanSplits(d, slots, 0, n);
    assert TypedSlot(d.fields[n], slots[n]) && ExclusiveSlot(d.fields[n], slots[n]);
    NoEntries(d.fields[n]);
    var vs := slots[n].vs;
    assert EncodeSlot(d.fields[n], slots[n]) == EncodeArray(d.fields[n], vs) && EncodeArray(d.fields[n], vs).Some?;
    assert vs == [] ==> EncodeEntries(d.fields[n], vs) == Some([]);
  }

  lemma NoEntries(f: Field)
    ensures EncodeEntries(f, []) == Some([])
  {
  }

  /** So a message comes back whatever unknown fields stand at its boundaries, also between the
      entries of an array. */
  lemma RoundTripWithUnknown(d: Desc, slots: seq<Slot>, us: nat -> Bytes)
    requires ValidDesc(d) && TypedSlots(d, slots) && Exclusive(d, slots) && Encodes(Encode(d, slots))
    requires AtBoundaries(d, Defaults(d), {}, Encode(d, slots).value, us)
    ensures Decode(d, Woven(Encode(d, slots).value, us, 0)) == Some(slots)
  {
    hide EncodeFrom, DecodeLoop, AtBoundaries;
    MessageRoundTrip(d, slots);
    UnknownEverywhereIgnored(d, Defaults(d), {}, Encode(d, slots).value, us);
  }
}
