/** What decoding a byte string into a message gives (pb_decode.c). */
module PbDecodeSpec {
  import opened Options
  import opened DbFormat
  import opened Coding
  import opened PbWire
  import opened PbMessage
  import opened PbIter

  // ----- Defaults (pb_message_set_to_defaults) -----

  function DefaultValue(f: Field): Value
    decreases f, 1
  {
    if f.ltype.LSubmessage? then Sub(Defaults(f.ltype.sub)) else f.default
  }

  function DefaultSlot(f: Field): Slot
    decreases f, 2
  {
    match f.htype
    case Required => Single(DefaultValue(f))
    case Singular => Single(DefaultValue(f))
    case Repeated => Many([])
    case _ => Absent
  }

  function Defaults(d: Desc): (r: seq<Slot>)
    ensures |r| == |d.fields|
    decreases d
  {
    seq(|d.fields|, i requires 0 <= i < |d.fields| => DefaultSlot(d.fields[i]))
  }

  // ----- Single values -----

  /** The number a 64-bit or 32-bit word stands for when read as signed. */
  function Signed64(u: nat): int {
    if u < TWO63 then u else u - TWO64
  }

  function Signed32(u: nat): int {
    if u % TWO32 < TWO31 then u % TWO32 else u % TWO32 - TWO32
  }

  function UnZigZag(u: nat): int {
    if u % 2 == 1 then -(u / 2) - 1 else u / 2
  }

  /** What stays of a byte string when it is read as a C string. */
  function UpToNul(b: Bytes): Bytes {
    if b == [] || b[0] == 0 then [] else [b[0]] + UpToNul(b[1..])
  }

  function Zeros(n: nat): Bytes {
    seq(n, _ => 0)
  }

  /** Four or eight bytes, little-endian. */
  function TakeFixed(b: Bytes, n: nat): (r: Option<(Value, Bytes)>)
    ensures r.Some? ==> |r.value.1| == |b| - n
  {
    if |b| < n then None else Some((Num(DecodeFixed(b[..n])), b[n..]))
  }

  function DecodeNumber(f: Field, b: Bytes): (r: Option<(Value, Bytes)>)
    requires Packable(f.ltype)
    ensures r.Some? ==> |r.value.1| < |b|
  {
    match f.ltype
    case LFixed32 => TakeFixed(b, 4)
    case LFixed64 => TakeFixed(b, 8)
    case LBool =>
      (match Decode32(b)
       case None => None
       case Some((u, rest)) => Some((Num(if u != 0 then 1 else 0), rest)))
    case _ =>
      match Decode64(b)
      case None => None
      case Some((u, rest)) =>
        if !IntSize(f.dataSize) then None
        else if f.ltype.LUvarint? then
          if UnsignedFits(u, f.dataSize) then Some((Num(u), rest)) else None
        else
          var n := if f.ltype.LSvarint? then UnZigZag(u) else if f.dataSize == 8 then Signed64(u) else Signed32(u);
          if SignedFits(n, f.dataSize) then Some((Num(n), rest)) else None
  }

  /** The string-like types that hold no submessage. */
  function DecodeBlob(f: Field, b: Bytes): (r: Option<(Value, Bytes)>)
    ensures r.Some? ==> |r.value.1| < |b|
  {
    match Decode32(b)
    case None => None
    case Some((size, rest)) =>
      match f.ltype
      case LString =>
        if size + 1 > f.dataSize || |rest| < size then None else Some((Blob(UpToNul(rest[..size])), rest[size..]))
      case LFixedBytes =>
        if size > PB_SIZE_MAX then None
        else if size == 0 then Some((Blob(Zeros(f.dataSize)), rest))
        else if size != f.dataSize || |rest| < size then None
        else Some((Blob(rest[..size]), rest[size..]))
      case _ =>
        if size > PB_SIZE_MAX || size + BYTES_OFFSET > f.dataSize || |rest| < size then None
        else Some((Blob(rest[..size]), rest[size..]))
  }

  // ----- Fields and messages -----

  /** PB_DECODERS: `base` is what the field holds before. */
  function DecodeValue(f: Field, base: Value, b: Bytes): (r: Option<(Value, Bytes)>)
    ensures r.Some? ==> |r.value.1| < |b|
    decreases f, 1
  {
    if Packable(f.ltype) then DecodeNumber(f, b)
    else if !f.ltype.LSubmessage? then DecodeBlob(f, b)
    else
      match DecodeString(b)
      case None => None
      case Some((sub, rest)) =>
        var d := f.ltype.sub;
        var start := if f.htype.Repeated? || !base.Sub? || |base.slots| != |d.fields| then Defaults(d) else base.slots;
        match DecodeLoop(d, start, {}, sub)
        case None => None
        case Some(slots) => Some((Sub(slots), rest))
  }

  /** The packed entries, while there is room and input. */
  function DecodePacked(f: Field, vs: seq<Value>, b: Bytes): Option<seq<Value>>
    decreases f, 2, |b|
  {
    if b == [] then Some(vs)
    else if |vs| >= f.arraySize then None
    else
      match DecodeValue(f, f.default, b)
      case None => None
      case Some((v, rest)) => DecodePacked(f, vs + [v], rest)
  }

  /** What field `f` with slot `s` decodes into. */
  function BaseOf(f: Field, s: Slot): Value {
    if s.Single? then s.v else DefaultValue(f)
  }

  function EntriesOf(s: Slot): seq<Value> {
    if s.Many? then s.vs else []
  }

  /** decode_static_field, apart from the other members of a oneof. */
  function DecodeSlot(f: Field, s: Slot, wire: nat, b: Bytes): (r: Option<(Slot, Bytes)>)
    ensures r.Some? ==> |r.value.1| < |b|
    decreases f, 3
  {
    if f.htype.Repeated? then
      if wire == WT_STRING && Packable(f.ltype) then
        match DecodeString(b)
        case None => None
        case Some((sub, rest)) =>
          match DecodePacked(f, EntriesOf(s), sub)
          case None => None
          case Some(vs) => Some((Many(vs), rest))
      else if |EntriesOf(s)| >= f.arraySize then None
      else
        match DecodeValue(f, f.default, b)
        case None => None
        case Some((v, rest)) => Some((Many(EntriesOf(s) + [v]), rest))
    else
      match DecodeValue(f, BaseOf(f, s), b)
      case None => None
      case Some((v, rest)) => Some((Single(v), rest))
  }

  /** Slot `i` is set, and with it the which_ field of its oneof, if it has one. */
  function SetSlot(d: Desc, slots: seq<Slot>, i: nat, s: Slot): (r: seq<Slot>)
    requires |slots| == |d.fields| && i < |slots|
    ensures |r| == |slots|
  {
    seq(|slots|, k requires 0 <= k < |slots| =>
      if k == i then s
      else if d.fields[i].htype.Oneof? && d.fields[k].htype == d.fields[i].htype then Absent
      else slots[k])
  }

  function FindTag(d: Desc, tag: nat, i: nat): (r: Option<nat>)
    requires i <= |d.fields|
    ensures r.Some? ==> i <= r.value < |d.fields| && d.fields[r.value].tag == tag
    ensures r.None? ==> forall k :: i <= k < |d.fields| ==> d.fields[k].tag != tag
    decreases |d.fields| - i
  {
    if i == |d.fields| then None else if d.fields[i].tag == tag then Some(i) else FindTag(d, tag, i + 1)
  }

  /** The bit that a required field sets in fields_seen, when it has one. */
  function Bit(d: Desc, i: nat): set<nat>
    requires i < |d.fields|
  {
    var r := RequiredBefore(d.fields, i);
    if d.fields[i].htype.Required? && r < MAX_REQUIRED then {r} else {}
  }

  predicate AllSeen(d: Desc, seen: set<nat>) {
    forall r: nat :: r < Min(RequiredBefore(d.fields, |d.fields|), MAX_REQUIRED) ==> r in seen
  }

  /** pb_decode_noinit */
  function DecodeLoop(d: Desc, slots: seq<Slot>, seen: set<nat>, b: Bytes): (r: Option<seq<Slot>>)
    requires |slots| == |d.fields|
    ensures r.Some? ==> |r.value| == |d.fields|
    decreases d, |b|
  {
    if b == [] then Finished(d, slots, seen)
    else
      match DecodeTag(b)
      case Eof => Finished(d, slots, seen)
      case TagError => None
      case Tag(wire, tag, rest) =>
        match FindTag(d, tag, 0)
        case None =>
          (match SkipField(wire, rest)
           case None => None
           case Some(next) => DecodeLoop(d, slots, seen, next))
        case Some(i) =>
          match DecodeSlot(d.fields[i], slots[i], wire, rest)
          case None => None
          case Some((s, next)) => DecodeLoop(d, SetSlot(d, slots, i, s), seen + Bit(d, i), next)
  }

  function Finished(d: Desc, slots: seq<Slot>, seen: set<nat>): Option<seq<Slot>> {
    if AllSeen(d, seen) then Some(slots) else None
  }

  /** pb_decode */
  function Decode(d: Desc, b: Bytes): Option<seq<Slot>> {
    DecodeLoop(d, Defaults(d), {}, b)
  }
}
