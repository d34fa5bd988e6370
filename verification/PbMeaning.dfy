/** What a sequence of records means to a descriptor, and that the decoder reads any byte string of
    the wire format that way (pb_decode.c; the encoding chapter of the Protocol Buffers
    documentation). */
module PbMeaning {
  import opened Options
  import opened DbFormat
  import opened Coding
  import opened PbWire
  import opened PbMessage
  import opened PbIter
  import opened PbDecodeSpec
  import opened PbRoundTrip
  import opened PbGrammar

  // ----- Values -----

  /** One more than the largest signed number of that many bytes. */
  function Top(size: nat): nat {
    if size == 1 then 0x80 else if size == 2 then 0x8000 else if size == 4 then 0x8000_0000 else 0x8000_0000_0000_0000
  }

  /** The number in a varint. Fields of four bytes and less look at the low 32 bits of a plain one. */
  function NumberIn(f: Field, v: nat): Option<int> {
    var u := v % 0x1_0000_0000_0000_0000;
    var size := f.dataSize;
    if f.ltype.LBool? then Some(if u == 0 then 0 else 1)
    else if size != 1 && size != 2 && size != 4 && size != 8 then None
    else if f.ltype.LUvarint? then if u < 2 * Top(size) then Some(u) else None
    else
      var low := u % 0x1_0000_0000;
      var n :=
        if f.ltype.LSvarint? then if u % 2 == 0 then u / 2 else -((u + 1) / 2)
        else if size == 8 then if u < 0x8000_0000_0000_0000 then u else u - 0x1_0000_0000_0000_0000
        else if low < 0x8000_0000 then low else low - 0x1_0000_0000;
      if -(Top(size) as int) <= n < Top(size) then Some(n) else None
  }

  /** The bytes in a length-delimited payload, as the field can hold them. */
  function BytesIn(f: Field, b: Bytes): Option<Bytes> {
    match f.ltype
    case LString => if |b| + 1 <= f.dataSize then Some(UpToNul(b)) else None
    case LFixedBytes =>
      if b == [] then Some(seq(f.dataSize, _ => 0)) else if |b| == f.dataSize <= 0xffff then Some(b) else None
    case _ => if |b| <= 0xffff && |b| + 2 <= f.dataSize then Some(b) else None
  }

  lemma {:induction false} UpToNulIs(b: Bytes)
    ensures UpToNul(b) <= b && 0 !in UpToNul(b)
    ensures |UpToNul(b)| < |b| ==> b[|UpToNul(b)|] == 0
  {
    if b != [] && b[0] != 0 {
      UpToNulIs(b[1..]);
    }
  }

  /** The payload has the shape that the field's type asks for. A bool is a number below 2^32. */
  ghost predicate IsKind(f: Field, p: Payload)
    decreases f, 1
  {
    match f.ltype
    case LBool => p.Varint? && p.v < 0x1_0000_0000
    case LVarint | LUvarint | LSvarint => p.Varint?
    case LFixed32 => p.Word32?
    case LFixed64 => p.Word64?
    case LSubmessage(d) => p.Message? && AllKinds(d, p.records)
    case _ => p.Data?
  }

  /** Arrays of numbers come packed or one by one. */
  ghost predicate IsFieldKind(f: Field, p: Payload)
    decreases f, 3
  {
    if f.htype.Repeated? && IsNumber(f.ltype) && p.Packed? then AreKinds(f, p.items)
    else IsKind(f, p)
  }

  ghost predicate AreKinds(f: Field, ps: seq<Payload>)
    decreases f, 2
  {
    forall k :: 0 <= k < |ps| ==> IsKind(f, ps[k])
  }

  ghost predicate RecordFits(d: Desc, r: Record)
    decreases d, 4
  {
    && 0 < r.number < 0x2000_0000
    && forall i :: 0 <= i < |d.fields| && d.fields[i].tag == r.number ==> IsFieldKind(d.fields[i], r.payload)
  }

  ghost predicate AllKinds(d: Desc, rs: seq<Record>)
    decreases d, 5
  {
    forall k :: 0 <= k < |rs| ==> RecordFits(d, rs[k])
  }

  // ----- Messages -----

  predicate Occurs(rs: seq<Record>, number: nat) {
    exists k :: 0 <= k < |rs| && rs[k].number == number
  }

  /** Of the required fields the first 64 are asked for. */
  ghost predicate Complete(d: Desc, rs: seq<Record>) {
    forall i :: 0 <= i < |d.fields| && d.fields[i].htype.Required? && RequiredBefore(d.fields, i) < 64 ==> Occurs(rs, d.fields[i].tag)
  }

  /** The value in a payload; `base` is what the field holds before, and what a submessage adds to. */
  ghost function Read(f: Field, base: Value, p: Payload): Option<Value>
    requires IsKind(f, p)
    decreases f, 1
  {
    match p
    case Varint(v) => (match NumberIn(f, v) case None => None case Some(n) => Some(Num(n)))
    case Word64(v) => Some(Num(v))
    case Word32(v) => Some(Num(v))
    case Data(b) => (match BytesIn(f, b) case None => None case Some(x) => Some(Blob(x)))
    case Message(rs) =>
      var d := f.ltype.sub;
      var start := if f.htype.Repeated? || !base.Sub? || |base.slots| != |d.fields| then Defaults(d) else base.slots;
      (match ReadMessage(d, start, rs) case None => None case Some(slots) => Some(Sub(slots)))
    case Packed(_) => None
  }

  ghost function ReadItems(f: Field, vs: seq<Value>, ps: seq<Payload>): Option<seq<Value>>
    requires AreKinds(f, ps)
    decreases f, 2, |ps|
  {
    if ps == [] then Some(vs)
    else if |vs| >= f.arraySize then None
    else
      match Read(f, f.default, ps[0])
      case None => None
      case Some(v) => ReadItems(f, vs + [v], ps[1..])
  }

  /** An array grows at its end, any other field is replaced. */
  ghost function ReadSlot(f: Field, s: Slot, p: Payload): Option<Slot>
    requires IsFieldKind(f, p)
    decreases f, 3
  {
    if f.htype.Repeated? then
      match ReadItems(f, if s.Many? then s.vs else [], if IsNumber(f.ltype) && p.Packed? then p.items else [p])
      case None => None
      case Some(vs) => Some(Many(vs))
    else
      match Read(f, if s.Single? then s.v else DefaultValue(f), p)
      case None => None
      case Some(v) => Some(Single(v))
  }

  /** Field `i` is set; of a oneof only the last member to come stays. */
  function Replaced(d: Desc, slots: seq<Slot>, i: nat, s: Slot): (r: seq<Slot>)
    requires |slots| == |d.fields| && i < |slots|
    ensures |r| == |slots|
  {
    seq(|slots|, k requires 0 <= k < |slots| =>
      if k == i then s
      else match d.fields[k].htype
           case Oneof(group) => if d.fields[i].htype == Oneof(group) then Absent else slots[k]
           case _ => slots[k])
  }

  /** The fields after the records, which are read in turn; records of unknown fields are skipped. */
  ghost function ReadAll(d: Desc, slots: seq<Slot>, rs: seq<Record>): (r: Option<seq<Slot>>)
    requires |slots| == |d.fields| && AllKinds(d, rs)
    ensures r.Some? ==> |r.value| == |d.fields|
    decreases d, 5, |rs|
  {
    if rs == [] then Some(slots)
    else
      match FindTag(d, rs[0].number, 0)
      case None => ReadAll(d, slots, rs[1..])
      case Some(i) =>
        assert RecordFits(d, rs[0]);
        match ReadSlot(d.fields[i], slots[i], rs[0].payload)
        case None => None
        case Some(s) => ReadAll(d, Replaced(d, slots, i, s), rs[1..])
  }

  ghost function ReadMessage(d: Desc, slots: seq<Slot>, rs: seq<Record>): (r: Option<seq<Slot>>)
    requires |slots| == |d.fields| && AllKinds(d, rs)
    ensures r.Some? ==> |r.value| == |d.fields|
    decreases d, 6
  {
    if Complete(d, rs) then ReadAll(d, slots, rs) else None
  }

  // ----- Varints of any form are read -----

  lemma {:induction false} DigitsOfVarint(b: Bytes, rest: Bytes)
    requires VarintShape(b)
    ensures Digits(b + rest) == Some((VarintValue(b), rest))
    decreases |b|
  {
    hide Digits;
    DigitsUnfold(b + rest);
    assert (b + rest)[1..] == b[1..] + rest;
    if |b| == 1 {
      assert b[1..] == [] && VarintValue([]) == 0 && b[1..] + rest == rest;
    } else {
      assert b[0] >= 128 && b[1..][|b| - 2] == b[|b| - 1];
      DigitsOfVarint(b[1..], rest);
    }
  }

  lemma Decode64OfVarint(b: Bytes, rest: Bytes)
    requires VarintShape(b) && |b| <= 10
    ensures Decode64(b + rest) == Some((VarintValue(b) % TWO64, rest))
  {
    hide Digits, Digits64;
    DigitsOfVarint(b, rest);
    Digits64IsDigits(b + rest, 0);
  }

  lemma {:induction false} LargePower(n: nat)
    requires n >= 5
    ensures Pow128(n) >= TWO32
  {
    if n == 5 {
      Pow128Values();
    } else {
      LargePower(n - 1);
    }
  }

  /** One turn of the 32-bit decoder's loop while the digits keep below 2^32. */
  lemma TurnOfDigits(b: Bytes, result: nat, n: nat)
    requires 1 <= n && b != [] && Digits(b).Some? && (n <= 4 ==> result < Pow128(n))
    requires result + Pow128(n) * Digits(b).value.0 < TWO32
    ensures var byte, next := b[0], OrByte(result, b[0], BitPos(n));
      && next == result + byte % 128 * Pow128(n) && (n <= 3 ==> next < Pow128(n + 1))
      && (BitPos(n) >= 32 ==> byte % 128 == 0) && ((BitPos(n) + 7) % 256 == 35 ==> byte % 128 < 16)
  {
    hide Digits, Pow128, OrByte, BitPos;
    var v := Digits(b).value.0;
    FirstDigit(b);
    if v == 0 {
      ZeroByteKeeps(result, BitPos(n));
      ZeroDigit(result, n);
    } else {
      SmallPlace(n, v);
      JoinsBelow(result, b[0], n, v);
    }
  }

  lemma FirstDigit(b: Bytes)
    requires b != [] && Digits(b).Some?
    ensures Digits(b).value.0 % 128 == b[0] % 128 && (Digits(b).value.0 == 0 ==> b[0] == 0 || b[0] == 128)
  {
  }

  lemma ZeroDigit(result: nat, n: nat)
    ensures 0 * Pow128(n) == 0 && Pow128(n) <= Pow128(n + 1)
  {
  }

  /** Digits below 2^32 are accepted, wherever the zero ones behind them lie. */
  lemma {:induction false} Loop32OfDigits(b: Bytes, result: nat, n: nat)
    requires 1 <= n && Digits(b).Some? && (n <= 4 ==> result < Pow128(n))
    requires result + Pow128(n) * Digits(b).value.0 < TWO32
    ensures Loop32(b, result, n) == Some((result + Pow128(n) * Digits(b).value.0, Digits(b).value.1))
    decreases |b|
  {
    hide Digits, Loop32, Pow128, OrByte, BitPos;
    NotEmpty(b);
    DigitsUnfold(b);
    Loop32Unfold(b, result, n);
    TurnOfDigits(b, result, n);
    Pow128Next(n);
    if b[0] >= 128 {
      NextPlace(Pow128(n), b[0], Digits(b[1..]).value.0);
      Loop32OfDigits(b[1..], OrByte(result, b[0], BitPos(n)), n + 1);
    } else {
      Swap(Pow128(n), b[0]);
    }
  }

  lemma Swap(p: nat, x: nat)
    ensures p * x == x * p
  {
  }

  lemma NotEmpty(b: Bytes)
    requires Digits(b).Some?
    ensures b != []
  {
  }

  lemma SmallPlace(n: nat, v: nat)
    requires v > 0 && Pow128(n) * v < TWO32
    ensures n <= 4
  {
    hide Pow128;
    Times(Pow128(n), 1, v);
    if n >= 5 {
      LargePower(n);
    }
  }

  lemma NextPlace(p: nat, byte: Byte, w: nat)
    requires byte >= 128
    ensures p * (byte - 128 + 128 * w) == byte % 128 * p + 128 * p * w
  {
    assert byte % 128 == byte - 128;
  }

  /** A nonzero rest of the digits begins below bit 32. */
  lemma JoinsBelow(result: nat, byte: Byte, n: nat, v: nat)
    requires 1 <= n <= 4 && result < Pow128(n) && result + Pow128(n) * v < TWO32 && v % 128 == byte % 128
    ensures BitPos(n) == 7 * n < 32 && OrByte(result, byte, BitPos(n)) == result + byte % 128 * Pow128(n)
    ensures OrByte(result, byte, BitPos(n)) < Pow128(n + 1)
    ensures n == 4 ==> byte % 128 < 16
  {
    hide OrByte, BitPos, Pow128;
    OrByteAdds(result, byte, n);
    Pow128Next(n);
    Pow128Values();
    var d := byte % 128;
    assert v == d + 128 * (v / 128);
    assert d * Pow128(n) <= Pow128(n) * v by {
      Times(Pow128(n), d, v);
    }
    assert d * Pow128(n) <= 127 * Pow128(n) by {
      Times(Pow128(n), d, 127);
    }
  }

  lemma Times(p: nat, x: nat, y: nat)
    requires x <= y
    ensures x * p <= p * y && x * p <= y * p
  {
  }

  lemma Decode32OfVarint(b: Bytes, rest: Bytes)
    requires VarintShape(b) && VarintValue(b) < TWO32
    ensures Decode32(b + rest) == Some((VarintValue(b), rest))
  {
    hide Digits, Loop32, Pow128;
    var c := b + rest;
    DigitsOfVarint(b, rest);
    DigitsUnfold(c);
    Pow128Values();
    if c[0] >= 128 {
      Loop32OfDigits(c[1..], c[0] - 128, 1);
    }
  }

  // ----- Payloads are read -----

  lemma FixedRead(b: Bytes, more: Bytes)
    ensures TakeFixed(b + more, |b|) == Some((Num(WordValue(b)), more))
  {
    WordDecodes(b);
    assert (b + more)[..|b|] == b && (b + more)[|b|..] == more;
  }

  /** A length and what it delimits. */
  lemma DelimitedRead(b: Bytes, n: nat, more: Bytes)
    requires Delimited(b, n) && |b| < TWO32
    ensures Decode32(b + more) == Some((|b| - n, b[n..] + more)) && DecodeString(b + more) == Some((b[n..], more))
  {
    hide Decode32, IsVarint;
    VarintIs(b[..n], |b| - n);
    Decode32OfVarint(b[..n], b[n..] + more);
    assert b + more == b[..n] + (b[n..] + more);
    var rest := b[n..] + more;
    assert rest[..|b| - n] == b[n..] && rest[|b| - n..] == more;
  }

  lemma VarintIs(b: Bytes, v: nat)
    requires IsVarint(b, v)
    ensures VarintShape(b) && |b| <= 10 && VarintValue(b) == v
  {
  }

  function Behind<T>(r: Option<T>, more: Bytes): Option<(T, Bytes)> {
    match r
    case None => None
    case Some(v) => Some((v, more))
  }

  lemma NumberRead(f: Field, base: Value, p: Payload, b: Bytes, more: Bytes)
    requires IsNumber(f.ltype) && IsKind(f, p) && IsPayload(p, b)
    ensures DecodeNumber(f, b + more) == Behind(Read(f, base, p), more)
  {
    hide Decode32, Decode64, TakeFixed, VarintShape, VarintValue, WordValue, NumberIn, DecodeNumber;
    match p
    case Varint(v) => VarintRead(f, v, b, more);
    case _ => WordRead(f, b, more);
  }

  lemma WordRead(f: Field, b: Bytes, more: Bytes)
    requires (f.ltype.LFixed32? && |b| == 4) || (f.ltype.LFixed64? && |b| == 8)
    ensures DecodeNumber(f, b + more) == Some((Num(WordValue(b)), more))
  {
    hide WordValue, TakeFixed;
    FixedRead(b, more);
  }

  lemma VarintRead(f: Field, v: nat, b: Bytes, more: Bytes)
    requires f.ltype.LBool? || f.ltype.LVarint? || f.ltype.LUvarint? || f.ltype.LSvarint?
    requires IsVarint(b, v) && (f.ltype.LBool? ==> v < TWO32)
    ensures DecodeNumber(f, b + more) == match NumberIn(f, v) case None => None case Some(n) => Some((Num(n), more))
  {
    hide Decode32, Decode64, VarintShape, VarintValue, UnZigZag, Signed32, Signed64, Half, Top;
    NumberAgrees(f, v % TWO64);
    if f.ltype.LBool? {
      Decode32OfVarint(b, more);
    } else {
      Decode64OfVarint(b, more);
    }
  }

  lemma NumberAgrees(f: Field, u: nat)
    requires u < TWO64
    ensures UnZigZag(u) == if u % 2 == 0 then u / 2 else -((u + 1) / 2)
    ensures Signed64(u) == if u < 0x8000_0000_0000_0000 then u else u - 0x1_0000_0000_0000_0000
    ensures Signed32(u) == if u % 0x1_0000_0000 < 0x8000_0000 then u % 0x1_0000_0000 else u % 0x1_0000_0000 - 0x1_0000_0000
    ensures IntSize(f.dataSize) ==> Half(f.dataSize) == Top(f.dataSize)
  {
  }

  lemma BlobRead(f: Field, base: Value, x: Bytes, b: Bytes, more: Bytes)
    requires f.ltype.LBytes? || f.ltype.LString? || f.ltype.LFixedBytes?
    requires IsPayload(Data(x), b) && |b| < TWO32
    ensures DecodeBlob(f, b + more) == Behind(Read(f, base, Data(x)), more)
  {
    hide Decode32, IsVarint, UpToNul;
    var n: nat :| Delimited(b, n) && b[n..] == x;
    DelimitedLength(b, n);
    DelimitedRead(b, n, more);
    assert (x + more)[..|x|] == x && (x + more)[|x|..] == more;
  }

  lemma DelimitedLength(b: Bytes, n: nat)
    requires Delimited(b, n)
    ensures 0 < n <= |b|
  {
  }

  lemma {:induction false} VarintSkipped(b: Bytes, more: Bytes)
    requires VarintShape(b)
    ensures SkipVarint(b + more) == Some(more)
    decreases |b|
  {
    assert (b + more)[1..] == b[1..] + more;
    if |b| > 1 {
      assert b[0] >= 128 && b[1..][|b| - 2] == b[|b| - 1];
      VarintSkipped(b[1..], more);
    } else {
      assert b[1..] + more == more;
    }
  }

  /** A payload is skipped as a whole whatever it is. */
  lemma PayloadSkipped(p: Payload, b: Bytes, more: Bytes)
    requires IsPayload(p, b) && |b| < TWO32
    ensures SkipField(WireCode(p), b + more) == Some(more)
  {
    hide DecodeString, Delimited, IsRecords, IsItems, VarintShape, VarintValue;
    match p
    case Varint(v) => VarintSkipped(b, more);
    case Word64(_) => assert (b + more)[8..] == more;
    case Word32(_) => assert (b + more)[4..] == more;
    case _ =>
      var n: nat :| Delimited(b, n);
      DelimitedRead(b, n, more);
  }

  // ----- Which required fields have been seen -----

  ghost function Bits(d: Desc, rs: seq<Record>): set<nat> {
    if rs == [] then {}
    else
      match FindTag(d, rs[0].number, 0)
      case None => Bits(d, rs[1..])
      case Some(i) => Bit(d, i) + Bits(d, rs[1..])
  }

  lemma RankIsUnique(d: Desc, i: nat, j: nat)
    requires i < |d.fields| && j < |d.fields| && d.fields[i].htype.Required? && d.fields[j].htype.Required?
    requires RequiredBefore(d.fields, i) == RequiredBefore(d.fields, j)
    ensures i == j
  {
    if i < j {
      RequiredGrows(d.fields, i, j);
    } else {
      RequiredGrows(d.fields, j, i);
    }
  }

  lemma {:induction false} BitsIff(d: Desc, rs: seq<Record>, i: nat)
    requires ValidDesc(d) && i < |d.fields| && d.fields[i].htype.Required? && RequiredBefore(d.fields, i) < 64
    ensures RequiredBefore(d.fields, i) in Bits(d, rs) <==> Occurs(rs, d.fields[i].tag)
    decreases |rs|
  {
    hide ValidField, FindTag, RequiredBefore;
    if rs != [] {
      BitsIff(d, rs[1..], i);
      OccursCons(rs, d.fields[i].tag);
      FindUnique(d, i, 0);
      var found := FindTag(d, rs[0].number, 0);
      if found.Some? && RequiredBefore(d.fields, i) in Bit(d, found.value) {
        RankIsUnique(d, i, found.value);
      }
    }
  }

  lemma OccursCons(rs: seq<Record>, number: nat)
    requires rs != []
    ensures Occurs(rs, number) <==> rs[0].number == number || Occurs(rs[1..], number)
  {
    if k :| 0 <= k < |rs| && rs[k].number == number {
      assert k > 0 ==> rs[1..][k - 1] == rs[k];
    }
  }

  /** Every rank below the number of required fields is some field's. */
  lemma {:induction false} FieldOfRank(d: Desc, n: nat, r: nat) returns (i: nat)
    requires n <= |d.fields| && r < RequiredBefore(d.fields, n)
    ensures i < n && d.fields[i].htype.Required? && RequiredBefore(d.fields, i) == r
    decreases n
  {
    if d.fields[n - 1].htype.Required? && RequiredBefore(d.fields, n - 1) == r {
      i := n - 1;
    } else {
      i := FieldOfRank(d, n - 1, r);
    }
  }

  lemma CompleteIff(d: Desc, rs: seq<Record>)
    requires ValidDesc(d)
    ensures AllSeen(d, Bits(d, rs)) <==> Complete(d, rs)
  {
    hide Bits, RequiredBefore, Occurs, ValidDesc;
    var n := RequiredBefore(d.fields, |d.fields|);
    forall i | 0 <= i < |d.fields| && d.fields[i].htype.Required? && RequiredBefore(d.fields, i) < 64
      ensures RequiredBefore(d.fields, i) < n
      ensures RequiredBefore(d.fields, i) in Bits(d, rs) <==> Occurs(rs, d.fields[i].tag)
    {
      RequiredGrows(d.fields, i, |d.fields|);
      BitsIff(d, rs, i);
    }
    if Complete(d, rs) {
      forall r: nat | r < Min(n, MAX_REQUIRED)
        ensures r in Bits(d, rs)
      {
        var i := FieldOfRank(d, |d.fields|, r);
      }
    }
  }

  // ----- Records are read -----

  lemma {:induction false} ValueRead(f: Field, base: Value, p: Payload, b: Bytes, more: Bytes)
    requires ValidField(f) && IsKind(f, p) && IsPayload(p, b) && |b| < TWO32
    ensures DecodeValue(f, base, b + more) == Behind(Read(f, base, p), more) && b != []
    decreases f, 1
  {
    hide DecodeNumber, DecodeBlob, DecodeString, DecodeLoop, IsVarint, ReadMessage, Defaults, ValidDesc, AllKinds, IsRecords;
    PayloadHasBytes(p, b);
    if IsNumber(f.ltype) {
      NumberRead(f, base, p, b, more);
    } else if !f.ltype.LSubmessage? {
      BlobRead(f, base, p.b, b, more);
    } else {
      var n: nat :| Delimited(b, n) && IsRecords(p.records, b[n..]);
      DelimitedLength(b, n);
      DelimitedRead(b, n, more);
      var d := f.ltype.sub;
      var start := if f.htype.Repeated? || !base.Sub? || |base.slots| != |d.fields| then Defaults(d) else base.slots;
      MessageRead(d, start, p.records, b[n..]);
    }
  }

  lemma PayloadHasBytes(p: Payload, b: Bytes)
    requires IsPayload(p, b)
    ensures b != []
  {
    hide VarintValue, WordValue, IsRecords, IsItems;
  }

  lemma {:induction false} ItemsRead(f: Field, vs: seq<Value>, ps: seq<Payload>, b: Bytes)
    requires ValidField(f) && AreKinds(f, ps) && IsItems(ps, b) && |b| < TWO32
    ensures DecodePacked(f, vs, b) == ReadItems(f, vs, ps)
    decreases f, 2, |ps|
  {
    hide DecodeValue, Read, IsPayload, IsKind, ValidField;
    if ps != [] {
      var n: nat :| n <= |b| && IsPayload(ps[0], b[..n]) && IsItems(ps[1..], b[n..]);
      ValueRead(f, f.default, ps[0], b[..n], b[n..]);
      assert b == b[..n] + b[n..];
      if Read(f, f.default, ps[0]).Some? {
        ItemsRead(f, vs + [Read(f, f.default, ps[0]).value], ps[1..], b[n..]);
      }
    }
  }

  lemma NumbersArePackable(f: Field)
    ensures Packable(f.ltype) <==> IsNumber(f.ltype)
  {
  }

  lemma {:induction false} SlotRead(f: Field, s: Slot, p: Payload, b: Bytes, more: Bytes)
    requires ValidField(f) && IsFieldKind(f, p) && IsPayload(p, b) && |b| < TWO32
    ensures DecodeSlot(f, s, WireCode(p), b + more) == Behind(ReadSlot(f, s, p), more)
    decreases f, 3
  {
    hide DecodeValue, DecodePacked, Read, DecodeString, IsVarint, ValidField, IsItems, IsRecords, DefaultValue;
    NumbersArePackable(f);
    if f.htype.Repeated? && IsNumber(f.ltype) && p.Packed? {
      var n: nat :| Delimited(b, n) && IsItems(p.items, b[n..]);
      DelimitedLength(b, n);
      DelimitedRead(b, n, more);
      ItemsRead(f, EntriesOf(s), p.items, b[n..]);
    } else {
      ValueRead(f, if f.htype.Repeated? then f.default else BaseOf(f, s), p, b, more);
      OneItem(f, EntriesOf(s), p);
    }
  }

  lemma OneItem(f: Field, vs: seq<Value>, p: Payload)
    requires IsKind(f, p)
    ensures ReadItems(f, vs, [p]) ==
      if |vs| >= f.arraySize then None
      else match Read(f, f.default, p) case None => None case Some(v) => Some(vs + [v])
  {
    hide Read, IsKind;
    assert [p][1..] == [];
    if |vs| < f.arraySize && Read(f, f.default, p).Some? {
      assert ReadItems(f, vs + [Read(f, f.default, p).value], []) == Some(vs + [Read(f, f.default, p).value]);
    }
  }

  /** The tag of a record. */
  lemma TagRead(number: nat, wire: nat, t: Bytes, rest: Bytes)
    requires IsVarint(t, number * 8 + wire) && 0 < number < 0x2000_0000 && wire < 8
    ensures DecodeTag(t + rest) == Tag(wire, number, rest) && t + rest != []
  {
    hide Decode32;
    Decode32OfVarint(t, rest);
  }

  lemma SetIsReplaced(d: Desc, slots: seq<Slot>, i: nat, s: Slot)
    requires |slots| == |d.fields| && i < |slots|
    ensures SetSlot(d, slots, i, s) == Replaced(d, slots, i, s)
  {
  }

  /** What reading the records ends in. */
  ghost function Ends(d: Desc, seen: set<nat>, r: Option<seq<Slot>>): Option<seq<Slot>> {
    match r
    case None => None
    case Some(slots) => if AllSeen(d, seen) then Some(slots) else None
  }

  lemma {:induction false} RecordsRead(d: Desc, slots: seq<Slot>, seen: set<nat>, rs: seq<Record>, b: Bytes)
    requires ValidDesc(d) && |slots| == |d.fields| && AllKinds(d, rs) && IsRecords(rs, b) && |b| < TWO32
    ensures DecodeLoop(d, slots, seen, b) == Ends(d, seen + Bits(d, rs), ReadAll(d, slots, rs))
    decreases d, 4, |rs|
  {
    hide DecodeSlot, ReadSlot, DecodeTag, SkipField, IsPayload, IsVarint, AllSeen, SetSlot, Replaced, Bit, RecordFits, ValidField, FindTag, IsRecord;
    if rs == [] {
      assert seen + Bits(d, rs) == seen;
    } else {
      var n: nat :| n <= |b| && IsRecord(rs[0], b[..n]) && IsRecords(rs[1..], b[n..]);
      var m := RecordParts(rs[0], b[..n]);
      var payload, more := b[..n][m..], b[n..];
      assert b == b[..n][..m] + (payload + more);
      assert RecordFits(d, rs[0]);
      FitsNumber(d, rs[0]);
      TagRead(rs[0].number, WireCode(rs[0].payload), b[..n][..m], payload + more);
      match FindTag(d, rs[0].number, 0)
      case None =>
        PayloadSkipped(rs[0].payload, payload, more);
        RecordsRead(d, slots, seen, rs[1..], more);
      case Some(i) =>
        FitsField(d, rs[0], i);
        SlotRead(d.fields[i], slots[i], rs[0].payload, payload, more);
        var s := ReadSlot(d.fields[i], slots[i], rs[0].payload);
        if s.Some? {
          SetIsReplaced(d, slots, i, s.value);
          RecordsRead(d, Replaced(d, slots, i, s.value), seen + Bit(d, i), rs[1..], more);
          assert seen + Bits(d, rs) == seen + Bit(d, i) + Bits(d, rs[1..]);
        }
    }
  }

  lemma RecordParts(r: Record, b: Bytes) returns (m: nat)
    requires IsRecord(r, b)
    ensures m <= |b| && IsVarint(b[..m], r.number * 8 + WireCode(r.payload)) && IsPayload(r.payload, b[m..])
  {
    m :| m <= |b| && IsVarint(b[..m], r.number * 8 + WireCode(r.payload)) && IsPayload(r.payload, b[m..]);
  }

  lemma FitsNumber(d: Desc, r: Record)
    requires RecordFits(d, r)
    ensures 0 < r.number < 0x2000_0000
  {
  }

  lemma FitsField(d: Desc, r: Record, i: nat)
    requires RecordFits(d, r) && ValidDesc(d) && i < |d.fields| && d.fields[i].tag == r.number
    ensures IsFieldKind(d.fields[i], r.payload) && ValidField(d.fields[i])
  {
  }

  lemma {:induction false} MessageRead(d: Desc, slots: seq<Slot>, rs: seq<Record>, b: Bytes)
    requires ValidDesc(d) && |slots| == |d.fields| && AllKinds(d, rs) && IsRecords(rs, b) && |b| < TWO32
    ensures DecodeLoop(d, slots, {}, b) == ReadMessage(d, slots, rs)
    decreases d, 5
  {
    hide DecodeLoop, ReadAll, Bits, AllSeen, Complete, IsRecords, AllKinds, ValidDesc;
    RecordsRead(d, slots, {}, rs, b);
    CompleteIff(d, rs);
    assert {} + Bits(d, rs) == Bits(d, rs);
  }

  /** Main theorem about the decoder. Any byte string of the wire format whose payloads have the shapes
      of their fields decodes to what its records mean, or to nothing where they mean nothing. */
  lemma DecodeReads(d: Desc, rs: seq<Record>, b: Bytes)
    requires ValidDesc(d) && AllKinds(d, rs) && IsRecords(rs, b) && |b| < TWO32
    ensures Decode(d, b) == ReadMessage(d, Defaults(d), rs)
  {
    MessageRead(d, Defaults(d), rs, b);
  }

  // ----- Which record decides a field -----

  /** The record is field `i`'s, or another's of its oneof. */
  ghost predicate Concerns(d: Desc, r: Record, i: nat)
    requires i < |d.fields|
  {
    exists k :: 0 <= k < |d.fields| && d.fields[k].tag == r.number &&
      (k == i || (d.fields[i].htype.Oneof? && d.fields[k].htype == d.fields[i].htype))
  }

  lemma {:induction false} ReadAllSplits(d: Desc, slots: seq<Slot>, a: seq<Record>, b: seq<Record>)
    requires |slots| == |d.fields| && AllKinds(d, a) && AllKinds(d, b) && AllKinds(d, a + b)
    ensures ReadAll(d, slots, a + b) ==
      match ReadAll(d, slots, a) case None => None case Some(cur) => ReadAll(d, cur, b)
    decreases |a|
  {
    hide ReadSlot, Replaced, RecordFits, FindTag;
    if a == [] {
      assert a + b == b;
    } else {
      assert (a + b)[0] == a[0] && (a + b)[1..] == a[1..] + b;
      match FindTag(d, a[0].number, 0)
      case None => ReadAllSplits(d, slots, a[1..], b);
      case Some(i) =>
        assert RecordFits(d, a[0]);
        FitsKind(d, a[0], i);
        var s := ReadSlot(d.fields[i], slots[i], a[0].payload);
        if s.Some? {
          ReadAllSplits(d, Replaced(d, slots, i, s.value), a[1..], b);
        }
    }
  }

  /** Records of other fields leave a field as it is. */
  lemma {:induction false} UnconcernedStays(d: Desc, slots: seq<Slot>, rs: seq<Record>, i: nat)
    requires |slots| == |d.fields| && AllKinds(d, rs) && i < |d.fields| && ReadAll(d, slots, rs).Some?
    requires forall k :: 0 <= k < |rs| ==> !Concerns(d, rs[k], i)
    ensures ReadAll(d, slots, rs).value[i] == slots[i]
    decreases |rs|
  {
    hide ReadSlot, RecordFits, IsFieldKind;
    if rs != [] {
      assert !Concerns(d, rs[0], i);
      match FindTag(d, rs[0].number, 0)
      case None => UnconcernedStays(d, slots, rs[1..], i);
      case Some(k) =>
        assert RecordFits(d, rs[0]);
        FitsKind(d, rs[0], k);
        UnconcernedStays(d, Replaced(d, slots, k, ReadSlot(d.fields[k], slots[k], rs[0].payload).value), rs[1..], i);
    }
  }

  lemma FitsKind(d: Desc, r: Record, i: nat)
    requires RecordFits(d, r) && i < |d.fields| && d.fields[i].tag == r.number
    ensures IsFieldKind(d.fields[i], r.payload)
  {
  }

  lemma BaseIsNoMatter(f: Field, a: Value, b: Value, p: Payload)
    requires IsKind(f, p) && !f.ltype.LSubmessage?
    ensures Read(f, a, p) == Read(f, b, p)
  {
  }

  /** Field `i` was set by a record last. */
  ghost predicate IsSetBy(d: Desc, out: seq<Slot>, r: Record, i: nat)
    requires |out| == |d.fields| && i < |out|
  {
    var f := d.fields[i];
    && out[i].Single? && (!f.ltype.LSubmessage? ==> IsKind(f, r.payload) && Read(f, f.default, r.payload) == Some(out[i].v))
    && forall k :: 0 <= k < |out| && k != i && f.htype.Oneof? && d.fields[k].htype == f.htype ==> out[k] == Absent
  }

  /** The last record of a field that is no array decides it, and the last record of a oneof decides
      which of its members is there. */
  lemma LastRecordDecides(d: Desc, slots: seq<Slot>, a: seq<Record>, r: Record, b: seq<Record>, i: nat)
    requires ValidDesc(d) && |slots| == |d.fields| && AllKinds(d, a) && AllKinds(d, [r]) && AllKinds(d, b) && AllKinds(d, a + [r] + b)
    requires ReadAll(d, slots, a + [r] + b).Some? && i < |d.fields| && d.fields[i].tag == r.number && !d.fields[i].htype.Repeated?
    requires forall k :: 0 <= k < |b| ==> !Concerns(d, b[k], i)
    ensures IsSetBy(d, ReadAll(d, slots, a + [r] + b).value, r, i)
  {
    hide ReadAll, Read, Replaced, AllKinds, ValidField, IsSetBy, Concerns;
    AllKindsConcat(d, a, [r]);
    ReadAllSplits(d, slots, a + [r], b);
    ReadAllSplits(d, slots, a, [r]);
    var before := ReadAll(d, slots, a).value;
    FindUnique(d, i, 0);
    OneRead(d, before, r, i);
    SetStays(d, ReadAll(d, before, [r]).value, r, b, i);
  }

  lemma SetStays(d: Desc, slots: seq<Slot>, r: Record, b: seq<Record>, i: nat)
    requires |slots| == |d.fields| && AllKinds(d, b) && ReadAll(d, slots, b).Some? && i < |d.fields| && IsSetBy(d, slots, r, i)
    requires forall k :: 0 <= k < |b| ==> !Concerns(d, b[k], i)
    ensures IsSetBy(d, ReadAll(d, slots, b).value, r, i)
  {
    hide ReadAll, Read, AllKinds, IsKind;
    UnconcernedStays(d, slots, b, i);
    var f := d.fields[i];
    forall k | 0 <= k < |slots| && k != i && f.htype.Oneof? && d.fields[k].htype == f.htype
      ensures ReadAll(d, slots, b).value[k] == Absent
    {
      forall m | 0 <= m < |b|
        ensures !Concerns(d, b[m], k)
      {
        assert !Concerns(d, b[m], i);
      }
      UnconcernedStays(d, slots, b, k);
    }
  }

  lemma AllKindsConcat(d: Desc, a: seq<Record>, b: seq<Record>)
    requires AllKinds(d, a) && AllKinds(d, b)
    ensures AllKinds(d, a + b)
  {
    hide RecordFits;
  }

  lemma OneRead(d: Desc, slots: seq<Slot>, r: Record, i: nat)
    requires |slots| == |d.fields| && AllKinds(d, [r]) && FindTag(d, r.number, 0) == Some(i)
    requires ReadAll(d, slots, [r]).Some? && !d.fields[i].htype.Repeated?
    ensures IsSetBy(d, ReadAll(d, slots, [r]).value, r, i)
  {
    hide Read;
    assert RecordFits(d, [r][0]);
    var f, s := d.fields[i], slots[i];
    FitsKind(d, r, i);
    var read := ReadSlot(f, s, r.payload);
    assert ReadAll(d, slots, [r]) == ReadAll(d, Replaced(d, slots, i, read.value), [r][1..]);
    if !f.ltype.LSubmessage? {
      BaseIsNoMatter(f, f.default, if s.Single? then s.v else DefaultValue(f), r.payload);
    }
  }

  /** The payload of a record for an array: one item, or packed ones. */
  function ItemsOf(p: Payload): seq<Payload> {
    if p.Packed? then p.items else [p]
  }

  /** The items for an array in the records, packed or not. */
  ghost function ItemsFor(number: nat, rs: seq<Record>): seq<Payload> {
    if rs == [] then []
    else if rs[0].number == number then ItemsOf(rs[0].payload) + ItemsFor(number, rs[1..])
    else ItemsFor(number, rs[1..])
  }

  lemma AreKindsConcat(f: Field, a: seq<Payload>, b: seq<Payload>)
    requires AreKinds(f, a) && AreKinds(f, b)
    ensures AreKinds(f, a + b)
  {
    hide IsKind;
  }

  lemma {:induction false} ReadItemsSplits(f: Field, vs: seq<Value>, a: seq<Payload>, b: seq<Payload>)
    requires AreKinds(f, a) && AreKinds(f, b)
    ensures AreKinds(f, a + b)
    ensures ReadItems(f, vs, a + b) == match ReadItems(f, vs, a) case None => None case Some(ws) => ReadItems(f, ws, b)
    decreases |a|
  {
    hide Read, IsKind;
    AreKindsConcat(f, a, b);
    if a == [] {
      assert a + b == b;
    } else {
      assert (a + b)[0] == a[0] && (a + b)[1..] == a[1..] + b;
      if |vs| < f.arraySize && Read(f, f.default, a[0]).Some? {
        ReadItemsSplits(f, vs + [Read(f, f.default, a[0]).value], a[1..], b);
      }
    }
  }

  /** An array holds the items of all its records one after the other. */
  lemma {:induction false} ArrayCollects(d: Desc, slots: seq<Slot>, rs: seq<Record>, i: nat)
    requires ValidDesc(d) && |slots| == |d.fields| && AllKinds(d, rs) && ReadAll(d, slots, rs).Some?
    requires i < |d.fields| && d.fields[i].htype.Repeated? && slots[i].Many?
    ensures var f, ps, out := d.fields[i], ItemsFor(d.fields[i].tag, rs), ReadAll(d, slots, rs).value[i];
      AreKinds(f, ps) && out.Many? && ReadItems(f, slots[i].vs, ps) == Some(out.vs)
    decreases |rs|
  {
    hide ReadItems, IsKind, RecordFits, ValidField, FindTag, ReadSlot, AreKinds, Replaced;
    var f := d.fields[i];
    if rs == [] {
      NoItems(f, slots[i].vs);
    } else {
      assert RecordFits(d, rs[0]);
      FindUnique(d, i, 0);
      match FindTag(d, rs[0].number, 0)
      case None => ArrayCollects(d, slots, rs[1..], i);
      case Some(k) =>
        FitsKind(d, rs[0], k);
        var s := ReadSlot(d.fields[k], slots[k], rs[0].payload).value;
        var next := Replaced(d, slots, k, s);
        ReplacedArray(d, slots, k, s, i);
        if k == i {
          ArrayTakes(f, slots[i].vs, rs[0].payload);
          ArrayCollects(d, next, rs[1..], i);
          ReadItemsSplits(f, slots[i].vs, ItemsOf(rs[0].payload), ItemsFor(f.tag, rs[1..]));
        } else {
          ArrayCollects(d, next, rs[1..], i);
        }
    }
  }

  lemma NoItems(f: Field, vs: seq<Value>)
    ensures AreKinds(f, []) && ReadItems(f, vs, []) == Some(vs)
  {
  }

  lemma ReplacedArray(d: Desc, slots: seq<Slot>, k: nat, s: Slot, i: nat)
    requires |slots| == |d.fields| && k < |slots| && i < |slots| && d.fields[i].htype.Repeated?
    ensures Replaced(d, slots, k, s)[i] == if k == i then s else slots[i]
  {
  }

  lemma ArrayTakes(f: Field, vs: seq<Value>, p: Payload)
    requires f.htype.Repeated? && IsFieldKind(f, p) && ReadSlot(f, Many(vs), p).Some?
    ensures AreKinds(f, ItemsOf(p)) && ReadSlot(f, Many(vs), p).value.Many?
    ensures ReadItems(f, vs, ItemsOf(p)) == Some(ReadSlot(f, Many(vs), p).value.vs)
  {
    hide ReadItems;
  }
}
