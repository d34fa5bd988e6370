/** The byte formats of the store's files, stated with their numbers (db/dbformat.h,
    db/write_batch.cc, db/log_format.h and doc/log_format.md of LevelDB). */
module StoreFormats {
  import opened DbFormat
  import opened Coding
  import opened InternalKeys
  import opened Log
  import opened Options
  import opened Recovery
  import opened WriteBatches

  // ----- Internal keys -----

  /** The user key, a byte for the type, seven bytes for the sequence number. */
  lemma InternalKeyBytes(k: ParsedInternalKey)
    requires k.sn <= MAX_SEQUENCE
    ensures var b, n := AppendInternalKey(k), |k.userKey|;
      && |b| == n + 8 && b[..n] == k.userKey && b[n] == (if k.kind == Value then 1 else 0) && WordValue(b[n + 1..]) == k.sn
  {
    var tag := EncodeFixed(Pack(k.sn, k.kind), 8);
    assert Pow256(4) == 0x1_0000_0000 && Pow256(8) == 0x1_0000_0000_0000_0000;
    WordWritten(Pack(k.sn, k.kind), 8);
    var b, n := AppendInternalKey(k), |k.userKey|;
    assert b[n + 1..] == tag[1..];
    LowByte(k.sn, k.kind, tag[0], WordValue(tag[1..]));
  }

  lemma LowByte(sn: nat, kind: ValueType, b: Byte, w: nat)
    requires b + 256 * w == Pack(sn, kind)
    ensures b == (if kind == Value then 1 else 0) && w == sn
  {
  }

  // ----- Batches -----

  /** A varint with the length in 32 bits, then the bytes. */
  ghost predicate IsSlice(x: Bytes, b: Bytes) {
    exists n: nat :: ShortVarint(b, n, |x|) && b[n..] == x
  }

  ghost predicate IsOp(op: Op, b: Bytes) {
    match op
    case Put(key, value) => b != [] && b[0] == 1 && exists n: nat :: 1 <= n <= |b| && IsSlice(key, b[1..n]) && IsSlice(value, b[n..])
    case Delete(key) => b != [] && b[0] == 0 && IsSlice(key, b[1..])
  }

  ghost predicate IsOps(ops: seq<Op>, b: Bytes)
    decreases |ops|
  {
    if ops == [] then b == [] else exists n: nat :: n <= |b| && IsOp(ops[0], b[..n]) && IsOps(ops[1..], b[n..])
  }

  lemma SliceWritten(x: Bytes)
    requires |x| < TWO32
    ensures IsSlice(x, PutSlice(x))
  {
    hide PutVarint, VarintShape, VarintValue;
    assert Pow128(4) == 0x1000_0000 by {
      assert Pow128(2) == 0x4000;
    }
    VarintWritten(|x|, 5);
    var b, n := PutSlice(x), |PutVarint(|x|)|;
    assert b[..n] == PutVarint(|x|) && b[n..] == x;
    assert ShortVarint(b, n, |x|);
  }

  lemma OpWritten(op: Op)
    requires FitsOp(op)
    ensures IsOp(op, EncodeOp(op))
  {
    hide PutSlice, IsSlice;
    SliceWritten(op.key);
    var b := EncodeOp(op);
    if op.Put? {
      SliceWritten(op.value);
      var n := 1 + |PutSlice(op.key)|;
      assert b[1..n] == PutSlice(op.key) && b[n..] == PutSlice(op.value);
    } else {
      assert b[1..] == PutSlice(op.key);
    }
  }

  lemma {:induction false} OpsWritten(ops: seq<Op>)
    requires forall op :: op in ops ==> FitsOp(op)
    ensures IsOps(ops, EncodeOps(ops))
    decreases |ops|
  {
    hide EncodeOp, IsOp;
    if ops != [] {
      OpWritten(ops[0]);
      OpsWritten(ops[1..]);
      EncodeOpsCons(ops[0], ops[1..]);
      assert ops == [ops[0]] + ops[1..];
      var b, n := EncodeOps(ops), |EncodeOp(ops[0])|;
      assert b[..n] == EncodeOp(ops[0]) && b[n..] == EncodeOps(ops[1..]);
    }
  }

  /** Eight bytes for the sequence number, four for the count, then the records. */
  lemma BatchBytes(sn: nat, ops: seq<Op>)
    requires sn < 0x1_0000_0000_0000_0000 && |ops| < 0x1_0000_0000 && forall op :: op in ops ==> FitsOp(op)
    ensures var b := EncodeBatch(sn, ops);
      |b| >= 12 && WordValue(b[..8]) == sn && WordValue(b[8..12]) == |ops| && IsOps(ops, b[12..])
  {
    hide EncodeOps, IsOps, EncodeFixed, WordValue;
    assert Pow256(4) == 0x1_0000_0000 && Pow256(8) == 0x1_0000_0000_0000_0000;
    WordWritten(sn, 8);
    WordWritten(|ops|, 4);
    OpsWritten(ops);
    var b := EncodeBatch(sn, ops);
    assert b[..8] == EncodeFixed(sn, 8) && b[8..12] == EncodeFixed(|ops|, 4) && b[12..] == EncodeOps(ops);
  }

  // ----- Reading batches -----

  lemma SliceReads(b: Bytes, m: nat, x: Bytes)
    requires m <= |b| && IsSlice(x, b[..m])
    ensures GetSlice(b) == Some((x, b[m..]))
  {
    hide VarintShape, VarintValue, GetVarint32;
    var n: nat :| ShortVarint(b[..m], n, |x|) && b[..m][n..] == x;
    assert b[..m][..n] == b[..n];
    assert ShortVarint(b, n, |x|);
    GetVarintIff(b, |x|, b[n..]);
    assert b[n..][..|x|] == x && b[n..][|x|..] == b[m..];
  }

  lemma ReadIsSlice(b: Bytes) returns (m: nat)
    requires GetSlice(b).Some?
    ensures 1 <= m <= |b| && IsSlice(GetSlice(b).value.0, b[..m])
  {
    hide VarintShape, VarintValue, GetVarint32;
    var len, rest := GetVarint32(b).value.0, GetVarint32(b).value.1;
    GetVarintIff(b, len, rest);
    var n: nat :| ShortVarint(b, n, len) && rest == b[n..];
    m := n + len;
    assert b[..m][..n] == b[..n] && b[..m][n..] == rest[..len];
    assert ShortVarint(b[..m], n, len);
  }

  lemma OpReads(b: Bytes, m: nat, op: Op)
    requires m <= |b| && IsOp(op, b[..m])
    ensures b != [] && DecodeOp(b) == Some((op, b[m..]))
  {
    hide IsSlice, GetSlice;
    var c := b[..m];
    match op
    case Put(key, value) =>
      var n: nat :| 1 <= n <= |c| && IsSlice(key, c[1..n]) && IsSlice(value, c[n..]);
      assert c[1..n] == b[1..][..n - 1] && c[n..] == b[1..][n - 1..][..m - n];
      SliceReads(b[1..], n - 1, key);
      SliceReads(b[1..][n - 1..], m - n, value);
      assert b[1..][n - 1..][m - n..] == b[m..];
    case Delete(key) =>
      assert c[1..] == b[1..][..m - 1];
      SliceReads(b[1..], m - 1, key);
      assert b[1..][m - 1..] == b[m..];
  }

  lemma ReadIsOp(b: Bytes) returns (m: nat)
    requires b != [] && DecodeOp(b).Some?
    ensures 1 <= m <= |b| && IsOp(DecodeOp(b).value.0, b[..m])
  {
    hide IsSlice, GetSlice;
    var rest := b[1..];
    var k := ReadIsSlice(rest);
    SliceReads(rest, k, GetSlice(rest).value.0);
    if b[0] == 1 {
      var l := ReadIsSlice(rest[k..]);
      SliceReads(rest[k..], l, GetSlice(rest[k..]).value.0);
      m := 1 + k + l;
      assert b[..m][1..1 + k] == rest[..k] && b[..m][1 + k..] == rest[k..][..l];
    } else {
      m := 1 + k;
      assert b[..m][1..] == rest[..k];
    }
  }

  /** Exactly the sequences of records are read as a whole. */
  lemma {:induction false} OpsReadIff(b: Bytes, ops: seq<Op>)
    ensures DecodeOps(b) == (ops, true) <==> IsOps(ops, b)
    decreases |b|
  {
    hide IsOp, DecodeOp;
    if b == [] {
      NoOpInNothing(ops);
    } else {
      if ops != [] && IsOps(ops, b) {
        var n: nat :| n <= |b| && IsOp(ops[0], b[..n]) && IsOps(ops[1..], b[n..]);
        OpHasBytes(ops[0], b[..n]);
        OpReads(b, n, ops[0]);
        OpsReadIff(b[n..], ops[1..]);
        assert ops == [ops[0]] + ops[1..];
      }
      if DecodeOps(b) == (ops, true) {
        var m := ReadIsOp(b);
        OpReads(b, m, DecodeOp(b).value.0);
        OpsReadIff(b[m..], ops[1..]);
      }
    }
  }

  lemma OpHasBytes(op: Op, b: Bytes)
    requires IsOp(op, b)
    ensures b != []
  {
  }

  lemma NoOpInNothing(ops: seq<Op>)
    ensures IsOps(ops, []) <==> ops == []
  {
  }

  /** Main theorem about reading batches: recovery accepts exactly the batches of the format whose count
      is that of their records and a signed 32-bit number, and inserts these with consecutive numbers from the batch's on. */
  lemma BatchReadIff(b: Bytes)
    requires |b| >= 12
    ensures Inserted(b).1 == Okay <==> exists ops :: IsOps(ops, b[12..]) && |ops| == WordValue(b[8..12]) < 0x8000_0000
    ensures forall ops :: IsOps(ops, b[12..]) ==> Inserted(b).0 == Entries(WordValue(b[..8]), ops)
  {
    hide IsOps, DecodeOps, WordValue, Entries;
    WordDecodes(b[..8]);
    WordDecodes(b[8..12]);
    var (found, ok) := DecodeOps(b[12..]);
    OpsReadIff(b[12..], found);
    forall ops | IsOps(ops, b[12..])
      ensures ops == found && ok
    {
      OpsReadIff(b[12..], ops);
    }
    assert Inserted(b) == (Entries(WordValue(b[..8]), found), if ok && |found| == WordValue(b[8..12]) < 0x8000_0000 then Okay else Corruption);
    assert ok ==> IsOps(found, b[12..]);
  }

  // ----- The log -----

  /** A fragment in a file: four bytes with the masked checksum of what follows from the type on, two
      with the length, one with the type, then the data. */
  lemma FragmentBytes(crc: Crc, f: Bytes, ph: Phys)
    requires Holds(crc, f, ph)
    ensures var at, n := ph.at, |ph.payload|;
      && at + 7 + n <= |f| && at % 32768 + 7 + n <= 32768
      && (var c := crc(f[at + 6..at + 7 + n]);
          WordValue(f[at..at + 4]) == (c / 32768 + c % 32768 * 131072 + 0xa282ead8) % 0x1_0000_0000)
      && f[at + 4] as int + 256 * f[at + 5] as int == n && f[at + 6] == ph.kind && f[at + 7..at + 7 + n] == ph.payload
  {
    hide EncodeFixed, WordValue;
    var image, at, n := Image(crc, ph.kind, ph.payload), ph.at, |ph.payload|;
    var sum := crc([ph.kind] + ph.payload);
    assert Pow256(4) == TWO32;
    WordWritten(Mask(sum), 4);
    assert image[..4] == EncodeFixed(Mask(sum), 4);
    var g := f[at..at + 7 + n];
    assert g == image;
    assert f[at..at + 4] == g[..4] && f[at + 6..at + 7 + n] == g[6..] && f[at + 7..at + 7 + n] == g[7..];
    assert g[4] == f[at + 4] && g[5] == f[at + 5] && g[6] == f[at + 6];
    assert image[6..] == [ph.kind] + ph.payload && image[7..] == ph.payload;
  }

  /** Every fragment but the last ends with its block, where the next one begins. */
  ghost predicate FillsBlocks(ps: seq<Phys>) {
    forall i :: 0 <= i < |ps| - 1 ==> ps[i].End() % 32768 == 0 && ps[i + 1].at == ps[i].End()
  }

  lemma FragmentFills(p: nat, data: Bytes, begin: bool)
    requires FragmentOf(p, data, begin).1 != []
    ensures FragmentOf(p, data, begin).0.End() % 32768 == 0 && Skip(FragmentOf(p, data, begin).0.End()) == FragmentOf(p, data, begin).0.End()
  {
  }

  lemma {:induction false} PlaceFills(p: nat, data: Bytes, begin: bool)
    ensures FillsBlocks(Place(p, data, begin)) && Place(p, data, begin)[0].at == Skip(p)
    decreases |data|, Stage(p)
  {
    hide FragmentOf, Skip;
    PlaceUnfold(p, data, begin);
    var (ph, rest) := FragmentOf(p, data, begin);
    var ps := Place(p, data, begin);
    if rest != [] {
      FragmentFills(p, data, begin);
      PlaceFills(ph.End(), rest, false);
      assert forall i :: 1 <= i < |ps| ==> ps[i] == ps[1..][i - 1];
    } else {
      assert |ps[1..]| == 0;
    }
  }

  /** The byte where the type of the i-th of `n` fragments stands. */
  predicate TypeAt(f: Bytes, at: nat, i: nat, n: nat) {
    at + 7 <= |f| && f[at + 6] == if n == 1 then 1 else if i == 0 then 2 else if i == n - 1 then 4 else 3
  }

  /** Main theorem about the log's format. A record begins where the file ends, or in the next block
      when less than seven bytes are left in this one; its fragments fill blocks; their types are 1 for
      a whole record and 2, 3 and 4 for its first, middle and last parts; their data are the record. */
  lemma RecordBytes(crc: Crc, f: Bytes, p: nat, data: Bytes)
    requires AllHold(crc, f, Place(p, data, true))
    ensures var ps := Place(p, data, true);
      && ps != [] && FillsBlocks(ps) && Payloads(ps) == data
      && ps[0].at == (if p % 32768 > 32761 then (p / 32768 + 1) * 32768 else p)
      && forall i :: 0 <= i < |ps| ==> TypeAt(f, ps[i].at, i, |ps|)
  {
    hide Place, Payloads, FillsBlocks;
    var ps := Place(p, data, true);
    PlaceIsRecord(p, data, true);
    PlaceFills(p, data, true);
    forall i | 0 <= i < |ps|
      ensures TypeAt(f, ps[i].at, i, |ps|)
    {
      FragmentBytes(crc, f, ps[i]);
    }
  }
}
