/** Write batches as byte strings (db/write_batch.cc). */
module WriteBatches {
  import opened DbFormat
  import opened Options
  import opened Coding

  datatype Op = Put(key: Bytes, value: Bytes) | Delete(key: Bytes)

  /** A memtable entry, under its byte-string user key. */
  datatype MemEntry = MemEntry(key: Bytes, sn: nat, kind: ValueType, value: Bytes)

  const HEADER_SIZE: nat := 12

  predicate FitsOp(op: Op) {
    |op.key| < TWO32 && (op.Put? ==> |op.value| < TWO32)
  }

  function EncodeOp(op: Op): Bytes {
    match op
    case Put(key, value) => [1] + PutSlice(key) + PutSlice(value)
    case Delete(key) => [0] + PutSlice(key)
  }

  function EncodeOps(ops: seq<Op>): Bytes {
    if ops == [] then [] else EncodeOps(ops[..|ops| - 1]) + EncodeOp(ops[|ops| - 1])
  }

  /** The representation of a batch: sequence number, count, records. */
  function EncodeBatch(sn: nat, ops: seq<Op>): Bytes {
    EncodeFixed(sn, 8) + EncodeFixed(|ops|, 4) + EncodeOps(ops)
  }

  datatype Status = Okay | Corruption

  /** One record off the front of the input. */
  function DecodeOp(input: Bytes): Option<(Op, Bytes)>
    requires input != []
  {
    var rest := input[1..];
    if input[0] == 1 then
      match GetSlice(rest)
      case None => None
      case Some((key, rest1)) =>
        (match GetSlice(rest1)
         case None => None
         case Some((value, rest2)) => Some((Put(key, value), rest2)))
    else if input[0] == 0 then
      match GetSlice(rest)
      case None => None
      case Some((key, rest1)) => Some((Delete(key), rest1))
    else None
  }

  lemma {:induction false} VarintShrinks(b: Bytes, shift: nat)
    requires shift <= 35 && shift % 7 == 0
    ensures GetVarint(b, shift).Some? ==> |GetVarint(b, shift).value.1| < |b|
    decreases 35 - shift
  {
    if shift <= 28 && b != [] && b[0] >= 128 {
      VarintShrinks(b[1..], shift + 7);
    }
  }

  lemma DecodeOpShrinks(input: Bytes)
    requires input != []
    ensures DecodeOp(input).Some? ==> |DecodeOp(input).value.1| < |input|
  {
    hide GetVarint;
    var rest := input[1..];
    VarintShrinks(rest, 0);
    if GetSlice(rest).Some? {
      VarintShrinks(GetSlice(rest).value.1, 0);
    }
  }

  /** The records that parse, and whether the whole input did. */
  function DecodeOps(input: Bytes): (seq<Op>, bool)
    decreases |input|
  {
    if input == [] then ([], true)
    else
      match DecodeOp(input)
      case None => ([], false)
      case Some((op, rest)) =>
        DecodeOpShrinks(input);
        var (ops, ok) := DecodeOps(rest);
        ([op] + ops, ok)
  }

  lemma DecodeEncodedOp(op: Op, rest: Bytes)
    requires FitsOp(op)
    ensures EncodeOp(op) + rest != [] && DecodeOp(EncodeOp(op) + rest) == Some((op, rest))
  {
    hide GetSlice, PutSlice;
    var input := EncodeOp(op) + rest;
    match op
    case Put(key, value) =>
      assert input[1..] == PutSlice(key) + (PutSlice(value) + rest);
      SliceRoundTrip(key, PutSlice(value) + rest);
      SliceRoundTrip(value, rest);
    case Delete(key) =>
      assert input[1..] == PutSlice(key) + rest;
      SliceRoundTrip(key, rest);
  }

  lemma {:induction false} EncodeOpsCons(op: Op, ops: seq<Op>)
    ensures EncodeOps([op] + ops) == EncodeOp(op) + EncodeOps(ops)
    decreases |ops|
  {
    hide EncodeOp;
    var all := [op] + ops;
    if ops == [] {
      assert all[..0] == [] && EncodeOps([]) == [];
      assert all == [op];
    } else {
      var n := |ops| - 1;
      assert all[..|all| - 1] == [op] + ops[..n];
      EncodeOpsCons(op, ops[..n]);
      assert EncodeOps(all) == (EncodeOp(op) + EncodeOps(ops[..n])) + EncodeOp(ops[n]);
    }
  }

  /** Decoding undoes encoding. */
  lemma {:induction false} DecodeEncodedOps(ops: seq<Op>)
    requires forall op :: op in ops ==> FitsOp(op)
    ensures DecodeOps(EncodeOps(ops)) == (ops, true)
    decreases |ops|
  {
    hide EncodeOp, DecodeOp;
    if ops != [] {
      EncodeOpsCons(ops[0], ops[1..]);
      assert ops == [ops[0]] + ops[1..];
      DecodeEncodedOp(ops[0], EncodeOps(ops[1..]));
      DecodeEncodedOps(ops[1..]);
    }
  }

  lemma {:induction false} EncodeOpsAppend(a: seq<Op>, b: seq<Op>)
    ensures EncodeOps(a + b) == EncodeOps(a) + EncodeOps(b)
    decreases |b|
  {
    hide EncodeOp;
    if b == [] {
      assert a + b == a;
    } else {
      var n := |b| - 1;
      assert (a + b)[..|a + b| - 1] == a + b[..n] && (a + b)[|a + b| - 1] == b[n];
      EncodeOpsAppend(a, b[..n]);
      assert EncodeOps(a + b) == (EncodeOps(a) + EncodeOps(b[..n])) + EncodeOp(b[n]);
    }
  }

  function Entries(sn: nat, ops: seq<Op>): (es: seq<MemEntry>)
    ensures |es| == |ops|
  {
    if ops == [] then [] else
    var op := ops[|ops| - 1];
    Entries(sn, ops[..|ops| - 1]) + [match op
      case Put(key, value) => MemEntry(key, sn + |ops| - 1, Value, value)
      case Delete(key) => MemEntry(key, sn + |ops| - 1, Deletion, [])]
  }

  class WriteBatch {
    var rep: Bytes
    ghost var sn: nat
    ghost var ops: seq<Op>

    /** The bytes represent the operations the callers made, in order. */
    ghost predicate Valid()
      reads this
    {
      rep == EncodeBatch(sn, ops) && |ops| < TWO32 && forall op :: op in ops ==> FitsOp(op)
    }

    constructor ()
      ensures Valid() && ops == [] && sn == 0
    {
      rep := seq(HEADER_SIZE, _ => 0);
      sn, ops := 0, [];
      new;
      ZeroHeader();
    }

    function Count(): nat
      requires |rep| >= HEADER_SIZE
      reads this
    {
      DecodeFixed(rep[8..12])
    }

    method SetCount(n: nat)
      requires |rep| >= HEADER_SIZE
      modifies this`rep
      ensures rep == old(rep)[..8] + EncodeFixed(n, 4) + old(rep)[12..]
    {
      rep := rep[..8] + EncodeFixed(n, 4) + rep[12..];
    }

    method SetSequence(s: nat)
      requires Valid()
      modifies this
      ensures Valid() && sn == s && ops == old(ops)
    {
      hide EncodeFixed, EncodeOps;
      BatchParts(sn, ops);
      rep := EncodeFixed(s, 8) + rep[8..];
      sn := s;
      assert rep == EncodeFixed(s, 8) + (EncodeFixed(|ops|, 4) + EncodeOps(ops));
    }

    method Put(key: Bytes, value: Bytes)
      requires Valid() && |key| < TWO32 && |value| < TWO32 && |ops| + 1 < TWO32
      modifies this
      ensures Valid() && sn == old(sn) && ops == old(ops) + [Op.Put(key, value)]
    {
      hide EncodeFixed, EncodeOps, PutSlice;
      BatchParts(sn, ops);
      SetCount(Count() + 1);
      ghost var head := rep;
      rep := rep + [1];
      rep := rep + PutSlice(key);
      rep := rep + PutSlice(value);
      Regroup(head, [1], PutSlice(key));
      Regroup(head, [1] + PutSlice(key), PutSlice(value));
      EncodeOne(Op.Put(key, value));
      Grown(old(rep), head, rep, sn, ops, [Op.Put(key, value)]);
      ops := ops + [Op.Put(key, value)];
    }

    method Delete(key: Bytes)
      requires Valid() && |key| < TWO32 && |ops| + 1 < TWO32
      modifies this
      ensures Valid() && sn == old(sn) && ops == old(ops) + [Op.Delete(key)]
    {
      hide EncodeFixed, EncodeOps, PutSlice;
      BatchParts(sn, ops);
      SetCount(Count() + 1);
      ghost var head := rep;
      rep := rep + [0];
      rep := rep + PutSlice(key);
      Regroup(head, [0], PutSlice(key));
      EncodeOne(Op.Delete(key));
      Grown(old(rep), head, rep, sn, ops, [Op.Delete(key)]);
      ops := ops + [Op.Delete(key)];
    }

    method Append(src: WriteBatch)
      requires src != this && Valid() && src.Valid() && |ops| + |src.ops| < TWO32
      modifies this
      ensures Valid() && sn == old(sn) && ops == old(ops) + src.ops
    {
      hide EncodeFixed, EncodeOps;
      BatchParts(sn, ops);
      BatchParts(src.sn, src.ops);
      SetCount(Count() + src.Count());
      ghost var head := rep;
      rep := rep + src.rep[HEADER_SIZE..];
      Grown(old(rep), head, rep, sn, ops, src.ops);
      ops := ops + src.ops;
    }
  }

  lemma EncodeOne(op: Op)
    ensures EncodeOps([op]) == EncodeOp(op)
  {
    hide EncodeOp;
    assert [op][..0] == [] && EncodeOps([]) == [];
  }

  /** A raised count and more records behind the old ones make a longer batch. */
  lemma Grown(was: Bytes, head: Bytes, rep: Bytes, sn: nat, ops: seq<Op>, more: seq<Op>)
    requires |ops| < TWO32 && was == EncodeBatch(sn, ops)
    requires |was| >= 12 && head == was[..8] + EncodeFixed(|ops| + |more|, 4) + was[12..]
    requires rep == head + EncodeOps(more)
    ensures rep == EncodeBatch(sn, ops + more)
  {
    hide EncodeFixed, EncodeOps, EncodeBatch;
    BatchParts(sn, ops);
    EncodeOpsAppend(ops, more);
    BatchIs(sn, ops + more);
    Regroup(EncodeFixed(sn, 8) + EncodeFixed(|ops| + |more|, 4), EncodeOps(ops), EncodeOps(more));
  }

  lemma BatchIs(sn: nat, ops: seq<Op>)
    ensures EncodeBatch(sn, ops) == EncodeFixed(sn, 8) + EncodeFixed(|ops|, 4) + EncodeOps(ops)
  {
  }

  lemma Regroup(a: Bytes, b: Bytes, c: Bytes)
    ensures (a + b) + c == a + (b + c)
  {
  }

  lemma ZeroHeader()
    ensures EncodeBatch(0, []) == seq(HEADER_SIZE, _ => 0)
  {
    assert EncodeFixed(0, 8) == [0, 0, 0, 0, 0, 0, 0, 0] by {
      assert EncodeFixed(0, 4) == [0, 0, 0, 0];
    }
    assert EncodeFixed(0, 4) == [0, 0, 0, 0];
  }

  /** Reading the header back, and the records behind it. */
  lemma BatchParts(sn: nat, ops: seq<Op>)
    requires |ops| < TWO32
    ensures var rep := EncodeBatch(sn, ops);
      && |rep| >= HEADER_SIZE && rep[..8] == EncodeFixed(sn, 8) && DecodeFixed(rep[8..12]) == |ops|
      && rep[8..12] == EncodeFixed(|ops|, 4) && rep[12..] == EncodeOps(ops)
  {
    var rep := EncodeBatch(sn, ops);
    assert Pow256(4) == TWO32;
    FixedRoundTrip(|ops|, 4);
    assert rep[8..12] == EncodeFixed(|ops|, 4);
  }
}
