/** Fixed-width and variable-width integers in byte strings (util/coding.cc), and the masking
    of stored checksums (util/crc32c.h). */
module Coding {
  import opened DbFormat
  import opened Options

  function Min(a: nat, b: nat): nat {
    if a < b then a else b
  }

  function Pow256(n: nat): nat {
    if n == 0 then 1 else 256 * Pow256(n - 1)
  }

  /** EncodeFixed32 and EncodeFixed64: little-endian, `n` bytes. */
  function EncodeFixed(v: nat, n: nat): (b: Bytes)
    ensures |b| == n
  {
    if n == 0 then [] else [v % 256] + EncodeFixed(v / 256, n - 1)
  }

  function DecodeFixed(b: Bytes): (v: nat)
    ensures v < Pow256(|b|)
  {
    if b == [] then 0 else b[0] + 256 * DecodeFixed(b[1..])
  }

  lemma {:induction false} FixedRoundTrip(v: nat, n: nat)
    requires v < Pow256(n)
    ensures DecodeFixed(EncodeFixed(v, n)) == v
  {
    if n > 0 {
      assert v == 256 * (v / 256) + v % 256;
      FixedRoundTrip(v / 256, n - 1);
      assert EncodeFixed(v, n)[1..] == EncodeFixed(v / 256, n - 1);
    }
  }

  const TWO32: nat := 0x1_0000_0000
  const MASK_DELTA: nat := 0xa282ead8

  /** Rotate right by 15 bits and add a constant, in 32 bits. */
  function Mask(crc: nat): (r: nat)
    requires crc < TWO32
    ensures r < TWO32
  {
    (crc / 0x8000 + crc % 0x8000 * 0x2_0000 + MASK_DELTA) % TWO32
  }

  function Unmask(masked: nat): (r: nat)
    requires masked < TWO32
    ensures r < TWO32
  {
    var rot := (masked + TWO32 - MASK_DELTA) % TWO32;
    rot / 0x2_0000 + rot % 0x2_0000 * 0x8000
  }

  lemma UnmaskMask(crc: nat)
    requires crc < TWO32
    ensures Unmask(Mask(crc)) == crc
  {
    var hi, lo := crc / 0x8000, crc % 0x8000;
    var rot := hi + lo * 0x2_0000;
    assert crc == hi * 0x8000 + lo && hi < 0x2_0000;
    if rot + MASK_DELTA < TWO32 {
      assert Mask(crc) == rot + MASK_DELTA;
    } else {
      assert Mask(crc) == rot + MASK_DELTA - TWO32;
    }
    UnmaskOf(Mask(crc), rot, hi, lo);
  }

  lemma UnmaskOf(masked: nat, rot: nat, hi: nat, lo: nat)
    requires masked < TWO32 && rot == hi + lo * 0x2_0000 < TWO32 && hi < 0x2_0000
    requires masked == rot + MASK_DELTA || masked == rot + MASK_DELTA - TWO32
    ensures Unmask(masked) == lo + hi * 0x8000
  {
    assert (masked + TWO32 - MASK_DELTA) % TWO32 == rot;
    assert rot / 0x2_0000 == lo && rot % 0x2_0000 == hi;
  }

  lemma MaskUnmask(masked: nat)
    requires masked < TWO32
    ensures Mask(Unmask(masked)) == masked
  {
    var rot := (masked + TWO32 - MASK_DELTA) % TWO32;
    var lo, hi := rot / 0x2_0000, rot % 0x2_0000;
    assert rot == lo * 0x2_0000 + hi && lo < 0x8000 && hi < 0x2_0000;
    MaskOf(lo + hi * 0x8000, lo, hi);
    RotateBack(masked, rot);
  }

  lemma MaskOf(crc: nat, lo: nat, hi: nat)
    requires lo < 0x8000 && hi < 0x2_0000 && crc == lo + hi * 0x8000 < TWO32
    ensures Mask(crc) == (hi + lo * 0x2_0000 + MASK_DELTA) % TWO32
  {
    assert crc / 0x8000 == hi && crc % 0x8000 == lo;
  }

  lemma RotateBack(masked: nat, rot: nat)
    requires masked < TWO32 && rot == (masked + TWO32 - MASK_DELTA) % TWO32
    ensures (rot + MASK_DELTA) % TWO32 == masked
  {
  }

  // ----- Varints -----

  /** EncodeVarint32: seven bits a byte, low first, the high bit marking continuation. */
  function PutVarint(v: nat): (b: Bytes)
    ensures 1 <= |b|
  {
    if v < 128 then [v] else [v % 128 + 128] + PutVarint(v / 128)
  }

  /** GetVarint32: at most five bytes; the value read and the rest of the input. */
  function GetVarint(b: Bytes, shift: nat): Option<(nat, Bytes)>
    requires shift <= 35 && shift % 7 == 0
    decreases 35 - shift
  {
    if shift > 28 || b == [] then None
    else if b[0] < 128 then Some((b[0], b[1..]))
    else
      match GetVarint(b[1..], shift + 7)
      case None => None
      case Some((v, rest)) => Some((b[0] - 128 + 128 * v, rest))
  }

  function Pow128(n: nat): nat {
    if n == 0 then 1 else 128 * Pow128(n - 1)
  }

  lemma Pow128Step(v: nat, n: nat)
    requires 128 <= v < Pow128(n)
    ensures n >= 2 && v / 128 < Pow128(n - 1)
    ensures v == 128 * (v / 128) + v % 128
  {
    assert Pow128(1) == 128;
  }

  lemma {:induction false} VarintRoundTripFrom(v: nat, rest: Bytes, shift: nat)
    requires shift <= 28 && shift % 7 == 0 && v < Pow128((35 - shift) / 7)
    ensures GetVarint(PutVarint(v) + rest, shift) == Some((v, rest))
    decreases v
  {
    hide Pow128;
    if v < 128 {
      assert (PutVarint(v) + rest)[1..] == rest;
    } else {
      Pow128Step(v, (35 - shift) / 7);
      VarintRoundTripFrom(v / 128, rest, shift + 7);
      assert (PutVarint(v) + rest)[1..] == PutVarint(v / 128) + rest;
    }
  }

  /** The result is a 32-bit word: what a fifth byte has above it is lost. */
  function GetVarint32(b: Bytes): Option<(nat, Bytes)> {
    match GetVarint(b, 0)
    case None => None
    case Some((v, rest)) => Some((v % TWO32, rest))
  }

  lemma VarintRoundTrip(v: nat, rest: Bytes)
    requires v < TWO32
    ensures GetVarint32(PutVarint(v) + rest) == Some((v, rest))
  {
    hide PutVarint, GetVarint;
    assert Pow128(2) == 0x4000 && Pow128(3) == 0x20_0000 && Pow128(4) == 0x1000_0000;
    assert Pow128(5) > TWO32;
    VarintRoundTripFrom(v, rest, 0);
  }

  /** PutLengthPrefixedSlice */
  function PutSlice(s: Bytes): Bytes {
    PutVarint(|s|) + s
  }

  /** GetLengthPrefixedSlice: the slice and the rest of the input. */
  function GetSlice(b: Bytes): Option<(Bytes, Bytes)> {
    match GetVarint32(b)
    case None => None
    case Some((n, rest)) => if n <= |rest| then Some((rest[..n], rest[n..])) else None
  }

  lemma SliceRoundTrip(s: Bytes, rest: Bytes)
    requires |s| < TWO32
    ensures GetSlice(PutSlice(s) + rest) == Some((s, rest))
  {
    assert PutSlice(s) + rest == PutVarint(|s|) + (s + rest);
    VarintRoundTrip(|s|, s + rest);
    assert (s + rest)[..|s|] == s && (s + rest)[|s|..] == rest;
  }

  // ----- What the bytes are -----

  /** Byte k weighs 256 to the k-th. */
  function WordValue(b: Bytes): nat {
    if b == [] then 0 else b[0] + 256 * WordValue(b[1..])
  }

  lemma {:induction false} WordDecodes(b: Bytes)
    ensures WordValue(b) == DecodeFixed(b)
  {
    if b != [] {
      WordDecodes(b[1..]);
    }
  }

  lemma {:induction false} WordWritten(v: nat, n: nat)
    requires v < Pow256(n)
    ensures WordValue(EncodeFixed(v, n)) == v
  {
    if n > 0 {
      WordWritten(v / 256, n - 1);
      assert EncodeFixed(v, n)[1..] == EncodeFixed(v / 256, n - 1);
    }
  }

  /** The last byte of a varint is below 128 and no other. */
  predicate VarintShape(b: Bytes) {
    1 <= |b| && b[|b| - 1] < 128 && forall k :: 0 <= k < |b| - 1 ==> b[k] >= 128
  }

  /** Seven bits a byte, the low ones first. */
  function VarintValue(b: Bytes): nat {
    if b == [] then 0 else b[0] % 128 + 128 * VarintValue(b[1..])
  }

  lemma LastVarintByte(v: nat)
    requires v < 128
    ensures VarintShape([v]) && VarintValue([v]) == v
  {
    assert [v][1..] == [] && VarintValue([]) == 0;
  }

  lemma MoreVarintBytes(x: nat, b: Bytes)
    requires x < 128 && VarintShape(b)
    ensures VarintShape([x + 128] + b) && VarintValue([x + 128] + b) == x + 128 * VarintValue(b)
  {
    var c := [x + 128] + b;
    assert c[1..] == b && c[|c| - 1] == b[|b| - 1];
    forall k | 0 <= k < |c| - 1
      ensures c[k] >= 128
    {
      assert k > 0 ==> c[k] == b[k - 1];
    }
  }

  lemma {:induction false} VarintWritten(v: nat, n: nat)
    requires 1 <= n && v < Pow128(n)
    ensures VarintShape(PutVarint(v)) && VarintValue(PutVarint(v)) == v && |PutVarint(v)| <= n
    decreases n
  {
    hide Pow128, VarintShape, VarintValue;
    if v < 128 {
      LastVarintByte(v);
    } else {
      Pow128Step(v, n);
      VarintWritten(v / 128, n - 1);
      MoreVarintBytes(v % 128, PutVarint(v / 128));
    }
  }

  // ----- Which varints are read -----

  lemma ShapeUnfold(b: Bytes)
    requires VarintShape(b)
    ensures b != [] && (|b| == 1 ==> b[0] < 128) && (|b| > 1 ==> b[0] >= 128 && VarintShape(b[1..]))
  {
    if |b| > 1 {
      var t := b[1..];
      assert t[|t| - 1] == b[|b| - 1];
      assert forall k :: 0 <= k < |t| - 1 ==> t[k] == b[k + 1];
    }
  }

  lemma ValueUnfold(b: Bytes)
    requires b != []
    ensures VarintValue(b) == b[0] % 128 + 128 * VarintValue(b[1..])
    ensures |b| == 1 ==> VarintValue(b) == b[0] % 128
  {
    if |b| == 1 {
      assert b[1..] == [];
    }
  }

  lemma VarintUnfold(b: Bytes)
    requires VarintShape(b)
    ensures b != [] && (|b| == 1 ==> b[0] < 128 && VarintValue(b) == b[0])
    ensures |b| > 1 ==> b[0] >= 128 && VarintShape(b[1..]) && VarintValue(b) == b[0] - 128 + 128 * VarintValue(b[1..])
  {
    hide VarintShape, VarintValue;
    ShapeUnfold(b);
    ValueUnfold(b);
  }

  lemma {:induction false} VarintReads(b: Bytes, shift: nat, n: nat)
    requires shift <= 28 && shift % 7 == 0 && 1 <= n <= |b| && n <= (35 - shift) / 7 && VarintShape(b[..n])
    ensures GetVarint(b, shift) == Some((VarintValue(b[..n]), b[n..]))
    decreases n
  {
    hide VarintShape, VarintValue;
    VarintUnfold(b[..n]);
    assert b[..n][0] == b[0] && b[..n][1..] == b[1..][..n - 1];
    if n > 1 {
      VarintReads(b[1..], shift + 7, n - 1);
      assert b[1..][n - 1..] == b[n..];
    }
  }

  lemma {:induction false} ReadIsVarint(b: Bytes, shift: nat) returns (n: nat)
    requires shift <= 35 && shift % 7 == 0 && GetVarint(b, shift).Some?
    ensures 1 <= n <= |b| && n <= (35 - shift) / 7 && VarintShape(b[..n])
    decreases 35 - shift
  {
    if b[0] < 128 {
      n := 1;
    } else {
      var m := ReadIsVarint(b[1..], shift + 7);
      n := m + 1;
      var v := b[..n];
      assert v == [b[0]] + b[1..][..m];
      assert v == [b[0] - 128 + 128] + b[1..][..m];
      MoreVarintBytes(b[0] - 128, b[1..][..m]);
    }
  }

  /** The first `n` bytes are a varint of at most five, and stand for `v` in 32 bits. */
  predicate ShortVarint(b: Bytes, n: nat, v: nat) {
    1 <= n <= 5 && n <= |b| && VarintShape(b[..n]) && VarintValue(b[..n]) % 0x1_0000_0000 == v
  }

  /** Exactly those are read. */
  lemma GetVarintIff(b: Bytes, v: nat, rest: Bytes)
    ensures GetVarint32(b) == Some((v, rest)) <==> exists n: nat :: ShortVarint(b, n, v) && rest == b[n..]
  {
    hide GetVarint, VarintShape, VarintValue;
    if n: nat :| ShortVarint(b, n, v) && rest == b[n..] {
      VarintReads(b, 0, n);
    }
    if GetVarint32(b) == Some((v, rest)) {
      var n := ReadIsVarint(b, 0);
      VarintReads(b, 0, n);
      assert ShortVarint(b, n, v);
    }
  }
}
