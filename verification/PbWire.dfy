/** The wire format of nanopb: varints, fixed-width words, tags and skipping, over byte
    strings and over its input stream (pb_decode.c, pb_encode.c). */
module PbWire {
  import opened Options
  import opened DbFormat
  import opened Coding

  const TWO31: nat := 0x8000_0000
  const TWO63: nat := 0x8000_0000_0000_0000
  const TWO64: nat := 0x1_0000_0000_0000_0000

  // ----- The 64-bit varint decoder -----

  /** The digits from byte `n` on, not yet cut to 64 bits. */
  function Digits64(b: Bytes, n: nat): (r: Option<(nat, Bytes)>)
    ensures r.Some? ==> |r.value.1| < |b|
    decreases |b|
  {
    if n >= 10 || b == [] then None
    else if b[0] < 128 then Some((b[0], b[1..]))
    else
      match Digits64(b[1..], n + 1)
      case None => None
      case Some((v, rest)) => Some((b[0] - 128 + 128 * v, rest))
  }

  /** pb_decode_varint */
  function Decode64(b: Bytes): (r: Option<(nat, Bytes)>)
    ensures r.Some? ==> |r.value.1| < |b| && r.value.0 < TWO64
  {
    match Digits64(b, 0)
    case None => None
    case Some((v, rest)) => Some((v % TWO64, rest))
  }

  // ----- The 32-bit varint decoder -----

  /** Two words with their bits joined. */
  function Or(a: nat, b: nat): nat {
    if a == 0 then b
    else if b == 0 then a
    else (if a % 2 == 1 || b % 2 == 1 then 1 else 0) + 2 * Or(a / 2, b / 2)
  }

  function Pow2(k: nat): nat {
    if k == 0 then 1 else 2 * Pow2(k - 1)
  }

  /** The bit position of byte `n`, kept in eight bits. */
  function BitPos(n: nat): nat {
    if n == 0 then 0 else (BitPos(n - 1) + 7) % 256
  }

  /** The word after the byte at `bitpos`. */
  function OrByte(result: nat, byte: Byte, bitpos: nat): nat {
    if bitpos >= 32 then result else Or(result, byte % 128 * Pow2(bitpos) % TWO32)
  }

  /** pb_decode_varint32 behind its first byte. A bit position from 32 on may only repeat the
      sign of a 32-bit number, or be zero. */
  function Loop32(b: Bytes, result: nat, n: nat): (r: Option<(nat, Bytes)>)
    requires 1 <= n
    ensures r.Some? ==> |r.value.1| < |b|
    decreases |b|
  {
    if b == [] then None
    else
      var byte, bitpos := b[0], BitPos(n);
      if bitpos >= 32 && byte % 128 != 0 && (result < TWO31 || byte != if bitpos < 63 then 0xff else 0x01) then None
      else
        var next := OrByte(result, byte, bitpos);
        if byte >= 128 then Loop32(b[1..], next, n + 1)
        else if (bitpos + 7) % 256 == 35 && byte / 16 % 8 != 0 then None
        else Some((next, b[1..]))
  }

  /** pb_decode_varint32 */
  function Decode32(b: Bytes): (r: Option<(nat, Bytes)>)
    ensures r.Some? ==> |r.value.1| < |b|
  {
    if b == [] then None
    else if b[0] < 128 then Some((b[0], b[1..]))
    else Loop32(b[1..], b[0] - 128, 1)
  }

  // ----- Varints come back -----

  lemma Digits64Unfold(b: Bytes, n: nat)
    ensures n >= 10 || b == [] ==> Digits64(b, n) == None
    ensures n < 10 && b != [] && b[0] < 128 ==> Digits64(b, n) == Some((b[0], b[1..]))
    ensures n < 10 && b != [] && b[0] >= 128 ==>
              (Digits64(b, n).Some? <==> Digits64(b[1..], n + 1).Some?)
    ensures n < 10 && b != [] && b[0] >= 128 && Digits64(b[1..], n + 1).Some? ==>
              Digits64(b, n) == Some((b[0] - 128 + 128 * Digits64(b[1..], n + 1).value.0, Digits64(b[1..], n + 1).value.1))
  {
  }

  lemma {:induction false} Digits64RoundTrip(v: nat, rest: Bytes, n: nat)
    requires n < 10 && v < Pow128(10 - n)
    ensures Digits64(PutVarint(v) + rest, n) == Some((v, rest))
    decreases v
  {
    hide Pow128, PutVarint, Digits64;
    PutVarintUnfold(v);
    var b := PutVarint(v) + rest;
    Digits64Unfold(b, n);
    if v < 128 {
      assert b[1..] == rest;
    } else {
      Pow128Step(v, 10 - n);
      Digits64RoundTrip(v / 128, rest, n + 1);
      assert b[0] == v % 128 + 128 && b[1..] == PutVarint(v / 128) + rest;
      Div128(v);
    }
  }

  lemma Div128(v: nat)
    ensures v % 128 + 128 * (v / 128) == v
  {
  }

  lemma Pow128Values()
    ensures Pow128(1) == 0x80 && Pow128(2) == 0x4000 && Pow128(3) == 0x20_0000 && Pow128(4) == 0x1000_0000
    ensures Pow128(5) == 0x8_0000_0000 && Pow128(9) == TWO63 && Pow128(10) == 128 * TWO63
  {
    assert Pow128(2) == 0x4000 && Pow128(4) == 0x1000_0000 && Pow128(6) == 0x400_0000_0000;
    assert Pow128(8) == 0x100_0000_0000_0000;
  }

  lemma Varint64RoundTrip(v: nat, rest: Bytes)
    requires v < TWO64
    ensures Decode64(PutVarint(v) + rest) == Some((v, rest))
  {
    hide Digits64, PutVarint, Pow128;
    Pow128Values();
    Digits64RoundTrip(v, rest, 0);
  }

  lemma {:induction false} OrAdds(a: nat, c: nat, k: nat)
    requires a < Pow2(k)
    ensures Or(a, c * Pow2(k)) == a + c * Pow2(k)
  {
    if k > 0 {
      var b := c * Pow2(k - 1);
      assert c * Pow2(k) == 2 * b;
      if a > 0 {
        OrAdds(a / 2, c, k - 1);
      }
    }
  }

  lemma Pow2Values()
    ensures Pow2(7) == 0x80 && Pow2(14) == 0x4000 && Pow2(21) == 0x20_0000 && Pow2(28) == 0x1000_0000
  {
    assert Pow2(4) == 16 && Pow2(8) == 0x100 && Pow2(12) == 0x1000 && Pow2(16) == 0x1_0000;
    assert Pow2(20) == 0x10_0000 && Pow2(24) == 0x100_0000;
  }

  lemma {:induction false} BitPosIs(n: nat)
    ensures BitPos(n) == 7 * n % 256
  {
    hide BitPos;
    BitPosUnfold(n);
    if n > 0 {
      BitPosIs(n - 1);
      WrapsAgain(7 * (n - 1));
    }
  }

  lemma BitPosUnfold(n: nat)
    ensures BitPos(n) == if n == 0 then 0 else (BitPos(n - 1) + 7) % 256
  {
  }

  lemma WrapsAgain(x: nat)
    ensures (x % 256 + 7) % 256 == (x + 7) % 256
  {
  }

  lemma Mod128(v: nat)
    requires v < 128
    ensures v % 128 == v && (v + 128) % 128 == v
  {
  }

  /** While the bit position is below 32, the bits read lie below it, so joining adds. */
  lemma OrByteAdds(result: nat, byte: Byte, n: nat)
    requires 1 <= n <= 4 && result < Pow128(n)
    ensures BitPos(n) == 7 * n < 32
    ensures OrByte(result, byte, BitPos(n)) == result + byte % 128 * Pow128(n) % TWO32
  {
    hide Pow128, Pow2, Or, BitPos;
    Pow128Values();
    Pow2Values();
    BitPosIs(n);
    var x := byte % 128 * Pow128(n) % TWO32;
    assert x == x / Pow128(n) * Pow128(n);
    OrAdds(result, x / Pow128(n), 7 * n);
  }

  lemma Loop32Last(v: nat, rest: Bytes, result: nat, n: nat)
    requires 1 <= n <= 4 && v < 128 && v * Pow128(n) < TWO32 && result < Pow128(n)
    ensures Loop32([v] + rest, result, n) == Some((result + v * Pow128(n), rest))
  {
    hide Pow128, OrByte, Loop32, BitPos;
    Pow128Values();
    OrByteAdds(result, v, n);
    var b := [v] + rest;
    Loop32Unfold(b, result, n);
    Mod128(v);
    assert b[1..] == rest;
    if n == 4 {
      assert v < 16;
    }
  }

  lemma Loop32More(v: nat, rest: Bytes, result: nat, n: nat)
    requires 1 <= n <= 4 && v < 128 && v * Pow128(n) < TWO32 && result < Pow128(n)
    ensures Loop32([v + 128] + rest, result, n) == Loop32(rest, result + v * Pow128(n), n + 1)
  {
    hide Pow128, OrByte, Loop32, BitPos;
    OrByteAdds(result, v + 128, n);
    var b := [v + 128] + rest;
    Loop32Unfold(b, result, n);
    Mod128(v);
    assert b[1..] == rest;
  }

  /** With `n` bytes read, `result` holds their digits and `v` is what is still to come. */
  lemma {:induction false} Loop32RoundTrip(v: nat, rest: Bytes, result: nat, n: nat)
    requires 1 <= n <= 4 && Pow128(n) * v < TWO32 && result < Pow128(n)
    ensures Loop32(PutVarint(v) + rest, result, n) == Some((result + Pow128(n) * v, rest))
    decreases v
  {
    hide PutVarint, Pow128, Loop32;
    PutVarintUnfold(v);
    if v < 128 {
      Loop32Last(v, rest, result, n);
    } else {
      FitsBelow(v, n, result);
      Loop32RoundTrip(v / 128, rest, result + v % 128 * Pow128(n), n + 1);
      Loop32More(v % 128, PutVarint(v / 128) + rest, result, n);
      assert PutVarint(v) + rest == [v % 128 + 128] + (PutVarint(v / 128) + rest);
    }
  }

  lemma PutVarintUnfold(v: nat)
    ensures PutVarint(v) == if v < 128 then [v] else [v % 128 + 128] + PutVarint(v / 128)
  {
  }

  lemma FitsBelow(v: nat, n: nat, result: nat)
    requires 1 <= n <= 4 && v >= 128 && Pow128(n) * v < TWO32 && result < Pow128(n)
    ensures result + v % 128 * Pow128(n) < Pow128(n + 1)
    ensures n <= 3 && Pow128(n + 1) == 128 * Pow128(n)
    ensures v % 128 * Pow128(n) < TWO32 && Pow128(n + 1) * (v / 128) + v % 128 * Pow128(n) == Pow128(n) * v
  {
    Pow128Values();
  }

  lemma Varint32RoundTrip(v: nat, rest: Bytes)
    requires v < TWO32
    ensures Decode32(PutVarint(v) + rest) == Some((v, rest))
  {
    hide PutVarint, Loop32, Pow128;
    Pow128Values();
    var b := PutVarint(v) + rest;
    PutVarintUnfold(v);
    if v < 128 {
      assert b[0] == v && b[1..] == rest;
    } else {
      assert b[0] == v % 128 + 128 && b[1..] == PutVarint(v / 128) + rest;
      Loop32RoundTrip(v / 128, rest, v % 128, 1);
    }
  }

  // ----- What the 32-bit decoder makes of any input -----

  /** The low word of a number whose next digits weigh `p`. */
  function LowWord(acc: nat, p: nat, d: nat): nat {
    (acc + p * d) % TWO32
  }

  lemma Multiple(p: nat, d: nat)
    requires p % TWO32 == 0
    ensures p * d % TWO32 == 0
  {
    var q := p / TWO32;
    assert p * d == TWO32 * (q * d);
    ModOfMultiple(q * d);
  }

  lemma ModOfMultiple(m: nat)
    ensures TWO32 * m % TWO32 == 0
  {
  }

  lemma {:induction false} Pow128Low(n: nat)
    requires n >= 5
    ensures Pow128(n) % TWO32 == 0
  {
    if n == 5 {
      Pow128Values();
    } else {
      hide Pow128;
      Pow128Low(n - 1);
      Pow128Next(n - 1);
      Multiple(Pow128(n - 1), 128);
    }
  }

  lemma Pow128Next(n: nat)
    ensures Pow128(n + 1) == 128 * Pow128(n)
  {
  }

  /** The digits behind the fourth byte, seen in the low word. */
  lemma DigitJoins(result: nat, x: nat, p: nat, d: nat)
    ensures LowWord(result + x * p % TWO32, 128 * p, d) == LowWord(result, p, x + 128 * d)
    ensures (result + x * p % TWO32) % TWO32 == LowWord(result, p, x)
  {
    assert result + p * (x + 128 * d) == result + x * p + 128 * p * d by {
      Distribute(p, x, 128 * d);
    }
    ModJoins(result + 128 * p * d, x * p);
    ModJoins(result, x * p);
  }

  lemma Distribute(p: nat, x: nat, y: nat)
    ensures p * (x + y) == x * p + p * y
  {
  }

  lemma ModJoins(a: nat, b: nat)
    ensures (a + b % TWO32) % TWO32 == (a + b) % TWO32
  {
  }

  lemma Pow128Bounds(n: nat, result: nat, byte: Byte)
    requires 1 <= n <= 4 && result < Pow128(n)
    ensures n < 4 ==> result + byte % 128 * Pow128(n) % TWO32 < 128 * Pow128(n)
    ensures result + byte % 128 * Pow128(n) % TWO32 < TWO32
  {
    hide Pow128;
    Pow128Values();
    if n == 4 {
      LastDigitFits(byte % 128);
    }
  }

  lemma LastDigitFits(x: nat)
    ensures x * 0x1000_0000 % TWO32 <= TWO32 - 0x1000_0000
  {
  }

  lemma HighByteIgnored(result: nat, byte: Byte, n: nat)
    requires 5 <= n <= 36
    ensures OrByte(result, byte, BitPos(n)) == result
  {
    hide Or, Pow2, BitPos;
    BitPosIs(n);
  }

  lemma HighJoins(result: nat, x: nat, p: nat, d: nat)
    requires p % TWO32 == 0 && result < TWO32
    ensures LowWord(result, 128 * p, d) == LowWord(result, p, x + 128 * d)
    ensures result == LowWord(result, p, x)
  {
    Multiple(p, 128);
    Multiple(128 * p, d);
    Multiple(p, x + 128 * d);
    Multiple(p, x);
    AddMultiple(result, 128 * p * d);
    AddMultiple(result, p * (x + 128 * d));
    AddMultiple(result, p * x);
  }

  lemma AddMultiple(a: nat, m: nat)
    requires m % TWO32 == 0
    ensures (a + m) % TWO32 == a % TWO32
  {
  }

  /** One byte more: what it adds to the word is what the digit adds to the number, in 32 bits. */
  lemma LowStep(result: nat, byte: Byte, n: nat, d: nat)
    requires 1 <= n <= 36 && result < TWO32 && (n <= 4 ==> result < Pow128(n))
    ensures var next, p := OrByte(result, byte, BitPos(n)), 128 * Pow128(n);
      && next < TWO32 && (n < 4 ==> next < p)
      && LowWord(next, p, d) == LowWord(result, Pow128(n), byte % 128 + 128 * d)
      && next == LowWord(result, Pow128(n), byte % 128)
  {
    hide Pow128, OrByte, BitPos, LowWord;
    if n <= 4 {
      LowByte(result, byte, n, d);
    } else {
      Pow128Low(n);
      HighByteIgnored(result, byte, n);
      HighJoins(result, byte % 128, Pow128(n), d);
    }
  }

  lemma LowByte(result: nat, byte: Byte, n: nat, d: nat)
    requires 1 <= n <= 4 && result < Pow128(n)
    ensures var next, p := OrByte(result, byte, BitPos(n)), 128 * Pow128(n);
      && next < TWO32 && (n < 4 ==> next < p)
      && LowWord(next, p, d) == LowWord(result, Pow128(n), byte % 128 + 128 * d)
      && next == LowWord(result, Pow128(n), byte % 128)
  {
    hide Pow128, OrByte, BitPos, LowWord;
    Pow128Bounds(n, result, byte);
    OrByteAdds(result, byte, n);
    DigitJoins(result, byte % 128, Pow128(n), d);
    SmallMod(OrByte(result, byte, BitPos(n)));
  }

  lemma SmallMod(v: nat)
    ensures v < TWO32 ==> v % TWO32 == v
  {
  }

  /** The turns of the 32-bit decoder's loop. */
  lemma Loop32Unfold(b: Bytes, result: nat, n: nat)
    requires 1 <= n
    ensures b == [] ==> Loop32(b, result, n) == None
    ensures b != [] ==>
      (var byte, bitpos, next := b[0], BitPos(n), OrByte(result, b[0], BitPos(n));
       Loop32(b, result, n) ==
         if bitpos >= 32 && byte % 128 != 0 && (result < TWO31 || byte != if bitpos < 63 then 0xff else 0x01) then None
         else if byte >= 128 then Loop32(b[1..], next, n + 1)
         else if (bitpos + 7) % 256 == 35 && byte / 16 % 8 != 0 then None
         else Some((next, b[1..])))
  {
    hide OrByte, BitPos;
  }

  /** The number the digits make, however many there are. */
  function Digits(b: Bytes): (r: Option<(nat, Bytes)>)
    ensures r.Some? ==> |r.value.1| < |b|
  {
    if b == [] then None
    else if b[0] < 128 then Some((b[0], b[1..]))
    else
      match Digits(b[1..])
      case None => None
      case Some((v, rest)) => Some((b[0] - 128 + 128 * v, rest))
  }

  lemma DigitsUnfold(b: Bytes)
    requires b != []
    ensures b[0] < 128 ==> Digits(b) == Some((b[0], b[1..]))
    ensures b[0] >= 128 ==> (Digits(b).Some? <==> Digits(b[1..]).Some?)
    ensures b[0] >= 128 && Digits(b[1..]).Some? ==> Digits(b) == Some((b[0] - 128 + 128 * Digits(b[1..]).value.0, Digits(b[1..]).value.1))
  {
  }

  /** As long as the position has not wrapped, the word is that of the digits. */
  lemma {:induction false} LowFrom(b: Bytes, result: nat, n: nat)
    requires 1 <= n && Loop32(b, result, n).Some? && n + |b| - |Loop32(b, result, n).value.1| <= 37
    requires result < TWO32 && (n <= 4 ==> result < Pow128(n))
    ensures var v, rest := Loop32(b, result, n).value.0, Loop32(b, result, n).value.1;
      && v < TWO32 && Digits(b).Some? && Digits(b).value.1 == rest
      && LowWord(result, Pow128(n), Digits(b).value.0) == v
    decreases |b|
  {
    hide Pow128, OrByte, BitPos, Digits, Loop32, LowWord;
    Loop32Unfold(b, result, n);
    DigitsUnfold(b);
    Pow128Next(n);
    var next := OrByte(result, b[0], BitPos(n));
    if b[0] >= 128 {
      LowStep(result, b[0], n, 0);
      LowFrom(b[1..], next, n + 1);
      LowStep(result, b[0], n, Digits(b[1..]).value.0);
      assert b[0] % 128 == b[0] - 128;
    } else {
      LowStep(result, b[0], n, 0);
    }
  }

  /** What the 32-bit decoder makes of an accepted input of `len` bytes is the low word of its digits. */
  ghost predicate GivesLowWord(b: Bytes) {
    Decode32(b).Some? ==> Digits(b).Some? && Digits(b).value.1 == Decode32(b).value.1 && Digits(b).value.0 % TWO32 == Decode32(b).value.0
  }

  lemma ShortGivesLowWord(b: Bytes)
    requires Decode32(b).Some? && |b| - |Decode32(b).value.1| <= 37
    ensures GivesLowWord(b)
  {
    hide Pow128, Loop32, Digits;
    Pow128Values();
    DigitsUnfold(b);
    if b[0] >= 128 {
      LowFrom(b[1..], b[0] - 128, 1);
      assert LowWord(b[0] - 128, 128, Digits(b[1..]).value.0) == Digits(b).value.0 % TWO32;
    }
  }

  lemma {:induction false} Digits64IsDigits(b: Bytes, n: nat)
    requires Digits(b).Some? && n + |b| - |Digits(b).value.1| <= 10
    ensures Digits64(b, n) == Digits(b)
    decreases |b|
  {
    DigitsUnfold(b);
    if b[0] >= 128 {
      Digits64IsDigits(b[1..], n + 1);
    }
  }

  /** What the 32-bit decoder accepts within ten bytes, canonical or not, the 64-bit decoder accepts
      too, and the result is the low word of its result. */
  lemma Decode32IsLowWord(b: Bytes)
    requires Decode32(b).Some? && |b| - |Decode32(b).value.1| <= 10
    ensures Decode64(b).Some? && Decode64(b).value.1 == Decode32(b).value.1
    ensures Decode64(b).value.0 % TWO32 == Decode32(b).value.0
  {
    hide Decode32, Digits, Digits64;
    ShortGivesLowWord(b);
    Digits64IsDigits(b, 0);
    LowOfLow(Digits(b).value.0);
  }

  lemma LowOfLow(v: nat)
    ensures v % TWO64 % TWO32 == v % TWO32
  {
  }

  // ----- Where the bit position wraps -----

  function Padding(k: nat): Bytes {
    seq(k, _ => 128)
  }

  lemma OrZero(bitpos: nat)
    ensures OrByte(0, 128, bitpos) == 0
  {
    hide Pow2;
  }

  /** Zero digits are skipped over whatever their position. */
  lemma {:induction false} PaddingSkipped(k: nat, rest: Bytes, n: nat)
    requires 1 <= n
    ensures Loop32(Padding(k) + rest, 0, n) == Loop32(rest, 0, n + k)
    decreases k
  {
    hide OrByte, BitPos;
    OrZero(BitPos(n));
    if k == 0 {
      assert Padding(k) + rest == rest;
    } else {
      assert (Padding(k) + rest)[1..] == Padding(k - 1) + rest;
      PaddingSkipped(k - 1, rest, n + 1);
    }
  }

  /** Zero digits before the last one. The last one is joined in where its position, wrapping around
      at 256, lies below bit 32, and refused anywhere else. */
  lemma WrappedDigit(d: Byte, n: nat)
    requires 0 < d < 16 && n >= 1
    ensures var pos := 7 * n % 256;
      Decode32(Padding(n) + [d]) == if pos < 32 then Some((d * Pow2(pos) % TWO32, [])) else None
  {
    hide Loop32, Pow2, Or, BitPos;
    var b := Padding(n) + [d];
    assert b[1..] == Padding(n - 1) + [d];
    PaddingSkipped(n - 1, [d], 1);
    Loop32Unfold([d], 0, n);
    BitPosIs(n);
    LastDigit(d, 7 * n % 256);
    assert [d][1..] == [];
  }

  lemma LastDigit(d: Byte, pos: nat)
    requires 0 < d < 16
    ensures pos < 32 ==> OrByte(0, d, pos) == d * Pow2(pos) % TWO32
    ensures d % 128 == d && d / 16 % 8 == 0
  {
    hide Pow2;
  }

  // ----- Up to which length the word is right -----

  /** Zero digits behind a word change nothing. */
  lemma {:induction false} ZerosKeepWord(k: nat, result: nat, n: nat)
    requires n >= 1 && result < TWO31
    ensures Loop32(Padding(k) + [0], result, n) == Some((result, []))
    decreases k
  {
    hide Loop32, Pow2, Or, BitPos;
    var b := Padding(k) + [0];
    Loop32Unfold(b, result, n);
    ZeroByteKeeps(result, BitPos(n));
    if k == 0 {
      assert b == [0] && b[1..] == [];
    } else {
      assert b[0] == 128 && b[1..] == Padding(k - 1) + [0];
      ZerosKeepWord(k - 1, result, n + 1);
    }
  }

  lemma ZeroByteKeeps(result: nat, pos: nat)
    ensures OrByte(result, 0, pos) == result && OrByte(result, 128, pos) == result
  {
    hide Pow2;
    assert 0 * Pow2(pos) == 0;
  }

  /** A one at byte 37, with zero digits before it and behind it, `len` bytes in all. */
  function LateOne(len: nat): Bytes
    requires len >= 38
  {
    Padding(37) + if len == 38 then [1] else [129] + (Padding(len - 39) + [0])
  }

  lemma LateOneTail(len: nat)
    requires len >= 38
    ensures Loop32(LateOne(len)[37..], 0, 37) == Some((8, []))
  {
    hide Loop32, Pow2, BitPos;
    var b := LateOne(len)[37..];
    Loop32Unfold(b, 0, 37);
    BitPosIs(37);
    Pow2Of3();
    OneAtThree();
    if len == 38 {
      assert b == [1] && b[1..] == [];
    } else {
      assert b == [129] + (Padding(len - 39) + [0]);
      assert b[0] == 129 && b[1..] == Padding(len - 39) + [0];
      ZerosKeepWord(len - 39, 8, 38);
    }
  }

  lemma OneAtThree()
    requires Pow2(3) == 8
    ensures OrByte(0, 1, 3) == 8 && OrByte(0, 129, 3) == 8
  {
    hide Pow2;
  }

  lemma Pow2Of3()
    ensures Pow2(3) == 8
  {
  }

  lemma {:induction false} DigitsBehindPadding(k: nat, rest: Bytes)
    requires Digits(rest).Some?
    ensures Digits(Padding(k) + rest) == Some((Pow128(k) * Digits(rest).value.0, Digits(rest).value.1))
    decreases k
  {
    hide Pow128;
    var b := Padding(k) + rest;
    Pow128Zero();
    if k == 0 {
      assert b == rest;
    } else {
      assert b[0] == 128 && b[1..] == Padding(k - 1) + rest;
      DigitsBehindPadding(k - 1, rest);
      Pow128Next(k - 1);
      Times128(Pow128(k - 1), Digits(rest).value.0);
    }
  }

  lemma Pow128Zero()
    ensures Pow128(0) == 1
  {
  }

  lemma Times128(p: nat, v: nat)
    ensures 128 * (p * v) == 128 * p * v
  {
  }

  /** The decoder takes that input for 8, where the digits' low word is zero. */
  lemma LateOneIsWrong(len: nat)
    requires len >= 38
    ensures |LateOne(len)| == len && Decode32(LateOne(len)) == Some((8, [])) && !GivesLowWord(LateOne(len))
  {
    hide Loop32, Pow128, Digits;
    var b := LateOne(len);
    var tail := b[37..];
    assert b[1..] == Padding(36) + tail && b == Padding(37) + tail;
    PaddingSkipped(36, tail, 1);
    LateOneTail(len);
    if Digits(tail).Some? {
      DigitsBehindPadding(37, tail);
      Pow128Low(37);
      Multiple(Pow128(37), Digits(tail).value.0);
    } else {
      assert GivesLowWord(b) ==> Digits(b).Some?;
      NoDigitsBehind(37, tail);
    }
  }

  lemma {:induction false} NoDigitsBehind(k: nat, rest: Bytes)
    requires Digits(rest).None?
    ensures Digits(Padding(k) + rest).None?
    decreases k
  {
    var b := Padding(k) + rest;
    if k == 0 {
      assert b == rest;
    } else {
      assert b[1..] == Padding(k - 1) + rest;
      NoDigitsBehind(k - 1, rest);
    }
  }

  /** Main theorem about overlong inputs: all accepted inputs of a length give the low word of their
      digits exactly up to 37 bytes. */
  lemma LowWordIff(len: nat)
    ensures (forall b :: Decode32(b).Some? && |b| - |Decode32(b).value.1| == len ==> GivesLowWord(b)) <==> len <= 37
  {
    hide Decode32, GivesLowWord;
    if len <= 37 {
      forall b | Decode32(b).Some? && |b| - |Decode32(b).value.1| == len
        ensures GivesLowWord(b)
      {
        ShortGivesLowWord(b);
      }
    } else {
      LateOneIsWrong(len);
      assert |LateOne(len)| - |Decode32(LateOne(len)).value.1| == len;
    }
  }

  // ----- Tags, strings and skipping -----

  const WT_VARINT: nat := 0
  const WT_64BIT: nat := 1
  const WT_STRING: nat := 2
  const WT_32BIT: nat := 5

  datatype TagResult = Tag(wire: nat, tag: nat, rest: Bytes) | Eof | TagError

  /** pb_decode_tag: a zero tag ends the message. */
  function DecodeTag(b: Bytes): (r: TagResult)
    ensures r.Tag? ==> |r.rest| < |b|
  {
    if b == [] then Eof
    else
      match Decode32(b)
      case None => TagError
      case Some((v, rest)) => if v == 0 then Eof else Tag(v % 8, v / 8, rest)
  }

  function TagBytes(wire: nat, tag: nat): Bytes {
    PutVarint(tag * 8 + wire)
  }

  /** A length and that many bytes (pb_make_string_substream). */
  function DecodeString(b: Bytes): (r: Option<(Bytes, Bytes)>)
    ensures r.Some? ==> |r.value.0| + |r.value.1| < |b|
  {
    match Decode32(b)
    case None => None
    case Some((n, rest)) => if |rest| < n then None else Some((rest[..n], rest[n..]))
  }

  function SkipVarint(b: Bytes): (r: Option<Bytes>)
    ensures r.Some? ==> |r.value| < |b|
  {
    if b == [] then None else if b[0] >= 128 then SkipVarint(b[1..]) else Some(b[1..])
  }

  /** pb_skip_field */
  function SkipField(wire: nat, b: Bytes): (r: Option<Bytes>)
    ensures r.Some? ==> |r.value| < |b|
  {
    if wire == WT_VARINT then SkipVarint(b)
    else if wire == WT_64BIT then if |b| < 8 then None else Some(b[8..])
    else if wire == WT_STRING then
      match DecodeString(b)
      case None => None
      case Some((_, rest)) => Some(rest)
    else if wire == WT_32BIT then if |b| < 4 then None else Some(b[4..])
    else None
  }

  lemma TagRoundTrip(wire: nat, tag: nat, rest: Bytes)
    requires wire < 8 && 0 < tag && tag * 8 + wire < TWO32
    ensures DecodeTag(TagBytes(wire, tag) + rest) == Tag(wire, tag, rest)
  {
    hide Decode32, PutVarint;
    Varint32RoundTrip(tag * 8 + wire, rest);
  }

  lemma StringRoundTrip(s: Bytes, rest: Bytes)
    requires |s| < TWO32
    ensures DecodeString(PutSlice(s) + rest) == Some((s, rest))
  {
    hide Decode32, PutVarint;
    Varint32RoundTrip(|s|, s + rest);
    assert PutSlice(s) + rest == PutVarint(|s|) + (s + rest);
    assert (s + rest)[..|s|] == s && (s + rest)[|s|..] == rest;
  }

  // ----- Parsers do not look past what they take -----

  lemma {:induction false} Loop32Extends(b: Bytes, result: nat, n: nat, x: Bytes)
    requires 1 <= n && Loop32(b, result, n).Some?
    ensures Loop32(b + x, result, n) == Some((Loop32(b, result, n).value.0, Loop32(b, result, n).value.1 + x))
    decreases |b|
  {
    hide OrByte;
    assert (b + x)[0] == b[0] && (b + x)[1..] == b[1..] + x;
    if b[0] >= 128 {
      Loop32Extends(b[1..], OrByte(result, b[0], BitPos(n)), n + 1, x);
    }
  }

  lemma Decode32Extends(b: Bytes, x: Bytes)
    requires Decode32(b).Some?
    ensures Decode32(b + x) == Some((Decode32(b).value.0, Decode32(b).value.1 + x))
  {
    hide Loop32;
    assert (b + x)[0] == b[0] && (b + x)[1..] == b[1..] + x;
    if b[0] >= 128 {
      Loop32Extends(b[1..], b[0] - 128, 1, x);
    }
  }

  lemma {:induction false} Digits64Extends(b: Bytes, n: nat, x: Bytes)
    requires Digits64(b, n).Some?
    ensures Digits64(b + x, n) == Some((Digits64(b, n).value.0, Digits64(b, n).value.1 + x))
    decreases |b|
  {
    assert (b + x)[0] == b[0] && (b + x)[1..] == b[1..] + x;
    if b[0] >= 128 {
      Digits64Extends(b[1..], n + 1, x);
    }
  }

  lemma Decode64Extends(b: Bytes, x: Bytes)
    requires Decode64(b).Some?
    ensures Decode64(b + x) == Some((Decode64(b).value.0, Decode64(b).value.1 + x))
  {
    hide Digits64;
    Digits64Extends(b, 0, x);
  }

  lemma DecodeStringExtends(b: Bytes, x: Bytes)
    requires DecodeString(b).Some?
    ensures DecodeString(b + x) == Some((DecodeString(b).value.0, DecodeString(b).value.1 + x))
  {
    hide Decode32;
    Decode32Extends(b, x);
    var n, rest := Decode32(b).value.0, Decode32(b).value.1;
    assert (rest + x)[..n] == rest[..n] && (rest + x)[n..] == rest[n..] + x;
  }

  lemma {:induction false} SkipVarintExtends(b: Bytes, x: Bytes)
    requires SkipVarint(b).Some?
    ensures SkipVarint(b + x) == Some(SkipVarint(b).value + x)
    decreases |b|
  {
    assert (b + x)[0] == b[0] && (b + x)[1..] == b[1..] + x;
    if b[0] >= 128 {
      SkipVarintExtends(b[1..], x);
    }
  }

  lemma SkipFieldExtends(wire: nat, b: Bytes, x: Bytes)
    requires SkipField(wire, b).Some?
    ensures SkipField(wire, b + x) == Some(SkipField(wire, b).value + x)
  {
    hide SkipVarint, DecodeString;
    if wire == WT_VARINT {
      SkipVarintExtends(b, x);
    } else if wire == WT_64BIT {
      assert (b + x)[8..] == b[8..] + x;
    } else if wire == WT_STRING {
      DecodeStringExtends(b, x);
    } else {
      assert (b + x)[4..] == b[4..] + x;
    }
  }

  lemma DecodeTagExtends(b: Bytes, x: Bytes)
    requires DecodeTag(b).Tag?
    ensures DecodeTag(b + x) == Tag(DecodeTag(b).wire, DecodeTag(b).tag, DecodeTag(b).rest + x)
  {
    hide Decode32;
    Decode32Extends(b, x);
  }
}
