/** The Punycode encoder for one host name label (idna.c). The input is the label's code
    points; the output buffer holds `cap` bytes and silently drops what does not fit. */
module Punycode {

  type U32 = x: int | 0 <= x < 0x1_0000_0000

  const MAX_U32: nat := 0xffff_ffff
  const CODE_LIMIT: nat := 0x11_0000
  const BAD_CODE: nat := MAX_U32        // what the decoder of the input gives for malformed bytes
  const DASH: nat := 45

  type Text = seq<nat>

  predicate IsLabel(src: seq<nat>) {
    forall i :: 0 <= i < |src| ==> src[i] < CODE_LIMIT
  }

  // ----- The algorithm of section 6.3 of RFC 3492 over unbounded integers -----

  /** alphabet[t] */
  function Letter(t: nat): nat {
    if t < 26 then 97 + t else 22 + t
  }

  function Threshold(k: nat, bias: nat): (t: nat)
    ensures 1 <= t <= 26
  {
    if k <= bias then 1 else if k - bias > 26 then 26 else k - bias
  }

  lemma DivisionBounds(x: nat, y: nat)
    requires y > 0
    ensures x == y * (x / y) + x % y && x / y <= x && 0 <= x % y < y
  {
    AtLeastOnce(x / y, y);
  }

  lemma AtLeastOnce(q: nat, y: nat)
    requires y > 0
    ensures q <= y * q
  {
    assert y * q == q + (y - 1) * q;
  }

  lemma ProductGrows(y: nat, a: nat, b: nat)
    requires a <= b
    ensures y * a <= y * b
  {
    assert y * b == y * a + y * (b - a);
  }

  lemma QuotientAtMost(x: nat, y: nat, n: nat)
    requires y > 0 && x < y * (n + 1)
    ensures 0 <= x / y <= n
  {
    DivisionBounds(x, y);
    if x / y > n {
      ProductGrows(y, n + 1, x / y);
    }
  }

  /** A delta as a generalized variable-length integer. */
  function Digits(q: nat, k: nat, bias: nat): (w: Text)
    ensures w != []
    decreases q
  {
    var t := Threshold(k, bias);
    if q < t then [Letter(q)]
    else
      DivisionBounds(q - t, 36 - t);
      [Letter(t + (q - t) % (36 - t))] + Digits((q - t) / (36 - t), k + 36, bias)
  }

  function AdaptLoop(delta: nat, bias: nat): nat {
    if delta > 455 then AdaptLoop(delta / 35, bias + 36) else bias + 36 * delta / (delta + 38)
  }

  function Div(x: nat, y: nat): nat
    requires y > 0
  {
    DivisionBounds(x, y);
    x / y
  }

  function Adapt(delta: nat, points: nat, first: bool): nat
    requires points > 0
  {
    var d := if first then delta / 700 else delta / 2;
    AdaptLoop(d + Div(d, points), 0)
  }

  /** The encoder's variables; `peak` is the largest delta so far. */
  datatype Enc = Enc(out: Text, delta: nat, h: nat, bias: nat, peak: nat)

  function Grow(e: Enc, x: nat): Enc {
    e.(delta := e.delta + x, peak := if e.delta + x > e.peak then e.delta + x else e.peak)
  }

  /** One code point of the scan for `m`; `b` code points were basic. */
  function Step(c: nat, m: nat, b: nat, e: Enc): Enc {
    if c < m then Grow(e, 1)
    else if c > m then e
    else Enc(e.out + Digits(e.delta, 36, e.bias), 0, e.h + 1, Adapt(e.delta, e.h + 1, e.h == b), e.peak)
  }

  function Scan(src: seq<nat>, m: nat, j: nat, b: nat, e: Enc): Enc
    requires j <= |src|
    decreases |src| - j
  {
    if j == |src| then e else Scan(src, m, j + 1, b, Step(src[j], m, b, e))
  }

  /** The least code point from `n` on among the first `j`, or nothing below the limit. */
  function LeastFrom(src: seq<nat>, n: nat, j: nat): nat
    requires j <= |src|
  {
    if j == 0 then MAX_U32
    else
      var m := LeastFrom(src, n, j - 1);
      if src[j - 1] >= n && src[j - 1] < m then src[j - 1] else m
  }

  lemma {:induction false} LeastFromIs(src: seq<nat>, n: nat, j: nat)
    requires j <= |src| && IsLabel(src)
    ensures forall i :: 0 <= i < j && src[i] >= n ==> LeastFrom(src, n, j) <= src[i]
    ensures LeastFrom(src, n, j) == MAX_U32 ||
            exists i :: 0 <= i < j && src[i] == LeastFrom(src, n, j) && src[i] >= n
  {
    if j > 0 {
      LeastFromIs(src, n, j - 1);
    }
  }

  function Rounds(src: seq<nat>, n: nat, b: nat, e: Enc): Enc
    decreases MAX_U32 - n
  {
    var m := LeastFrom(src, n, |src|);
    if m < n || m >= MAX_U32 then e
    else Rounds(src, m + 1, b, NextRound(Scan(src, m, 0, b, Grow(e, (m - n) * (e.h + 1)))))
  }

  function NextRound(e: Enc): Enc {
    e.(delta := e.delta + 1)
  }

  /** Code point `l` stands in the output once all below `m` and the `m`s before `j` do. */
  predicate Keeps(src: seq<nat>, m: nat, j: nat, l: nat)
    requires l < |src|
  {
    src[l] < m || (src[l] == m && l < j)
  }

  function Kept(src: seq<nat>, m: nat, j: nat, len: nat): (r: seq<nat>)
    requires len <= |src|
    ensures |r| <= len
  {
    if len == 0 then []
    else Kept(src, m, j, len - 1) + if Keeps(src, m, j, len - 1) then [src[len - 1]] else []
  }

  function Basic(src: seq<nat>): seq<nat> {
    Kept(src, 128, 0, |src|)
  }

  function Encoded(src: seq<nat>): Enc {
    var b := |Basic(src)|;
    Rounds(src, 128, b, Enc([], 0, b, 72, 0))
  }

  function Prefix(src: seq<nat>): Text {
    [120, 110, DASH, DASH] + Basic(src) + if Basic(src) == [] then [] else [DASH]
  }

  /** The whole text of a label that is not all basic. */
  function FullText(src: seq<nat>): Text {
    Prefix(src) + Encoded(src).out
  }

  // ----- About the kept code points -----

  lemma {:induction false} KeptSame(src: seq<nat>, m: nat, j: nat, m': nat, j': nat, len: nat)
    requires len <= |src|
    requires forall l: nat :: l < len ==> (Keeps(src, m, j, l) <==> Keeps(src, m', j', l))
    ensures Kept(src, m, j, len) == Kept(src, m', j', len)
  {
    if len > 0 {
      KeptSame(src, m, j, m', j', len - 1);
    }
  }

  lemma {:induction false} KeptAll(src: seq<nat>, m: nat, j: nat, len: nat)
    requires len <= |src|
    ensures |Kept(src, m, j, len)| == len <==> forall l: nat :: l < len ==> Keeps(src, m, j, l)
    ensures |Kept(src, m, j, len)| == len ==> Kept(src, m, j, len) == src[..len]
  {
    if len > 0 {
      KeptAll(src, m, j, len - 1);
      assert src[..len] == src[..len - 1] + [src[len - 1]];
    }
  }

  lemma {:induction false} KeptInsert(src: seq<nat>, m: nat, j: nat, len: nat)
    requires j < len <= |src| && src[j] == m
    ensures |Kept(src, m, j, j)| <= |Kept(src, m, j, len)|
    ensures var k, p := Kept(src, m, j, len), |Kept(src, m, j, j)|;
            Kept(src, m, j + 1, len) == k[..p] + [m] + k[p..]
  {
    var p := |Kept(src, m, j, j)|;
    if len == j + 1 {
      KeptSame(src, m, j, m, j + 1, j);
      assert Kept(src, m, j, len) == Kept(src, m, j, j);
    } else {
      KeptInsert(src, m, j, len - 1);
      assert Keeps(src, m, j, len - 1) <==> Keeps(src, m, j + 1, len - 1);
      var k := Kept(src, m, j, len - 1);
      var x := if Keeps(src, m, j, len - 1) then [src[len - 1]] else [];
      assert (k + x)[..p] == k[..p] && (k + x)[p..] == k[p..] + x;
    }
  }

  // ----- The peak never falls -----

  lemma {:induction false} ScanPeak(src: seq<nat>, m: nat, j: nat, b: nat, e: Enc)
    requires j <= |src|
    ensures Scan(src, m, j, b, e).peak >= e.peak
    decreases |src| - j
  {
    if j < |src| {
      ScanPeak(src, m, j + 1, b, Step(src[j], m, b, e));
    }
  }

  lemma {:induction false} RoundsPeak(src: seq<nat>, n: nat, b: nat, e: Enc)
    ensures Rounds(src, n, b, e).peak >= e.peak
    decreases MAX_U32 - n
  {
    var m := LeastFrom(src, n, |src|);
    if n <= m < MAX_U32 {
      var g := Grow(e, (m - n) * (e.h + 1));
      ScanPeak(src, m, 0, b, g);
      RoundsPeak(src, m + 1, b, NextRound(Scan(src, m, 0, b, g)));
    }
  }

  // ----- The output buffer -----

  /** What a buffer of `cap` bytes holds after `s` was written to it. */
  function Clip(s: Text, cap: nat): (r: Text)
    ensures |r| <= cap
  {
    if |s| <= cap then s else s[..cap]
  }

  class Buffer {
    const cap: nat
    var out: Text
    ghost var all: Text      // everything written, kept or dropped

    constructor (capacity: nat)
      ensures cap == capacity && all == [] && Valid()
    {
      cap, out, all := capacity, [], [];
    }

    ghost predicate Valid()
      reads this
    {
      out == Clip(all, cap)
    }

    method Put(c: nat)
      requires Valid()
      modifies this
      ensures Valid() && all == old(all) + [c]
    {
      if |out| < cap {
        out := out + [c];
      }
      all := all + [c];
    }
  }

  datatype Outcome = Written(count: nat) | InvalidInput | TooBig

  /** How often `q` can be divided by ten before it is gone. */
  ghost function Decades(q: nat): nat {
    if q == 0 then 0 else 1 + Decades(q / 10)
  }

  lemma {:induction false} DecadesGrow(q: nat, r: nat)
    requires q <= r
    ensures Decades(q) <= Decades(r)
  {
    if q > 0 {
      DecadesGrow(q / 10, r / 10);
    }
  }

  lemma WordDecades(q: U32)
    ensures Decades(q) <= 10
  {
    DecadesGrow(q, MAX_U32);
    assert Decades(4) == 1 && Decades(42) == 2 && Decades(429) == 3 && Decades(4294) == 4;
    assert Decades(42949) == 5 && Decades(429496) == 6 && Decades(4294967) == 7;
    assert Decades(42949672) == 8 && Decades(429496729) == 9;
  }

  lemma QuotientDecades(q: nat, t: nat)
    requires 1 <= t <= 26 && t <= q
    ensures 1 + Decades((q - t) / (36 - t)) <= Decades(q)
  {
    hide Decades;
    DecadesStep(q);
    BelowTens(q, t);
    QuotientAtMost(q - t, 36 - t, q / 10);
    DecadesGrow((q - t) / (36 - t), q / 10);
  }

  lemma DecadesStep(q: nat)
    requires q > 0
    ensures Decades(q) == 1 + Decades(q / 10)
  {
  }

  lemma BelowTens(q: nat, t: nat)
    requires 1 <= t <= 26 && t <= q
    ensures q - t < (36 - t) * (q / 10 + 1)
  {
    TensAbove(q);
    ProductGrows(q / 10 + 1, 10, 36 - t);
    assert (q / 10 + 1) * (36 - t) == (36 - t) * (q / 10 + 1);
  }

  lemma TensAbove(q: nat)
    ensures q < 10 * (q / 10 + 1)
  {
  }

  /** The loop that writes one delta. */
  method EmitDelta(delta: U32, bias: U32, d: Buffer)
    requires d.Valid()
    modifies d
    ensures d.Valid() && d.all == old(d.all) + Digits(delta, 36, bias)
  {
    hide Decades, Clip, Letter, Digits, Threshold;
    WordDecades(delta);
    var k: U32, q: U32 := 36, delta;
    var t: U32 := TurnAt(k, bias);
    while q >= t
      invariant t == Threshold(k, bias)
      invariant k + 36 * Decades(q) <= 400
      invariant d.Valid() && d.all + Digits(q, k, bias) == old(d.all) + Digits(delta, 36, bias)
      decreases q
    {
      DivisionBounds(q - t, 36 - t);
      QuotientDecades(q, t);
      DigitsUnfold(q, k, bias);
      var x: U32, y: U32 := q - t, 36 - t;
      q := x / y;
      d.Put(Letter(t + x % y));
      k := k + 36;
      t := TurnAt(k, bias);
    }
    DigitsEnd(q, k, bias);
    d.Put(Letter(q));
  }

  lemma DigitsEnd(q: nat, k: nat, bias: nat)
    requires q < Threshold(k, bias)
    ensures Digits(q, k, bias) == [Letter(q)]
  {
  }

  method TurnAt(k: U32, bias: U32) returns (t: U32)
    ensures t == Threshold(k, bias)
  {
    t := 1;
    if k > bias {
      t := k - bias;
    }
    if t > 26 {
      t := 26;
    }
  }

  lemma DigitsUnfold(q: nat, k: nat, bias: nat)
    requires q >= Threshold(k, bias)
    ensures var t := Threshold(k, bias);
            (q - t) / (36 - t) >= 0 && (q - t) % (36 - t) >= 0 &&
            Digits(q, k, bias) == [Letter(t + (q - t) % (36 - t))] + Digits((q - t) / (36 - t), k + 36, bias)
  {
    DivisionBounds(q - Threshold(k, bias), 36 - Threshold(k, bias));
  }

  lemma TwoHalvings(x: nat)
    ensures x / 2 / 350 == x / 700
  {
  }

  lemma SkewBounds(delta: nat)
    requires delta <= 455
    ensures 0 <= 36 * delta / (delta + 38) <= 36
  {
    QuotientAtMost(36 * delta, delta + 38, 36);
  }

  lemma AdaptBegins(delta0: nat, h: nat, first: bool, d: nat)
    requires h > 0 && d == if first then delta0 / 2 / 350 else delta0 / 2
    ensures Adapt(delta0, h, first) == AdaptLoop(d + d / h, 0) && 0 <= d / h <= d
  {
    hide AdaptLoop;
    TwoHalvings(delta0);
    DivisionBounds(d, h);
    AdaptIs(delta0, h, first);
  }

  lemma AdaptIs(delta0: nat, h: nat, first: bool)
    requires h > 0
    ensures var d := if first then delta0 / 700 else delta0 / 2;
      Adapt(delta0, h, first) == AdaptLoop(d + Div(d, h), 0)
  {
    hide AdaptLoop;
  }

  lemma AdaptTurns(delta: nat, bias: nat)
    ensures delta > 455 ==> AdaptLoop(delta, bias) == AdaptLoop(delta / 35, bias + 36)
    ensures delta <= 455 ==> AdaptLoop(delta, bias) == bias + 36 * delta / (delta + 38)
  {
  }

  /** The adaptation of the bias after one insertion. */
  method AdaptBias(delta0: U32, h: U32, first: bool) returns (bias: U32)
    requires h > 0
    ensures bias == Adapt(delta0, h, first)
  {
    hide Decades, Adapt, AdaptLoop;
    var delta: U32 := delta0 / 2;
    if first {
      delta := delta / 350;
    }
    AdaptBegins(delta0, h, first, delta);
    delta := delta + delta / h;
    WordDecades(delta);
    bias := 0;
    while delta > 455
      invariant bias + 36 * Decades(delta) <= 400
      invariant AdaptLoop(delta, bias) == Adapt(delta0, h, first)
    {
      ThirtyFifth(delta);
      AdaptTurns(delta, bias);
      delta := delta / 35;
      bias := bias + 36;
    }
    AdaptTurns(delta, bias);
    SkewBounds(delta);
    bias := bias + 36 * delta / (delta + 38);
  }

  lemma ThirtyFifth(delta: nat)
    requires delta > 0
    ensures 1 + Decades(delta / 35) <= Decades(delta)
  {
    DecadesGrow(delta / 35, delta / 10);
  }

  // ----- The encoder -----

  /** The variables of the encoder hold `e`, and `d` has received `p` and the deltas so far. */
  ghost predicate Holds(e: Enc, delta: U32, h: U32, bias: U32, first: bool, b: nat, d: Buffer, p: Text)
    reads d
  {
    && e.delta == delta && e.h == h && e.bias == bias && first == (h == b)
    && e.peak <= MAX_U32
    && d.Valid() && d.all == p + e.out
  }

  lemma StepEmits(m: nat, b: nat, e: Enc)
    ensures Step(m, m, b, e) == Enc(e.out + Digits(e.delta, 36, e.bias), 0, e.h + 1, Adapt(e.delta, e.h + 1, e.h == b), e.peak)
  {
  }

  lemma ScanUnfold(src: seq<nat>, m: nat, j: nat, b: nat, e: Enc)
    requires j < |src|
    ensures Scan(src, m, j, b, e) == Scan(src, m, j + 1, b, Step(src[j], m, b, e))
  {
  }

  lemma KeptSteps(src: seq<nat>, m: nat, j: nat)
    requires j < |src|
    ensures |Kept(src, m, j + 1, |src|)| == |Kept(src, m, j, |src|)| + if src[j] == m then 1 else 0
  {
    if src[j] == m {
      KeptInsert(src, m, j, |src|);
    } else {
      KeptSame(src, m, j, m, j + 1, |src|);
    }
  }

  /** One round: every occurrence of `m` is written. */
  method ScanRound(src: seq<nat>, m: U32, delta0: U32, h0: U32, bias0: U32, first0: bool, todo0: U32, d: Buffer,
                   ghost b: nat, ghost e0: Enc, ghost p: Text)
    returns (ok: bool, delta: U32, h: U32, bias: U32, first: bool, todo: U32)
    requires |src| < MAX_U32 && Holds(e0, delta0, h0, bias0, first0, b, d, p)
    requires h0 == |Kept(src, m, 0, |src|)| && todo0 == |src| - h0 && b <= h0
    modifies d
    ensures ok ==> Holds(Scan(src, m, 0, b, e0), delta, h, bias, first, b, d, p)
    ensures ok ==> h == |Kept(src, m, |src|, |src|)| && todo == |src| - h && b <= h
    ensures ok && (exists i :: 0 <= i < |src| && src[i] == m) ==> delta <= |src|
    ensures !ok ==> Scan(src, m, 0, b, e0).peak > MAX_U32
  {
    hide Scan, Kept, Digits, Adapt;
    delta, h, bias, first, todo := delta0, h0, bias0, first0, todo0;
    ghost var e := e0;
    var j := 0;
    while j < |src|
      invariant 0 <= j <= |src|
      invariant Holds(e, delta, h, bias, first, b, d, p)
      invariant h == |Kept(src, m, j, |src|)| && todo == |src| - h && b <= h
      invariant Scan(src, m, 0, b, e0) == Scan(src, m, j, b, e)
      invariant (exists i :: 0 <= i < j && src[i] == m) ==> delta <= j
    {
      var c := src[j];
      ScanUnfold(src, m, j, b, e);
      KeptSteps(src, m, j);
      e := Step(c, m, b, e);
      if c < m {
        if delta == MAX_U32 {
          delta := 0;
        } else {
          delta := delta + 1;
        }
        if delta == 0 {
          ScanPeak(src, m, j + 1, b, e);
          ok := false;
          return;
        }
      }
      if c == m {
        EmitDelta(delta, bias, d);
        h := h + 1;
        bias := AdaptBias(delta, h, first);
        first := false;
        delta := 0;
        todo := todo - 1;
      }
      j := j + 1;
    }
    ScanEnds(src, m, b, e);
    ok := true;
  }

  lemma ScanEnds(src: seq<nat>, m: nat, b: nat, e: Enc)
    ensures Scan(src, m, |src|, b, e) == e
  {
  }

  /** The least code point from `n` on. */
  method FindLeast(src: seq<nat>, n: U32) returns (m: U32)
    ensures m == LeastFrom(src, n, |src|)
  {
    m := MAX_U32;
    var j := 0;
    while j < |src|
      invariant 0 <= j <= |src| && m == LeastFrom(src, n, j)
    {
      var c := src[j];
      if c >= n {
        if c < m {
          m := c;
        }
      }
      j := j + 1;
    }
  }

  predicate CodePoints(src: seq<nat>) {
    forall i :: 0 <= i < |src| ==> src[i] < CODE_LIMIT || src[i] == BAD_CODE
  }

  predicate AllBasic(src: seq<nat>) {
    forall i :: 0 <= i < |src| ==> src[i] < 128
  }

  lemma {:induction false} KeptPrefix(src: seq<nat>, m: nat, j: nat, l: nat, len: nat)
    requires l <= len <= |src|
    ensures Kept(src, m, j, l) <= Kept(src, m, j, len)
  {
    if l < len {
      KeptPrefix(src, m, j, l, len - 1);
    }
  }

  lemma BasicWhenFull(src: seq<nat>, j: nat)
    requires j <= |src| && |Kept(src, 128, 0, j)| == |Basic(src)|
    ensures Kept(src, 128, 0, j) == Basic(src)
  {
    KeptPrefix(src, 128, 0, j, |src|);
  }

  /** The first pass: how many code points are basic, and how many are not. */
  method CountCodes(src: seq<nat>) returns (ok: bool, h: U32, todo: U32)
    requires |src| < MAX_U32 && CodePoints(src)
    ensures ok <==> IsLabel(src)
    ensures ok ==> h == |Basic(src)| && todo == |src| - h
  {
    h, todo := 0, 0;
    var j := 0;
    while j < |src|
      invariant 0 <= j <= |src| && h == |Kept(src, 128, 0, j)| && todo == j - h
      invariant forall i :: 0 <= i < j ==> src[i] < CODE_LIMIT
    {
      var c := src[j];
      if c < 128 {
        h := h + 1;
      } else if c == BAD_CODE {
        return false, h, todo;
      } else {
        todo := todo + 1;
      }
      j := j + 1;
    }
    ok := true;
  }

  /** The second pass: the basic code points, in order. */
  method WriteBasic(src: seq<nat>, h: U32, d: Buffer)
    requires |src| < MAX_U32 && IsLabel(src) && h == |Basic(src)| && d.Valid()
    modifies d
    ensures d.Valid() && d.all == old(d.all) + Basic(src)
  {
    hide Clip;
    var x: U32 := 0;
    var j := 0;
    while j < |src|
      invariant 0 <= j <= |src| && x == |Kept(src, 128, 0, j)|
      invariant d.Valid() && d.all == old(d.all) + Kept(src, 128, 0, j)
    {
      var c := src[j];
      j := j + 1;
      if c > 127 {
        continue;
      }
      d.Put(c);
      x := x + 1;
      if x == h {
        BasicWhenFull(src, j);
        return;
      }
    }
  }

  lemma LeastIsNext(src: seq<nat>, n: nat)
    requires IsLabel(src) && |Kept(src, n, 0, |src|)| < |src|
    ensures var m := LeastFrom(src, n, |src|);
            n <= m < CODE_LIMIT && (exists i :: 0 <= i < |src| && src[i] == m)
            && Kept(src, m, 0, |src|) == Kept(src, n, 0, |src|)
            && Kept(src, m, |src|, |src|) == Kept(src, m + 1, 0, |src|)
  {
    var m := LeastFrom(src, n, |src|);
    KeptAll(src, n, 0, |src|);
    LeastFromIs(src, n, |src|);
    KeptSame(src, m, 0, n, 0, |src|);
    KeptSame(src, m, |src|, m + 1, 0, |src|);
  }

  lemma RoundsUnfold(src: seq<nat>, n: nat, b: nat, e: Enc)
    requires var m := LeastFrom(src, n, |src|); n <= m < MAX_U32
    ensures var m := LeastFrom(src, n, |src|);
      Rounds(src, n, b, e) == Rounds(src, m + 1, b, NextRound(Scan(src, m, 0, b, Grow(e, (m - n) * (e.h + 1)))))
  {
  }

  lemma RoundsEnd(src: seq<nat>, n: nat, b: nat, e: Enc)
    requires |Kept(src, n, 0, |src|)| == |src|
    ensures Rounds(src, n, b, e) == e
  {
    KeptAll(src, n, 0, |src|);
    forall l: nat | l < |src|
      ensures src[l] < n
    {
      assert Keeps(src, n, 0, l);
    }
    NoneFrom(src, n, |src|);
  }

  lemma {:induction false} NoneFrom(src: seq<nat>, n: nat, j: nat)
    requires j <= |src| && forall l: nat :: l < j ==> src[l] < n
    ensures LeastFrom(src, n, j) == MAX_U32
  {
    if j > 0 {
      NoneFrom(src, n, j - 1);
    }
  }

  /** The overflow check is exact. */
  lemma ProductFits(x: nat, y: nat, room: nat)
    requires y > 0
    ensures x > room / y <==> x * y > room
  {
    DivisionBounds(room, y);
    if x > room / y {
      ProductGrows(y, room / y + 1, x);
    } else {
      ProductGrows(y, x, room / y);
    }
  }

  /** The rounds of the encoder. */
  method WriteDeltas(src: seq<nat>, h0: U32, todo0: U32, d: Buffer) returns (ok: bool)
    requires |src| < MAX_U32 && IsLabel(src) && h0 == |Basic(src)| && todo0 == |src| - h0 && d.Valid()
    modifies d
    ensures ok <==> Encoded(src).peak <= MAX_U32
    ensures ok ==> d.Valid() && d.all == old(d.all) + Encoded(src).out
  {
    hide Rounds, Scan, Kept, IsLabel, LeastFrom;
    var n: U32, bias: U32, delta: U32, first := 128, 72, 0, true;
    var h: U32, todo: U32 := h0, todo0;
    ghost var b := |Basic(src)|;
    ghost var e := Enc([], 0, b, 72, 0);
    ghost var p := d.all;
    while todo > 0
      invariant n <= CODE_LIMIT && Holds(e, delta, h, bias, first, b, d, p)
      invariant h == |Kept(src, n, 0, |src|)| && todo == |src| - h && b <= h
      invariant Rounds(src, n, b, e) == Encoded(src)
      decreases CODE_LIMIT - n
    {
      LeastIsNext(src, n);
      RoundsUnfold(src, n, b, e);
      var m := FindLeast(src, n);
      var x: U32, y: U32 := m - n, h + 1;
      ProductFits(x, y, MAX_U32 - delta);
      e := Grow(e, (m - n) * (e.h + 1));
      if x > (MAX_U32 - delta) / y {
        ScanPeak(src, m, 0, b, e);
        RoundsPeak(src, m + 1, b, NextRound(Scan(src, m, 0, b, e)));
        return false;
      }
      delta := delta + x * y;
      n := m;
      ok, delta, h, bias, first, todo := ScanRound(src, m, delta, h, bias, first, todo, d, b, e, p);
      e := Scan(src, m, 0, b, e);
      if !ok {
        RoundsPeak(src, m + 1, b, NextRound(e));
        return;
      }
      delta := delta + 1;
      n := n + 1;
      e := NextRound(e);
    }
    RoundsEnd(src, n, b, e);
    ok := true;
  }

  /** uv__idna_toascii_label */
  method EncodeLabel(src: seq<nat>, d: Buffer) returns (r: Outcome)
    requires |src| < MAX_U32 && CodePoints(src) && d.Valid()
    modifies d
    ensures r == InvalidInput <==> !IsLabel(src)
    ensures r == InvalidInput ==> d.all == old(d.all)
    ensures AllBasic(src) ==> r == Written(|src|) && d.Valid() && d.all == old(d.all) + src
    ensures IsLabel(src) && !AllBasic(src) ==>
      (r == TooBig <==> Encoded(src).peak > MAX_U32) && (r != TooBig ==>
        r == Written(0) && d.Valid() && d.all == old(d.all) + FullText(src))
  {
    hide Encoded, Kept, Clip;
    var ok, h, todo := CountCodes(src);
    if !ok {
      return InvalidInput;
    }
    KeptAll(src, 128, 0, |src|);
    assert AllBasic(src) <==> todo == 0 by {
      assert forall l: nat :: l < |src| ==> (Keeps(src, 128, 0, l) <==> src[l] < 128);
    }
    if todo > 0 {
      d.Put(120);
      d.Put(110);
      d.Put(DASH);
      d.Put(DASH);
    }
    WriteBasic(src, h, d);
    if todo == 0 {
      assert src[..|src|] == src;
      return Written(h);
    }
    if h > 0 {
      d.Put(DASH);
    }
    assert d.all == old(d.all) + Prefix(src);
    ok := WriteDeltas(src, h, todo, d);
    if !ok {
      return TooBig;
    }
    return Written(0);
  }
}
