/** The decoder of section 6.2 of RFC 3492, and the proof that it undoes the encoder. */
module PunycodeDecode {
  import opened Options
  import opened Punycode

  /** The digit a letter stands for; upper and lower case mean the same. */
  function DigitOf(c: nat): Option<nat> {
    if 97 <= c <= 122 then Some(c - 97)
    else if 65 <= c <= 90 then Some(c - 65)
    else if 48 <= c <= 57 then Some(c - 22)
    else None
  }

  /** The threshold of a digit: t_min is 1 and t_max 26. */
  function Limit(k: nat, bias: nat): (t: nat)
    ensures 1 <= t <= 26
  {
    if k <= bias + 1 then 1 else if k >= bias + 26 then 26 else k - bias
  }

  /** The bias adaptation of section 6.1. */
  function Adapted(delta: nat, points: nat, first: bool): nat
    requires points > 0
  {
    var d := if first then delta / 700 else delta / 2;
    AdaptedFrom(d + Div(d, points), 0)
  }

  function AdaptedFrom(delta: nat, k: nat): nat {
    if delta > 35 * 26 / 2 then AdaptedFrom(delta / 35, k + 36) else k + 36 * delta / (delta + 38)
  }

  /** Adds one generalized variable-length integer, with weight `w`, to `i`. */
  function DecodeDelta(input: Text, i: nat, w: nat, k: nat, bias: nat): (r: Option<(nat, Text)>)
    ensures r.Some? ==> |r.value.1| < |input|
    decreases |input|
  {
    if input == [] then None
    else
      match DigitOf(input[0])
      case None => None
      case Some(digit) =>
        var t := Limit(k, bias);
        if digit < t then Some((i + digit * w, input[1..]))
        else DecodeDelta(input[1..], i + digit * w, w * (36 - t), k + 36, bias)
  }

  datatype Dec = Dec(n: nat, i: nat, bias: nat, out: seq<nat>)

  /** Moves the decoder on by `delta` places and inserts a code point there. */
  function Insert(d: Dec, delta: nat): Dec {
    var i := d.i + delta;
    var len := |d.out| + 1;
    var n := d.n + i / len;
    var at := i % len;
    Dec(n, at + 1, Adapted(delta, len, d.i == 0), d.out[..at] + [n] + d.out[at..])
  }

  function DecodeDeltas(d: Dec, input: Text): Option<seq<nat>>
    decreases |input|
  {
    if input == [] then Some(d.out)
    else
      match DecodeDelta(input, d.i, 1, 36, d.bias)
      case None => None
      case Some((i, rest)) => if i < d.i then None else DecodeDeltas(Insert(d, i - d.i), rest)
  }

  /** One past the last delimiter, or zero. */
  function AfterDash(input: Text, j: nat): (r: nat)
    requires j <= |input|
    ensures r <= j
  {
    if j == 0 then 0 else if input[j - 1] == DASH then j else AfterDash(input, j - 1)
  }

  /** The decoder, for the text behind the prefix "xn--". */
  function Decode(input: Text): Option<seq<nat>> {
    var r := AfterDash(input, |input|);
    var basic := if r == 0 then [] else input[..r - 1];
    DecodeDeltas(Dec(128, 0, 72, basic), input[r..])
  }

  // ----- The bias -----

  function Pow35(n: nat): nat {
    if n == 0 then 1 else 35 * Pow35(n - 1)
  }

  lemma {:induction false} PowerPositive(n: nat)
    ensures Pow35(n) > 0
  {
    if n > 0 {
      PowerPositive(n - 1);
    }
  }

  lemma DivideTwice(x: nat, y: nat)
    requires y > 0
    ensures 35 * y > 0 && x / 35 / y == x / (35 * y)
  {
    var q, r := x / 35 / y, x / 35 % y;
    DivisionBounds(x / 35, y);
    var s := r * 35 + x % 35;
    assert x == (q * y + r) * 35 + x % 35 == q * (35 * y) + s;
    PlaceIs(x, 35 * y, q, s);
  }

  /** What the loop of the adaptation computes, as a formula: the number is divided by 35 as often as it
      takes to bring it down to 455. */
  lemma {:induction false} AdaptedIs(delta: nat, k: nat) returns (n: nat, x: nat)
    ensures Pow35(n) > 0 && x == delta / Pow35(n) <= 455 && AdaptedFrom(delta, k) == k + 36 * n + 36 * x / (x + 38)
    ensures n > 0 ==> Pow35(n - 1) > 0 && delta / Pow35(n - 1) > 455
    decreases delta
  {
    if delta > 455 {
      n, x := AdaptedIs(delta / 35, k + 36);
      PowerPositive(n + 1);
      DivideTwice(delta, Pow35(n));
      if n > 0 {
        PowerPositive(n);
        DivideTwice(delta, Pow35(n - 1));
      } else {
        assert Pow35(0) == 1;
      }
      n := n + 1;
    } else {
      n, x := 0, delta;
    }
  }

  lemma SameLimit(k: nat, bias: nat)
    ensures Limit(k, bias) == Threshold(k, bias)
  {
  }

  lemma {:induction false} SameLoop(delta: nat, k: nat)
    ensures AdaptedFrom(delta, k) == AdaptLoop(delta, k)
    decreases delta
  {
    if delta > 455 {
      SameLoop(delta / 35, k + 36);
    }
  }

  lemma SameAdapt(delta: nat, points: nat, first: bool)
    requires points > 0
    ensures Adapted(delta, points, first) == Adapt(delta, points, first)
  {
    hide AdaptLoop, AdaptedFrom, Div;
    var d := if first then delta / 700 else delta / 2;
    SameLoop(d + Div(d, points), 0);
  }

  // ----- One delta -----

  lemma LetterRoundTrip(t: nat)
    requires t < 36
    ensures DigitOf(Letter(t)) == Some(t) && Letter(t) != DASH
  {
  }

  lemma WeightedDigit(q: nat, t: nat, i: nat, w: nat, a: nat, r: nat)
    requires q == t + (36 - t) * a + r && t <= 26
    ensures i + (t + r) * w + a * (w * (36 - t)) == i + q * w
  {
    calc {
      a * (w * (36 - t));
      (a * (36 - t)) * w;
    }
    assert (t + r) * w + (a * (36 - t)) * w == (t + r + a * (36 - t)) * w;
  }

  lemma DecodeTurns(digit: nat, rest: Text, i: nat, w: nat, k: nat, bias: nat)
    requires digit < 36
    ensures var t := Threshold(k, bias);
      DecodeDelta([Letter(digit)] + rest, i, w, k, bias) ==
        if digit < t then Some((i + digit * w, rest)) else DecodeDelta(rest, i + digit * w, w * (36 - t), k + 36, bias)
  {
    LetterRoundTrip(digit);
    SameLimit(k, bias);
    var input := [Letter(digit)] + rest;
    assert input[1..] == rest;
  }

  lemma {:induction false} DigitsRoundTrip(q: nat, k: nat, bias: nat, i: nat, w: nat, rest: Text)
    ensures DecodeDelta(Digits(q, k, bias) + rest, i, w, k, bias) == Some((i + q * w, rest))
    ensures DASH !in Digits(q, k, bias)
    decreases q, 1
  {
    hide Letter, Threshold, DigitOf, Digits, DecodeDelta;
    var t := Threshold(k, bias);
    if q < t {
      DigitsEnd(q, k, bias);
      LetterRoundTrip(q);
      DecodeTurns(q, rest, i, w, k, bias);
    } else {
      DivisionBounds(q - t, 36 - t);
      DigitsUnfold(q, k, bias);
      var a, r := (q - t) / (36 - t), (q - t) % (36 - t);
      FromQuotient(q, k, bias, i, w, rest, t, a, r);
    }
  }

  lemma {:induction false} FromQuotient(q: nat, k: nat, bias: nat, i: nat, w: nat, rest: Text, t: nat, a: nat, r: nat)
    requires t == Threshold(k, bias) && 1 <= t <= 26 && q == t + (36 - t) * a + r && r < 36 - t && a < q
    requires Digits(q, k, bias) == [Letter(t + r)] + Digits(a, k + 36, bias)
    ensures DecodeDelta(Digits(q, k, bias) + rest, i, w, k, bias) == Some((i + q * w, rest))
    ensures DASH !in Digits(q, k, bias)
    decreases q, 0
  {
    hide Letter, Threshold, DigitOf, Digits, DecodeDelta;
    LetterRoundTrip(t + r);
    DigitsRoundTrip(a, k + 36, bias, i + (t + r) * w, w * (36 - t), rest);
    DecodeTurns(t + r, Digits(a, k + 36, bias) + rest, i, w, k, bias);
    assert Digits(q, k, bias) + rest == [Letter(t + r)] + (Digits(a, k + 36, bias) + rest);
    WeightedDigit(q, t, i, w, a, r);
  }

  // ----- Encoder and decoder in step -----

  /** Position `j` of the scan for `m`: the decoder holds what was written so far, and the
      pending delta is the way from the decoder's place to this position. */
  ghost predicate Synced(src: seq<nat>, m: nat, j: nat, b: nat, e: Enc, d: Dec)
    requires j <= |src|
  {
    && d.n <= m && b <= e.h == |d.out| && d.bias == e.bias && (e.h == b <==> d.i == 0)
    && d.out == Kept(src, m, j, |src|)
    && d.i + e.delta == (m - d.n) * (e.h + 1) + |Kept(src, m, j, j)|
  }

  lemma PlaceIs(i: nat, len: nat, turns: nat, at: nat)
    requires at < len && i == turns * len + at
    ensures i / len == turns && i % len == at
  {
    DivisionBounds(i, len);
    if i / len > turns {
      ProductGrows(len, turns + 1, i / len);
    } else if i / len < turns {
      ProductGrows(len, i / len + 1, turns);
    }
  }

  lemma KeptPlace(src: seq<nat>, m: nat, j: nat)
    requires j < |src|
    ensures |Kept(src, m, j + 1, j + 1)| == |Kept(src, m, j, j)| + if src[j] <= m then 1 else 0
  {
    KeptSame(src, m, j, m, j + 1, j);
  }

  lemma DecodeOne(d: Dec, delta: nat, rest: Text)
    ensures DecodeDeltas(d, Digits(delta, 36, d.bias) + rest) == DecodeDeltas(Insert(d, delta), rest)
    ensures DASH !in Digits(delta, 36, d.bias)
  {
    hide Digits, DecodeDelta, Insert;
    DigitsRoundTrip(delta, 36, d.bias, d.i, 1, rest);
    assert Digits(delta, 36, d.bias) + rest != [];
  }

  lemma InsertSynced(src: seq<nat>, m: nat, j: nat, b: nat, e: Enc, d: Dec)
    requires j < |src| && src[j] == m && Synced(src, m, j, b, e, d)
    ensures Synced(src, m, j + 1, b, Step(m, m, b, e), Insert(d, e.delta))
  {
    hide Kept, Digits, Adapt, Adapted;
    SameAdapt(e.delta, e.h + 1, d.i == 0);
    KeptInsert(src, m, j, |src|);
    KeptPlace(src, m, j);
    PlaceIs(d.i + e.delta, e.h + 1, m - d.n, |Kept(src, m, j, j)|);
    StepEmits(m, b, e);
  }

  lemma PassSynced(src: seq<nat>, m: nat, j: nat, b: nat, e: Enc, d: Dec)
    requires j < |src| && src[j] != m && Synced(src, m, j, b, e, d)
    ensures Synced(src, m, j + 1, b, Step(src[j], m, b, e), d)
  {
    KeptPlace(src, m, j);
    KeptSame(src, m, j, m, j + 1, |src|);
  }

  /** The decoder after the deltas of the rest of a scan. */
  function DecoderAfter(src: seq<nat>, m: nat, j: nat, b: nat, e: Enc, d: Dec): Dec
    requires j <= |src|
    decreases |src| - j
  {
    if j == |src| then d
    else DecoderAfter(src, m, j + 1, b, Step(src[j], m, b, e), if src[j] == m then Insert(d, e.delta) else d)
  }

  lemma {:induction false} ScanSynced(src: seq<nat>, m: nat, j: nat, b: nat, e: Enc, d: Dec, rest: Text) returns (w: Text)
    requires j <= |src| && Synced(src, m, j, b, e, d)
    ensures Synced(src, m, |src|, b, Scan(src, m, j, b, e), DecoderAfter(src, m, j, b, e, d))
    ensures Scan(src, m, j, b, e).out == e.out + w && DASH !in w
    ensures DecodeDeltas(d, w + rest) == DecodeDeltas(DecoderAfter(src, m, j, b, e, d), rest)
    decreases |src| - j
  {
    hide Kept, Digits, Adapt, Step, Synced, Insert, DecodeDeltas, Scan;
    if j == |src| {
      ScanEnds(src, m, b, e);
      w := [];
      assert [] + rest == rest && e.out + [] == e.out;
    } else {
      ScanUnfold(src, m, j, b, e);
      if src[j] == m {
        InsertSynced(src, m, j, b, e, d);
        var x := Digits(e.delta, 36, e.bias);
        var w1 := ScanSynced(src, m, j + 1, b, Step(m, m, b, e), Insert(d, e.delta), rest);
        StepEmits(m, b, e);
        SyncedBias(src, m, j, b, e, d);
        DecodeOne(d, e.delta, w1 + rest);
        w := x + w1;
        assert w + rest == x + (w1 + rest) && (e.out + x) + w1 == e.out + w;
      } else {
        PassSynced(src, m, j, b, e, d);
        StepPasses(src[j], m, b, e);
        w := ScanSynced(src, m, j + 1, b, Step(src[j], m, b, e), d, rest);
      }
    }
  }

  lemma SyncedBias(src: seq<nat>, m: nat, j: nat, b: nat, e: Enc, d: Dec)
    requires j <= |src| && Synced(src, m, j, b, e, d)
    ensures e.bias == d.bias && d.out == Kept(src, m, j, |src|) && e.h == |d.out|
  {
  }

  lemma StepPasses(c: nat, m: nat, b: nat, e: Enc)
    requires c != m
    ensures Step(c, m, b, e).out == e.out
  {
  }

  /** Between rounds the pending delta leads to the first place for the next code point. */
  lemma RoundBegins(src: seq<nat>, n: nat, m: nat, b: nat, e: Enc, d: Dec)
    requires Synced(src, n, 0, b, e, d) && n <= m && Kept(src, m, 0, |src|) == Kept(src, n, 0, |src|)
    ensures Synced(src, m, 0, b, Grow(e, (m - n) * (e.h + 1)), d)
  {
    assert (m - d.n) * (e.h + 1) == (m - n) * (e.h + 1) + (n - d.n) * (e.h + 1);
  }

  lemma RoundEnds(src: seq<nat>, m: nat, b: nat, e: Enc, d: Dec)
    requires Synced(src, m, |src|, b, e, d) && Kept(src, m, |src|, |src|) == Kept(src, m + 1, 0, |src|)
    ensures Synced(src, m + 1, 0, b, NextRound(e), d)
  {
    assert (m + 1 - d.n) * (e.h + 1) == (m - d.n) * (e.h + 1) + (e.h + 1);
  }

  lemma {:induction false} RoundsSynced(src: seq<nat>, n: nat, b: nat, e: Enc, d: Dec) returns (w: Text)
    requires IsLabel(src) && Synced(src, n, 0, b, e, d) && n <= CODE_LIMIT
    ensures Rounds(src, n, b, e).out == e.out + w && DASH !in w
    ensures DecodeDeltas(d, w) == Some(src)
    decreases CODE_LIMIT - n, 1
  {
    hide Kept, Synced, Scan, Rounds, LeastFrom, IsLabel;
    SyncedBias(src, n, 0, b, e, d);
    if e.h == |src| {
      RoundsEnd(src, n, b, e);
      KeptAll(src, n, 0, |src|);
      w := [];
      assert src[..|src|] == src && e.out + [] == e.out;
    } else {
      var m := LeastFrom(src, n, |src|);
      LeastIsNext(src, n);
      RoundsUnfold(src, n, b, e);
      var g := Grow(e, (m - n) * (e.h + 1));
      RoundBegins(src, n, m, b, e, d);
      w := RoundThenRest(src, m, b, g, d);
    }
  }

  lemma {:induction false} RoundThenRest(src: seq<nat>, m: nat, b: nat, g: Enc, d: Dec) returns (w: Text)
    requires IsLabel(src) && Synced(src, m, 0, b, g, d) && m < CODE_LIMIT
    requires Kept(src, m, |src|, |src|) == Kept(src, m + 1, 0, |src|)
    ensures Rounds(src, m + 1, b, NextRound(Scan(src, m, 0, b, g))).out == g.out + w && DASH !in w
    ensures DecodeDeltas(d, w) == Some(src)
    decreases CODE_LIMIT - m, 0
  {
    hide Kept, Synced, Scan, Rounds, LeastFrom, IsLabel, DecodeDeltas, DecoderAfter;
    var e := NextRound(Scan(src, m, 0, b, g));
    var d' := DecoderAfter(src, m, 0, b, g, d);
    var w0 := ScanSynced(src, m, 0, b, g, d, []);
    RoundEnds(src, m, b, Scan(src, m, 0, b, g), d');
    var w2 := RoundsSynced(src, m + 1, b, e, d');
    var w1 := ScanSynced(src, m, 0, b, g, d, w2);
    w := w1 + w2;
    assert (g.out + w1) + w2 == g.out + w;
  }

  // ----- The whole label -----

  lemma {:induction false} DashBefore(p: Text, w: Text)
    requires DASH !in w
    ensures AfterDash(p + w, |p + w|) == AfterDash(p, |p|)
  {
    if w == [] {
      assert p + w == p;
    } else {
      var last := |w| - 1;
      DashBefore(p, w[..last]);
      AfterDashPrefix(p + w, p + w[..last], |p| + last);
    }
  }

  lemma {:induction false} AfterDashPrefix(s: Text, t: Text, j: nat)
    requires j <= |s| && j <= |t| && s[..j] == t[..j]
    ensures AfterDash(s, j) == AfterDash(t, j)
  {
    if j > 0 {
      assert s[j - 1] == s[..j][j - 1] && t[j - 1] == t[..j][j - 1];
      assert s[..j - 1] == s[..j][..j - 1] && t[..j - 1] == t[..j][..j - 1];
      AfterDashPrefix(s, t, j - 1);
    }
  }

  /** Main theorem. Behind "xn--", the decoder of the standard finds the original label. */
  lemma RoundTrip(src: seq<nat>)
    requires IsLabel(src) && !AllBasic(src)
    ensures FullText(src)[..4] == [120, 110, DASH, DASH]
    ensures Decode(FullText(src)[4..]) == Some(src)
  {
    hide Rounds, DecodeDeltas, Kept, IsLabel;
    var basic := Basic(src);
    var b := |basic|;
    var e, d := Enc([], 0, b, 72, 0), Dec(128, 0, 72, basic);
    assert Synced(src, 128, 0, b, e, d) by {
      KeptNone(src, 128, 0);
    }
    var w := RoundsSynced(src, 128, b, e, d);
    assert Encoded(src).out == w by {
      assert e.out + w == w;
    }
    var p := if basic == [] then [] else basic + [DASH];
    var input := FullText(src)[4..];
    assert input == p + w;
    DashBefore(p, w);
    if basic == [] {
      assert input[0..] == w;
    } else {
      assert input[|p|..] == w && input[..|p| - 1] == basic;
    }
  }

  lemma KeptNone(src: seq<nat>, m: nat, j: nat)
    ensures Kept(src, m, j, 0) == []
  {
  }

  // ----- Which names collide -----

  /** What the encoder writes for a label. */
  function Name(src: seq<nat>): Text {
    if AllBasic(src) then src else FullText(src)
  }

  lemma LetterIsBasic(t: nat)
    requires t < 36
    ensures Letter(t) < 128
  {
  }

  lemma {:induction false} DigitsAreBasic(q: nat, k: nat, bias: nat)
    ensures AllBasic(Digits(q, k, bias))
    decreases q
  {
    hide Letter, Digits, Threshold;
    var t := Threshold(k, bias);
    if q < t {
      DigitsEnd(q, k, bias);
      LetterIsBasic(q);
    } else {
      DivisionBounds(q - t, 36 - t);
      DigitsUnfold(q, k, bias);
      LetterIsBasic(t + (q - t) % (36 - t));
      DigitsAreBasic((q - t) / (36 - t), k + 36, bias);
    }
  }

  lemma {:induction false} ScanIsBasic(src: seq<nat>, m: nat, j: nat, b: nat, e: Enc)
    requires j <= |src| && AllBasic(e.out)
    ensures AllBasic(Scan(src, m, j, b, e).out)
    decreases |src| - j
  {
    hide Digits, Adapt;
    if j < |src| {
      DigitsAreBasic(e.delta, 36, e.bias);
      ScanIsBasic(src, m, j + 1, b, Step(src[j], m, b, e));
    }
  }

  lemma {:induction false} RoundsAreBasic(src: seq<nat>, n: nat, b: nat, e: Enc)
    requires AllBasic(e.out)
    ensures AllBasic(Rounds(src, n, b, e).out)
    decreases MAX_U32 - n
  {
    hide Scan;
    var m := LeastFrom(src, n, |src|);
    if n <= m < MAX_U32 {
      var g := Grow(e, (m - n) * (e.h + 1));
      ScanIsBasic(src, m, 0, b, g);
      RoundsAreBasic(src, m + 1, b, NextRound(Scan(src, m, 0, b, g)));
    }
  }

  lemma {:induction false} KeptIsBasic(src: seq<nat>, len: nat)
    requires len <= |src|
    ensures AllBasic(Kept(src, 128, 0, len))
  {
    if len > 0 {
      KeptIsBasic(src, len - 1);
    }
  }

  /** The name of a label that is not all ASCII is an ASCII label itself. */
  lemma TextIsBasic(src: seq<nat>)
    ensures AllBasic(FullText(src)) && IsLabel(FullText(src))
  {
    hide Rounds, Kept;
    KeptIsBasic(src, |src|);
    RoundsAreBasic(src, 128, |Basic(src)|, Enc([], 0, |Basic(src)|, 72, 0));
  }

  /** Two labels get the same name exactly when they are the same, or one of them is ASCII and
      spells the encoding of the other. */
  lemma NamesCollideIff(src: seq<nat>, other: seq<nat>)
    requires IsLabel(src) && IsLabel(other)
    ensures Name(src) == Name(other) <==>
      src == other || (!AllBasic(other) && src == FullText(other)) || (!AllBasic(src) && other == FullText(src))
  {
    hide FullText;
    TextIsBasic(src);
    TextIsBasic(other);
    if !AllBasic(src) && !AllBasic(other) {
      RoundTrip(src);
      RoundTrip(other);
    }
  }

  lemma KnownDigits()
    ensures Digits(745, 36, 72) == [107, 118, 97]
  {
    assert Digits(0, 108, 72) == [97] && Digits(21, 72, 72) == [118, 97];
  }

  lemma KnownRounds(src: seq<nat>)
    requires src == [98, 252, 99, 104, 101, 114]
    ensures LeastFrom(src, 128, 6) == 252 && LeastFrom(src, 253, 6) == MAX_U32
  {
    hide LeastFrom;
    LeastFromIs(src, 128, 6);
    LeastFromIs(src, 253, 6);
    assert src[1] == 252;
  }

  /** A basic code point only moves the delta on. */
  lemma ScanBasic(src: seq<nat>, m: nat, j: nat, b: nat, e: Enc)
    requires j < |src| && src[j] < m
    ensures Scan(src, m, j, b, e) == Scan(src, m, j + 1, b, Grow(e, 1))
  {
  }

  lemma KnownScan(src: seq<nat>)
    requires src == [98, 252, 99, 104, 101, 114]
    ensures Scan(src, 252, 0, 5, Enc([], 744, 5, 72, 744)).out == [107, 118, 97]
  {
    hide Digits, Adapt, Scan;
    KnownDigits();
    var e0, e1 := Enc([], 744, 5, 72, 744), Enc([], 745, 5, 72, 745);
    ScanBasic(src, 252, 0, 5, e0);
    ScanUnfold(src, 252, 1, 5, e1);
    var e := Step(252, 252, 5, e1);
    ScanBasic(src, 252, 2, 5, e);
    ScanBasic(src, 252, 3, 5, Grow(e, 1));
    ScanBasic(src, 252, 4, 5, Grow(Grow(e, 1), 1));
    ScanBasic(src, 252, 5, 5, Grow(Grow(Grow(e, 1), 1), 1));
    ScanEnds(src, 252, 5, Grow(Grow(Grow(Grow(e, 1), 1), 1), 1));
    assert [] + [107, 118, 97] == [107, 118, 97];
  }

  /** The name of "b\u00fccher" is "xn--bcher-kva". */
  lemma KnownName()
    ensures FullText([98, 252, 99, 104, 101, 114]) == [120, 110, 45, 45, 98, 99, 104, 101, 114, 45, 107, 118, 97]
  {
    hide LeastFrom, Scan;
    var src: seq<nat> := [98, 252, 99, 104, 101, 114];
    KnownRounds(src);
    KnownScan(src);
    assert Kept(src, 128, 0, 3) == [98, 99];
    assert Basic(src) == [98, 99, 104, 101, 114];
    var e := Enc([], 0, 5, 72, 0);
    assert Grow(e, (252 - 128) * 6) == Enc([], 744, 5, 72, 744);
    var after := NextRound(Scan(src, 252, 0, 5, Enc([], 744, 5, 72, 744)));
    assert Rounds(src, 253, 5, after) == after;
  }
}
