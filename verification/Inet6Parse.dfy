/** The IPv6 parser (inet_pton6 in inet.c), and the proof that it undoes the printer. */
module Inet6Parse {
  import opened Options
  import opened Inet
  import opened Inet6

  /** The parser's variables: the bytes stored, where "::" stood, the digits of the current
      word and their value, and the text from the current word on. */
  datatype Parser = Parser(out: seq<Octet>, colon: Option<nat>, seen: nat, val: nat, tok: string)

  const START := Parser([], None, 0, 0, "")

  function Zeros(n: nat): seq<Octet> {
    seq(n, _ => 0)
  }

  function TwoBytes(val: nat): (b: seq<Octet>)
    ensures |b| == 2
  {
    [val / 256 % 256, val % 256]
  }

  /** Stores the last word and puts the zeros in for "::". */
  function Finish(p: Parser): Option<seq<Octet>> {
    if p.seen > 0 && |p.out| + 2 > 16 then None
    else
      var out := if p.seen > 0 then p.out + TwoBytes(p.val) else p.out;
      if p.colon.Some? && p.colon.value <= |out| then
        if |out| >= 16 then None
        else Some(out[..p.colon.value] + Zeros(16 - |out|) + out[p.colon.value..])
      else if |out| == 16 then Some(out) else None
  }

  function Loop6(s: string, p: Parser): Option<seq<Octet>>
    decreases |s|
  {
    if s == [] then Finish(p)
    else
      match HexVal(s[0])
      case Some(d) =>
        if p.seen + 1 > 4 then None
        else Loop6(s[1..], p.(val := p.val * 16 + d, seen := p.seen + 1))
      case None =>
        if s[0] == ':' then
          if p.seen == 0 then
            if p.colon.Some? then None
            else Loop6(s[1..], p.(colon := Some(|p.out|), tok := s[1..]))
          else if s[1..] == [] || |p.out| + 2 > 16 then None
          else Loop6(s[1..], Parser(p.out + TwoBytes(p.val), p.colon, 0, 0, s[1..]))
        else if s[0] == '.' && |p.out| + 4 <= 16 then
          match Parse4(p.tok)
          case Some(b) => Finish(p.(out := p.out + b, seen := 0))
          case None => None
        else None
  }

  /** inet_pton6 as a function. */
  function Parse6(s: string): Option<seq<Octet>> {
    if s != [] && s[0] == ':' then
      if |s| < 2 || s[1] != ':' then None
      else Loop6(s[1..], START.(tok := s[1..]))
    else Loop6(s, START.(tok := s))
  }

  /** Moves the bytes from `colonp` on to the end of the buffer, zeros taking their place. */
  method ShiftToEnd(tmp: array<Octet>, colonp: nat, tp: nat)
    requires tmp.Length == 16 && colonp <= tp < 16
    requires forall k :: tp <= k < 16 ==> tmp[k] == 0
    modifies tmp
    ensures tmp[..] == old(tmp[..colonp]) + Zeros(16 - tp) + old(tmp[colonp..tp])
  {
    var n := tp - colonp;
    for i := 1 to n + 1
      invariant forall k :: 0 <= k < tp - i + 1 ==> tmp[k] == old(tmp[k])
      invariant forall k :: tp - i + 1 <= k < 16 - i + 1 ==> tmp[k] == 0
      invariant forall k :: 16 - i + 1 <= k < 16 ==> tmp[k] == old(tmp[k - 16 + tp])
    {
      tmp[16 - i] := tmp[colonp + n - i];
      tmp[colonp + n - i] := 0;
    }
  }

  /** Bytes written through the advancing pointer. */
  method Store(tmp: array<Octet>, tp: nat, b: seq<Octet>)
    requires tmp.Length == 16 && tp + |b| <= 16
    requires forall k :: tp <= k < 16 ==> tmp[k] == 0
    modifies tmp
    ensures tmp[..tp + |b|] == old(tmp[..tp]) + b
    ensures forall k :: tp + |b| <= k < 16 ==> tmp[k] == 0
  {
    for i := 0 to |b|
      invariant tmp[..tp + i] == old(tmp[..tp]) + b[..i]
      invariant forall k :: tp + i <= k < 16 ==> tmp[k] == 0
    {
      tmp[tp + i] := b[i];
      assert tmp[..tp + i + 1] == tmp[..tp + i] + [b[i]];
    }
    assert b[..|b|] == b;
  }

  /** A digit, a colon before any digit, and a colon behind digits. */
  lemma Turns(s: string, p: Parser)
    requires s != []
    ensures HexVal(s[0]).Some? ==> (Loop6(s, p) ==
      if p.seen + 1 > 4 then None
      else Loop6(s[1..], p.(val := p.val * 16 + HexVal(s[0]).value, seen := p.seen + 1)))
    ensures s[0] == ':' && p.seen == 0 ==> (Loop6(s, p) ==
      if p.colon.Some? then None else Loop6(s[1..], p.(colon := Some(|p.out|), tok := s[1..])))
    ensures s[0] == ':' && p.seen != 0 ==> (Loop6(s, p) ==
      if |s| == 1 || |p.out| + 2 > 16 then None
      else Loop6(s[1..], Parser(p.out + TwoBytes(p.val), p.colon, 0, 0, s[1..])))
    ensures HexVal(s[0]).None? && s[0] != ':' ==> (Loop6(s, p) ==
      if s[0] == '.' && |p.out| + 4 <= 16 && Parse4(p.tok).Some? then
        Finish(p.(out := p.out + Parse4(p.tok).value, seen := 0))
      else None)
  {
    hide Parse4, Finish;
  }

  /** inet_pton6 */
  method Pton6(s: string) returns (r: Option<seq<Octet>>)
    ensures r == Parse6(s)
  {
    hide Parse4, Loop6, Finish, HexVal, TwoBytes;
    var tmp := new Octet[16](_ => 0);
    var tp, colonp := 0, -1;
    var i := 0;
    if |s| > 0 && s[0] == ':' {
      i := 1;
      if |s| < 2 || s[1] != ':' {
        return None;
      }
    }
    var curtok := s[i..];
    var seen, val := 0, 0;
    ghost var p := START.(tok := curtok);
    assert s[0..] == s;
    while i < |s|
      invariant 0 <= i <= |s| && tmp.Length == 16 && 0 <= tp <= 16 && -1 <= colonp <= tp
      invariant p == Parser(tmp[..tp], if colonp == -1 then None else Some(colonp), seen, val, curtok)
      invariant 0 <= seen <= 4 && 0 <= val
      invariant forall k :: tp <= k < 16 ==> tmp[k] == 0
      invariant Loop6(s[i..], p) == Parse6(s)
    {
      var ch := s[i];
      assert s[i..][0] == ch && s[i..][1..] == s[i + 1..];
      Turns(s[i..], p);
      i := i + 1;
      var digit := HexVal(ch);
      if digit.Some? {
        val := val * 16 + digit.value;
        seen := seen + 1;
        if seen > 4 {
          return None;
        }
        p := p.(val := val, seen := seen);
        continue;
      }
      if ch == ':' {
        curtok := s[i..];
        if seen == 0 {
          if colonp != -1 {
            return None;
          }
          colonp := tp;
          p := p.(colon := Some(tp), tok := curtok);
          continue;
        } else if i == |s| {
          return None;
        }
        if tp + 2 > 16 {
          return None;
        }
        p := Parser(p.out + TwoBytes(val), p.colon, 0, 0, curtok);
        Store(tmp, tp, TwoBytes(val));
        tp := tp + 2;
        seen, val := 0, 0;
        continue;
      }
      if ch == '.' && tp + 4 <= 16 {
        var b := Pton4(curtok);
        if b.Some? {
          FourBytes(curtok);
          p := p.(out := p.out + b.value, seen := 0);
          Store(tmp, tp, b.value);
          tp := tp + 4;
          seen := 0;
          r := Completed(tmp, tp, colonp, seen, val, p);
          return;
        }
      }
      return None;
    }
    assert s[i..] == [];
    LoopEnds(p);
    r := Completed(tmp, tp, colonp, seen, val, p);
  }

  lemma LoopEnds(p: Parser)
    ensures Loop6([], p) == Finish(p)
  {
  }

  /** What inet_pton6 does after its loop. */
  method Completed(tmp: array<Octet>, tp0: nat, colonp: int, seen: nat, val: nat, ghost p: Parser) returns (r: Option<seq<Octet>>)
    requires tmp.Length == 16 && tp0 <= 16 && -1 <= colonp <= tp0
    requires p.out == tmp[..tp0] && p.colon == (if colonp == -1 then None else Some(colonp)) && p.seen == seen && p.val == val
    requires forall k :: tp0 <= k < 16 ==> tmp[k] == 0
    modifies tmp
    ensures r == Finish(p)
  {
    var tp := tp0;
    if seen > 0 {
      if tp + 2 > 16 {
        return None;
      }
      Store(tmp, tp, TwoBytes(val));
      tp := tp + 2;
    }
    ghost var out := if seen > 0 then p.out + TwoBytes(val) else p.out;
    assert tmp[..tp] == out;
    if colonp != -1 {
      if tp == 16 {
        return None;
      }
      assert tmp[..colonp] == out[..colonp] && tmp[colonp..tp] == out[colonp..];
      ShiftToEnd(tmp, colonp, tp);
      tp := 16;
    }
    if tp != 16 {
      return None;
    }
    assert tmp[..16] == tmp[..];
    return Some(tmp[..]);
  }

  lemma FourBytes(s: string)
    ensures Parse4(s).Some? ==> |Parse4(s).value| == 4
  {
    Loop4Four(s, [], 0, false);
  }

  lemma {:induction false} Loop4Four(s: string, done: seq<Octet>, cur: Octet, sawDigit: bool)
    requires |done| <= 3
    ensures Loop4(s, done, cur, sawDigit).Some? ==> |Loop4(s, done, cur, sawDigit).value| == 4
    decreases |s|
  {
    if s == [] {
      assert |done + [cur]| == |done| + 1;
    } else if '0' <= s[0] <= '9' {
      var nw := cur * 10 + (s[0] as nat - '0' as nat);
      if nw <= 255 {
        Loop4Four(s[1..], done, nw, true);
      }
    } else if |done| < 3 {
      Loop4Four(s[1..], done + [cur], 0, false);
    }
  }

  // ----- The parser on printed text -----

  lemma HexDigitParses(d: nat, rest: string, p: Parser)
    requires d < 16 && p.seen < 4
    ensures Loop6([DigitChar(d)] + rest, p) == Loop6(rest, p.(val := p.val * 16 + d, seen := p.seen + 1))
  {
    hide Loop6, HexVal, DigitChar, Finish, Parse4;
    DigitRoundTrip(d);
    assert ([DigitChar(d)] + rest)[1..] == rest;
    Turns([DigitChar(d)] + rest, p);
  }

  lemma HexParses(v: Word, rest: string, p: Parser)
    requires p.seen == 0 && p.val == 0
    ensures Loop6(Hex(v) + rest, p) == Loop6(rest, p.(val := v, seen := |Hex(v)|))
  {
    hide Loop6, Hex, DigitChar;
    HexForms(v);
    var a, b, c, d := v / 4096, v / 256 % 16, v / 16 % 16, v % 16;
    var s3 := [DigitChar(d)] + rest;
    var s2 := [DigitChar(c)] + s3;
    var s1 := [DigitChar(b)] + s2;
    HexValues(v);
    if v < 0x10 {
      HexDigitParses(v, rest, p);
    } else if v < 0x100 {
      assert Hex(v) + rest == [DigitChar(v / 16)] + s3;
      HexDigitParses(v / 16, s3, p);
      HexDigitParses(d, rest, p.(val := v / 16, seen := 1));
    } else if v < 0x1000 {
      assert Hex(v) + rest == [DigitChar(v / 256)] + s2;
      HexDigitParses(v / 256, s2, p);
      HexDigitParses(c, s3, p.(val := v / 256, seen := 1));
      HexDigitParses(d, rest, p.(val := v / 16, seen := 2));
    } else {
      assert Hex(v) + rest == [DigitChar(a)] + s1;
      HexDigitParses(a, s1, p);
      HexDigitParses(b, s2, p.(val := a, seen := 1));
      HexDigitParses(c, s3, p.(val := v / 256, seen := 2));
      HexDigitParses(d, rest, p.(val := v / 16, seen := 3));
    }
  }

  lemma HexValues(v: Word)
    ensures v / 4096 * 16 + v / 256 % 16 == v / 256
    ensures v / 256 * 16 + v / 16 % 16 == v / 16
    ensures v / 16 * 16 + v % 16 == v
  {
  }

  /** A colon behind a word stores the word. */
  lemma ColonStores(v: Word, rest: string, p: Parser)
    requires p.val == v && p.seen > 0 && rest != [] && |p.out| + 2 <= 16
    ensures Loop6(":" + rest, p) == Loop6(rest, Parser(p.out + [v / 256, v % 256], p.colon, 0, 0, rest))
  {
    var s := ":" + rest;
    assert s[1..] == rest;
    Turns(s, p);
  }

  /** After words `lo` up to `hi` the last one is still pending; `tok` is where it began. */
  function AfterJoin(ws: seq<Word>, lo: nat, hi: nat, rest: string, p: Parser): Parser
    requires lo < hi <= |ws|
  {
    var last := hi - 1;
    Parser(p.out + Bytes(ws[lo..last]), p.colon, |Hex(ws[last])|, ws[last],
           if hi == lo + 1 then p.tok else Hex(ws[last]) + rest)
  }

  lemma {:induction false} JoinParses(ws: seq<Word>, lo: nat, hi: nat, rest: string, p: Parser)
    requires lo < hi <= |ws| && p.seen == 0 && p.val == 0 && |p.out| + 2 * (hi - lo) <= 16
    ensures Loop6(Join(ws, lo, hi) + rest, p) == Loop6(rest, AfterJoin(ws, lo, hi, rest, p))
    decreases hi
  {
    hide Loop6, Hex, HexVal, Bytes, Join, AfterJoin;
    var last := hi - 1;
    if hi == lo + 1 {
      OneWordParses(ws, lo, rest, p);
    } else {
      var x := Hex(ws[last]) + rest;
      JoinMore(ws, lo, hi, rest);
      JoinParses(ws, lo, last, ":" + x, p);
      NextWordParses(ws, lo, last, rest, p);
    }
  }

  lemma JoinOne(ws: seq<Word>, lo: nat)
    requires lo < |ws|
    ensures Join(ws, lo, lo + 1) == Hex(ws[lo])
  {
  }

  lemma OneWordParses(ws: seq<Word>, lo: nat, rest: string, p: Parser)
    requires lo < |ws| && p.seen == 0 && p.val == 0
    ensures Loop6(Join(ws, lo, lo + 1) + rest, p) == Loop6(rest, AfterJoin(ws, lo, lo + 1, rest, p))
  {
    hide Loop6, Hex, HexVal, Bytes, Join;
    JoinOne(ws, lo);
    HexParses(ws[lo], rest, p);
    NoBytes();
    assert ws[lo..lo] == [] && p.out + [] == p.out;
  }

  lemma JoinMore(ws: seq<Word>, lo: nat, hi: nat, rest: string)
    requires lo + 1 < hi <= |ws|
    ensures Join(ws, lo, hi) + rest == Join(ws, lo, hi - 1) + (":" + (Hex(ws[hi - 1]) + rest))
  {
    hide Hex;
  }

  lemma NextWordParses(ws: seq<Word>, lo: nat, last: nat, rest: string, p: Parser)
    requires lo < last < |ws| && |p.out| + 2 * (last - lo) <= 16
    ensures var x := ":" + (Hex(ws[last]) + rest);
            Loop6(x, AfterJoin(ws, lo, last, x, p)) == Loop6(rest, AfterJoin(ws, lo, last + 1, rest, p))
  {
    hide Loop6, Hex, HexVal, Bytes, Join;
    var x := Hex(ws[last]) + rest;
    var q := AfterJoin(ws, lo, last, ":" + x, p);
    ColonStores(ws[last - 1], x, q);
    BytesSnoc(ws, lo, last);
    var q' := Parser(q.out + [ws[last - 1] / 256, ws[last - 1] % 256], q.colon, 0, 0, x);
    HexParses(ws[last], rest, q');
    assert q'.out == p.out + Bytes(ws[lo..last]);
  }

  lemma NoBytes()
    ensures Bytes([]) == []
  {
  }

  lemma TwoBytesOf(v: Word)
    ensures TwoBytes(v) == [v / 256, v % 256]
  {
  }

  lemma BytesSnoc(ws: seq<Word>, lo: nat, hi: nat)
    requires lo < hi <= |ws|
    ensures Bytes(ws[lo..hi]) == Bytes(ws[lo..hi - 1]) + [ws[hi - 1] / 256, ws[hi - 1] % 256]
  {
    assert ws[lo..hi][..|ws[lo..hi]| - 1] == ws[lo..hi - 1];
  }

  lemma {:induction false} BytesConcat(a: seq<Word>, b: seq<Word>)
    ensures Bytes(a + b) == Bytes(a) + Bytes(b)
    decreases |b|
  {
    if b == [] {
      assert a + b == a;
    } else {
      BytesConcat(a, b[..|b| - 1]);
      assert (a + b)[..|a + b| - 1] == a + b[..|b| - 1];
    }
  }

  lemma {:induction false} BytesOfZeros(ws: seq<Word>)
    requires forall k :: 0 <= k < |ws| ==> ws[k] == 0
    ensures Bytes(ws) == Zeros(2 * |ws|)
  {
    if ws != [] {
      BytesOfZeros(ws[..|ws| - 1]);
    }
  }

  lemma {:induction false} BytesOfWords(src: seq<Octet>)
    requires |src| == 16
    ensures Bytes(WordsOf(src)) == src
  {
    BytesUpTo(src, 8);
    assert WordsOf(src)[..8] == WordsOf(src) && src[..16] == src;
  }

  lemma WordAt(src: seq<Octet>, k: nat)
    requires |src| == 16 && k < 8
    ensures WordsOf(src)[k] / 256 == src[2 * k] && WordsOf(src)[k] % 256 == src[2 * k + 1]
  {
  }

  lemma {:induction false} BytesUpTo(src: seq<Octet>, n: nat)
    requires |src| == 16 && n <= 8
    ensures Bytes(WordsOf(src)[..n]) == src[..2 * n]
  {
    hide Bytes, WordsOf;
    if n == 0 {
      NoBytes();
    } else {
      BytesUpTo(src, n - 1);
      BytesSnoc(WordsOf(src), 0, n);
      assert WordsOf(src)[0..n] == WordsOf(src)[..n] && WordsOf(src)[0..n - 1] == WordsOf(src)[..n - 1];
      WordAt(src, n - 1);
      assert src[..2 * n] == src[..2 * (n - 1)] + [src[2 * n - 2], src[2 * n - 1]];
    }
  }

  lemma FinishStores(q: Parser)
    requires q.seen > 0 && |q.out| + 2 <= 16
    ensures Finish(q) == Finish(Parser(q.out + TwoBytes(q.val), q.colon, 0, 0, ""))
  {
  }

  /** At the end of the text the pending word is stored. */
  lemma JoinFinishes(ws: seq<Word>, lo: nat, hi: nat, p: Parser)
    requires lo < hi <= |ws| && p.seen == 0 && p.val == 0 && |p.out| + 2 * (hi - lo) <= 16
    ensures Loop6(Join(ws, lo, hi), p) == Finish(Parser(p.out + Bytes(ws[lo..hi]), p.colon, 0, 0, ""))
  {
    hide Loop6, Hex, HexVal, Join, Bytes, TwoBytes, Finish;
    JoinParses(ws, lo, hi, "", p);
    assert Join(ws, lo, hi) + "" == Join(ws, lo, hi);
    var q := AfterJoin(ws, lo, hi, "", p);
    LoopEnds(q);
    BytesSnoc(ws, lo, hi);
    TwoBytesOf(q.val);
    FinishStores(q);
    assert q.out + TwoBytes(q.val) == p.out + Bytes(ws[lo..hi]);
  }

  /** The dotted part: its first octet is read as a word until the dot shows what it is. */
  lemma DottedParses(b: seq<Octet>, p: Parser)
    requires |b| == 4 && p.seen == 0 && p.val == 0 && p.tok == Dotted(b) && |p.out| + 4 <= 16
    ensures Loop6(Dotted(b), p) == Finish(Parser(p.out + b, p.colon, 0, 0, ""))
  {
    hide Loop6, Dec, Parse4;
    var rest := "." + Dec(b[1]) + "." + Dec(b[2]) + "." + Dec(b[3]);
    assert Dotted(b) == Dec(b[0]) + rest;
    var val := DecAsHex(b[0], rest, p);
    DottedRoundTrip(b);
    var q := p.(val := val, seen := |Dec(b[0])|);
    Turns(rest, q);
    FinishIgnores(p.out + b, p.colon, val, p.tok);
  }

  lemma FinishIgnores(out: seq<Octet>, colon: Option<nat>, val: nat, tok: string)
    ensures Finish(Parser(out, colon, 0, val, tok)) == Finish(Parser(out, colon, 0, 0, ""))
  {
  }

  lemma DecAsHex(v: Octet, rest: string, p: Parser) returns (val: nat)
    requires p.seen == 0 && p.val == 0
    ensures Loop6(Dec(v) + rest, p) == Loop6(rest, p.(val := val, seen := |Dec(v)|))
  {
    hide Loop6, Dec, DigitChar;
    DecForms(v);
    var a, b, c := v / 100, v / 10 % 10, v % 10;
    if v < 10 {
      val := v;
      HexDigitParses(v, rest, p);
    } else if v < 100 {
      val := v / 10 * 16 + c;
      HexDigitParses(v / 10, [DigitChar(c)] + rest, p);
      HexDigitParses(c, rest, p.(val := v / 10, seen := 1));
      assert Dec(v) + rest == [DigitChar(v / 10)] + ([DigitChar(c)] + rest);
    } else {
      val := (a * 16 + b) * 16 + c;
      HexDigitParses(a, [DigitChar(b)] + ([DigitChar(c)] + rest), p);
      HexDigitParses(b, [DigitChar(c)] + rest, p.(val := a, seen := 1));
      HexDigitParses(c, rest, p.(val := a * 16 + b, seen := 2));
      assert Dec(v) + rest == [DigitChar(a)] + ([DigitChar(b)] + ([DigitChar(c)] + rest));
    }
  }

  // ----- Whole addresses -----

  lemma FinishFills(a: seq<Octet>, c: seq<Octet>, n: nat)
    requires n > 0 && |a| + n + |c| == 16
    ensures Finish(Parser(a + c, Some(|a|), 0, 0, "")) == Some(a + Zeros(n) + c)
  {
    assert (a + c)[..|a|] == a && (a + c)[|a|..] == c;
  }

  lemma BytesAroundRun(src: seq<Octet>, base: nat, len: nat)
    requires |src| == 16 && base + len <= 8 && ZeroRun(WordsOf(src), base, base + len)
    ensures var ws := WordsOf(src); src == Bytes(ws[..base]) + Zeros(2 * len) + Bytes(ws[base + len..])
  {
    hide Bytes, WordsOf;
    var ws := WordsOf(src);
    var a, z, c := ws[..base], ws[base..base + len], ws[base + len..];
    assert ws == (a + z) + c;
    BytesConcat(a, z);
    BytesConcat(a + z, c);
    BytesOfZeros(z);
    BytesOfWords(src);
  }

  /** The zeros put in for "::" give the address back. */
  lemma ZerosRestore(src: seq<Octet>, base: nat, len: nat)
    requires |src| == 16 && len >= 2 && base + len <= 8 && ZeroRun(WordsOf(src), base, base + len)
    ensures var ws := WordsOf(src); var out := Bytes(ws[..base]) + Bytes(ws[base + len..]);
            Finish(Parser(out, Some(2 * base), 0, 0, "")) == Some(src)
  {
    hide Bytes, Finish, WordsOf;
    var ws := WordsOf(src);
    BytesAroundRun(src, base, len);
    FinishFills(Bytes(ws[..base]), Bytes(ws[base + len..]), 2 * len);
  }

  /** What follows "::" is parsed into the words behind the run. */
  lemma TailParses(src: seq<Octet>, best: Run)
    requires |src| == 16 && RunFits(best) && best.base >= 0 && ZeroRun(WordsOf(src), best.base, best.base + best.len)
    ensures var ws, t := WordsOf(src), Tail(WordsOf(src), best);
            Loop6(t, Parser(Bytes(ws[..best.base]), Some(2 * best.base), 0, 0, t)) == Some(src)
  {
    hide Loop6, Hex, Join, Dotted, Finish, ZeroRun, WordsOf, Bytes;
    var ws := WordsOf(src);
    var t := Tail(ws, best);
    var p := Parser(Bytes(ws[..best.base]), Some(2 * best.base), 0, 0, t);
    ZerosRestore(src, best.base, best.len);
    if IsV4(ws, best) {
      NoBytes();
      assert ws[..0] == [];
      V4Parses(ws, best, p);
      assert [] + Bytes(ws[best.len..]) == Bytes(ws[best.len..]);
    } else {
      WordsParse(ws, best.base + best.len, p);
    }
  }

  lemma WordsParse(ws: seq<Word>, after: nat, p: Parser)
    requires |ws| == 8 && after <= 8 && p.seen == 0 && p.val == 0 && |p.out| + 2 * (8 - after) <= 16 && p.tok == Join(ws, after, 8)
    ensures Loop6(Join(ws, after, 8), p) == Finish(Parser(p.out + Bytes(ws[after..]), p.colon, 0, 0, ""))
  {
    hide Finish, Loop6;
    if after == 8 {
      LoopEnds(p);
      assert p.out + Bytes(ws[8..]) == p.out;
      FinishIgnores(p.out, p.colon, 0, p.tok);
    } else {
      assert ws[after..8] == ws[after..];
      JoinFinishes(ws, after, 8, p);
    }
  }

  lemma V4Parses(ws: seq<Word>, best: Run, p: Parser)
    requires |ws| == 8 && IsV4(ws, best) && p == Parser([], Some(0), 0, 0, Tail(ws, best))
    ensures Loop6(p.tok, p) == Finish(Parser(Bytes(ws[best.len..]), Some(0), 0, 0, ""))
  {
    hide Loop6, Hex, Finish, Dotted, Bytes;
    var b := LastFour(ws);
    BytesOfTwo(ws[6], ws[7]);
    assert ws[6..] == [ws[6], ws[7]];
    DottedRoundTrip(b);
    if best.len == 6 {
      DottedParses(b, p);
      assert [] + b == b;
    } else {
      var d := Dotted(b);
      HexParses(ws[5], ":" + d, p);
      HexLength(ws[5]);
      assert Hex(ws[5]) + ":" + d == Hex(ws[5]) + (":" + d);
      ColonStores(ws[5], d, p.(val := ws[5], seen := |Hex(ws[5])|));
      DottedParses(b, Parser([ws[5] / 256, ws[5] % 256], Some(0), 0, 0, d));
      BytesConcat([ws[5]], ws[6..]);
      assert ws[5..] == [ws[5]] + ws[6..];
      BytesOfOne(ws[5]);
      assert [] + [ws[5] / 256, ws[5] % 256] == [ws[5] / 256, ws[5] % 256];
    }
  }

  lemma BytesOfOne(v: Word)
    ensures Bytes([v]) == [v / 256, v % 256]
  {
    assert [v][..0] == [];
  }

  lemma BytesOfTwo(v: Word, w: Word)
    ensures Bytes([v, w]) == [v / 256, v % 256, w / 256, w % 256]
  {
    BytesOfOne(v);
    assert [v, w][..1] == [v];
  }

  /** "::" behind the words before the run, or at the very start. */
  lemma HeadParses(ws: seq<Word>, base: nat, t: string)
    requires |ws| == 8 && base <= 6
    ensures Parse6(Join(ws, 0, base) + "::" + t) == Loop6(t, Parser(Bytes(ws[..base]), Some(2 * base), 0, 0, t))
  {
    hide Loop6, Hex, HexVal;
    if base == 0 {
      var s := "" + "::" + t;
      assert s[1..] == ":" + t && (":" + t)[1..] == t;
      Turns(":" + t, START.(tok := ":" + t));
      assert ws[..0] == [];
    } else {
      var s, x := Join(ws, 0, base) + "::" + t, ":" + t;
      assert s == Join(ws, 0, base) + (":" + x);
      JoinStarts(ws, base);
      JoinParses(ws, 0, base, ":" + x, START.(tok := s));
      var q := AfterJoin(ws, 0, base, ":" + x, START.(tok := s));
      HexLength(ws[base - 1]);
      ColonStores(ws[base - 1], x, q);
      BytesSnoc(ws, 0, base);
      assert ws[0..base] == ws[..base] && ws[0..base - 1] == ws[..base - 1];
      assert x[1..] == t;
      var q' := Parser(Bytes(ws[..base]), None, 0, 0, x);
      assert q.out + [ws[base - 1] / 256, ws[base - 1] % 256] == q'.out;
      Turns(x, q');
    }
  }

  lemma {:induction false} JoinStarts(ws: seq<Word>, hi: nat)
    requires 0 < hi <= |ws|
    ensures Join(ws, 0, hi) != "" && Join(ws, 0, hi)[0] != ':'
  {
    if hi == 1 {
      HexForms(ws[0]);
    } else {
      JoinStarts(ws, hi - 1);
    }
  }

  /** Main theorem. Whatever run of zero words "::" stands for, the parser gives the sixteen
      bytes back that were printed. */
  lemma TextRoundTrip(src: seq<Octet>, best: Run)
    requires |src| == 16 && RunFits(best)
    requires best.base != -1 ==> ZeroRun(WordsOf(src), best.base, best.base + best.len)
    ensures Parse6(Text(WordsOf(src), best)) == Some(src)
  {
    hide Loop6, Join, Finish;
    var ws := WordsOf(src);
    if best.base == -1 {
      var s := Join(ws, 0, 8);
      JoinStarts(ws, 8);
      var p := START.(tok := s);
      JoinFinishes(ws, 0, 8, p);
      BytesOfWords(src);
      assert ws[0..8] == ws;
      assert p.out + Bytes(ws[0..8]) == src;
      WholeFinishes(src);
    } else {
      HeadParses(ws, best.base, Tail(ws, best));
      TailParses(src, best);
    }
  }

  lemma WholeFinishes(src: seq<Octet>)
    requires |src| == 16
    ensures Finish(Parser(src, None, 0, 0, "")) == Some(src)
  {
  }

  lemma {:induction false} JoinLength(ws: seq<Word>, lo: nat, hi: nat)
    requires lo < hi <= |ws|
    ensures |Join(ws, lo, hi)| <= 5 * (hi - lo) - 1
    decreases hi
  {
    HexLength(ws[hi - 1]);
    if lo + 1 < hi {
      JoinLength(ws, lo, hi - 1);
    }
  }

  /** Every text and its NUL fit the buffer the standard sizes for it. */
  lemma TextFits(ws: seq<Word>, best: Run)
    requires |ws| == 8 && RunFits(best)
    ensures |Text(ws, best)| <= 39 < ADDR6STRLEN
  {
    hide Join, Dotted, Hex;
    var after := best.base + best.len;
    HexLength(ws[5]);
    DottedRoundTrip(LastFour(ws));
    if best.base == -1 {
      JoinLength(ws, 0, 8);
    } else {
      EmptyJoin(ws);
      if best.base > 0 {
        JoinLength(ws, 0, best.base);
      }
      if after < 8 {
        JoinLength(ws, after, 8);
      }
    }
  }

  lemma EmptyJoin(ws: seq<Word>)
    requires |ws| == 8
    ensures Join(ws, 0, 0) == "" && Join(ws, 8, 8) == ""
  {
  }

  lemma AnyTextRoundTrip(src: seq<Octet>, t: string)
    requires |src| == 16 && IsText(WordsOf(src), t)
    ensures |t| < ADDR6STRLEN && Parse6(t) == Some(src)
  {
    hide Text, Parse6, WordsOf;
    var ws := WordsOf(src);
    var best :| IsBestRun(ws, best) && RunFits(best) && t == Text(ws, best);
    TextFits(ws, best);
    TextRoundTrip(src, best);
  }

  /** Printing and parsing together: uv_inet_pton of uv_inet_ntop, for every address. */
  method PrintAndParse(src: seq<Octet>) returns (text: string, back: Option<seq<Octet>>)
    requires |src| == 16
    ensures |text| < ADDR6STRLEN && back == Some(src)
  {
    forall t | IsText(WordsOf(src), t)
      ensures |t| < ADDR6STRLEN && Parse6(t) == Some(src)
    {
      AnyTextRoundTrip(src, t);
    }
    var printed := Ntop6(src, ADDR6STRLEN);
    text := printed.value;
    back := Pton6(text);
  }
}
