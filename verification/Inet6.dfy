/** Printing and parsing of IPv6 addresses (inet_ntop6 and inet_pton6 in inet.c). */
module Inet6 {
  import opened Options
  import opened Inet

  /** A run of zero words; `base` is -1 when there is none. */
  datatype Run = Run(base: int, len: nat)

  const NO_RUN := Run(-1, 0)

  function WordOf(hi: Octet, lo: Octet): Word {
    256 * hi + lo
  }

  function WordsOf(src: seq<Octet>): (ws: seq<Word>)
    requires |src| == 16
    ensures |ws| == 8
  {
    seq(8, i requires 0 <= i < 8 => WordOf(src[2 * i], src[2 * i + 1]))
  }

  /** The big-endian bytes of words. */
  function Bytes(ws: seq<Word>): (b: seq<Octet>)
    ensures |b| == 2 * |ws|
  {
    if ws == [] then [] else Bytes(ws[..|ws| - 1]) + [ws[|ws| - 1] / 256, ws[|ws| - 1] % 256]
  }

  // ----- The run that "::" replaces -----

  ghost predicate ZeroRun(ws: seq<Word>, lo: int, hi: int) {
    0 <= lo <= hi <= |ws| && forall k :: lo <= k < hi ==> ws[k] == 0
  }

  /** The leftmost of the longest runs of at least two zero words (sections 4.2.2 and 4.2.3 of
      RFC 5952). */
  ghost predicate IsBestRun(ws: seq<Word>, r: Run) {
    if r.base == -1 then
      forall lo, hi :: ZeroRun(ws, lo, hi) ==> hi - lo < 2
    else
      && r.len >= 2 && ZeroRun(ws, r.base, r.base + r.len)
      && (forall lo, hi :: ZeroRun(ws, lo, hi) ==> hi - lo <= r.len)
      && (forall lo, hi :: ZeroRun(ws, lo, hi) && hi - lo == r.len ==> r.base <= lo)
  }

  /** What the scan knows before word `i`: the best closed run and the one still open. */
  ghost predicate Scanned(ws: seq<Word>, i: int, best: Run, cur: Run) {
    && 0 <= i <= |ws|
    && (cur.base == -1 ==> i > 0 ==> ws[i - 1] != 0)
    && (cur.base != -1 ==> cur.len >= 1 && cur.base + cur.len == i && ZeroRun(ws, cur.base, i) && (cur.base > 0 ==> ws[cur.base - 1] != 0))
    && BestClosed(ws, if cur.base == -1 then i else cur.base, best)
  }

  /** `best` is the leftmost longest run within the first `i` words. */
  ghost predicate BestClosed(ws: seq<Word>, i: int, best: Run) {
    && 0 <= i <= |ws|
    && (best.base == -1 ==> forall lo, hi :: ZeroRun(ws, lo, hi) && hi <= i ==> hi == lo)
    && (best.base != -1 ==>
          && best.len >= 1 && ZeroRun(ws, best.base, best.base + best.len) && best.base + best.len <= i
          && forall lo, hi :: ZeroRun(ws, lo, hi) && hi <= i ==>
               hi - lo < best.len || (hi - lo == best.len && best.base <= lo))
  }

  method FindBest(ws: seq<Word>) returns (best: Run)
    ensures IsBestRun(ws, best)
  {
    best := NO_RUN;
    var cur := NO_RUN;
    var i := 0;
    while i < |ws|
      invariant Scanned(ws, i, best, cur)
    {
      if ws[i] == 0 {
        if cur.base == -1 {
          cur := Run(i, 1);
        } else {
          cur := cur.(len := cur.len + 1);
        }
      } else {
        if cur.base != -1 {
          CloseRun(ws, i, best, cur);
          if best.base == -1 || cur.len > best.len {
            best := cur;
          }
          cur := cur.(base := -1);
        } else {
          PassNonZero(ws, i, best);
        }
      }
      i := i + 1;
    }
    if cur.base != -1 {
      CloseRun(ws, i, best, cur);
      if best.base == -1 || cur.len > best.len {
        best := cur;
      }
    }
    if best.base != -1 && best.len < 2 {
      best := best.(base := -1);
    }
  }

  lemma RunAvoids(ws: seq<Word>, lo: int, hi: int, k: int)
    requires ZeroRun(ws, lo, hi)
    ensures 0 <= k < |ws| && ws[k] != 0 ==> !(lo <= k < hi)
  {
  }

  lemma CloseRun(ws: seq<Word>, i: int, best: Run, cur: Run)
    requires Scanned(ws, i, best, cur) && cur.base != -1 && (i < |ws| ==> ws[i] != 0)
    ensures var b := if best.base == -1 || cur.len > best.len then cur else best;
            BestClosed(ws, i, b) && (i < |ws| ==> BestClosed(ws, i + 1, b))
  {
    forall lo, hi | ZeroRun(ws, lo, hi) && hi <= i + 1
      ensures hi == lo || hi <= cur.base || (cur.base <= lo && hi <= i)
    {
      RunAvoids(ws, lo, hi, i);
      RunAvoids(ws, lo, hi, cur.base - 1);
    }
  }

  lemma PassNonZero(ws: seq<Word>, i: int, best: Run)
    requires 0 <= i < |ws| && BestClosed(ws, i, best) && ws[i] != 0
    ensures BestClosed(ws, i + 1, best)
  {
    forall lo, hi | ZeroRun(ws, lo, hi) && hi <= i + 1
      ensures hi <= i || hi == lo
    {
      RunAvoids(ws, lo, hi, i);
    }
  }

  // ----- The text of an address -----

  /** The run covers the leading words so that the rest is an embedded IPv4 address. */
  predicate IsV4(ws: seq<Word>, best: Run)
    requires |ws| == 8
  {
    best.base == 0 && (best.len == 6 || (best.len == 5 && ws[5] == 0xffff))
  }

  /** Words `lo` up to `hi` in hexadecimal with colons between them. */
  function Join(ws: seq<Word>, lo: nat, hi: nat): string
    requires hi <= |ws|
  {
    if lo >= hi then ""
    else if lo + 1 == hi then Hex(ws[lo])
    else Join(ws, lo, hi - 1) + ":" + Hex(ws[hi - 1])
  }

  function LastFour(ws: seq<Word>): seq<Octet>
    requires |ws| == 8
  {
    [ws[6] / 256, ws[6] % 256, ws[7] / 256, ws[7] % 256]
  }

  /** What follows the double colon. */
  function Tail(ws: seq<Word>, best: Run): string
    requires |ws| == 8 && 0 <= best.base && best.base + best.len <= 8
  {
    if !IsV4(ws, best) then Join(ws, best.base + best.len, 8)
    else if best.len == 6 then Dotted(LastFour(ws))
    else Hex(ws[5]) + ":" + Dotted(LastFour(ws))
  }

  predicate RunFits(best: Run) {
    best.base == -1 || (0 <= best.base && best.len >= 2 && best.base + best.len <= 8)
  }

  function Text(ws: seq<Word>, best: Run): string
    requires |ws| == 8 && RunFits(best)
  {
    if best.base == -1 then Join(ws, 0, 8)
    else Join(ws, 0, best.base) + "::" + Tail(ws, best)
  }

  /** The bytes put together to words, one byte at a time. */
  method ReadWords(src: seq<Octet>) returns (words: array<Word>)
    requires |src| == 16
    ensures fresh(words) && words[..] == WordsOf(src)
  {
    words := new Word[8](_ => 0);
    for i := 0 to 16
      invariant words.Length == 8
      invariant forall k {:trigger words[k]} :: 0 <= k < 8 && 2 * k + 1 < i ==> words[k] == WordOf(src[2 * k], src[2 * k + 1])
      invariant forall k {:trigger words[k]} :: 0 <= k < 8 && 2 * k + 1 == i ==> words[k] as int == 256 * (src[2 * k] as int)
      invariant forall k {:trigger words[k]} :: 0 <= k < 8 && 2 * k >= i ==> words[k] == 0
    {
      // The two bytes of a word have no bit in common, so `|=` adds.
      words[i / 2] := words[i / 2] as int + (src[i] as int) * (if i % 2 == 0 then 256 else 1);
    }
  }

  /** The text after the loop has passed `i` words. */
  function Shown(ws: seq<Word>, best: Run, i: nat): string
    requires |ws| == 8 && RunFits(best) && i <= 8
  {
    if best.base == -1 || i <= best.base then Join(ws, 0, i)
    else if i <= best.base + best.len then Join(ws, 0, best.base) + ":"
    else Join(ws, 0, best.base) + "::" + Join(ws, best.base + best.len, i)
  }

  lemma ShownNext(ws: seq<Word>, best: Run, i: nat)
    requires |ws| == 8 && RunFits(best) && i < 8
    ensures Shown(ws, best, i + 1) ==
      if best.base != -1 && best.base <= i < best.base + best.len then
        Shown(ws, best, i) + if i == best.base then ":" else ""
      else
        Shown(ws, best, i) + (if i != 0 then ":" else "") + Hex(ws[i])
  {
  }

  lemma ShownWhole(ws: seq<Word>, best: Run)
    requires |ws| == 8 && RunFits(best) && !IsV4(ws, best)
    ensures Text(ws, best) == Shown(ws, best, 8) + if best.base != -1 && best.base + best.len == 8 then ":" else ""
  {
  }

  /** Every word prints to one up to four digits, the most significant first. */
  lemma HexForms(v: Word)
    ensures v < 0x10 ==> Hex(v) == [DigitChar(v)]
    ensures 0x10 <= v < 0x100 ==> Hex(v) == [DigitChar(v / 16), DigitChar(v % 16)]
    ensures 0x100 <= v < 0x1000 ==> Hex(v) == [DigitChar(v / 256), DigitChar(v / 16 % 16), DigitChar(v % 16)]
    ensures v >= 0x1000 ==> Hex(v) == [DigitChar(v / 4096), DigitChar(v / 256 % 16), DigitChar(v / 16 % 16), DigitChar(v % 16)]
  {
    var a, b, c := v / 16, v / 16 / 16, v / 16 / 16 / 16;
    assert b == v / 256 && c == v / 4096;
    assert v >= 16 ==> Hex(v) == Hex(a) + [DigitChar(v % 16)];
    assert a >= 16 ==> Hex(a) == Hex(b) + [DigitChar(a % 16)];
    assert b >= 16 ==> Hex(b) == Hex(c) + [DigitChar(b % 16)];
    assert c < 16 && Hex(c) == [DigitChar(c)];
    assert a < 16 ==> Hex(a) == [DigitChar(a)];
    assert b < 16 ==> Hex(b) == [DigitChar(b)];
  }

  lemma HexLength(v: Word)
    ensures 1 <= |Hex(v)| <= 4
    ensures v >= 0x1000 ==> |Hex(v)| == 4
  {
    HexForms(v);
  }

  lemma ShownV4(ws: seq<Word>, best: Run)
    requires |ws| == 8 && RunFits(best) && IsV4(ws, best)
    ensures |Shown(ws, best, 6)| <= 6
    ensures Text(ws, best) == Shown(ws, best, 6) + ":" + Dotted(LastFour(ws))
  {
    HexLength(ws[5]);
  }

  /** There is only one text: two best runs stand at the same place and have the same length. */
  lemma BestTextIsUnique(ws: seq<Word>, a: Run, b: Run)
    requires |ws| == 8 && IsBestRun(ws, a) && IsBestRun(ws, b)
    ensures RunFits(a) && RunFits(b) && Text(ws, a) == Text(ws, b)
  {
    hide Join, Tail;
    if a.base != -1 {
      assert ZeroRun(ws, a.base, a.base + a.len);
    }
    if b.base != -1 {
      assert ZeroRun(ws, b.base, b.base + b.len);
    }
  }

  /** The text with "::" for the best run. */
  ghost predicate IsText(ws: seq<Word>, t: string)
    requires |ws| == 8
  {
    exists best :: IsBestRun(ws, best) && RunFits(best) && t == Text(ws, best)
  }

  lemma TextIsUnique(ws: seq<Word>, t: string, u: string)
    requires |ws| == 8 && IsText(ws, t) && IsText(ws, u)
    ensures t == u
  {
    var a :| IsBestRun(ws, a) && RunFits(a) && t == Text(ws, a);
    var b :| IsBestRun(ws, b) && RunFits(b) && u == Text(ws, b);
    BestTextIsUnique(ws, a, b);
  }

  // ----- Embedded addresses -----

  lemma BestIs(ws: seq<Word>, best: Run, len: nat)
    requires |ws| == 8 && IsBestRun(ws, best) && 5 <= len <= 6 && ZeroRun(ws, 0, len) && ws[len] != 0
    ensures best == Run(0, len)
  {
    forall lo, hi | ZeroRun(ws, lo, hi)
      ensures hi <= len || lo > len
    {
      RunAvoids(ws, lo, hi, len);
    }
    assert ZeroRun(ws, 0, len);
  }

  lemma HexFfff()
    ensures Hex(0xffff) == "ffff"
  {
    HexForms(0xffff);
  }

  /** Zeros up to an ffff, or six of them before a word that is not zero, are followed by a dotted
      address. */
  lemma EmbeddedText(ws: seq<Word>, t: string)
    requires |ws| == 8 && IsText(ws, t)
    ensures var four := Dotted([ws[6] / 256, ws[6] % 256, ws[7] / 256, ws[7] % 256]);
      && (ZeroRun(ws, 0, 5) && ws[5] == 0xffff ==> t == "::ffff:" + four)
      && (ZeroRun(ws, 0, 6) && ws[6] != 0 ==> t == "::" + four)
  {
    hide Dotted, Hex, IsBestRun;
    var best :| IsBestRun(ws, best) && RunFits(best) && t == Text(ws, best);
    HexFfff();
    if ZeroRun(ws, 0, 5) && ws[5] == 0xffff {
      BestIs(ws, best, 5);
    } else if ZeroRun(ws, 0, 6) && ws[6] != 0 {
      BestIs(ws, best, 6);
    }
  }

  lemma {:induction false} JoinHasNoDot(ws: seq<Word>, lo: nat, hi: nat)
    requires hi <= |ws|
    ensures '.' !in Join(ws, lo, hi)
    decreases hi
  {
    if lo < hi {
      HexHasNoDot(ws[hi - 1]);
      JoinHasNoDot(ws, lo, hi - 1);
    }
  }

  lemma HexHasNoDot(v: Word)
    ensures '.' !in Hex(v)
  {
    hide Hex;
    HexForms(v);
  }

  /** No other address is printed with one. */
  lemma OthersHaveNoDot(ws: seq<Word>, t: string)
    requires |ws| == 8 && IsText(ws, t)
    requires !(ZeroRun(ws, 0, 5) && ws[5] == 0xffff) && !(ZeroRun(ws, 0, 6) && ws[6] != 0)
    ensures '.' !in t
  {
    hide Join;
    var best :| IsBestRun(ws, best) && RunFits(best) && t == Text(ws, best);
    if IsV4(ws, best) {
      NotEmbedded(ws, best);
    } else if best.base == -1 {
      JoinHasNoDot(ws, 0, 8);
    } else {
      JoinHasNoDot(ws, 0, best.base);
      JoinHasNoDot(ws, best.base + best.len, 8);
    }
  }

  lemma NotEmbedded(ws: seq<Word>, best: Run)
    requires |ws| == 8 && IsBestRun(ws, best) && RunFits(best) && IsV4(ws, best)
    ensures (ZeroRun(ws, 0, 5) && ws[5] == 0xffff) || (ZeroRun(ws, 0, 6) && ws[6] != 0)
  {
    assert ZeroRun(ws, 0, 6) && ws[6] == 0 ==> ZeroRun(ws, 0, 7);
  }

  /** inet_ntop6 */
  method Ntop6(src: seq<Octet>, size: nat) returns (r: Option<string>)
    requires |src| == 16
    ensures r.Some? ==> IsText(WordsOf(src), r.value) && |r.value| < size
    ensures r.None? ==> exists t :: IsText(WordsOf(src), t) && |t| >= size
  {
    hide Hex, Dec, Dotted, Parse4, IsBestRun, Shown, Text;
    var a := ReadWords(src);
    var words := a[..];
    var run := FindBest(words);
    BestFits(words, run);
    var tmp := "";
    ShownStart(words, run);
    var i := 0;
    var v4 := false;
    while i < 8
      invariant 0 <= i <= 8 && !v4 && tmp == Shown(words, run, i)
      invariant IsV4(words, run) ==> i <= 6
    {
      ShownNext(words, run, i);
      if run.base != -1 && run.base <= i < run.base + run.len {
        if i == run.base {
          tmp := tmp + ":";
        }
        i := i + 1;
        continue;
      }
      if i != 0 {
        tmp := tmp + ":";
      }
      // The source also accepts a run of seven here, but word 6 would lie inside it.
      assert i == 6 && run.base == 0 ==> run.len != 7;
      if i == 6 && run.base == 0 && (run.len == 6 || (run.len == 5 && words[5] == 0xffff)) {
        ShownV4(words, run);
        LastFourIs(src);
        DottedRoundTrip(src[12..]);
        var dotted := Ntop4(src[12..], ADDR6STRLEN - |tmp|);
        if dotted.None? {
          return None;
        }
        Parse4Iff(dotted.value, src[12..]);
        tmp := tmp + dotted.value;
        v4 := true;
        break;
      }
      tmp := tmp + Hex(words[i]);
      i := i + 1;
    }
    if !v4 {
      ShownWhole(words, run);
    }
    if run.base != -1 && run.base + run.len == 8 {
      tmp := tmp + ":";
    }
    assert tmp == Text(words, run);
    assert IsText(words, tmp);
    if |tmp| >= size {
      return None;
    }
    return Some(tmp);
  }

  lemma ShownStart(ws: seq<Word>, best: Run)
    requires |ws| == 8 && RunFits(best)
    ensures Shown(ws, best, 0) == ""
  {
  }

  lemma LastFourIs(src: seq<Octet>)
    requires |src| == 16
    ensures LastFour(WordsOf(src)) == src[12..]
  {
  }

  lemma BestFits(ws: seq<Word>, best: Run)
    requires |ws| == 8 && IsBestRun(ws, best)
    ensures RunFits(best)
  {
  }

  lemma KnownRun(ws: seq<Word>)
    requires ws == [0x2001, 0xdb8, 0, 0, 1, 0, 0, 1]
    ensures IsBestRun(ws, Run(2, 2))
  {
    forall lo, hi | ZeroRun(ws, lo, hi)
      ensures hi - lo <= 2 && (hi - lo == 2 ==> 2 <= lo)
    {
      RunAvoids(ws, lo, hi, 0);
      RunAvoids(ws, lo, hi, 1);
      RunAvoids(ws, lo, hi, 4);
      RunAvoids(ws, lo, hi, 7);
    }
  }

  lemma KnownJoins(ws: seq<Word>)
    requires ws == [0x2001, 0xdb8, 0, 0, 1, 0, 0, 1]
    ensures Join(ws, 0, 2) == "2001:db8" && Join(ws, 4, 8) == "1:0:0:1"
  {
    hide Hex;
    HexForms(0x2001);
    HexForms(0xdb8);
    HexForms(0);
    HexForms(1);
    assert Join(ws, 4, 6) == "1:0";
  }

  /** Of equal runs the first one is left out, and the digits are in lower case. */
  lemma KnownText()
    ensures IsText([0x2001, 0xdb8, 0, 0, 1, 0, 0, 1], "2001:db8::1:0:0:1")
  {
    hide Join, IsBestRun;
    var ws: seq<Word> := [0x2001, 0xdb8, 0, 0, 1, 0, 0, 1];
    KnownRun(ws);
    KnownJoins(ws);
    assert Text(ws, Run(2, 2)) == "2001:db8::1:0:0:1";
  }
}
