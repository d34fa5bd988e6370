/** Printing and parsing of internet addresses (inet.c). A text is the content of a C string
    without its terminating NUL. */
module Inet {
  import opened Options

  type Octet = x: int | 0 <= x < 256
  type Word = x: int | 0 <= x < 0x1_0000

  const ADDRSTRLEN: nat := 16     // UV__INET_ADDRSTRLEN
  const ADDR6STRLEN: nat := 46    // UV__INET6_ADDRSTRLEN

  // ----- Numbers -----

  /** The character of a digit, as "%u" and "%x" print it. */
  function DigitChar(d: nat): char
    requires d < 16
  {
    if d < 10 then '0' + d as char else 'a' + (d - 10) as char
  }

  function HexVal(c: char): Option<nat> {
    if '0' <= c <= '9' then Some(c as nat - '0' as nat)
    else if 'a' <= c <= 'f' then Some(c as nat - 'a' as nat + 10)
    else if 'A' <= c <= 'F' then Some(c as nat - 'A' as nat + 10)
    else None
  }

  lemma DigitRoundTrip(d: nat)
    requires d < 16
    ensures HexVal(DigitChar(d)) == Some(d) && DigitChar(d) !in ":."
    ensures d < 10 <==> '0' <= DigitChar(d) <= '9'
  {
  }

  /** The digits in their order, printed in lower case and read in either. */
  lemma DigitsAre(c: char, d: nat)
    requires d < 16
    ensures DigitChar(d) == "0123456789abcdef"[d]
    ensures HexVal(c) == Some(d) <==> c == "0123456789abcdef"[d] || c == "0123456789ABCDEF"[d]
  {
  }

  /** The number that digits stand for, the first one weighing most. */
  function Positional(s: string, base: nat): nat {
    if s == "" then 0 else Positional(s[..|s| - 1], base) * base + match HexVal(s[|s| - 1]) case Some(d) => d case None => 0
  }

  /** "%u" and "%x" print the number without leading zeros. */
  lemma {:induction false} PrintsNumber(v: nat)
    ensures Positional(Dec(v), 10) == v && (v > 0 ==> Dec(v)[0] != '0') && (v == 0 ==> Dec(v) == "0")
    decreases v
  {
    if v < 10 {
      DigitRoundTrip(v);
      assert [DigitChar(v)][..0] == "";
    } else {
      PrintsNumber(v / 10);
      DigitRoundTrip(v % 10);
      assert Dec(v)[..|Dec(v)| - 1] == Dec(v / 10);
    }
  }

  lemma {:induction false} PrintsHex(v: nat)
    ensures Positional(Hex(v), 16) == v && (v > 0 ==> Hex(v)[0] != '0') && (v == 0 ==> Hex(v) == "0")
    decreases v
  {
    if v < 16 {
      DigitRoundTrip(v);
      assert [DigitChar(v)][..0] == "";
    } else {
      PrintsHex(v / 16);
      DigitRoundTrip(v % 16);
      assert Hex(v)[..|Hex(v)| - 1] == Hex(v / 16);
    }
  }

  /** "%x" */
  function Hex(v: nat): (s: string)
    ensures s != []
    decreases v
  {
    if v < 16 then [DigitChar(v)] else Hex(v / 16) + [DigitChar(v % 16)]
  }

  /** "%u" */
  function Dec(v: nat): (s: string)
    ensures s != []
    decreases v
  {
    if v < 10 then [DigitChar(v)] else Dec(v / 10) + [DigitChar(v % 10)]
  }

  // ----- IPv4 -----

  function Dotted(b: seq<Octet>): string
    requires |b| == 4
  {
    Dec(b[0]) + "." + Dec(b[1]) + "." + Dec(b[2]) + "." + Dec(b[3])
  }

  /** The parser's loop: the finished octets, the current one and whether it has a digit. */
  function Loop4(s: string, done: seq<Octet>, cur: Octet, sawDigit: bool): Option<seq<Octet>> {
    var octets := |done| + if sawDigit then 1 else 0;
    if s == [] then
      if octets < 4 then None else Some(done + [cur])
    else if '0' <= s[0] <= '9' then
      var nw := cur * 10 + (s[0] as nat - '0' as nat);
      if (sawDigit && cur == 0) || nw > 255 || (!sawDigit && octets + 1 > 4) then None
      else Loop4(s[1..], done, nw, true)
    else if s[0] == '.' && sawDigit && octets != 4 then
      Loop4(s[1..], done + [cur], 0, false)
    else None
  }

  function Parse4(s: string): Option<seq<Octet>> {
    Loop4(s, [], 0, false)
  }

  lemma DigitParses(d: nat, done: seq<Octet>, cur: Octet, sawDigit: bool, rest: string)
    requires d < 10 && |done| < 4 && (sawDigit ==> cur != 0) && cur * 10 + d < 256
    ensures Loop4([DigitChar(d)] + rest, done, cur, sawDigit) == Loop4(rest, done, cur * 10 + d, true)
  {
    DigitRoundTrip(d);
    assert ([DigitChar(d)] + rest)[1..] == rest;
  }

  /** Every octet prints to one, two or three digits. */
  lemma DecForms(v: Octet)
    ensures v < 10 ==> Dec(v) == [DigitChar(v)]
    ensures 10 <= v < 100 ==> Dec(v) == [DigitChar(v / 10), DigitChar(v % 10)]
    ensures v >= 100 ==> Dec(v) == [DigitChar(v / 100), DigitChar(v / 10 % 10), DigitChar(v % 10)]
  {
    assert v / 10 / 10 == v / 100;
    if v >= 10 {
      assert Dec(v) == Dec(v / 10) + [DigitChar(v % 10)];
    }
    if v >= 100 {
      assert Dec(v / 10) == Dec(v / 100) + [DigitChar(v / 10 % 10)];
    }
  }

  lemma DecParses(v: Octet, done: seq<Octet>, rest: string)
    requires |done| < 4
    ensures Loop4(Dec(v) + rest, done, 0, false) == Loop4(rest, done, v, true)
  {
    hide Loop4, Dec, DigitChar;
    DecForms(v);
    var a, b, c := v / 100, v / 10 % 10, v % 10;
    if v < 10 {
      DigitParses(v, done, 0, false, rest);
    } else if v < 100 {
      DigitParses(v / 10, done, 0, false, [DigitChar(c)] + rest);
      DigitParses(c, done, v / 10, true, rest);
      assert Dec(v) + rest == [DigitChar(v / 10)] + ([DigitChar(c)] + rest);
    } else {
      DigitParses(a, done, 0, false, [DigitChar(b)] + ([DigitChar(c)] + rest));
      DigitParses(b, done, a, true, [DigitChar(c)] + rest);
      DigitParses(c, done, v / 10, true, rest);
      assert Dec(v) + rest == [DigitChar(a)] + ([DigitChar(b)] + ([DigitChar(c)] + rest));
    }
  }

  lemma DotParses(done: seq<Octet>, v: Octet, rest: string)
    requires |done| < 3
    ensures Loop4("." + rest, done, v, true) == Loop4(rest, done + [v], 0, false)
  {
    assert ("." + rest)[1..] == rest;
  }

  lemma DottedRoundTrip(b: seq<Octet>)
    requires |b| == 4
    ensures Parse4(Dotted(b)) == Some(b) && 7 <= |Dotted(b)| < ADDRSTRLEN
  {
    hide Loop4, Dec;
    DecLengths(b);
    var s3 := Dec(b[3]);
    var s2 := Dec(b[2]) + ("." + s3);
    var s1 := Dec(b[1]) + ("." + s2);
    assert Dotted(b) == Dec(b[0]) + ("." + s1);
    DecParses(b[0], [], "." + s1);
    DotParses([], b[0], s1);
    DecParses(b[1], [b[0]], "." + s2);
    DotParses([b[0]], b[1], s2);
    DecParses(b[2], [b[0], b[1]], "." + s3);
    DotParses([b[0], b[1]], b[2], s3);
    DecParses(b[3], [b[0], b[1], b[2]], []);
    assert s3 + [] == s3;
    Loop4Ends([b[0], b[1], b[2]], b[3]);
    assert [] + [b[0]] == [b[0]] && [b[0]] + [b[1]] == [b[0], b[1]] && [b[0], b[1]] + [b[2]] == [b[0], b[1], b[2]];
    assert [b[0], b[1], b[2]] + [b[3]] == b;
  }

  lemma DecLengths(b: seq<Octet>)
    requires |b| == 4
    ensures forall i :: 0 <= i < 4 ==> 1 <= |Dec(b[i])| <= 3
  {
    forall i | 0 <= i < 4
      ensures 1 <= |Dec(b[i])| <= 3
    {
      DecForms(b[i]);
    }
  }

  lemma Loop4Ends(done: seq<Octet>, v: Octet)
    requires |done| == 3
    ensures Loop4([], done, v, true) == Some(done + [v])
  {
  }

  // ----- Nothing else parses -----

  /** The finished octets as they were read. */
  function Heads(done: seq<Octet>): string {
    if done == [] then "" else Heads(done[..|done| - 1]) + Dec(done[|done| - 1]) + "."
  }

  lemma DecGrows(cur: Octet, d: nat, c: char)
    requires d < 10 && c == '0' + d as char
    ensures cur > 0 ==> Dec(cur * 10 + d) == Dec(cur) + [c]
    ensures Dec(d) == [c]
  {
    assert (cur * 10 + d) / 10 == cur && (cur * 10 + d) % 10 == d;
  }

  lemma HeadsSnoc(done: seq<Octet>, v: Octet)
    ensures Heads(done + [v]) == Heads(done) + Dec(v) + "."
  {
    assert (done + [v])[..|done|] == done;
  }

  lemma DottedIsHeads(done: seq<Octet>, v: Octet)
    requires |done| == 3
    ensures Dotted(done + [v]) == Heads(done) + Dec(v)
  {
    hide Heads, Dec;
    HeadsSnoc([], done[0]);
    HeadsSnoc([done[0]], done[1]);
    HeadsSnoc([done[0], done[1]], done[2]);
    assert [] + [done[0]] == [done[0]] && [done[0]] + [done[1]] == [done[0], done[1]];
    assert [done[0], done[1]] + [done[2]] == done;
    assert Heads([]) == "" by {
      NoHeads();
    }
  }

  lemma NoHeads()
    ensures Heads([]) == ""
  {
  }

  function Seen(done: seq<Octet>, cur: Octet, sawDigit: bool): string {
    Heads(done) + if sawDigit then Dec(cur) else ""
  }

  /** What the loop accepts is, with what it has read already, the text of what it returns. */
  lemma {:induction false} LoopIsExact(s: string, done: seq<Octet>, cur: Octet, sawDigit: bool, b: seq<Octet>)
    requires Loop4(s, done, cur, sawDigit) == Some(b) && |done| <= 3 && (!sawDigit ==> cur == 0)
    ensures |b| == 4 && Seen(done, cur, sawDigit) + s == Dotted(b)
    decreases |s|
  {
    hide Heads, Dec, Dotted;
    if s == [] {
      DottedIsHeads(done, cur);
      assert Seen(done, cur, sawDigit) + s == Seen(done, cur, sawDigit);
    } else if '0' <= s[0] <= '9' {
      var d := s[0] as nat - '0' as nat;
      LoopIsExact(s[1..], done, cur * 10 + d, true, b);
      DecGrows(cur, d, s[0]);
      assert s == [s[0]] + s[1..];
    } else {
      LoopIsExact(s[1..], done + [cur], 0, false, b);
      HeadsSnoc(done, cur);
      assert s == "." + s[1..];
    }
  }

  /** Main theorem: a text parses to an address exactly when it is that address as printed, four
      decimal octets without leading zeros. */
  lemma Parse4Iff(s: string, b: seq<Octet>)
    ensures Parse4(s) == Some(b) <==> |b| == 4 && s == Dotted(b)
  {
    if Parse4(s) == Some(b) {
      LoopIsExact(s, [], 0, false, b);
      NoHeads();
      assert Seen([], 0, false) + s == s;
    }
    if |b| == 4 && s == Dotted(b) {
      DottedRoundTrip(b);
    }
  }

  /** inet_pton4 */
  method Pton4(s: string) returns (r: Option<seq<Octet>>)
    ensures r == Parse4(s)
    ensures forall b :: r == Some(b) <==> |b| == 4 && s == Dotted(b)
  {
    hide Dotted;
    forall b
      ensures Parse4(s) == Some(b) <==> |b| == 4 && s == Dotted(b)
    {
      Parse4Iff(s, b);
    }
    var sawDigit, octets := false, 0;
    var tmp: seq<Octet>, cur: Octet := [], 0;
    var i := 0;
    while i < |s|
      invariant 0 <= i <= |s| && octets == |tmp| + if sawDigit then 1 else 0
      invariant Loop4(s[i..], tmp, cur, sawDigit) == Parse4(s)
    {
      var ch := s[i];
      assert s[i..][0] == ch && s[i..][1..] == s[i + 1..];
      i := i + 1;
      if '0' <= ch <= '9' {
        var nw := cur * 10 + (ch as nat - '0' as nat);
        if sawDigit && cur == 0 {
          return None;
        }
        if nw > 255 {
          return None;
        }
        cur := nw;
        if !sawDigit {
          octets := octets + 1;
          if octets > 4 {
            return None;
          }
          sawDigit := true;
        }
      } else if ch == '.' && sawDigit {
        if octets == 4 {
          return None;
        }
        tmp, cur, sawDigit := tmp + [cur], 0, false;
      } else {
        return None;
      }
    }
    if octets < 4 {
      return None;
    }
    return Some(tmp + [cur]);
  }

  /** inet_ntop4: the one text that parses to the address, when it fits. */
  method Ntop4(src: seq<Octet>, size: nat) returns (r: Option<string>)
    requires |src| == 4
    ensures r.Some? ==> Parse4(r.value) == Some(src) && |r.value| < size
    ensures r.None? ==> forall s :: Parse4(s) == Some(src) ==> |s| >= size
  {
    hide Parse4, Dotted;
    var tmp := Dotted(src);
    DottedRoundTrip(src);
    forall s | Parse4(s) == Some(src)
      ensures s == tmp
    {
      Parse4Iff(s, src);
    }
    if |tmp| <= 0 || |tmp| >= size {
      return None;
    }
    return Some(tmp);
  }
}
