/** Which texts are IPv6 addresses: exactly what inet_pton6 in inet.c accepts, stated without its
    loop. */
module Inet6Grammar {
  import opened Options
  import opened Inet
  import opened Inet6Parse

  // ----- The grammar -----

  /** One to four hexadecimal digits of either case. */
  predicate IsGroup(g: string) {
    1 <= |g| <= 4 && AllHex(g)
  }

  predicate AllHex(g: string) {
    forall c :: c in g ==> HexVal(c).Some?
  }

  function HexValue(g: string): nat {
    Positional(g, 16)
  }

  /** The groups' words, high byte first. */
  function Values(gs: seq<string>): seq<Octet> {
    if gs == [] then [] else TwoBytes(HexValue(gs[0])) + Values(gs[1..])
  }

  /** An address written with its parts around "::", or in `tail` alone without one. The last part
      may be a dotted IPv4 address. */
  datatype Shape = Shape(head: seq<string>, gap: bool, tail: seq<string>, dotted: Option<seq<Octet>>)

  predicate ShapeOk(h: Shape) {
    && (forall g :: g in h.head ==> IsGroup(g)) && (forall g :: g in h.tail ==> IsGroup(g))
    && (h.dotted.Some? ==> |h.dotted.value| == 4)
    && (!h.gap ==> h.head == [])
  }

  /** Each group with a colon behind it. */
  function HeadText(gs: seq<string>): string {
    if gs == [] then "" else gs[0] + ":" + HeadText(gs[1..])
  }

  /** Groups with colons between them, and the dotted address last. */
  function TailText(gs: seq<string>, dotted: Option<seq<Octet>>): string
    requires dotted.Some? ==> |dotted.value| == 4
  {
    if gs == [] then match dotted case None => "" case Some(b) => Dotted(b)
    else if |gs| == 1 && dotted.None? then gs[0]
    else gs[0] + ":" + TailText(gs[1..], dotted)
  }

  function ShapeText(h: Shape): string
    requires ShapeOk(h)
  {
    if !h.gap then TailText(h.tail, h.dotted)
    else (if h.head == [] then ":" else HeadText(h.head)) + ":" + TailText(h.tail, h.dotted)
  }

  function TailBytes(gs: seq<string>, dotted: Option<seq<Octet>>): seq<Octet> {
    Values(gs) + match dotted case None => [] case Some(b) => b
  }

  /** Sixteen bytes, or at most fourteen and zeros where "::" stands. */
  ghost predicate ShapeMeans(h: Shape, b: seq<Octet>) {
    var front, back := Values(h.head), TailBytes(h.tail, h.dotted);
    if h.gap then |front| + |back| < 16 && b == front + Zeros(16 - |front| - |back|) + back
    else |back| == 16 && b == back
  }

  ghost predicate IsWritten(s: string, b: seq<Octet>) {
    exists h :: ShapeOk(h) && s == ShapeText(h) && ShapeMeans(h, b)
  }

  // ----- The loop on one group -----

  lemma HexValueSnoc(g: string, c: char)
    requires HexVal(c).Some?
    ensures HexValue(g + [c]) == HexValue(g) * 16 + HexVal(c).value
  {
    assert (g + [c])[..|g|] == g;
  }

  /** The loop reads the rest of a group. */
  lemma {:induction false} GroupReads(g: string, k: nat, rest: string, p: Parser)
    requires AllHex(g) && k <= |g| <= 4
    ensures Loop6(g[k..] + rest, p.(val := HexValue(g[..k]), seen := k)) == Loop6(rest, p.(val := HexValue(g), seen := |g|))
    decreases |g| - k
  {
    hide Loop6, HexVal, HexValue, Finish, Parse4;
    if k == |g| {
      assert g[k..] + rest == rest && g[..k] == g;
    } else {
      var s := g[k..] + rest;
      assert s[0] == g[k] && s[1..] == g[k + 1..] + rest && g[..k + 1] == g[..k] + [g[k]];
      assert g[k] in g;
      HexValueSnoc(g[..k], g[k]);
      Turns(s, p.(val := HexValue(g[..k]), seen := k));
      GroupReads(g, k + 1, rest, p);
    }
  }

  lemma WholeGroupReads(g: string, rest: string, p: Parser)
    requires AllHex(g) && |g| <= 4 && p.seen == 0 && p.val == 0
    ensures Loop6(g + rest, p) == Loop6(rest, p.(val := HexValue(g), seen := |g|))
  {
    hide Loop6, AllHex;
    assert g[0..] == g && g[..0] == "";
    GroupReads(g, 0, rest, p);
  }

  function HexPrefix(s: string): (k: nat)
    ensures k <= |s| && (k < |s| ==> HexVal(s[k]).None?)
  {
    if s != "" && HexVal(s[0]).Some? then 1 + HexPrefix(s[1..]) else 0
  }

  lemma {:induction false} HexPrefixIsHex(s: string, k: nat)
    requires k <= HexPrefix(s)
    ensures AllHex(s[..k])
  {
    hide HexVal;
    if k > 0 {
      HexPrefixIsHex(s[1..], k - 1);
      assert s[..k] == [s[0]] + s[1..][..k - 1];
    }
  }

  /** More than four digits in a row are refused. */
  lemma LongGroupFails(s: string, p: Parser)
    requires p.seen == 0 && p.val == 0 && HexPrefix(s) > 4
    ensures Loop6(s, p).None?
  {
    hide Loop6, Finish, Parse4, HexVal, HexValue, HexPrefix;
    HexPrefixIsHex(s, 4);
    HexPrefixIsHex(s, 5);
    assert s == s[..4] + s[4..];
    WholeGroupReads(s[..4], s[4..], p);
    assert s[..5][4] == s[4];
    Turns(s[4..], p.(val := HexValue(s[..4]), seen := 4));
  }

  // ----- What the grammar allows, the loop accepts -----

  predicate AtGroup(s: string, p: Parser) {
    p.seen == 0 && p.val == 0 && p.tok == s
  }

  /** A group and the colon behind it. */
  lemma ColonAfterGroup(g: string, rest: string, p: Parser)
    requires IsGroup(g) && p.seen == 0 && p.val == 0
    ensures Loop6(g + ":" + rest, p) ==
      if rest == "" || |p.out| + 2 > 16 then None
      else Loop6(rest, Parser(p.out + TwoBytes(HexValue(g)), p.colon, 0, 0, rest))
  {
    hide Loop6, Finish, Parse4, HexValue, AllHex;
    assert g + ":" + rest == g + (":" + rest);
    WholeGroupReads(g, ":" + rest, p);
    assert (":" + rest)[1..] == rest;
    Turns(":" + rest, p.(val := HexValue(g), seen := |g|));
  }

  lemma LastGroup(g: string, p: Parser)
    requires IsGroup(g) && p.seen == 0 && p.val == 0 && |p.out| + 2 <= 16
    ensures Loop6(g, p) == Finish(Parser(p.out + TwoBytes(HexValue(g)), p.colon, 0, 0, p.tok))
  {
    hide Loop6, HexValue, AllHex;
    assert g + "" == g;
    WholeGroupReads(g, "", p);
    LoopEnds(p.(val := HexValue(g), seen := |g|));
  }

  lemma ValuesCons(g: string, gs: seq<string>)
    ensures Values([g] + gs) == TwoBytes(HexValue(g)) + Values(gs)
  {
    assert ([g] + gs)[1..] == gs;
  }

  lemma {:induction false} ValuesLength(gs: seq<string>)
    ensures |Values(gs)| == 2 * |gs|
  {
    if gs != [] {
      ValuesLength(gs[1..]);
    }
  }

  lemma TailNotEmpty(gs: seq<string>, dotted: Option<seq<Octet>>)
    requires (forall g :: g in gs ==> IsGroup(g)) && (dotted.Some? ==> |dotted.value| == 4)
    ensures TailText(gs, dotted) == "" <==> gs == [] && dotted.None?
  {
    hide Dotted;
    if dotted.Some? {
      DottedRoundTrip(dotted.value);
    }
    if gs != [] {
      assert IsGroup(gs[0]);
    }
  }

  /** The loop on groups and a dotted address that fit. */
  lemma {:induction false} TailAccepted(gs: seq<string>, dotted: Option<seq<Octet>>, p: Parser)
    requires (forall g :: g in gs ==> IsGroup(g)) && (dotted.Some? ==> |dotted.value| == 4)
    requires AtGroup(TailText(gs, dotted), p) && |p.out| + |TailBytes(gs, dotted)| <= 16
    ensures Loop6(TailText(gs, dotted), p) == Finish(Parser(p.out + TailBytes(gs, dotted), p.colon, 0, 0, ""))
  {
    hide Loop6, Dotted, Parse4, HexValue, AllHex;
    if gs == [] {
      assert Values(gs) == [];
      if dotted.None? {
        LoopEnds(p);
        assert p.out + [] == p.out;
      } else {
        assert TailBytes(gs, dotted) == dotted.value;
        DottedParses(dotted.value, p);
      }
    } else {
      var g, rest := gs[0], TailText(gs[1..], dotted);
      assert gs == [g] + gs[1..];
      ValuesCons(g, gs[1..]);
      ValuesLength(gs[1..]);
      var out := p.out + TwoBytes(HexValue(g));
      assert p.out + TailBytes(gs, dotted) == out + TailBytes(gs[1..], dotted);
      TailNotEmpty(gs[1..], dotted);
      if |gs| == 1 && dotted.None? {
        LastGroup(g, p);
        assert out + TailBytes(gs[1..], dotted) == out;
      } else {
        ColonAfterGroup(g, rest, p);
        TailAccepted(gs[1..], dotted, Parser(out, p.colon, 0, 0, rest));
      }
    }
  }

  /** The loop on the groups before "::" and the second of its colons. */
  lemma {:induction false} HeadAccepted(gs: seq<string>, tail: string, p: Parser)
    requires (forall g :: g in gs ==> IsGroup(g)) && p.colon.None? && |p.out| + 2 * |gs| < 16
    requires AtGroup(HeadText(gs) + ":" + tail, p)
    ensures var out := p.out + Values(gs);
      Loop6(HeadText(gs) + ":" + tail, p) == Loop6(tail, Parser(out, Some(|out|), 0, 0, tail))
  {
    hide Loop6, Finish, Parse4, HexValue, AllHex;
    if gs == [] {
      assert HeadText(gs) + ":" + tail == ":" + tail && (":" + tail)[1..] == tail;
      assert p.out + [] == p.out;
      Turns(":" + tail, p);
    } else {
      var g, rest := gs[0], HeadText(gs[1..]) + ":" + tail;
      assert gs == [g] + gs[1..];
      ValuesCons(g, gs[1..]);
      var out := p.out + TwoBytes(HexValue(g));
      assert p.out + Values(gs) == out + Values(gs[1..]);
      assert HeadText(gs) + ":" + tail == g + ":" + rest;
      ColonAfterGroup(g, rest, p);
      HeadAccepted(gs[1..], tail, Parser(out, p.colon, 0, 0, rest));
    }
  }

  lemma FinishIs(out: seq<Octet>, colon: Option<nat>, tok: string)
    requires colon.Some? ==> colon.value <= |out|
    ensures Finish(Parser(out, colon, 0, 0, tok)) ==
      if colon.None? then if |out| == 16 then Some(out) else None
      else if |out| < 16 then Some(out[..colon.value] + Zeros(16 - |out|) + out[colon.value..]) else None
  {
  }

  /** A text that starts with a group does not start with a colon. */
  lemma StartsWithGroup(g: string, rest: string)
    requires IsGroup(g)
    ensures g != "" && g + rest != "" && (g + rest)[0] != ':'
  {
    assert g[0] in g;
  }

  lemma WrittenParses(h: Shape, b: seq<Octet>)
    requires ShapeOk(h) && ShapeMeans(h, b)
    ensures Parse6(ShapeText(h)) == Some(b)
  {
    hide Loop6, Finish, IsGroup;
    var s, tail := ShapeText(h), TailText(h.tail, h.dotted);
    var front, back := Values(h.head), TailBytes(h.tail, h.dotted);
    assert [] + back == back && [] + front == front;
    ValuesLength(h.head);
    ValuesLength(h.tail);
    if h.gap {
      GapStarts(h);
      assert s[1..][0..] == s[1..];
      HeadAccepted(h.head, tail, START.(tok := HeadText(h.head) + ":" + tail));
      TailAccepted(h.tail, h.dotted, Parser(front, Some(|front|), 0, 0, tail));
      FinishIs(front + back, Some(|front|), "");
      assert (front + back)[..|front|] == front && (front + back)[|front|..] == back;
    } else {
      assert h.tail != [];
      TailStarts(h);
      TailAccepted(h.tail, h.dotted, START.(tok := s));
      FinishIs(back, None, "");
    }
  }

  lemma GapStarts(h: Shape)
    requires ShapeOk(h) && h.gap
    ensures var s, loop := ShapeText(h), HeadText(h.head) + ":" + TailText(h.tail, h.dotted);
      if h.head == [] then |s| >= 2 && s[0] == ':' && s[1] == ':' && s[1..] == loop else s == loop && s != [] && s[0] != ':'
  {
    hide IsGroup;
    var tail := TailText(h.tail, h.dotted);
    if h.head == [] {
      assert HeadText(h.head) + ":" + tail == ":" + tail;
    } else {
      StartsWithGroup(h.head[0], ":" + HeadText(h.head[1..]) + ":" + tail);
      assert ShapeText(h) == h.head[0] + (":" + HeadText(h.head[1..]) + ":" + tail);
    }
  }

  lemma TailStarts(h: Shape)
    requires ShapeOk(h) && !h.gap && h.tail != []
    ensures ShapeText(h) != "" && ShapeText(h)[0] != ':'
  {
    hide IsGroup;
    StartsWithGroup(h.tail[0], "");
    assert h.tail[0] + "" == h.tail[0];
    if !(|h.tail| == 1 && h.dotted.None?) {
      StartsWithGroup(h.tail[0], ":" + TailText(h.tail[1..], h.dotted));
      assert ShapeText(h) == h.tail[0] + (":" + TailText(h.tail[1..], h.dotted));
    }
  }

  // ----- What the loop accepts, the grammar allows -----

  /** The text the loop has before it, from the beginning of a group on. */
  function RestText(h: Shape): string
    requires ShapeOk(h)
  {
    if h.gap then HeadText(h.head) + ":" + TailText(h.tail, h.dotted) else TailText(h.tail, h.dotted)
  }

  ghost predicate Explains(h: Shape, s: string, p: Parser, b: seq<Octet>) {
    && ShapeOk(h) && s == RestText(h)
    && var out := p.out + Values(h.head);
       && (h.gap ==> p.colon.None?)
       && Finish(Parser(out + TailBytes(h.tail, h.dotted), if h.gap then Some(|out|) else p.colon, 0, 0, "")) == Some(b)
  }

  lemma {:induction false} Accepted(s: string, p: Parser, b: seq<Octet>) returns (h: Shape)
    requires AtGroup(s, p) && Loop6(s, p) == Some(b)
    ensures Explains(h, s, p, b)
    decreases |s|
  {
    hide Loop6, Finish, Parse4, HexValue, HexPrefix, AllHex, Explains;
    var k := HexPrefix(s);
    if k > 4 {
      LongGroupFails(s, p);
      assert false;
      h := Shape([], false, [], None);
    } else if k == 0 {
      if s == "" {
        LoopEnds(p);
        h := EndOfText(p, b);
      } else {
        Turns(s, p);
        if s[0] == ':' {
          var h' := Accepted(s[1..], p.(colon := Some(|p.out|), tok := s[1..]), b);
          h := AfterGap(h', s, p, b);
        } else {
          Parse4Iff(s, Parse4(s).value);
          DottedStarts(Parse4(s).value);
          assert false;
          h := Shape([], false, [], None);
        }
      }
    } else {
      var g, r := s[..k], s[k..];
      HexPrefixIsHex(s, k);
      SplitAt(s, k);
      WholeGroupReads(g, r, p);
      var q := p.(val := HexValue(g), seen := k);
      if r == "" {
        LoopEnds(q);
        assert s == g;
        h := OneGroup(g, p, b);
      } else {
        Turns(r, q);
        if r[0] == ':' {
          assert s == g + ":" + r[1..];
          ColonAfterGroup(g, r[1..], p);
          var h' := Accepted(r[1..], Parser(p.out + TwoBytes(HexValue(g)), p.colon, 0, 0, r[1..]), b);
          h := MoreGroups(g, h', r[1..], p, b);
        } else {
          Parse4Iff(s, Parse4(s).value);
          FinishIgnores(p.out + Parse4(s).value, p.colon, q.val, p.tok);
          h := DottedText(Parse4(s).value, s, p, b);
        }
      }
    }
  }

  lemma SplitAt(s: string, k: nat)
    requires k <= |s|
    ensures s == s[..k] + s[k..]
  {
  }

  lemma EndOfText(p: Parser, b: seq<Octet>) returns (h: Shape)
    requires AtGroup("", p) && Finish(p) == Some(b)
    ensures Explains(h, "", p, b)
  {
    hide Finish;
    h := Shape([], false, [], None);
    assert Values([]) == [] && TailBytes([], None) == [];
    assert p.out + [] + [] == p.out;
    FinishIgnores(p.out, p.colon, 0, p.tok);
    assert p == Parser(p.out, p.colon, 0, 0, p.tok);
  }

  lemma AfterGap(h': Shape, s: string, p: Parser, b: seq<Octet>) returns (h: Shape)
    requires s != "" && s[0] == ':' && p.colon.None? && Explains(h', s[1..], p.(colon := Some(|p.out|), tok := s[1..]), b)
    ensures Explains(h, s, p, b)
  {
    hide Finish, IsGroup, TailText;
    h := Shape([], true, h'.tail, h'.dotted);
    assert p.out + [] == p.out;
    assert s == ":" + s[1..];
    assert HeadText([]) + ":" == ":";
  }

  lemma DottedText(v: seq<Octet>, s: string, p: Parser, b: seq<Octet>) returns (h: Shape)
    requires |v| == 4 && s == Dotted(v) && p.seen == 0 && Finish(Parser(p.out + v, p.colon, 0, 0, "")) == Some(b)
    ensures Explains(h, s, p, b)
  {
    hide Finish, Dotted;
    h := Shape([], false, [], Some(v));
    assert p.out + [] + ([] + v) == p.out + v;
  }

  lemma OneGroup(g: string, p: Parser, b: seq<Octet>) returns (h: Shape)
    requires IsGroup(g) && p.seen == 0 && Finish(p.(val := HexValue(g), seen := |g|)) == Some(b)
    ensures Explains(h, g, p, b)
  {
    hide HexValue, AllHex;
    h := Shape([], false, [g], None);
    ValuesCons(g, []);
    assert [g] + [] == [g] && Values([]) == [];
    assert p.out + [] + (TwoBytes(HexValue(g)) + [] + []) == p.out + TwoBytes(HexValue(g));
  }

  lemma HeadCons(g: string, gs: seq<string>, rest: string)
    ensures HeadText([g] + gs) + rest == g + ":" + (HeadText(gs) + rest)
  {
    assert ([g] + gs)[1..] == gs;
  }

  lemma TailCons(g: string, gs: seq<string>, dotted: Option<seq<Octet>>)
    requires (dotted.Some? ==> |dotted.value| == 4) && (gs != [] || dotted.Some?)
    ensures TailText([g] + gs, dotted) == g + ":" + TailText(gs, dotted)
  {
    assert ([g] + gs)[1..] == gs;
  }

  lemma MoreGroups(g: string, h': Shape, rest: string, p: Parser, b: seq<Octet>) returns (h: Shape)
    requires IsGroup(g) && rest != "" && Explains(h', rest, Parser(p.out + TwoBytes(HexValue(g)), p.colon, 0, 0, rest), b)
    ensures Explains(h, g + ":" + rest, p, b)
  {
    hide Finish, HexValue, IsGroup, HeadText, TailText, Values;
    var word := TwoBytes(HexValue(g));
    assert Values([]) == [] by {
      NoValues();
    }
    if h'.gap {
      h := Shape([g] + h'.head, true, h'.tail, h'.dotted);
      ValuesCons(g, h'.head);
      assert p.out + Values(h.head) == p.out + word + Values(h'.head);
      HeadCons(g, h'.head, ":" + TailText(h'.tail, h'.dotted));
      Regroup(HeadText(h'.head), ":", TailText(h'.tail, h'.dotted));
      Regroup(HeadText(h.head), ":", TailText(h.tail, h.dotted));
    } else {
      h := Shape([], false, [g] + h'.tail, h'.dotted);
      ValuesCons(g, h'.tail);
      assert p.out + [] + TailBytes(h.tail, h.dotted) == p.out + word + [] + TailBytes(h'.tail, h'.dotted);
      TailNotEmpty(h'.tail, h'.dotted);
      TailCons(g, h'.tail, h'.dotted);
    }
  }

  lemma NoValues()
    ensures Values([]) == []
  {
  }

  lemma Regroup(a: string, b: string, c: string)
    ensures a + b + c == a + (b + c)
  {
  }

  lemma ExplainedMeans(h: Shape, s: string, b: seq<Octet>)
    requires Explains(h, s, START.(tok := s), b)
    ensures ShapeOk(h) && s == RestText(h) && ShapeMeans(h, b)
  {
    hide Finish, IsGroup, TailText, HeadText;
    var front, back := Values(h.head), TailBytes(h.tail, h.dotted);
    assert [] + front == front;
    FinishIs(front + back, if h.gap then Some(|front|) else None, "");
    assert (front + back)[..|front|] == front && (front + back)[|front|..] == back;
    assert !h.gap ==> front + back == back;
  }

  /** Main theorem: the parser accepts exactly the texts of the grammar, with their meaning. */
  lemma Parse6Iff(s: string, b: seq<Octet>)
    ensures Parse6(s) == Some(b) <==> IsWritten(s, b)
  {
    hide Loop6, ShapeOk, ShapeMeans, Explains;
    if Parse6(s) == Some(b) {
      var t := if s != [] && s[0] == ':' then s[1..] else s;
      var h := Accepted(t, START.(tok := t), b);
      ExplainedMeans(h, t, b);
      RestIsText(h, s, t);
      assert IsWritten(s, b);
    }
    if IsWritten(s, b) {
      var h :| ShapeOk(h) && s == ShapeText(h) && ShapeMeans(h, b);
      WrittenParses(h, b);
    }
  }

  /** The first colon of a leading "::" is not part of what the loop reads. */
  lemma RestIsText(h: Shape, s: string, t: string)
    requires ShapeOk(h) && t == RestText(h)
    requires if s != [] && s[0] == ':' then |s| >= 2 && s[1] == ':' && t == s[1..] else t == s
    ensures s == ShapeText(h)
  {
    hide IsGroup;
    if h.gap {
      GapStarts(h);
    } else if h.tail != [] {
      TailStarts(h);
    } else if h.dotted.Some? {
      DottedStarts(h.dotted.value);
    }
  }

  lemma DottedStarts(v: seq<Octet>)
    requires |v| == 4
    ensures Dotted(v) != "" && HexVal(Dotted(v)[0]).Some?
  {
    DecForms(v[0]);
  }

  lemma KnownGroups()
    ensures HexValue("2001") == 0x2001 && HexValue("DB8") == 0xdb8 && HexValue("1") == 1
    ensures IsGroup("2001") && IsGroup("DB8") && IsGroup("1")
  {
    assert "2001"[..3] == "200" && "200"[..2] == "20" && "20"[..1] == "2" && "2"[..0] == "";
    assert "DB8"[..2] == "DB" && "DB"[..1] == "D" && "D"[..0] == "" && "1"[..0] == "";
    assert HexValue("20") == 0x20 && HexValue("DB") == 0xdb;
  }

  lemma KnownValues()
    ensures Values(["2001", "DB8"]) == [0x20, 0x01, 0x0d, 0xb8] && Values(["1"]) == [0, 1]
  {
    hide HexValue;
    KnownGroups();
    assert ["2001", "DB8"][1..] == ["DB8"] && ["DB8"][1..] == [] && ["1"][1..] == [];
    assert Values(["DB8"]) == [0x0d, 0xb8];
  }

  lemma KnownHead()
    ensures HeadText(["2001", "DB8"]) == "2001:DB8:"
  {
    assert ["2001", "DB8"][1..] == ["DB8"] && ["DB8"][1..] == [];
    assert HeadText(["DB8"]) == "DB8:";
  }

  lemma KnownShape(h: Shape)
    requires h == Shape(["2001", "DB8"], true, ["1"], None)
    ensures ShapeOk(h) && ShapeText(h) == "2001:DB8::1"
  {
    hide IsGroup, HeadText;
    KnownGroups();
    KnownHead();
    assert TailText(["1"], None) == "1";
  }

  lemma KnownMeaning(h: Shape, b: seq<Octet>)
    requires h == Shape(["2001", "DB8"], true, ["1"], None)
    requires b == [0x20, 0x01, 0x0d, 0xb8, 0, 0, 0, 0, 0, 0, 0, 0, 0, 0, 0, 0x01]
    ensures ShapeMeans(h, b)
  {
    hide Values;
    KnownValues();
    var tail: seq<Octet> := [0, 1];
    assert TailBytes(["1"], None) == tail;
    assert b[4..14] == Zeros(10);
    assert b == b[..4] + b[4..14] + b[14..];
  }

  /** "2001:DB8::1" is an address whose bytes are in network order. */
  lemma KnownAddress()
    ensures Parse6("2001:DB8::1") == Some([0x20, 0x01, 0x0d, 0xb8, 0, 0, 0, 0, 0, 0, 0, 0, 0, 0, 0, 0x01])
  {
    hide ShapeOk, ShapeText, ShapeMeans, Parse6;
    var h := Shape(["2001", "DB8"], true, ["1"], None);
    var b: seq<Octet> := [0x20, 0x01, 0x0d, 0xb8, 0, 0, 0, 0, 0, 0, 0, 0, 0, 0, 0, 0x01];
    KnownShape(h);
    KnownMeaning(h, b);
    assert IsWritten("2001:DB8::1", b);
    Parse6Iff("2001:DB8::1", b);
  }
}
