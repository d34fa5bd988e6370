/** Damage inside one block of a log stays inside that block. */
module LogDamage {
  import opened DbFormat
  import opened Coding
  import opened Log
  import opened LogTruncation

  predicate InBlock(ph: Phys, k: nat) {
    ph.at / BLOCK == k
  }

  /** `f` is `g` with any bytes of block `k` changed. */
  ghost predicate DamagedIn(f: Bytes, g: Bytes, k: nat) {
    |f| == |g| && forall i :: 0 <= i < |f| && i / BLOCK != k ==> f[i] == g[i]
  }

  /** What stands at a place claims to end within its block and the file, and its stored checksum is that
      of its type and data, masked. */
  ghost predicate Checks(crc: Crc, f: Bytes, at: nat) {
    && at + 7 <= |f|
    && var n := f[at + 4] as int + 256 * f[at + 5] as int;
       && at + 7 + n <= |f| && at % 32768 + 7 + n <= 32768
       && var c := crc(f[at + 6..at + 7 + n]);
          WordValue(f[at..at + 4]) == (c / 32768 + c % 32768 * 131072 + 0xa282ead8) % 0x1_0000_0000
  }

  /** An ideal checksum: what has a right checksum where a fragment was written is that very fragment. */
  ghost predicate IdealAt(crc: Crc, f: Bytes, ph: Phys) {
    Checks(crc, f, ph.at) ==> Holds(crc, f, ph)
  }

  lemma Subslice(f: Bytes, a: nat, e: nat, i: nat, j: nat)
    requires a <= e <= |f| && i <= j <= e - a
    ensures f[a..e][i..j] == f[a + i..a + j]
  {
    assert forall x :: 0 <= x < j - i ==> f[a..e][i..j][x] == f[a + i..a + j][x];
  }

  /** The reader takes only what has a right checksum. */
  lemma TakenChecks(crc: Crc, f: Bytes, at: nat)
    requires at <= |f| && |Loaded(f, at).buffer| >= HEADER && Parse(crc, Loaded(f, at)).0.Fragment?
    ensures Checks(crc, f, at)
  {
    hide WordValue, DecodeFixed, Mask, Unmask;
    var b := Loaded(f, at).buffer;
    var n := b[4] as int + b[5] as int * 256;
    var end := Min(BlockEnd(at), |f|);
    assert b == f[at..end] && HEADER + n <= |b| && b[4] == f[at + 4] && b[5] == f[at + 5];
    Subslice(f, at, end, 6, HEADER + n);
    Subslice(f, at, end, 0, 4);
    assert Pow256(4) == TWO32;
    WordDecodes(b[..4]);
    MaskUnmask(DecodeFixed(b[..4]));
    MaskIs(crc(b[6..HEADER + n]));
  }

  lemma MaskIs(c: nat)
    requires c < TWO32
    ensures Mask(c) == (c / 32768 + c % 32768 * 131072 + 0xa282ead8) % 0x1_0000_0000
  {
  }

  ghost predicate IdealIn(crc: Crc, f: Bytes, ps: seq<Phys>, k: nat) {
    forall i :: 0 <= i < |ps| && InBlock(ps[i], k) ==> IdealAt(crc, f, ps[i])
  }

  /** A fragment of another block survives. */
  lemma HeldOutside(crc: Crc, f: Bytes, g: Bytes, k: nat, ph: Phys)
    requires DamagedIn(f, g, k) && Holds(crc, g, ph) && !InBlock(ph, k)
    ensures Holds(crc, f, ph)
  {
    forall i | ph.at <= i < ph.End()
      ensures f[i] == g[i]
    {
      SameBlockIndex(ph, i);
    }
    assert f[ph.at..ph.End()] == g[ph.at..ph.End()];
  }

  lemma SameBlockIndex(ph: Phys, i: nat)
    requires Fits(ph) && ph.at <= i < ph.End()
    ensures i / BLOCK == ph.at / BLOCK
  {
  }

  /** A file whose fragments from `p` on are all there reads back in full. */
  lemma EventsIntact(crc: Crc, f: Bytes, p: nat, ps: seq<Phys>)
    requires Chain(p, ps) && AllHold(crc, f, ps) && EndOf(p, ps) == |f| && p <= |f|
    ensures Events(crc, f, StateAt(f, p)) == EventsOf(ps)
  {
    EventsTruncated(crc, f, f, p, ps);
    WithinWhole(p, ps, [], |f|);
    assert ps + [] == ps;
  }

  /** The first fragment at or past the end of the block. */
  lemma {:induction false} PastBlock(p: nat, ps: seq<Phys>, k: nat) returns (e: nat)
    requires Chain(p, ps) && p <= (k + 1) * BLOCK && k * BLOCK <= p
    ensures e <= |ps| && forall i :: 0 <= i < e ==> InBlock(ps[i], k)
    ensures Chain((k + 1) * BLOCK, ps[e..]) || e == |ps|
    ensures forall i :: e <= i < |ps| ==> ps[i].at >= (k + 1) * BLOCK
    ensures EndOf(p, ps) >= (k + 1) * BLOCK ==> EndOf((k + 1) * BLOCK, ps[e..]) == EndOf(p, ps)
    decreases |ps|
  {
    var end := (k + 1) * BLOCK;
    if ps == [] {
      e := 0;
    } else if ps[0].at < end {
      InThisBlock(ps[0], k);
      e := PastBlock(ps[0].End(), ps[1..], k);
      assert ps[e + 1..] == ps[1..][e..];
      assert EndOf(ps[0].End(), ps[1..]) == EndOf(p, ps);
      e := e + 1;
    } else {
      e := 0;
      SkipToEnd(p, k);
      forall i | 0 <= i < |ps|
        ensures ps[i].at >= end
      {
        ChainEnds(end, ps, i);
      }
    }
  }

  lemma InThisBlock(ph: Phys, k: nat)
    requires Fits(ph) && k * BLOCK <= ph.at < (k + 1) * BLOCK
    ensures InBlock(ph, k) && ph.End() <= (k + 1) * BLOCK && BlockEnd(ph.at) == (k + 1) * BLOCK
  {
  }

  lemma SkipToEnd(p: nat, k: nat)
    requires k * BLOCK <= p <= (k + 1) * BLOCK <= Skip(p)
    ensures Skip(p) == (k + 1) * BLOCK == Skip((k + 1) * BLOCK)
  {
  }

  /** The length that the header at a fragment's place claims. */
  function ClaimedLength(f: Bytes, ph: Phys): nat
    requires ph.End() <= |f|
  {
    f[ph.at + 4] as int + 256 * f[ph.at + 5] as int
  }

  /** What stands there looks like a record that the writer did not finish. */
  predicate LooksUnfinished(f: Bytes, ph: Phys)
    requires ph.End() <= |f|
  {
    BlockEnd(ph.at) > |f| && ph.at + HEADER + ClaimedLength(f, ph) > |f|
  }

  /** What stands there looks like space set aside and never written. */
  predicate LooksEmpty(f: Bytes, ph: Phys)
    requires ph.End() <= |f|
  {
    f[ph.at + 6] == 0 && ClaimedLength(f, ph) == 0
  }

  /** What the reader makes of a fragment that is not there any more. */
  function CutAt(f: Bytes, ph: Phys): seq<Event>
    requires ph.End() <= |f|
  {
    if LooksUnfinished(f, ph) then [] else [Bad(!LooksEmpty(f, ph))]
  }

  lemma DamagedHeader(crc: Crc, f: Bytes, ph: Phys)
    requires ph.End() <= |f| && Fits(ph)
    ensures var s := Loaded(f, ph.at);
      |s.buffer| >= HEADER &&
      match Parse(crc, s).0
      case Fragment(_, _) => true
      case e => CutAt(f, ph) == if e.Eof? then [] else [e]
  {
    var s := Loaded(f, ph.at);
    assert s.buffer[4] == f[ph.at + 4] && s.buffer[5] == f[ph.at + 5] && s.buffer[6] == f[ph.at + 6];
  }

  /** One step of the reader at a fragment of the damaged block: the fragment itself, or the
      rest of the block is thrown away. */
  lemma DamagedStep(crc: Crc, f: Bytes, p: nat, ph: Phys)
    requires p <= |f| && ph.at == Skip(p) && Fits(ph) && ph.End() <= |f| && IdealAt(crc, f, ph)
    ensures var (e, t) := ReadPhysical(crc, f, StateAt(f, p));
      match e
      case Fragment(_, _) => e == Fragment(ph.kind, ph.payload) && t == StateAt(f, ph.End())
      case Bad(_) => t == if BlockEnd(ph.at) <= |f| then StateAt(f, BlockEnd(ph.at)) else Source(|f|, [], true)
      case Eof => BlockEnd(ph.at) > |f|
    ensures ReadsHeld(crc, f, p, ph)
  {
    hide Skip, CutAt, Holds, Checks;
    ReadAt(crc, f, p);
    DamagedHeader(crc, f, ph);
    if Parse(crc, Loaded(f, ph.at)).0.Fragment? {
      TakenChecks(crc, f, ph.at);
    }
    if Holds(crc, f, ph) {
      ParseHeld(crc, f, ph);
    }
  }

  /** A fragment is read exactly if it is there; if not, the header decides what is made of it. */
  ghost predicate ReadsHeld(crc: Crc, f: Bytes, p: nat, ph: Phys)
    requires p <= |f| && ph.End() <= |f|
  {
    var e := ReadPhysical(crc, f, StateAt(f, p)).0;
    if Holds(crc, f, ph) then e.Fragment? else !e.Fragment? && CutAt(f, ph) == if e.Eof? then [] else [e]
  }

  lemma EndOfFile(crc: Crc, f: Bytes)
    ensures Events(crc, f, Source(|f|, [], true)) == []
  {
  }

  /** What is left behind the damaged block, from a fragment of the block that was not read. */
  lemma RestOfBlock(f: Bytes, k: nat, p: nat, ps: seq<Phys>) returns (e: nat)
    requires Chain(p, ps) && EndOf(p, ps) == |f| && ps != [] && InBlock(ps[0], k)
    ensures 1 <= e <= |ps| && forall i :: 0 <= i < e ==> InBlock(ps[i], k)
    ensures forall i :: e <= i < |ps| ==> !InBlock(ps[i], k)
    ensures BlockEnd(ps[0].at) == (k + 1) * BLOCK
    ensures (k + 1) * BLOCK <= |f| ==> Chain((k + 1) * BLOCK, ps[e..]) && EndOf((k + 1) * BLOCK, ps[e..]) == |f|
    ensures (k + 1) * BLOCK > |f| ==> e == |ps|
  {
    var ph, end := ps[0], (k + 1) * BLOCK;
    assert ph.at / BLOCK == k;
    InThisBlock(ph, k);
    e := PastBlock(ph.End(), ps[1..], k);
    assert ps[e + 1..] == ps[1..][e..];
    assert EndOf(ph.End(), ps[1..]) == EndOf(p, ps);
    e := e + 1;
    if end > |f| && e < |ps| {
      ChainEnds(p, ps, e);
    }
    forall i | 0 <= i < e
      ensures InBlock(ps[i], k)
    {
      if i > 0 {
        assert ps[i] == ps[1..][i - 1];
      }
    }
    forall i | e <= i < |ps|
      ensures !InBlock(ps[i], k)
    {
      assert ps[i] == ps[1..][i - 1];
    }
  }

  /** What the reader gets from the fragments `ps` when block `k` is damaged: those before some
      point inside the block, a bad-record event, and those after the block. */
  ghost predicate CutOut(es: seq<Event>, ps: seq<Phys>, k: nat, j: nat, e: nat, cut: seq<Event>) {
    && j <= e <= |ps|
    && es == EventsOf(ps[..j]) + cut + EventsOf(ps[e..])
    && (cut == [] || (|cut| == 1 && cut[0].Bad? && j < e))
    && (cut == [] && j < e ==> e == |ps|)
    && forall i :: j <= i < e ==> InBlock(ps[i], k)
  }

  lemma CutOutCons(es: seq<Event>, ps: seq<Phys>, k: nat, j: nat, e: nat, cut: seq<Event>, ph: Phys)
    requires CutOut(es, ps, k, j, e, cut)
    ensures CutOut(EventsOf([ph]) + es, [ph] + ps, k, j + 1, e + 1, cut)
  {
    var all := [ph] + ps;
    assert all[..j + 1] == [ph] + ps[..j] && all[e + 1..] == ps[e..];
    EventsOfConcat([ph], ps[..j]);
    assert EventsOf([ph]) + (EventsOf(ps[..j]) + cut + EventsOf(ps[e..])) == EventsOf(all[..j + 1]) + cut + EventsOf(all[e + 1..]);
  }

  /** The reader's next step in a damaged log. */
  ghost predicate ReadsOrDrops(crc: Crc, f: Bytes, k: nat, p: nat, ph: Phys)
    requires p <= |f| && ph.End() <= |f|
  {
    var (ev, t) := ReadPhysical(crc, f, StateAt(f, p));
    match ev
    case Fragment(_, _) => ev == Fragment(ph.kind, ph.payload) && t == StateAt(f, ph.End())
    case Bad(_) => InBlock(ph, k) && t == if BlockEnd(ph.at) <= |f| then StateAt(f, BlockEnd(ph.at)) else Source(|f|, [], true)
    case Eof => InBlock(ph, k) && BlockEnd(ph.at) > |f|
  }

  lemma StepDamaged(crc: Crc, f: Bytes, g: Bytes, k: nat, p: nat, ph: Phys)
    requires DamagedIn(f, g, k) && Holds(crc, g, ph) && ph.at == Skip(p) && p <= |f|
    requires InBlock(ph, k) ==> IdealAt(crc, f, ph)
    ensures ReadsOrDrops(crc, f, k, p, ph) && ReadsHeld(crc, f, p, ph)
  {
    hide Skip, CutAt;
    if InBlock(ph, k) {
      DamagedStep(crc, f, p, ph);
    } else {
      HeldOutside(crc, f, g, k, ph);
      assert f[..|f|] == f;
      StepTruncated(crc, f, |f|, p, ph);
    }
  }

  lemma {:induction false} EventsDamaged(crc: Crc, f: Bytes, g: Bytes, k: nat, p: nat, ps: seq<Phys>)
      returns (j: nat, e: nat, cut: seq<Event>)
    requires DamagedIn(f, g, k) && Chain(p, ps) && AllHold(crc, g, ps) && IdealIn(crc, f, ps, k)
    requires EndOf(p, ps) == |f| && p <= |f|
    ensures CutOut(Events(crc, f, StateAt(f, p)), ps, k, j, e, cut) && CutsFirst(crc, f, ps, k, j, e, cut)
    decreases |ps|
  {
    hide StateAt, ReadPhysical, Skip, IdealAt, Holds, CutOut, BlockEnd, EventsOf, CutAt;
    if ps == [] {
      j, e, cut := 0, 0, [];
      NothingLeft(crc, f, p, k);
    } else {
      var ph := ps[0];
      assert Holds(crc, g, ph) && (InBlock(ph, k) ==> IdealAt(crc, f, ph));
      ChainEnds(p, ps, 0);
      StepDamaged(crc, f, g, k, p, ph);
      if ReadPhysical(crc, f, StateAt(f, p)).0.Fragment? {
        assert EndOf(ph.End(), ps[1..]) == EndOf(p, ps);
        j, e, cut := EventsDamaged(crc, f, g, k, ph.End(), ps[1..]);
        CutOutCons(Events(crc, f, StateAt(f, ph.End())), ps[1..], k, j, e, cut, ph);
        assert [ph] + ps[1..] == ps;
        EventsOfOne(ph);
        assert Events(crc, f, StateAt(f, p)) == EventsOf([ph]) + Events(crc, f, StateAt(f, ph.End()));
        j, e := j + 1, e + 1;
      } else {
        j := 0;
        e, cut := BlockLost(crc, f, g, k, p, ps);
      }
    }
  }

  /** The first fragment that is not there decides what is cut out. */
  ghost predicate CutsFirst(crc: Crc, f: Bytes, ps: seq<Phys>, k: nat, j: nat, e: nat, cut: seq<Event>) {
    && j <= e <= |ps| && (forall i :: 0 <= i < j ==> Holds(crc, f, ps[i])) && (j == e ==> e == |ps|)
    && (j < e ==> ps[j].End() <= |f| && !Holds(crc, f, ps[j]) && cut == CutAt(f, ps[j]))
    && (j < e < |ps| ==> !InBlock(ps[e], k))
  }

  lemma EventsOfOne(ph: Phys)
    ensures EventsOf([ph]) == [Fragment(ph.kind, ph.payload)]
  {
  }

  lemma NothingLeft(crc: Crc, f: Bytes, p: nat, k: nat)
    requires p == |f|
    ensures CutOut(Events(crc, f, StateAt(f, p)), [], k, 0, 0, [])
  {
    ReadAt(crc, f, p);
  }

  /** The rest of the damaged block was thrown away. */
  lemma BlockLost(crc: Crc, f: Bytes, g: Bytes, k: nat, p: nat, ps: seq<Phys>) returns (e: nat, cut: seq<Event>)
    requires DamagedIn(f, g, k) && Chain(p, ps) && AllHold(crc, g, ps) && EndOf(p, ps) == |f| && p <= |f|
    requires ps != [] && ps[0].End() <= |f|
    requires ReadsOrDrops(crc, f, k, p, ps[0]) && !ReadPhysical(crc, f, StateAt(f, p)).0.Fragment? && ReadsHeld(crc, f, p, ps[0])
    ensures CutOut(Events(crc, f, StateAt(f, p)), ps, k, 0, e, cut) && CutsFirst(crc, f, ps, k, 0, e, cut)
  {
    hide StateAt, ReadPhysical, Skip, CutAt;
    e := RestOfBlock(f, k, p, ps);
    var end := (k + 1) * BLOCK;
    var (ev, t) := ReadPhysical(crc, f, StateAt(f, p));
    cut := if ev.Eof? then [] else [ev];
    var rest := ps[e..];
    if end <= |f| {
      forall i | 0 <= i < |rest|
        ensures Holds(crc, f, rest[i])
      {
        HeldOutside(crc, f, g, k, ps[e + i]);
      }
      EventsIntact(crc, f, end, rest);
    } else {
      EndOfFile(crc, f);
    }
    assert EventsOf(ps[..0]) + cut + EventsOf(rest) == cut + EventsOf(rest);
  }

  // ----- Which records survive -----

  /** The fragments of record `i` of a log. */
  ghost function RecordFragments(p: nat, rs: seq<Bytes>, i: nat): seq<Phys>
    requires i < |rs|
    decreases i
  {
    if i == 0 then Place(p, rs[0], true) else RecordFragments(EndOf(p, Place(p, rs[0], true)), rs[1..], i - 1)
  }

  /** How many fragments the first `i` records have. */
  ghost function Start(p: nat, rs: seq<Bytes>, i: nat): nat
    requires i <= |rs|
    decreases i
  {
    if i == 0 then 0 else |Place(p, rs[0], true)| + Start(EndOf(p, Place(p, rs[0], true)), rs[1..], i - 1)
  }

  lemma {:induction false} StartGrows(p: nat, rs: seq<Bytes>, i: nat, j: nat)
    requires i < j <= |rs|
    ensures Start(p, rs, i) < Start(p, rs, j)
    decreases i
  {
    if i > 0 {
      StartGrows(EndOf(p, Place(p, rs[0], true)), rs[1..], i - 1, j - 1);
    }
  }

  lemma {:induction false} StartOfAll(p: nat, rs: seq<Bytes>)
    ensures Start(p, rs, |rs|) == |PlaceAll(p, rs)|
    decreases |rs|
  {
    hide Place;
    if rs != [] {
      StartOfAll(EndOf(p, Place(p, rs[0], true)), rs[1..]);
    }
  }

  lemma {:induction false} FragmentAt(p: nat, rs: seq<Bytes>, i: nat, x: nat)
    requires i < |rs| && Start(p, rs, i) <= x < Start(p, rs, i + 1)
    ensures x < |PlaceAll(p, rs)| && PlaceAll(p, rs)[x] in RecordFragments(p, rs, i)
    decreases i
  {
    var ps := Place(p, rs[0], true);
    if i > 0 {
      FragmentAt(EndOf(p, ps), rs[1..], i - 1, x - |ps|);
    }
  }

  lemma SkipStray(ph: Phys, more: seq<Event>)
    requires ph.kind == MIDDLE || ph.kind == LAST
    ensures Assemble(EventsOf([ph]) + more, false, []) == Report(true, Assemble(more, false, []))
  {
    var es := EventsOf([ph]) + more;
    assert es[0] == Fragment(ph.kind, ph.payload) && es[1..] == more;
  }

  function Reports(n: nat, log: Contents): Contents {
    log.(reports := n + log.reports)
  }

  /** What is left of a record whose beginning was lost yields nothing but a report each. */
  lemma {:induction false} AssembleLeftover(p: nat, data: Bytes, begin: bool, e: nat, more: seq<Event>)
    requires e <= |Place(p, data, begin)| && (begin ==> e > 0)
    ensures Assemble(EventsOf(Place(p, data, begin)[e..]) + more, false, [])
         == Reports(|Place(p, data, begin)| - e, Assemble(more, false, []))
    decreases |data|, Stage(p)
  {
    hide FragmentOf, Stage, Skip, Assemble, Place, EventsOf;
    PlaceUnfold(p, data, begin);
    var (ph, left) := FragmentOf(p, data, begin);
    var ps := Place(p, data, begin);
    var tail := ps[1..];
    assert ps == [ph] + tail;
    if e == 0 {
      EventsOfConcat([ph], tail);
      assert ps[0..] == ps;
      assert EventsOf(ps) + more == EventsOf([ph]) + (EventsOf(tail) + more);
      SkipStray(ph, EventsOf(tail) + more);
      if left != [] {
        AssembleLeftover(ph.End(), left, false, 0, more);
        assert tail[0..] == tail;
      } else {
        NoEvents(more);
      }
    } else {
      assert ps[e..] == tail[e - 1..];
      if left != [] {
        AssembleLeftover(ph.End(), left, false, e - 1, more);
      } else {
        assert ps[e..] == [];
        NoEvents(more);
      }
    }
  }

  lemma NoEvents(more: seq<Event>)
    ensures EventsOf([]) + more == more
  {
  }

  /** From any fragment on, the reader returns the records that start there or later, and reports the
      fragments before them. */
  lemma {:induction false} AssembleSuffix(p: nat, rs: seq<Bytes>, e: nat) returns (b: nat)
    requires e <= |PlaceAll(p, rs)|
    ensures b <= |rs| && e <= Start(p, rs, b) && (b > 0 ==> Start(p, rs, b - 1) < e)
    ensures Assemble(EventsOf(PlaceAll(p, rs)[e..]), false, []) == Contents(rs[b..], Start(p, rs, b) - e)
    ensures b == 0 <==> e == 0
    decreases |rs|
  {
    hide Place, Assemble;
    b := 0;
    if rs == [] {
      AssembleNothing();
    } else {
      var ps := Place(p, rs[0], true);
      var q := EndOf(p, ps);
      var rest := PlaceAll(q, rs[1..]);
      if e >= |ps| {
        assert (ps + rest)[e..] == rest[e - |ps|..];
        b := AssembleSuffix(q, rs[1..], e - |ps|);
        b := b + 1;
      } else {
        var none := AssembleSuffix(q, rs[1..], 0);
        assert rest[0..] == rest && rs[1..][0..] == rs[1..];
        assert (ps + rest)[e..] == ps[e..] + rest;
        EventsOfConcat(ps[e..], rest);
        if e == 0 {
          assert ps[0..] == ps;
          AssembleRecord(p, rs[0], true, [], EventsOf(rest));
          assert [] + rs[0] == rs[0];
        } else {
          AssembleLeftover(p, rs[0], true, e, EventsOf(rest));
          b := 1;
        }
      }
    }
  }

  lemma AssembleNothing()
    ensures Assemble([], false, []) == Contents([], 0)
    ensures forall kept :: Assemble([], true, kept) == Contents([], 0)
  {
  }

  lemma AssembleBad(bad: Event, inFragmented: bool, kept: Bytes, more: seq<Event>)
    requires bad.Bad? && (!inFragmented ==> kept == [])
    ensures Assemble([bad] + more, inFragmented, kept)
         == Reports((if bad.reported then 1 else 0) + (if inFragmented then 1 else 0), Assemble(more, false, []))
  {
    assert ([bad] + more)[1..] == more;
  }

  /** How many reports there are when fragments `j` to `e` are cut out: one for what is dropped, unless
      it looks empty, one if a record has begun before it, and one for each fragment behind it of a
      record that began inside it. */
  ghost function ReportsOfCut(p: nat, rs: seq<Bytes>, j: nat, e: nat, cut: seq<Event>, a: nat, b: nat): int
    requires a <= |rs| && b <= |rs|
  {
    if cut == [] then 0
    else (if cut[0] == Bad(true) then 1 else 0) + (if Start(p, rs, a) < j then 1 else 0) + (Start(p, rs, b) - e)
  }

  lemma StartShift(p: nat, rs: seq<Bytes>, i: nat)
    requires i < |rs|
    ensures Start(p, rs, 0) == 0
    ensures var ps := Place(p, rs[0], true); Start(p, rs, i + 1) == |ps| + Start(EndOf(p, ps), rs[1..], i)
    ensures Start(EndOf(p, Place(p, rs[0], true)), rs[1..], 0) == 0
  {
  }

  lemma ReportsShift(p: nat, rs: seq<Bytes>, j: nat, e: nat, cut: seq<Event>, a: nat, b: nat)
    requires a < |rs| && b < |rs| && |Place(p, rs[0], true)| <= j <= e
    ensures var ps := Place(p, rs[0], true);
      ReportsOfCut(p, rs, j, e, cut, a + 1, b + 1) == ReportsOfCut(EndOf(p, ps), rs[1..], j - |ps|, e - |ps|, cut, a, b)
  {
    hide Start;
    StartShift(p, rs, a);
    StartShift(p, rs, b);
  }

  lemma CutInside(p: nat, rs: seq<Bytes>, k: nat, es: seq<Event>, j: nat, e: nat, cut: seq<Event>)
    requires CutOut(es, PlaceAll(p, rs), k, j, e, cut) && j < e
    ensures rs != [] && e <= |PlaceAll(p, rs)|
  {
    hide EventsOf;
  }

  /** The records lost when fragments `j` to `e` are cut out are those with a fragment there. */
  lemma {:induction false} AssembleCutOut(p: nat, rs: seq<Bytes>, k: nat, es: seq<Event>, j: nat, e: nat, cut: seq<Event>)
      returns (a: nat, b: nat)
    requires CutOut(es, PlaceAll(p, rs), k, j, e, cut) && j < e
    ensures a < b <= |rs| && Start(p, rs, a) <= j < Start(p, rs, a + 1) && Start(p, rs, b - 1) < e <= Start(p, rs, b)
    ensures ReportsOfCut(p, rs, j, e, cut, a, b) >= 0
    ensures Assemble(es, false, []) == Contents(rs[..a] + rs[b..], ReportsOfCut(p, rs, j, e, cut, a, b))
    decreases |rs|
  {
    hide Place, Assemble, EventsOf, Start, ReportsOfCut, CutOut;
    CutInside(p, rs, k, es, j, e, cut);
    var ps := Place(p, rs[0], true);
    var q := EndOf(p, ps);
    if j >= |ps| {
      var rest := PlaceAll(q, rs[1..]);
      var es' := CutOutLater(ps, rest, k, es, j, e, cut);
      AssembleRecord(p, rs[0], true, [], es');
      assert [] + rs[0] == rs[0];
      a, b := AssembleCutOut(q, rs[1..], k, es', j - |ps|, e - |ps|, cut);
      assert rs[..a + 1] + rs[b + 1..] == [rs[0]] + (rs[1..][..a] + rs[1..][b..]);
      StartShift(p, rs, a);
      StartShift(p, rs, a + 1);
      StartShift(p, rs, b - 1);
      StartShift(p, rs, b);
      ReportsShift(p, rs, j, e, cut, a, b);
      a, b := a + 1, b + 1;
    } else {
      StartShift(p, rs, 0);
      a := 0;
      b := AssembleCutFirst(p, rs, k, es, j, e, cut);
      assert rs[..a] + rs[b..] == rs[b..];
    }
  }

  /** The cut begins in the first record. */
  lemma AssembleCutFirst(p: nat, rs: seq<Bytes>, k: nat, es: seq<Event>, j: nat, e: nat, cut: seq<Event>) returns (b: nat)
    requires CutOut(es, PlaceAll(p, rs), k, j, e, cut) && j < e && rs != [] && j < |Place(p, rs[0], true)|
    ensures 0 < b <= |rs| && Start(p, rs, b - 1) < e <= Start(p, rs, b)
    ensures ReportsOfCut(p, rs, j, e, cut, 0, b) >= 0
    ensures Assemble(es, false, []) == Contents(rs[b..], ReportsOfCut(p, rs, j, e, cut, 0, b))
  {
    hide Place, Assemble, EventsOf;
    var all := PlaceAll(p, rs);
    var ps := Place(p, rs[0], true);
    var after := cut + EventsOf(all[e..]);
    assert es == EventsOf(all[..j]) + after;
    assert all[..j] == ps[..j];
    var kept := AssembleCut(p, rs[0], true, [], j, after);
    if cut == [] {
      b := |rs|;
      assert after == [];
      AssembleNothing();
      StartOfAll(p, rs);
      StartGrows(p, rs, b - 1, b);
    } else {
      AssembleBad(cut[0], j > 0, kept, EventsOf(all[e..]));
      assert after == [cut[0]] + EventsOf(all[e..]);
      b := AssembleSuffix(p, rs, e);
    }
  }

  /** The cut lies behind the first record. */
  lemma CutOutLater(ps: seq<Phys>, rest: seq<Phys>, k: nat, es: seq<Event>, j: nat, e: nat, cut: seq<Event>) returns (es': seq<Event>)
    requires CutOut(es, ps + rest, k, j, e, cut) && |ps| <= j < e
    ensures es == EventsOf(ps) + es' && CutOut(es', rest, k, j - |ps|, e - |ps|, cut)
  {
    var all, j', e' := ps + rest, j - |ps|, e - |ps|;
    assert all[..j] == ps + rest[..j'] && all[e..] == rest[e'..];
    EventsOfConcat(ps, rest[..j']);
    es' := EventsOf(rest[..j']) + cut + EventsOf(rest[e'..]);
    assert es == EventsOf(ps) + es';
    forall i | j' <= i < e'
      ensures InBlock(rest[i], k)
    {
      assert rest[i] == all[i + |ps|];
    }
  }

  ghost predicate Touches(rs: seq<Bytes>, i: nat, k: nat)
    requires i < |rs|
  {
    exists ph :: ph in RecordFragments(0, rs, i) && InBlock(ph, k)
  }

  /** Block `k` has lost the records from `a` to before `b`: the fragment at `j`, the first that is not
      there any more, lies in the first of them, and the one at `e`, the first behind the block, is at
      or before the end of the last. */
  ghost predicate Lost(crc: Crc, f: Bytes, rs: seq<Bytes>, k: nat, j: nat, e: nat, a: nat, b: nat) {
    var ps := PlaceAll(0, rs);
    && j < e <= |ps| && a < b <= |rs|
    && ps[j].End() <= |f| && !Holds(crc, f, ps[j]) && (forall i :: 0 <= i < j ==> Holds(crc, f, ps[i]))
    && (forall i :: j <= i < e ==> InBlock(ps[i], k)) && (e < |ps| ==> !InBlock(ps[e], k))
    && Start(0, rs, a) <= j < Start(0, rs, a + 1) && Start(0, rs, b - 1) < e <= Start(0, rs, b)
  }

  /** Main theorem on reports. With one block damaged, either every fragment is still there, and all
      records are returned without a report, or a stretch of records is missing. What looks like the
      unfinished end of the file is not reported. Otherwise there is one report for what was dropped,
      unless it looks empty, one if the record it begins in had begun before it, and one for each
      later fragment of the record it ends in. */
  lemma DamageIsReported(crc: Crc, f: Bytes, g: Bytes, rs: seq<Bytes>, k: nat) returns (j: nat, e: nat, a: nat, b: nat)
    requires WrittenLog(crc, g, rs) && DamagedIn(f, g, k) && IdealIn(crc, f, PlaceAll(0, rs), k)
    ensures AllHold(crc, f, PlaceAll(0, rs)) ==> ReadBack(crc, f) == Contents(rs, 0)
    ensures !AllHold(crc, f, PlaceAll(0, rs)) ==>
              && Lost(crc, f, rs, k, j, e, a, b)
              && ReadBack(crc, f).records == rs[..a] + rs[b..]
              && ReadBack(crc, f).reports ==
                   if LooksUnfinished(f, PlaceAll(0, rs)[j]) then 0
                   else (if LooksEmpty(f, PlaceAll(0, rs)[j]) then 0 else 1)
                        + (if Start(0, rs, a) < j then 1 else 0) + (Start(0, rs, b) - e)
  {
    hide PlaceAll, Assemble, Events, EventsOf, CutOut, IdealIn, Holds, LooksUnfinished, LooksEmpty;
    var ps := PlaceAll(0, rs);
    PlaceAllChain(0, rs);
    var cut;
    j, e, cut := EventsDamaged(crc, f, g, k, 0, ps);
    var es := Events(crc, f, StateAt(f, 0));
    CutOutFacts(es, ps, k, j, e, cut);
    if j == e {
      a := AssembleSuffix(0, rs, 0);
      b := a;
      assert ps[0..] == ps && rs[a..] == rs;
    } else {
      a, b := AssembleCutOut(0, rs, k, es, j, e, cut);
    }
  }

  /** Damage that leaves no trace: a record seems to be unfinished at the end of the file, or whole
      records seem never to have been written. */
  ghost predicate Unnoticed(crc: Crc, f: Bytes, rs: seq<Bytes>, k: nat) {
    exists j: nat, e: nat, a: nat, b: nat :: Lost(crc, f, rs, k, j, e, a, b) &&
      (LooksUnfinished(f, PlaceAll(0, rs)[j]) ||
       (LooksEmpty(f, PlaceAll(0, rs)[j]) && j == Start(0, rs, a) && e == Start(0, rs, b)))
  }

  /** The place that decides is unique. */
  lemma LostIsUnique(crc: Crc, f: Bytes, rs: seq<Bytes>, k: nat, j: nat, e: nat, a: nat, b: nat, j': nat, e': nat, a': nat, b': nat)
    requires Lost(crc, f, rs, k, j, e, a, b) && Lost(crc, f, rs, k, j', e', a', b')
    ensures j == j' && e == e' && a == a' && b == b'
  {
    hide Start, Holds, InBlock, PlaceAll;
    assert j == j' && e == e';
    if a < a' {
      StartOrder(0, rs, a + 1, a');
    } else if a' < a {
      StartOrder(0, rs, a' + 1, a);
    }
    if b < b' {
      StartOrder(0, rs, b, b' - 1);
    } else if b' < b {
      StartOrder(0, rs, b', b - 1);
    }
  }

  lemma StartOrder(p: nat, rs: seq<Bytes>, i: nat, j: nat)
    requires i <= j <= |rs|
    ensures Start(p, rs, i) <= Start(p, rs, j)
  {
    if i < j {
      StartGrows(p, rs, i, j);
    }
  }

  /** Exactly when nothing is reported. */
  lemma SilentIff(crc: Crc, f: Bytes, g: Bytes, rs: seq<Bytes>, k: nat)
    requires WrittenLog(crc, g, rs) && DamagedIn(f, g, k) && IdealIn(crc, f, PlaceAll(0, rs), k)
    ensures ReadBack(crc, f).reports == 0 <==> ReadBack(crc, f).records == rs || Unnoticed(crc, f, rs, k)
  {
    hide PlaceAll, ReadBack, IdealIn, LooksUnfinished, LooksEmpty, WrittenLog, DamagedIn, Start, Lost;
    var j, e, a, b := DamageIsReported(crc, f, g, rs, k);
    if AllHold(crc, f, PlaceAll(0, rs)) {
      AllHeldNotLost(crc, f, rs, k);
    } else {
      LostBounds(crc, f, rs, k, j, e, a, b);
      assert |rs[..a] + rs[b..]| < |rs|;
      forall j': nat, e': nat, a': nat, b': nat | Lost(crc, f, rs, k, j', e', a', b')
        ensures j == j' && e == e' && a == a' && b == b'
      {
        LostIsUnique(crc, f, rs, k, j, e, a, b, j', e', a', b');
      }
    }
  }

  lemma LostBounds(crc: Crc, f: Bytes, rs: seq<Bytes>, k: nat, j: nat, e: nat, a: nat, b: nat)
    requires Lost(crc, f, rs, k, j, e, a, b)
    ensures a < b <= |rs| && Start(0, rs, a) <= j && e <= Start(0, rs, b)
  {
  }

  lemma AllHeldNotLost(crc: Crc, f: Bytes, rs: seq<Bytes>, k: nat)
    requires AllHold(crc, f, PlaceAll(0, rs))
    ensures !Unnoticed(crc, f, rs, k)
  {
    hide PlaceAll, Start, Holds, InBlock;
  }

  /** Main theorem. Whatever happens to the bytes of one block, the reader returns every record
      with no fragment in that block, in order, and nothing that was never written: only a
      stretch of records that all touch the block can be missing. */
  lemma DamageStaysInBlock(crc: Crc, f: Bytes, g: Bytes, rs: seq<Bytes>, k: nat) returns (a: nat, b: nat)
    requires WrittenLog(crc, g, rs) && DamagedIn(f, g, k) && IdealIn(crc, f, PlaceAll(0, rs), k)
    ensures a <= b <= |rs| && ReadBack(crc, f).records == rs[..a] + rs[b..]
    ensures forall i :: a <= i < b ==> Touches(rs, i, k)
    ensures a < b && !Unnoticed(crc, f, rs, k) ==> ReadBack(crc, f).reports > 0
  {
    hide PlaceAll, ReadBack, IdealIn, LooksUnfinished, LooksEmpty, WrittenLog, DamagedIn, Start, Unnoticed, Touches;
    var j, e;
    j, e, a, b := DamageIsReported(crc, f, g, rs, k);
    SilentIff(crc, f, g, rs, k);
    if AllHold(crc, f, PlaceAll(0, rs)) {
      a, b := 0, 0;
      assert rs[..0] + rs[0..] == rs;
    } else {
      assert |rs[..a] + rs[b..]| < |rs|;
      forall i | a <= i < b
        ensures Touches(rs, i, k)
      {
        LostTouches(rs, k, j, e, a, b, i);
      }
    }
  }

  lemma CutOutFacts(es: seq<Event>, ps: seq<Phys>, k: nat, j: nat, e: nat, cut: seq<Event>)
    requires CutOut(es, ps, k, j, e, cut)
    ensures j <= e <= |ps| && forall i :: j <= i < e ==> InBlock(ps[i], k)
    ensures j == e ==> es == EventsOf(ps)
  {
    hide EventsOf;
    if j == e {
      var before, after := EventsOf(ps[..j]), EventsOf(ps[j..]);
      assert before + cut + after == before + after;
      EventsOfConcat(ps[..j], ps[j..]);
      assert ps[..j] + ps[j..] == ps;
    }
  }

  lemma LostTouches(rs: seq<Bytes>, k: nat, j: nat, e: nat, a: nat, b: nat, i: nat)
    requires a <= i < b <= |rs| && j < e <= |PlaceAll(0, rs)|
    requires j < Start(0, rs, a + 1) && Start(0, rs, b - 1) < e
    requires forall x :: j <= x < e ==> InBlock(PlaceAll(0, rs)[x], k)
    ensures Touches(rs, i, k)
  {
    var x := if j < Start(0, rs, i) then Start(0, rs, i) else j;
    if a < i {
      StartGrows(0, rs, a + 1, i + 1);
    }
    if i < b - 1 {
      StartGrows(0, rs, i, b - 1);
    }
    StartGrows(0, rs, i, i + 1);
    FragmentAt(0, rs, i, x);
  }
}
