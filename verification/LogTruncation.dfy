/** Reading back any prefix of a log: exactly the records that are wholly there. */
module LogTruncation {
  import opened DbFormat
  import opened Coding
  import opened Log

  /** The fragments of a sequence of records written one after the other. */
  function PlaceAll(p: nat, rs: seq<Bytes>): seq<Phys>
    decreases |rs|
  {
    if rs == [] then []
    else
      var ps := Place(p, rs[0], true);
      ps + PlaceAll(EndOf(p, ps), rs[1..])
  }

  lemma {:induction false} PlaceAllChain(p: nat, rs: seq<Bytes>)
    ensures Chain(p, PlaceAll(p, rs))
    decreases |rs|
  {
    if rs != [] {
      var ps := Place(p, rs[0], true);
      PlaceChain(p, rs[0], true);
      PlaceAllChain(EndOf(p, ps), rs[1..]);
      ChainConcat(p, ps, PlaceAll(EndOf(p, ps), rs[1..]));
    }
  }

  /** A log file: a run of the writer over the records, from an empty file. */
  ghost predicate WrittenLog(crc: Crc, file: Bytes, rs: seq<Bytes>) {
    var ps := PlaceAll(0, rs);
    |file| == EndOf(0, ps) && AllHold(crc, file, ps)
  }

  /** The writer produces such files. */
  method WriteLog(crc: Crc, rs: seq<Bytes>) returns (file: Bytes)
    ensures WrittenLog(crc, file, rs)
  {
    var w := new Writer([]);
    var i := 0;
    while i < |rs|
      invariant 0 <= i <= |rs| && w.Valid() && fresh(w)
      invariant WrittenLog(crc, w.dest, rs[..i])
    {
      ghost var before := w.dest;
      w.AddRecord(crc, rs[i]);
      AppendWritten(crc, before, w.dest, rs[..i], rs[i]);
      assert rs[..i] + [rs[i]] == rs[..i + 1];
      i := i + 1;
    }
    assert rs[..i] == rs;
    file := w.dest;
  }

  lemma EndOfConcat(p: nat, a: seq<Phys>, b: seq<Phys>)
    ensures EndOf(p, a + b) == EndOf(EndOf(p, a), b)
  {
  }

  lemma {:induction false} PlaceAllAppend(p: nat, rs: seq<Bytes>, r: Bytes)
    ensures PlaceAll(p, rs + [r]) == PlaceAll(p, rs) + Place(EndOf(p, PlaceAll(p, rs)), r, true)
    decreases |rs|
  {
    hide Place;
    if rs == [] {
      assert rs + [r] == [r];
    } else {
      var ps := Place(p, rs[0], true);
      var a, q := rs + [r], EndOf(p, ps);
      assert a[0] == rs[0] && a[1..] == rs[1..] + [r];
      PlaceAllAppend(q, rs[1..], r);
      var rest := PlaceAll(q, rs[1..]);
      EndOfConcat(p, ps, rest);
      assert PlaceAll(p, a) == ps + (rest + Place(EndOf(q, rest), r, true));
    }
  }

  lemma HoldExtends(crc: Crc, f: Bytes, g: Bytes, ps: seq<Phys>)
    requires f <= g && AllHold(crc, f, ps)
    ensures AllHold(crc, g, ps)
  {
    forall i | 0 <= i < |ps|
      ensures Holds(crc, g, ps[i])
    {
      assert Holds(crc, f, ps[i]);
      assert g[ps[i].at..ps[i].End()] == f[ps[i].at..ps[i].End()];
    }
  }

  lemma AppendWritten(crc: Crc, f: Bytes, g: Bytes, rs: seq<Bytes>, r: Bytes)
    requires WrittenLog(crc, f, rs) && f <= g
    requires var ps := Place(|f|, r, true); |g| == EndOf(|f|, ps) && AllHold(crc, g, ps)
    ensures WrittenLog(crc, g, rs + [r])
  {
    PlaceAllAppend(0, rs, r);
    HoldExtends(crc, f, g, PlaceAll(0, rs));
  }

  // ----- The reader at a position -----

  function BlockEnd(p: nat): nat {
    p - p % BLOCK + BLOCK
  }

  /** The reader with the block around `p` in its buffer. */
  function Loaded(f: Bytes, p: nat): (s: Source)
    requires p <= |f|
    ensures s.pos <= |f|
  {
    var end := Min(BlockEnd(p), |f|);
    Source(end, f[p..end], BlockEnd(p) > |f|)
  }

  /** The reader when everything before `p` has been consumed. */
  function StateAt(f: Bytes, p: nat): (s: Source)
    requires p <= |f|
    ensures s.pos <= |f|
  {
    if p % BLOCK == 0 then Source(p, [], false) else Loaded(f, p)
  }

  /** Trailers are skipped, blocks are fetched. */
  lemma ReadAt(crc: Crc, f: Bytes, p: nat)
    requires p <= |f|
    ensures var (e, t) := ReadPhysical(crc, f, StateAt(f, p));
      if Skip(p) > |f| || |Loaded(f, Skip(p)).buffer| < HEADER then e.Eof?
      else (e, t) == Parse(crc, Loaded(f, Skip(p)))
  {
  }

  /** An undamaged fragment at the front of the buffer is taken off it. */
  lemma ParseImage(crc: Crc, s: Source, kind: Byte, payload: Bytes)
    requires FULL <= kind <= LAST && |payload| <= 0xffff
    requires HEADER + |payload| <= |s.buffer| && s.buffer[..HEADER + |payload|] == Image(crc, kind, payload)
    ensures Parse(crc, s) == (Fragment(kind, payload), s.(buffer := s.buffer[HEADER + |payload|..]))
  {
    var image, b := Image(crc, kind, payload), s.buffer;
    HeaderBytes(crc, kind, payload);
    assert b[4] == image[4] && b[5] == image[5] && b[6] == image[6];
    assert b[..4] == image[..4];
    assert b[6..|image|] == image[6..];
    assert b[HEADER..|image|] == image[HEADER..];
  }

  /** An undamaged fragment is read, and the reader stands behind it. */
  lemma ParseHeld(crc: Crc, f: Bytes, ph: Phys)
    requires Holds(crc, f, ph)
    ensures |Loaded(f, ph.at).buffer| >= HEADER
    ensures Parse(crc, Loaded(f, ph.at)) == (Fragment(ph.kind, ph.payload), StateAt(f, ph.End()))
  {
    var s, n := Loaded(f, ph.at), HEADER + |ph.payload|;
    var end := Min(BlockEnd(ph.at), |f|);
    assert ph.End() <= end;
    assert s.buffer[..n] == f[ph.at..ph.End()];
    ParseImage(crc, s, ph.kind, ph.payload);
    assert s.buffer[n..] == f[ph.End()..end];
    SameBlock(ph);
  }

  lemma SameBlock(ph: Phys)
    requires Fits(ph)
    ensures if ph.End() % BLOCK == 0 then ph.End() == BlockEnd(ph.at) else BlockEnd(ph.End()) == BlockEnd(ph.at)
  {
  }

  lemma HeaderBytes(crc: Crc, kind: Byte, payload: Bytes)
    requires |payload| <= 0xffff
    ensures var image := Image(crc, kind, payload);
      && image[4] as int + image[5] as int * 256 == |payload| && image[6] == kind
      && image[6..] == [kind] + payload && image[HEADER..] == payload
      && Unmask(DecodeFixed(image[..4])) == crc([kind] + payload)
  {
    var sum := crc([kind] + payload);
    assert Pow256(4) == TWO32;
    FixedRoundTrip(Mask(sum), 4);
    UnmaskMask(sum);
    assert Image(crc, kind, payload)[..4] == EncodeFixed(Mask(sum), 4);
  }

  /** A fragment the file ends inside of looks like the end of the file. */
  lemma ParseTorn(crc: Crc, g: Bytes, n: nat, ph: Phys)
    requires Holds(crc, g, ph) && ph.at <= n < ph.End()
    ensures var t := Loaded(g[..n], ph.at); |t.buffer| < HEADER || Parse(crc, t).0.Eof?
  {
    var image := Image(crc, ph.kind, ph.payload);
    var b := Loaded(g[..n], ph.at).buffer;
    HeaderBytes(crc, ph.kind, ph.payload);
    assert b == g[ph.at..ph.End()][..n - ph.at];
    assert b == image[..n - ph.at];
  }

  // ----- Truncation -----

  ghost function EventsOf(ps: seq<Phys>): (es: seq<Event>)
    ensures |es| == |ps|
    ensures forall i :: 0 <= i < |ps| ==> es[i] == Fragment(ps[i].kind, ps[i].payload)
  {
    seq(|ps|, i requires 0 <= i < |ps| => Fragment(ps[i].kind, ps[i].payload))
  }

  /** The fragments that end within the first `n` bytes. */
  function Within(ps: seq<Phys>, n: nat): seq<Phys> {
    if ps != [] && ps[0].End() <= n then [ps[0]] + Within(ps[1..], n) else []
  }

  /** The reader's next step in a truncated log. */
  lemma StepTruncated(crc: Crc, g: Bytes, n: nat, p: nat, ph: Phys)
    requires Holds(crc, g, ph) && ph.at == Skip(p) && p <= n <= |g|
    ensures var (e, t) := ReadPhysical(crc, g[..n], StateAt(g[..n], p));
      if ph.End() <= n then e == Fragment(ph.kind, ph.payload) && t == StateAt(g[..n], ph.End()) else e.Eof?
  {
    var f := g[..n];
    ReadAt(crc, f, p);
    if ph.End() <= n {
      assert f[ph.at..ph.End()] == g[ph.at..ph.End()];
      ParseHeld(crc, f, ph);
    } else if ph.at <= n {
      ParseTorn(crc, g, n, ph);
    }
  }

  lemma {:induction false} EventsTruncated(crc: Crc, g: Bytes, f: Bytes, p: nat, ps: seq<Phys>)
    requires f <= g && Chain(p, ps) && AllHold(crc, g, ps) && EndOf(p, ps) == |g| && p <= |f|
    ensures Events(crc, f, StateAt(f, p)) == EventsOf(Within(ps, |f|))
    decreases |ps|
  {
    hide StateAt, ReadPhysical, Skip;
    if ps == [] {
      ReadAt(crc, f, p);
    } else {
      assert Holds(crc, g, ps[0]) && f == g[..|f|];
      StepTruncated(crc, g, |f|, p, ps[0]);
      if ps[0].End() <= |f| {
        EventsTruncated(crc, g, f, ps[0].End(), ps[1..]);
        EventsOfConcat([ps[0]], Within(ps[1..], |f|));
      }
    }
  }

  // ----- Reassembly -----

  lemma AssembleFragment(ph: Phys, begin: bool, end: bool, scratch: Bytes, es: seq<Event>)
    requires ph.kind == TypeOf(begin, end) && (begin ==> scratch == [])
    ensures var all := EventsOf([ph]) + es;
      Assemble(all, !begin, scratch) ==
        if end then Prepend(scratch + ph.payload, Assemble(es, false, [])) else Assemble(es, true, scratch + ph.payload)
  {
    var all := EventsOf([ph]) + es;
    assert all[0] == Fragment(ph.kind, ph.payload) && all[1..] == es;
    assert begin ==> scratch + ph.payload == ph.payload;
  }

  lemma EventsOfConcat(a: seq<Phys>, b: seq<Phys>)
    ensures EventsOf(a + b) == EventsOf(a) + EventsOf(b)
  {
  }

  function Prepend(r: Bytes, log: Contents): Contents {
    log.(records := [r] + log.records)
  }

  /** The fragments of one record become that record. */
  lemma {:induction false} AssembleRecord(p: nat, data: Bytes, begin: bool, scratch: Bytes, more: seq<Event>)
    requires begin ==> scratch == []
    ensures Assemble(EventsOf(Place(p, data, begin)) + more, !begin, scratch) == Prepend(scratch + data, Assemble(more, false, []))
    decreases |data|, Stage(p)
  {
    hide FragmentOf, Stage, Skip;
    var (ph, left) := FragmentOf(p, data, begin);
    if left == [] {
      assert ph.payload == ph.payload + left == data;
      assert Place(p, data, begin) == [ph];
      AssembleFragment(ph, begin, true, scratch, more);
    } else {
      var tail := Place(ph.End(), left, false);
      assert Place(p, data, begin) == [ph] + tail;
      EventsOfConcat([ph], tail);
      assert EventsOf([ph] + tail) + more == EventsOf([ph]) + (EventsOf(tail) + more);
      AssembleFragment(ph, begin, false, scratch, EventsOf(tail) + more);
      AssembleRecord(ph.End(), left, false, scratch + ph.payload, more);
      assert (scratch + ph.payload) + left == scratch + (ph.payload + left);
    }
  }

  /** A record cut short by the events `more` has only filled the scratch buffer. */
  lemma {:induction false} AssembleCut(p: nat, data: Bytes, begin: bool, scratch: Bytes, j: nat, more: seq<Event>) returns (kept: Bytes)
    requires j < |Place(p, data, begin)| && (begin ==> scratch == [])
    ensures Assemble(EventsOf(Place(p, data, begin)[..j]) + more, !begin, scratch) == Assemble(more, !begin || j > 0, kept)
    ensures begin && j == 0 ==> kept == []
    decreases |data|, Stage(p)
  {
    var (ph, left) := FragmentOf(p, data, begin);
    var ps := Place(p, data, begin);
    if j == 0 {
      assert EventsOf(ps[..0]) + more == more;
      kept := scratch;
    } else {
      var tail := Place(ph.End(), left, false);
      assert ps[..j] == [ph] + tail[..j - 1];
      EventsOfConcat([ph], tail[..j - 1]);
      assert EventsOf(ps[..j]) + more == EventsOf([ph]) + (EventsOf(tail[..j - 1]) + more);
      AssembleFragment(ph, begin, false, scratch, EventsOf(tail[..j - 1]) + more);
      kept := AssembleCut(ph.End(), left, false, scratch + ph.payload, j - 1, more);
    }
  }

  lemma {:induction false} ChainEnds(p: nat, ps: seq<Phys>, i: nat)
    requires Chain(p, ps) && i < |ps|
    ensures p <= ps[i].at && ps[i].End() <= EndOf(p, ps)
    decreases |ps|
  {
    if i > 0 {
      ChainEnds(ps[0].End(), ps[1..], i - 1);
      assert EndOf(ps[0].End(), ps[1..]) == EndOf(p, ps);
    } else if |ps| > 1 {
      ChainEnds(ps[0].End(), ps[1..], |ps| - 2);
    }
  }

  lemma {:induction false} ChainSplit(p: nat, a: seq<Phys>, b: seq<Phys>)
    requires Chain(p, a + b)
    ensures Chain(p, a) && Chain(EndOf(p, a), b)
    decreases |a|
  {
    if a == [] {
      assert a + b == b;
    } else {
      assert (a + b)[0] == a[0] && (a + b)[1..] == a[1..] + b;
      ChainSplit(a[0].End(), a[1..], b);
      assert EndOf(a[0].End(), a[1..]) == EndOf(p, a);
    }
  }

  lemma {:induction false} WithinWhole(p: nat, a: seq<Phys>, b: seq<Phys>, n: nat)
    requires Chain(p, a) && EndOf(p, a) <= n
    ensures Within(a + b, n) == a + Within(b, n)
    decreases |a|
  {
    if a == [] {
      assert a + b == b && a + Within(b, n) == Within(b, n);
    } else {
      ChainEnds(p, a, 0);
      assert (a + b)[0] == a[0] && (a + b)[1..] == a[1..] + b;
      assert EndOf(a[0].End(), a[1..]) == EndOf(p, a);
      WithinWhole(a[0].End(), a[1..], b, n);
      assert [a[0]] + (a[1..] + Within(b, n)) == a + Within(b, n);
    }
  }

  lemma {:induction false} WithinPart(p: nat, a: seq<Phys>, b: seq<Phys>, n: nat) returns (j: nat)
    requires a != [] && EndOf(p, a) > n
    ensures j < |a| && Within(a + b, n) == a[..j]
    decreases |a|
  {
    assert (a + b)[0] == a[0] && (a + b)[1..] == a[1..] + b;
    if a[0].End() <= n {
      assert EndOf(a[0].End(), a[1..]) == EndOf(p, a);
      j := WithinPart(a[0].End(), a[1..], b, n);
      j := j + 1;
    } else {
      j := 0;
    }
  }

  /** The length of the log that holds `rs` and nothing else. */
  function LogLength(rs: seq<Bytes>): nat {
    EndOf(0, PlaceAll(0, rs))
  }

  /** The first record of a log is wholly before the cut. */
  lemma ReadBackFirst(p: nat, rs: seq<Bytes>, n: nat)
    requires rs != [] && EndOf(p, Place(p, rs[0], true)) <= n
    ensures var q := EndOf(p, Place(p, rs[0], true));
      Assemble(EventsOf(Within(PlaceAll(p, rs), n)), false, [])
        == Prepend(rs[0], Assemble(EventsOf(Within(PlaceAll(q, rs[1..]), n)), false, []))
  {
    var ps := Place(p, rs[0], true);
    var rest := PlaceAll(EndOf(p, ps), rs[1..]);
    PlaceChain(p, rs[0], true);
    WithinWhole(p, ps, rest, n);
    EventsOfConcat(ps, Within(rest, n));
    AssembleRecord(p, rs[0], true, [], EventsOf(Within(rest, n)));
    assert [] + rs[0] == rs[0];
  }

  /** The cut goes through the first record. */
  lemma ReadBackNothing(p: nat, rs: seq<Bytes>, n: nat)
    requires rs != [] && EndOf(p, Place(p, rs[0], true)) > n
    ensures Assemble(EventsOf(Within(PlaceAll(p, rs), n)), false, []) == Contents([], 0)
  {
    hide Place;
    var ps := Place(p, rs[0], true);
    var j := WithinPart(p, ps, PlaceAll(EndOf(p, ps), rs[1..]), n);
    var kept := AssembleCut(p, rs[0], true, [], j, []);
    assert EventsOf(ps[..j]) + [] == EventsOf(ps[..j]);
  }

  lemma {:induction false} ReadBackPart(p: nat, rs: seq<Bytes>, n: nat) returns (m: nat)
    requires p <= n
    ensures m <= |rs|
    ensures Assemble(EventsOf(Within(PlaceAll(p, rs), n)), false, []) == Contents(rs[..m], 0)
    ensures EndOf(p, PlaceAll(p, rs[..m])) <= n
    ensures m < |rs| ==> n < EndOf(p, PlaceAll(p, rs[..m + 1]))
    decreases |rs|
  {
    m := 0;
    if rs != [] {
      var q := EndOf(p, Place(p, rs[0], true));
      if q <= n {
        ReadBackFirst(p, rs, n);
        m := ReadBackPart(q, rs[1..], n);
        PlaceAllCons(p, rs, m);
        if m < |rs| - 1 {
          PlaceAllCons(p, rs, m + 1);
        }
        m := m + 1;
      } else {
        ReadBackNothing(p, rs, n);
        PlaceAllCons(p, rs, 0);
      }
    }
  }

  lemma PlaceAllCons(p: nat, rs: seq<Bytes>, m: nat)
    requires m < |rs|
    ensures rs[..m + 1] == [rs[0]] + rs[1..][..m]
    ensures var q := EndOf(p, Place(p, rs[0], true));
      EndOf(p, PlaceAll(p, rs[..m + 1])) == EndOf(q, PlaceAll(q, rs[1..][..m]))
  {
    var ps, a := Place(p, rs[0], true), rs[..m + 1];
    assert a[0] == rs[0] && a[1..] == rs[1..][..m];
    EndOfConcat(p, ps, PlaceAll(EndOf(p, ps), a[1..]));
  }

  /** What a reader returns over a whole file: all records, and how many corruption reports. */
  ghost function ReadBack(crc: Crc, file: Bytes): Contents {
    Assemble(Events(crc, file, Source(0, [], false)), false, [])
  }

  /** Main theorem. Cut a log anywhere: the reader returns exactly the records that lie wholly
      before the cut, in order, and reports no corruption. */
  lemma TruncatedLogReadsBack(crc: Crc, file: Bytes, rs: seq<Bytes>, n: nat) returns (m: nat)
    requires WrittenLog(crc, file, rs) && n <= |file|
    ensures m <= |rs| && ReadBack(crc, file[..n]) == Contents(rs[..m], 0)
    ensures LogLength(rs[..m]) <= n && (m < |rs| ==> n < LogLength(rs[..m + 1]))
  {
    var ps := PlaceAll(0, rs);
    PlaceAllChain(0, rs);
    EventsTruncated(crc, file, file[..n], 0, ps);
    m := ReadBackPart(0, rs, n);
  }

  /** Runs a reader to the end of the file. */
  method ReadLog(crc: Crc, file: Bytes) returns (records: seq<Bytes>, reports: nat)
    ensures Contents(records, reports) == ReadBack(crc, file)
  {
    hide Assemble, Events;
    var r := new Reader(crc, file);
    records := [];
    ghost var all := ReadBack(crc, file);
    var more := true;
    while more
      invariant r.Valid() && fresh(r) && r.crc == crc && r.file == file
      invariant all.records == records + (if more then r.ToCome().records else [])
      invariant all.reports == r.reports + (if more then r.ToCome().reports else 0)
      decreases more, r.State().Left(file)
    {
      var record;
      more, record := r.ReadRecord();
      if more {
        records := records + [record];
      }
    }
    reports := r.reports;
  }
}
