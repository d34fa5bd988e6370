/** What the reader of the log makes of any sequence of physical events (ReadRecord in
    db/log_reader.cc), intact or not: when it reports nothing, and what becomes of records that the
    writer gave up. */
module LogReports {
  import opened DbFormat
  import opened Log
  import opened LogTruncation

  /** Event `b` is a record's first fragment, and only middle ones follow before `i`. */
  predicate Begun(es: seq<Event>, b: nat, i: nat)
    requires i <= |es|
  {
    && b < i && es[b].Fragment? && es[b].kind == 2
    && forall n :: b < n < i ==> es[n].Fragment? && es[n].kind == 3
  }

  /** A record has begun before event `i` and not ended. */
  ghost predicate Open(es: seq<Event>, i: nat)
    requires i <= |es|
  {
    exists b: nat :: Begun(es, b, i)
  }

  predicate HasBytes(es: seq<Event>, n: nat)
    requires n < |es|
  {
    es[n].Fragment? && es[n].payload != []
  }

  /** Some byte of it has been read. */
  ghost predicate Gathered(es: seq<Event>, i: nat)
    requires i <= |es|
  {
    exists b: nat, n: nat :: Begun(es, b, i) && b <= n < i && HasBytes(es, n)
  }

  /** Event `i` is where it belongs: whole and first fragments where no bytes have been gathered,
      middle and last ones in a record, and unwritten space between records. */
  ghost predicate Quiet(es: seq<Event>, i: nat)
    requires i < |es|
  {
    match es[i]
    case Fragment(kind, _) =>
      if kind == 1 || kind == 2 then !Gathered(es, i) else (kind == 3 || kind == 4) && Open(es, i)
    case Bad(reported) => !reported && !Open(es, i)
    case Eof => true
  }

  /** What the reader keeps in mind after the events before `i`. */
  ghost predicate Minds(es: seq<Event>, i: nat, inFragmented: bool, scratch: Bytes)
    requires i <= |es|
  {
    (inFragmented <==> Open(es, i)) && (scratch != [] <==> Gathered(es, i)) && (scratch != [] ==> inFragmented)
  }

  lemma NotOpenBehind(es: seq<Event>, i: nat)
    requires i < |es| && (es[i].Fragment? ==> es[i].kind != 2 && es[i].kind != 3)
    ensures !Open(es, i + 1) && !Gathered(es, i + 1)
  {
  }

  lemma OpenBehindFirst(es: seq<Event>, i: nat)
    requires i < |es| && es[i].Fragment? && es[i].kind == 2
    ensures Open(es, i + 1) && (Gathered(es, i + 1) <==> es[i].payload != [])
  {
    assert Begun(es, i, i + 1);
    assert HasBytes(es, i) <==> es[i].payload != [];
  }

  lemma OpenBehindMiddle(es: seq<Event>, i: nat)
    requires i < |es| && es[i].Fragment? && es[i].kind == 3 && Open(es, i)
    ensures Open(es, i + 1) && (Gathered(es, i + 1) <==> Gathered(es, i) || es[i].payload != [])
  {
    var b: nat :| Begun(es, b, i);
    assert Begun(es, b, i + 1);
    if es[i].payload != [] {
      assert HasBytes(es, i);
    } else if Gathered(es, i) {
      var c: nat, n: nat :| Begun(es, c, i) && c <= n < i && HasBytes(es, n);
      assert Begun(es, c, i + 1);
    }
  }

  lemma {:induction false} SilentFrom(es: seq<Event>, i: nat, inFragmented: bool, scratch: Bytes)
    requires i <= |es| && Minds(es, i, inFragmented, scratch) && forall n :: 0 <= n < |es| ==> !es[n].Eof?
    ensures Assemble(es[i..], inFragmented, scratch).reports == 0 <==> forall n: nat :: i <= n < |es| ==> Quiet(es, n)
    decreases |es| - i
  {
    hide Quiet, Open, Gathered;
    if i < |es| {
      var rest := es[i..];
      assert rest[0] == es[i] && rest[1..] == es[i + 1..];
      QuietIs(es, i);
      SplitsOff(es, i);
      if es[i].Fragment? && es[i].kind == 2 {
        OpenBehindFirst(es, i);
        SilentFrom(es, i + 1, true, es[i].payload);
      } else if es[i].Fragment? && es[i].kind == 3 {
        if inFragmented {
          OpenBehindMiddle(es, i);
          SilentFrom(es, i + 1, true, scratch + es[i].payload);
        }
      } else {
        NotOpenBehind(es, i);
        SilentFrom(es, i + 1, false, []);
      }
    }
  }

  lemma QuietIs(es: seq<Event>, i: nat)
    requires i < |es| && !es[i].Eof?
    ensures Quiet(es, i) <==>
      match es[i]
      case Fragment(kind, _) =>
        if kind == 1 || kind == 2 then !Gathered(es, i) else (kind == 3 || kind == 4) && Open(es, i)
      case Bad(reported) => !reported && !Open(es, i)
      case Eof => true
  {
  }

  lemma SplitsOff(es: seq<Event>, i: nat)
    requires i < |es|
    ensures (forall n: nat :: i <= n < |es| ==> Quiet(es, n)) <==> Quiet(es, i) && forall n: nat :: i + 1 <= n < |es| ==> Quiet(es, n)
  {
  }

  /** Main theorem: exactly the sequences in which every event is where it belongs are read without a
      report. */
  lemma SilentIffQuiet(es: seq<Event>)
    requires forall n :: 0 <= n < |es| ==> !es[n].Eof?
    ensures Assemble(es, false, []).reports == 0 <==> forall n: nat :: n < |es| ==> Quiet(es, n)
  {
    assert es[0..] == es;
    SilentFrom(es, 0, false, []);
  }

  lemma {:induction false} AssembleBegun(p: nat, data: Bytes, begin: bool, scratch: Bytes, n: nat, more: seq<Event>)
    requires n < |Place(p, data, begin)| && (begin ==> scratch == [])
    ensures Assemble(EventsOf(Place(p, data, begin)[..n]) + more, !begin, scratch)
         == Assemble(more, !begin || n > 0, scratch + Payloads(Place(p, data, begin)[..n]))
    decreases |data|, Stage(p)
  {
    var (ph, left) := FragmentOf(p, data, begin);
    var ps := Place(p, data, begin);
    if n == 0 {
      assert EventsOf(ps[..0]) + more == more && scratch + Payloads(ps[..0]) == scratch;
    } else {
      var tail := Place(ph.End(), left, false);
      assert ps[..n] == [ph] + tail[..n - 1];
      EventsOfConcat([ph], tail[..n - 1]);
      assert EventsOf(ps[..n]) + more == EventsOf([ph]) + (EventsOf(tail[..n - 1]) + more);
      AssembleFragment(ph, begin, false, scratch, EventsOf(tail[..n - 1]) + more);
      AssembleBegun(ph.End(), left, false, scratch + ph.payload, n - 1, more);
      assert Payloads(ps[..n]) == ph.payload + Payloads(tail[..n - 1]);
      assert (scratch + ph.payload) + Payloads(tail[..n - 1]) == scratch + Payloads(ps[..n]);
    }
  }

  /** An append that failed between two fragments leaves a record begun. The reader drops it, reports
      it unless it has no bytes, and returns the record written next. */
  lemma GivenUpIsReported(p: nat, data: Bytes, n: nat, q: nat, next: Bytes, more: seq<Event>)
    requires 0 < n < |Place(p, data, true)|
    ensures var log := Assemble(EventsOf(Place(p, data, true)[..n]) + EventsOf(Place(q, next, true)) + more, false, []);
      log == Report(Payloads(Place(p, data, true)[..n]) != [], Prepend(next, Assemble(more, false, [])))
  {
    hide Place, Payloads, Assemble;
    var given, after := EventsOf(Place(p, data, true)[..n]), EventsOf(Place(q, next, true)) + more;
    assert given + EventsOf(Place(q, next, true)) + more == given + after;
    AssembleBegun(p, data, true, [], n, after);
    var kept := Payloads(Place(p, data, true)[..n]);
    assert [] + kept == kept;
    BeginsAnew(q, next, more, kept);
    AssembleRecord(q, next, true, [], more);
    assert [] + next == next;
  }

  lemma BeginsAnew(q: nat, next: Bytes, more: seq<Event>, kept: Bytes)
    ensures Assemble(EventsOf(Place(q, next, true)) + more, true, kept)
         == Report(kept != [], Assemble(EventsOf(Place(q, next, true)) + more, false, []))
  {
    hide FragmentOf;
    PlaceUnfold(q, next, true);
    var es := EventsOf(Place(q, next, true)) + more;
    assert es[0].Fragment? && (es[0].kind == FULL || es[0].kind == FIRST);
  }
}
