/** The byte-level memtable as the read path and recovery use it. */
module MemTableReads {
  import opened DbFormat
  import opened Options
  import opened Coding
  import opened InternalKeys
  import Log
  import LogTruncation
  import MemTables
  import ReadPath
  import opened WriteBatches
  import Recovery

  // ----- The read path's table -----

  function AsAnswer(r: MemTables.GetResult): ReadPath.Answer {
    match r
    case Found(v) => ReadPath.Hit(Some(v))
    case Deleted => ReadPath.Hit(None)
    case Missing => ReadPath.Miss
  }

  /** A Get on the memtable's bytes gives the answer the read path takes from its entries. */
  method TableAnswer(mem: MemTables.MemTable, userKey: Bytes, s: nat) returns (r: MemTables.GetResult)
    requires mem.Valid() && Distinct(Elements(mem.Entries())) && s <= MAX_SEQUENCE && |userKey| + 8 < TWO32
    ensures AsAnswer(r) == ReadPath.TableGet(Elements(mem.Entries()), mem.rank(userKey), s)
  {
    r := mem.Get(userKey, s);
    AnswerIs(mem.Entries(), mem.rank(userKey), s, r);
  }

  lemma AnswerIs(es: seq<Entry>, k: Key, s: nat, r: MemTables.GetResult)
    requires Distinct(Elements(es))
    requires r == MemTables.Missing <==> forall e :: e in Elements(es) ==> !Visible(e, k, s)
    requires r != MemTables.Missing ==>
      exists e :: IsNewest(Elements(es), k, s, e) && r == if e.kind == Value then MemTables.Found(e.value) else MemTables.Deleted
    ensures AsAnswer(r) == ReadPath.TableGet(Elements(es), k, s)
  {
    hide Lookup, Elements;
    if r != MemTables.Missing {
      var e :| IsNewest(Elements(es), k, s, e) && r == if e.kind == Value then MemTables.Found(e.value) else MemTables.Deleted;
      LookupIs(Elements(es), k, s, e);
    }
  }

  // ----- Recovered entries -----

  function AsEntry(rank: Ranking, e: MemEntry): Entry {
    Entry(rank(e.key), e.sn, e.kind, e.value)
  }

  ghost function AsEntries(rank: Ranking, es: seq<MemEntry>): set<Entry> {
    set e | e in es :: AsEntry(rank, e)
  }

  /** Entries as recovery inserts them: the sequence numbers rise. */
  ghost predicate Rising(es: seq<MemEntry>) {
    forall i, j :: 0 <= i < j < |es| ==> es[i].sn < es[j].sn
  }

  lemma {:induction false} EntriesRange(sn: nat, ops: seq<Op>)
    ensures forall i :: 0 <= i < |ops| ==> Entries(sn, ops)[i].sn == sn + i
  {
    if ops != [] {
      EntriesRange(sn, ops[..|ops| - 1]);
    }
  }

  /** The numbers of good batches rise, gaps or not, and stay within the batches' ranges. */
  lemma {:induction false} CommittedRises(bs: seq<Recovery.Numbered>)
    requires Recovery.GoodBatches(bs)
    ensures Rising(Recovery.Committed(bs))
    ensures forall e :: e in Recovery.Committed(bs) ==> bs != [] && bs[0].sn <= e.sn <= bs[|bs| - 1].Last()
  {
    hide Entries, Recovery.GoodBatch;
    if bs != [] {
      EntriesRange(bs[0].sn, bs[0].ops);
      CommittedRises(bs[1..]);
    }
  }

  lemma EntriesOfSnoc(rank: Ranking, es: seq<MemEntry>, k: nat)
    requires k < |es|
    ensures AsEntries(rank, es[..k + 1]) == AsEntries(rank, es[..k]) + {AsEntry(rank, es[k])}
  {
    assert es[..k + 1] == es[..k] + [es[k]];
  }

  predicate Fits(e: MemEntry) {
    e.sn <= MAX_SEQUENCE && |e.key| + 8 < TWO32 && |e.value| < TWO32
  }

  /** What recovery inserts, one entry after the other, makes a sorted memtable with just these. */
  method Fill(rank: Ranking, es: seq<MemEntry>) returns (mem: MemTables.MemTable)
    requires Rising(es) && forall e :: e in es ==> Fits(e)
    ensures fresh(mem) && mem.Valid() && mem.rank == rank
    ensures Elements(mem.Entries()) == AsEntries(rank, es)
  {
    hide Sorted;
    mem := new MemTables.MemTable(rank);
    assert Elements(mem.Entries()) == {};
    for k := 0 to |es|
      invariant fresh(mem) && mem.Valid() && mem.rank == rank
      invariant Elements(mem.Entries()) == AsEntries(rank, es[..k])
    {
      assert Fits(es[k]);
      NumberIsNew(rank, es, k, mem.Entries());
      mem.Add(es[k].sn, es[k].kind, es[k].key, es[k].value);
      EntriesOfSnoc(rank, es, k);
    }
    assert es[..|es|] == es;
  }

  lemma NumberIsNew(rank: Ranking, es: seq<MemEntry>, k: nat, table: seq<Entry>)
    requires Rising(es) && k < |es| && Elements(table) == AsEntries(rank, es[..k])
    ensures forall i :: 0 <= i < |table| ==> table[i].sn != es[k].sn
  {
    forall i | 0 <= i < |table|
      ensures table[i].sn != es[k].sn
    {
      assert table[i] in Elements(table);
    }
  }

  lemma {:induction false} PrefixEntries(bs: seq<Recovery.Numbered>, m: nat)
    requires m <= |bs|
    ensures Recovery.Committed(bs) == Recovery.Committed(bs[..m]) + Recovery.Committed(bs[m..])
    decreases m
  {
    if m == 0 {
      assert bs[0..] == bs && bs[..0] == [];
    } else {
      hide Entries;
      assert bs[..m][1..] == bs[1..][..m - 1] && bs[1..][m - 1..] == bs[m..];
      PrefixEntries(bs[1..], m - 1);
    }
  }

  lemma RisingIsUnique(rank: Ranking, es: seq<MemEntry>)
    requires Rising(es)
    ensures ReadPath.UniqueNumbers(AsEntries(rank, es))
  {
    forall a, b | a in AsEntries(rank, es) && b in AsEntries(rank, es) && a.sn == b.sn
      ensures a == b
    {
      var i :| 0 <= i < |es| && AsEntry(rank, es[i]) == a;
      var j :| 0 <= j < |es| && AsEntry(rank, es[j]) == b;
      assert i == j;
    }
  }

  /** After losing the end of the log, reads at every snapshot before the first lost batch are what
      they were over the whole history. */
  lemma LostBatchesAreUnread(rank: Ranking, bs: seq<Recovery.Numbered>, m: nat, k: Key, s: nat)
    requires Recovery.GoodBatches(bs) && m <= |bs| && (m < |bs| ==> s < bs[m].sn)
    ensures Lookup(AsEntries(rank, Recovery.Committed(bs[..m])), k, s) == Lookup(AsEntries(rank, Recovery.Committed(bs)), k, s)
  {
    hide Lookup, Recovery.Committed, Rising, Recovery.GoodBatch;
    var kept, lost := Recovery.Committed(bs[..m]), Recovery.Committed(bs[m..]);
    PrefixEntries(bs, m);
    CommittedRises(bs);
    CommittedRises(bs[m..]);
    RisingIsUnique(rank, Recovery.Committed(bs));
    assert AsEntries(rank, kept + lost) == AsEntries(rank, kept) + AsEntries(rank, lost);
    ReadPath.YoungerIgnored(AsEntries(rank, kept), AsEntries(rank, lost), k, s);
  }

  predicate GoodKeys(bs: seq<Recovery.Numbered>) {
    forall b, op :: b in bs && op in b.ops ==> |op.key| + 8 < TWO32
  }

  lemma {:induction false} EntriesFit(sn: nat, ops: seq<Op>)
    requires sn + |ops| <= MAX_SEQUENCE && forall op :: op in ops ==> FitsOp(op) && |op.key| + 8 < TWO32
    ensures forall e :: e in Entries(sn, ops) ==> Fits(e)
  {
    if ops != [] {
      EntriesFit(sn, ops[..|ops| - 1]);
    }
  }

  lemma {:induction false} CommittedFits(bs: seq<Recovery.Numbered>)
    requires Recovery.GoodBatches(bs) && GoodKeys(bs)
    ensures forall e :: e in Recovery.Committed(bs) ==> Fits(e)
  {
    if bs != [] {
      hide Entries, Fits, FitsOp;
      assert Recovery.GoodBatch(bs[0]);
      EntriesFit(bs[0].sn, bs[0].ops);
      CommittedFits(bs[1..]);
    }
  }

  // ----- Reading what recovery leaves -----

  lemma FlattenPrefix(tables: seq<seq<MemEntry>>, k: nat)
    requires 0 < k <= |tables|
    ensures Recovery.Flatten(tables[..k]) == Recovery.Flatten(tables[..k - 1]) + tables[k - 1]
  {
    assert tables[..k][..k - 1] == tables[..k - 1];
  }

  lemma RisingParts(a: seq<MemEntry>, b: seq<MemEntry>)
    requires Rising(a + b)
    ensures Rising(a) && Rising(b) && forall x, y :: x in a && y in b ==> x.sn < y.sn
  {
    forall i, j | 0 <= i < j < |a|
      ensures a[i].sn < a[j].sn
    {
      assert (a + b)[i] == a[i] && (a + b)[j] == a[j];
    }
    forall i, j | 0 <= i < j < |b|
      ensures b[i].sn < b[j].sn
    {
      assert (a + b)[|a| + i] == b[i] && (a + b)[|a| + j] == b[j];
    }
    forall x, y | x in a && y in b
      ensures x.sn < y.sn
    {
      var i :| 0 <= i < |a| && a[i] == x;
      var j :| 0 <= j < |b| && b[j] == y;
      assert (a + b)[i] == x && (a + b)[|a| + j] == y;
    }
  }

  /** A younger table that shows the key decides, and one that does not leaves it to the older ones. */
  lemma YoungerDecides(rank: Ranking, older: seq<MemEntry>, younger: seq<MemEntry>, k: Key, s: nat)
    requires Rising(older + younger)
    ensures Rising(older) && Rising(younger)
    ensures var top := ReadPath.TableGet(AsEntries(rank, younger), k, s);
      Lookup(AsEntries(rank, older + younger), k, s) ==
        if top.Hit? then top.value else Lookup(AsEntries(rank, older), k, s)
  {
    hide Lookup, Rising;
    RisingParts(older, younger);
    RisingIsUnique(rank, older + younger);
    var a, b := AsEntries(rank, younger), AsEntries(rank, older);
    assert AsEntries(rank, older + younger) == a + b;
    ReadPath.TopLayerDecides(a, b, k, s);
  }

  /** A Get across tables that hold the entries one table after the other: the youngest first. */
  method GetAcross(rank: Ranking, tables: seq<seq<MemEntry>>, userKey: Bytes, s: nat) returns (r: MemTables.GetResult)
    requires Rising(Recovery.Flatten(tables)) && forall e :: e in Recovery.Flatten(tables) ==> Fits(e)
    requires s <= MAX_SEQUENCE && |userKey| + 8 < TWO32
    ensures Lookup(AsEntries(rank, Recovery.Flatten(tables)), rank(userKey), s) == if r.Found? then Some(r.value) else None
  {
    hide Lookup, Rising, Fits, Recovery.Flatten;
    var k := |tables|;
    assert tables[..k] == tables;
    while k > 0
      invariant 0 <= k <= |tables| && Rising(Recovery.Flatten(tables[..k]))
      invariant forall e :: e in Recovery.Flatten(tables[..k]) ==> Fits(e)
      invariant Lookup(AsEntries(rank, Recovery.Flatten(tables[..k])), rank(userKey), s)
             == Lookup(AsEntries(rank, Recovery.Flatten(tables)), rank(userKey), s)
    {
      FlattenPrefix(tables, k);
      YoungerDecides(rank, Recovery.Flatten(tables[..k - 1]), tables[k - 1], rank(userKey), s);
      RisingIsUnique(rank, tables[k - 1]);
      var mem := Fill(rank, tables[k - 1]);
      r := TableAnswer(mem, userKey, s);
      if !r.Missing? {
        return;
      }
      k := k - 1;
    }
    NothingThere(rank, rank(userKey), s);
    r := MemTables.Missing;
  }

  lemma NothingThere(rank: Ranking, k: Key, s: nat)
    ensures Lookup(AsEntries(rank, Recovery.Flatten([])), k, s) == None
  {
  }

  /** The first `m` batches lie within the cut, and before the first lost one the Get answers for all. */
  ghost predicate ReadsAsBefore(rank: Ranking, bs: seq<Recovery.Numbered>, cut: nat, m: nat, userKey: Bytes, s: nat, r: MemTables.GetResult) {
    && Recovery.LiesWithin(bs, cut, m)
    && ((m < |bs| ==> s < bs[m].sn) ==>
          Lookup(AsEntries(rank, Recovery.Committed(bs)), rank(userKey), s) == if r.Found? then Some(r.value) else None)
  }

  /** Main theorem: a recovered store reads as before. Recover a log cut anywhere and read across the
      tables: at every snapshot before the first lost batch the answer is that of all batches ever
      logged. */
  method RecoverAndGet(rank: Ranking, crc: Log.Crc, bs: seq<Recovery.Numbered>, cut: nat, paranoid: bool, env: Recovery.Env,
                       max0: nat, userKey: Bytes, s: nat)
      returns (ok: bool, r: MemTables.GetResult)
    requires Recovery.GoodBatches(bs) && GoodKeys(bs) && s <= MAX_SEQUENCE && |userKey| + 8 < TWO32
    ensures !ok ==> exists i :: env.writeFails(i)
    ensures ok ==> exists m: nat :: ReadsAsBefore(rank, bs, Min(cut, LogTruncation.LogLength(Recovery.Records(bs))), m, userKey, s, r)
  {
    hide Lookup, Recovery.Committed, Rising, Recovery.GoodBatches, GoodKeys, Recovery.Records, LogTruncation.LogLength,
      Recovery.Flatten, Fits, Recovery.Highest;
    var tables, max;
    ok, tables, max := Recovery.RecoverCutLog(crc, bs, cut, paranoid, env, max0);
    r := MemTables.Missing;
    if ok {
      ghost var m: nat :| Recovery.LiesWithin(bs, Min(cut, LogTruncation.LogLength(Recovery.Records(bs))), m)
        && Recovery.Flatten(tables) == Recovery.Committed(bs[..m]);
      WithinKnown(bs, Min(cut, LogTruncation.LogLength(Recovery.Records(bs))), m);
      CommittedRises(bs[..m]);
      CommittedFits(bs[..m]);
      r := GetAcross(rank, tables, userKey, s);
      if m < |bs| ==> s < bs[m].sn {
        LostBatchesAreUnread(rank, bs, m, rank(userKey), s);
      }
      assert ReadsAsBefore(rank, bs, Min(cut, LogTruncation.LogLength(Recovery.Records(bs))), m, userKey, s, r);
    }
  }

  lemma WithinKnown(bs: seq<Recovery.Numbered>, cut: nat, m: nat)
    requires Recovery.LiesWithin(bs, cut, m) && Recovery.GoodBatches(bs) && GoodKeys(bs)
    ensures m <= |bs| && Recovery.GoodBatches(bs[..m]) && GoodKeys(bs[..m])
  {
    hide LogTruncation.LogLength, Recovery.Records, Recovery.GoodBatch;
  }
}
