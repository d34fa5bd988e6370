/** Recovery of a write log into memtables (RecoverLogFile in db/db_impl.cc, InsertInto in
    db/write_batch.cc): a log cut anywhere gives back a prefix of its batches. */
module Recovery {
  import opened DbFormat
  import opened Options
  import opened Coding
  import opened Log
  import opened LogTruncation
  import opened LogDamage
  import opened WriteBatches

  const TWO31: int := 0x8000_0000
  const TWO64: int := 0x1_0000_0000_0000_0000

  /** WriteBatchInternal::Count reads an unsigned word as an int. */
  function CountOf(rep: Bytes): int
    requires |rep| >= HEADER_SIZE
  {
    var c := DecodeFixed(rep[8..12]);
    if c >= TWO31 then c - 2 * TWO31 else c
  }

  function SequenceOf(rep: Bytes): nat
    requires |rep| >= HEADER_SIZE
  {
    DecodeFixed(rep[..8])
  }

  /** What InsertInto adds to the memtable, and its status: the operations before the first
      malformed one go in even when the batch is rejected. */
  function Inserted(rep: Bytes): (r: (seq<MemEntry>, Status))
    requires |rep| >= HEADER_SIZE
  {
    var (ops, ok) := DecodeOps(rep[HEADER_SIZE..]);
    (Entries(SequenceOf(rep), ops), if ok && |ops| == CountOf(rep) then Okay else Corruption)
  }

  /** The last sequence number a batch claims, in 64-bit arithmetic. */
  function LastSequence(rep: Bytes): nat
    requires |rep| >= HEADER_SIZE
  {
    (SequenceOf(rep) + CountOf(rep) - 1) % TWO64
  }

  lemma EntriesSnoc(sn: nat, ops: seq<Op>, op: Op)
    ensures Entries(sn, ops + [op]) == Entries(sn, ops) + [
      if op.Put? then MemEntry(op.key, sn + |ops|, Value, op.value) else MemEntry(op.key, sn + |ops|, Deletion, [])]
  {
    assert (ops + [op])[..|ops|] == ops;
  }

  /** MemTableInserter's table, as the entries in the order of their insertion; MemTableReads
      says what a memtable filled with them answers. */
  class Inserter {
    var entries: seq<MemEntry>

    constructor ()
      ensures entries == []
    {
      entries := [];
    }

    method Add(s: nat, kind: ValueType, key: Bytes, value: Bytes)
      modifies this
      ensures entries == old(entries) + [MemEntry(key, s, kind, value)]
    {
      entries := entries + [MemEntry(key, s, kind, value)];
    }
  }

  /** WriteBatch::Iterate with the memtable inserter as the handler. */
  method InsertInto(rep: Bytes, mem: Inserter) returns (status: Status)
    requires |rep| >= HEADER_SIZE
    modifies mem
    ensures mem.entries == old(mem.entries) + Inserted(rep).0 && status == Inserted(rep).1
  {
    hide GetSlice, DecodeOps, Entries;
    var input := rep[HEADER_SIZE..];
    var sequence := SequenceOf(rep);
    var found := 0;
    ghost var sn := SequenceOf(rep);
    ghost var done: seq<Op> := [];
    ghost var all := DecodeOps(input);
    assert [] + all.0 == all.0;
    NoEntries(sn);
    while |input| > 0
      invariant found == |done| && sequence == sn + found
      invariant mem.entries == old(mem.entries) + Entries(sn, done)
      invariant all.0 == done + DecodeOps(input).0 && all.1 == DecodeOps(input).1
      decreases |input|
    {
      DecodeOpShrinks(input);
      ghost var before := input;
      found := found + 1;
      var tag := input[0];
      input := input[1..];
      if tag == 1 {
        var k := GetSlice(input);
        if k.None? || GetSlice(k.value.1).None? {
          Malformed(before, done);
          return Corruption;
        }
        var v := GetSlice(k.value.1);
        mem.Add(sequence, Value, k.value.0, v.value.0);
        input := v.value.1;
        Advance(before, input, Op.Put(k.value.0, v.value.0), done, sn);
        done := done + [Op.Put(k.value.0, v.value.0)];
      } else if tag == 0 {
        var k := GetSlice(input);
        if k.None? {
          Malformed(before, done);
          return Corruption;
        }
        mem.Add(sequence, Deletion, k.value.0, []);
        input := k.value.1;
        Advance(before, input, Op.Delete(k.value.0), done, sn);
        done := done + [Op.Delete(k.value.0)];
      } else {
        Malformed(before, done);
        return Corruption;
      }
      sequence := sequence + 1;
    }
    NothingLeft(input, done);
    if found != CountOf(rep) {
      status := Corruption;
    } else {
      status := Okay;
    }
  }

  lemma NoEntries(sn: nat)
    ensures Entries(sn, []) == []
  {
  }

  lemma Malformed(input: Bytes, done: seq<Op>)
    requires input != [] && DecodeOp(input).None?
    ensures done + DecodeOps(input).0 == done && !DecodeOps(input).1
  {
  }

  lemma NothingLeft(input: Bytes, done: seq<Op>)
    requires input == []
    ensures done + DecodeOps(input).0 == done && DecodeOps(input).1
  {
  }

  lemma Advance(before: Bytes, after: Bytes, op: Op, done: seq<Op>, sn: nat)
    requires before != [] && DecodeOp(before) == Some((op, after))
    ensures done + DecodeOps(before).0 == (done + [op]) + DecodeOps(after).0
    ensures DecodeOps(before).1 == DecodeOps(after).1
    ensures Entries(sn, done + [op]) == Entries(sn, done) + [
      if op.Put? then MemEntry(op.key, sn + |done|, Value, op.value) else MemEntry(op.key, sn + |done|, Deletion, [])]
  {
    hide DecodeOp;
    DecodeOpShrinks(before);
    EntriesSnoc(sn, done, op);
  }

  // ----- RecoverLogFile -----

  /** The entries replayed from the records, when errors are ignored. */
  ghost function Replayed(rs: seq<Bytes>): seq<MemEntry> {
    if rs == [] then []
    else (if |rs[0]| < HEADER_SIZE then [] else Inserted(rs[0]).0) + Replayed(rs[1..])
  }

  ghost function ReplayedMax(rs: seq<Bytes>, max: nat): nat {
    if rs == [] then max
    else if |rs[0]| < HEADER_SIZE then ReplayedMax(rs[1..], max)
    else ReplayedMax(rs[1..], if LastSequence(rs[0]) > max then LastSequence(rs[0]) else max)
  }

  predicate CleanRecord(r: Bytes) {
    |r| >= HEADER_SIZE && Inserted(r).1 == Okay
  }

  ghost predicate Clean(log: Contents) {
    log.reports == 0 && forall r :: r in log.records ==> CleanRecord(r)
  }

  function Flatten(ts: seq<seq<MemEntry>>): seq<MemEntry> {
    if ts == [] then [] else Flatten(ts[..|ts| - 1]) + ts[|ts| - 1]
  }

  /** What the surroundings decide: memtable size tests and table writes, in order. */
  datatype Env = Env(tooBig: nat -> bool, writeFails: nat -> bool)

  ghost function MemEntries(mem: Inserter?): seq<MemEntry>
    reads mem
  {
    if mem == null then [] else mem.entries
  }

  /** One round of the recovery loop up to the memtable's size test. */
  method ReplayRecord(record: Bytes, paranoid: bool, mem: Inserter?, max: nat) returns (ok: bool, mem': Inserter?, max': nat)
    modifies mem
    ensures mem' == mem || fresh(mem')
    ensures ok <==> !paranoid || CleanRecord(record)
    ensures ok ==> MemEntries(mem') == old(MemEntries(mem)) + Replayed([record]) && max' == ReplayedMax([record], max)
  {
    hide Inserted;
    ok, mem', max' := true, mem, max;
    if |record| < HEADER_SIZE {
      ok := !paranoid;
      return;
    }
    if mem' == null {
      mem' := new Inserter();
    }
    var status := InsertInto(record, mem');
    if status == Corruption && paranoid {
      ok := false;
      return;
    }
    var last := LastSequence(record);
    if last > max' {
      max' := last;
    }
  }

  lemma ReplayedCons(rs: seq<Bytes>, sofar: seq<MemEntry>, max: nat)
    requires rs != []
    ensures (sofar + Replayed([rs[0]])) + Replayed(rs[1..]) == sofar + Replayed(rs)
    ensures ReplayedMax(rs, max) == ReplayedMax(rs[1..], ReplayedMax([rs[0]], max))
  {
    hide Inserted, LastSequence;
    var x := if |rs[0]| < HEADER_SIZE then [] else Inserted(rs[0]).0;
    var one := [rs[0]];
    assert one[1..] == [];
    assert Replayed(one) == x + [] == x && Replayed(rs) == x + Replayed(rs[1..]);
    Regroup3(sofar, x, Replayed(rs[1..]));
  }

  lemma FlattenSnoc(ts: seq<seq<MemEntry>>, t: seq<MemEntry>)
    ensures Flatten(ts + [t]) == Flatten(ts) + t
  {
    assert (ts + [t])[..|ts|] == ts;
  }

  method RecoverLogFile(crc: Crc, file: Bytes, paranoid: bool, env: Env, max0: nat)
      returns (ok: bool, tables: seq<seq<MemEntry>>, maxSequence: nat)
    ensures ok ==>
              && Flatten(tables) == Replayed(ReadBack(crc, file).records)
              && maxSequence == ReplayedMax(ReadBack(crc, file).records, max0)
              && (paranoid ==> Clean(ReadBack(crc, file)))
    ensures !ok ==> (paranoid && !Clean(ReadBack(crc, file))) || exists i :: env.writeFails(i)
    ensures Flatten(tables) <= Replayed(ReadBack(crc, file).records)
  {
    hide Assemble, Events, Inserted, Replayed, ReplayedMax, Flatten, CleanRecord, AllClean;
    var reader := new Reader(crc, file);
    ghost var all := ReadBack(crc, file);
    tables, maxSequence := [], max0;
    var mem: Inserter? := null;
    ghost var rest, read := all.records, [];
    ghost var done: seq<MemEntry> := [];
    NothingReplayed(rest);
    AllCleanStarts();
    var count := 0;
    var more, record := reader.ReadRecord();
    ok := !(paranoid && reader.reports > 0);
    while more && ok
      invariant reader.Valid() && fresh(reader) && reader.crc == crc && reader.file == file
      invariant mem != null ==> fresh(mem)
      invariant rest == if more then [record] + reader.ToCome().records else []
      invariant all.reports == reader.reports + if more then reader.ToCome().reports else 0
      invariant all.records == read + rest && (paranoid ==> AllClean(read))
      invariant ok <==> !(paranoid && reader.reports > 0)
      invariant done == Flatten(tables) + MemEntries(mem) && done + Replayed(rest) == Replayed(all.records)
      invariant Flatten(tables) <= Replayed(all.records)
      invariant ReplayedMax(rest, maxSequence) == ReplayedMax(all.records, max0)
      decreases more, reader.State().Left(file)
    {
      ReplayedCons(rest, done, maxSequence);
      ghost var sofar := MemEntries(mem);
      ok, mem, maxSequence := ReplayRecord(record, paranoid, mem, maxSequence);
      if !ok {
        OneUnclean(all, read, record, rest[1..]);
        return;
      }
      AllCleanSnoc(read, record, paranoid);
      read := read + [record];
      Regroup3(Flatten(tables), sofar, Replayed([record]));
      done := done + Replayed([record]);
      if |record| >= HEADER_SIZE {
        if env.tooBig(count) {
          if env.writeFails(count) {
            ok := false;
            return;
          }
          FlattenSnoc(tables, MemEntries(mem));
          tables := tables + [if mem == null then [] else mem.entries];
          mem := null;
          Regroup3(Flatten(tables), [], []);
        }
        count := count + 1;
      }
      rest := rest[1..];
      more, record := reader.ReadRecord();
      ok := !(paranoid && reader.reports > 0);
    }
    if !ok {
      return;
    }
    AllCleanEnds(all, read, paranoid);
    NothingReplayed([]);
    Regroup3(done, [], []);
    Regroup3(Flatten(tables), [], []);
    if mem != null {
      if env.writeFails(count) {
        ok := false;
        return;
      }
      FlattenSnoc(tables, mem.entries);
      tables := tables + [mem.entries];
    }
  }

  predicate AllClean(rs: seq<Bytes>) {
    forall r :: r in rs ==> CleanRecord(r)
  }

  lemma AllCleanStarts()
    ensures AllClean([])
  {
  }

  lemma AllCleanEnds(log: Contents, read: seq<Bytes>, paranoid: bool)
    requires log.records == read + [] && (paranoid ==> AllClean(read) && log.reports == 0)
    ensures paranoid ==> Clean(log)
  {
  }

  lemma AllCleanSnoc(rs: seq<Bytes>, r: Bytes, paranoid: bool)
    requires paranoid ==> AllClean(rs) && CleanRecord(r)
    ensures paranoid ==> AllClean(rs + [r])
  {
  }

  lemma OneUnclean(log: Contents, read: seq<Bytes>, record: Bytes, rest: seq<Bytes>)
    requires log.records == read + ([record] + rest) && !CleanRecord(record)
    ensures !Clean(log)
  {
    assert log.records[|read|] == record;
  }

  lemma NothingReplayed(rs: seq<Bytes>)
    ensures Flatten([]) + [] + Replayed(rs) == Replayed(rs)
    ensures Replayed([]) == [] && forall max :: ReplayedMax([], max) == max
  {
  }

  lemma Regroup3(a: seq<MemEntry>, b: seq<MemEntry>, c: seq<MemEntry>)
    ensures (a + b) + c == a + (b + c) && a + [] == a
  {
  }

  // ----- A committed history -----

  /** A batch as Write puts it into the log. */
  datatype Numbered = Numbered(sn: nat, ops: seq<Op>) {
    function Last(): int { sn + |ops| - 1 }
  }

  /** The log records of the batches. */
  function Records(bs: seq<Numbered>): (rs: seq<Bytes>)
    ensures |rs| == |bs|
  {
    if bs == [] then [] else [EncodeBatch(bs[0].sn, bs[0].ops)] + Records(bs[1..])
  }

  /** The entries those batches put into the memtable, under their sequence numbers. */
  function Committed(bs: seq<Numbered>): seq<MemEntry> {
    if bs == [] then [] else Entries(bs[0].sn, bs[0].ops) + Committed(bs[1..])
  }

  predicate GoodBatch(b: Numbered) {
    1 <= b.sn && b.sn + |b.ops| <= MAX_SEQUENCE && |b.ops| < TWO31 && forall op :: op in b.ops ==> FitsOp(op)
  }

  /** Batches do not overlap. There may be gaps between them: a batch whose append failed keeps its
      sequence numbers. */
  ghost predicate GoodBatches(bs: seq<Numbered>) {
    && (forall i :: 0 <= i < |bs| ==> GoodBatch(bs[i]))
    && forall i, j :: 0 <= i < j < |bs| ==> bs[i].sn + |bs[i].ops| <= bs[j].sn
  }

  lemma GoodBatchRecord(b: Numbered)
    requires GoodBatch(b)
    ensures var r := EncodeBatch(b.sn, b.ops);
      |r| >= HEADER_SIZE && Inserted(r) == (Entries(b.sn, b.ops), Okay) && LastSequence(r) == b.Last()
  {
    hide DecodeOps, EncodeOps, Entries, EncodeFixed;
    BatchParts(b.sn, b.ops);
    DecodeEncodedOps(b.ops);
    SequenceFits(b.sn);
    FixedRoundTrip(b.sn, 8);
  }

  lemma SequenceFits(sn: nat)
    requires sn <= MAX_SEQUENCE
    ensures sn < Pow256(8)
  {
    assert Pow256(4) == TWO32;
    assert Pow256(8) == 256 * (256 * (256 * (256 * Pow256(4))));
  }

  /** The largest sequence number, starting from one known before. */
  function Highest(bs: seq<Numbered>, max: nat): int {
    if bs == [] || bs[|bs| - 1].Last() <= max then max else bs[|bs| - 1].Last()
  }

  lemma {:induction false} ReplayedRecords(bs: seq<Numbered>, max: nat)
    requires GoodBatches(bs)
    ensures forall r :: r in Records(bs) ==> CleanRecord(r)
    ensures Replayed(Records(bs)) == Committed(bs)
    ensures ReplayedMax(Records(bs), max) == Highest(bs, max)
  {
    hide EncodeBatch, Inserted, LastSequence, Entries;
    if bs != [] {
      var rs := Records(bs);
      GoodBatchRecord(bs[0]);
      assert rs[1..] == Records(bs[1..]);
      var last := LastSequence(rs[0]);
      ReplayedRecords(bs[1..], if last > max then last else max);
    }
  }

  lemma {:induction false} RecordsPrefix(bs: seq<Numbered>, m: nat)
    requires m <= |bs|
    ensures Records(bs)[..m] == Records(bs[..m])
    decreases m
  {
    hide EncodeBatch;
    if m > 0 {
      assert bs[..m][0] == bs[0] && bs[..m][1..] == bs[1..][..m - 1];
      RecordsPrefix(bs[1..], m - 1);
    }
  }

  /** Main theorem. Cut a write log anywhere and recover: exactly the entries of the first `m`
      batches come back, whole and under their own sequence numbers, and the highest sequence
      number is the last of that prefix; `m` counts the batches wholly in the log. */
  lemma RecoveryGivesPrefix(crc: Crc, file: Bytes, bs: seq<Numbered>, n: nat, max0: nat) returns (m: nat)
    requires GoodBatches(bs) && WrittenLog(crc, file, Records(bs)) && n <= |file|
    ensures LiesWithin(bs, n, m)
    ensures var log := ReadBack(crc, file[..n]);
      Clean(log) && Replayed(log.records) == Committed(bs[..m]) && ReplayedMax(log.records, max0) == Highest(bs[..m], max0)
  {
    hide ReadBack, LogLength, Replayed, ReplayedMax, Records, Committed, Highest;
    m := TruncatedLogReadsBack(crc, file, Records(bs), n);
    RecordsPrefix(bs, m);
    if m < |bs| {
      RecordsPrefix(bs, m + 1);
    }
    ReplayedRecords(bs[..m], max0);
  }

  lemma WrittenLength(crc: Crc, file: Bytes, rs: seq<Bytes>)
    requires WrittenLog(crc, file, rs)
    ensures |file| == LogLength(rs)
  {
  }

  /** Exactly the first `m` batches lie wholly within the first `cut` bytes of their log. */
  ghost predicate LiesWithin(bs: seq<Numbered>, cut: nat, m: nat) {
    && m <= |bs| && LogLength(Records(bs[..m])) <= cut
    && (m < |bs| ==> cut < LogLength(Records(bs[..m + 1])))
  }

  /** The same for the recovery code itself, with any cut, memtable size tests and mode. */
  method RecoverCutLog(crc: Crc, bs: seq<Numbered>, cut: nat, paranoid: bool, env: Env, max0: nat)
      returns (ok: bool, tables: seq<seq<MemEntry>>, maxSequence: nat)
    requires GoodBatches(bs)
    ensures exists m: nat :: LiesWithin(bs, Min(cut, LogLength(Records(bs))), m)
              && Flatten(tables) <= Committed(bs[..m])
              && (ok ==> Flatten(tables) == Committed(bs[..m]) && maxSequence == Highest(bs[..m], max0))
    ensures !ok ==> exists i :: env.writeFails(i)
  {
    hide Records, Committed, LogLength, Replayed, ReplayedMax, ReadBack, GoodBatches, WrittenLog, Highest;
    ghost var total := LogLength(Records(bs));
    var file := WriteLog(crc, Records(bs));
    var n := Min(cut, |file|);
    ghost var m := RecoveryGivesPrefix(crc, file, bs, n, max0);
    ok, tables, maxSequence := RecoverLogFile(crc, file[..n], paranoid, env, max0);
    WrittenLength(crc, file, Records(bs));
    assert LiesWithin(bs, Min(cut, total), m);
  }

  lemma {:induction false} RecordsConcat(a: seq<Numbered>, b: seq<Numbered>)
    ensures Records(a + b) == Records(a) + Records(b)
    decreases |a|
  {
    hide EncodeBatch;
    if a == [] {
      assert a + b == b;
    } else {
      assert (a + b)[1..] == a[1..] + b;
      RecordsConcat(a[1..], b);
    }
  }

  lemma RecordsWithout(bs: seq<Numbered>, a: nat, b: nat)
    requires a <= b <= |bs|
    ensures Records(bs)[..a] + Records(bs)[b..] == Records(bs[..a] + bs[b..])
  {
    hide Records;
    RecordsPrefix(bs, a);
    RecordsPrefix(bs, b);
    RecordsConcat(bs[..b], bs[b..]);
    assert bs[..b] + bs[b..] == bs;
    assert Records(bs) == Records(bs)[..b] + Records(bs[b..]);
    RecordsConcat(bs[..a], bs[b..]);
  }

  lemma GoodWithout(bs: seq<Numbered>, a: nat, b: nat)
    requires GoodBatches(bs) && a <= b <= |bs|
    ensures GoodBatches(bs[..a] + bs[b..])
  {
    hide GoodBatch;
    var rest := bs[..a] + bs[b..];
    assert forall i :: 0 <= i < |rest| ==> rest[i] == bs[if i < a then i else i + (b - a)];
  }

  /** What is left of a log of batches with a damaged block. */
  lemma DamagedBatches(crc: Crc, f: Bytes, g: Bytes, bs: seq<Numbered>, k: nat, max0: nat) returns (a: nat, b: nat)
    requires GoodBatches(bs) && WrittenLog(crc, g, Records(bs)) && DamagedIn(f, g, k) && IdealIn(crc, f, PlaceAll(0, Records(bs)), k)
    ensures a <= b <= |bs|
    ensures var log, rest := ReadBack(crc, f), bs[..a] + bs[b..];
      && Replayed(log.records) == Committed(rest) && ReplayedMax(log.records, max0) == Highest(rest, max0)
      && (Clean(log) <==> log.reports == 0)
    ensures !Unnoticed(crc, f, Records(bs), k) ==> (ReadBack(crc, f).reports == 0 <==> a == b)
    ensures a == b ==> ReadBack(crc, f).reports == 0
  {
    hide ReadBack, WrittenLog, DamagedIn, IdealIn, PlaceAll, Unnoticed, Touches, Replayed, ReplayedMax, Committed, Highest;
    a, b := DamageStaysInBlock(crc, f, g, Records(bs), k);
    SilentIff(crc, f, g, Records(bs), k);
    RecordsWithout(bs, a, b);
    GoodWithout(bs, a, b);
    ReplayedRecords(bs[..a] + bs[b..], max0);
    if a == b {
      assert Records(bs)[..a] + Records(bs)[a..] == Records(bs);
    }
  }

  /** Recovery of a log with a damaged block: what comes back are whole batches, all but a stretch of
      them, and the paranoid mode refuses a log from which a batch is missing, unless the damage looks
      like an unfinished or an empty log. */
  method RecoverDamagedLog(crc: Crc, f: Bytes, paranoid: bool, env: Env, max0: nat, ghost g: Bytes, ghost bs: seq<Numbered>, ghost k: nat)
      returns (ok: bool, tables: seq<seq<MemEntry>>, maxSequence: nat)
    requires GoodBatches(bs) && WrittenLog(crc, g, Records(bs)) && DamagedIn(f, g, k) && IdealIn(crc, f, PlaceAll(0, Records(bs)), k)
    ensures ok ==> exists a: nat, b: nat :: BackWithout(bs, a, b, tables) && maxSequence == Highest(bs[..a] + bs[b..], max0)
    ensures ok && paranoid && !Unnoticed(crc, f, Records(bs), k) ==> Flatten(tables) == Committed(bs) && maxSequence == Highest(bs, max0)
    ensures !ok ==> (paranoid && ReadBack(crc, f).reports > 0) || exists i :: env.writeFails(i)
  {
    hide Records, Committed, Replayed, ReplayedMax, ReadBack, GoodBatches, WrittenLog, Highest, DamagedIn, IdealIn, PlaceAll, Unnoticed, Clean;
    ghost var a, b := DamagedBatches(crc, f, g, bs, k, max0);
    ok, tables, maxSequence := RecoverLogFile(crc, f, paranoid, env, max0);
    assert a == b ==> bs[..a] + bs[b..] == bs;
    assert ok ==> BackWithout(bs, a, b, tables);
  }

  /** Exactly the entries of the batches before `a` and from `b` on. */
  ghost predicate BackWithout(bs: seq<Numbered>, a: nat, b: nat, tables: seq<seq<MemEntry>>) {
    a <= b <= |bs| && Flatten(tables) == Committed(bs[..a] + bs[b..])
  }
}
