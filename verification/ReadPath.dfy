/** Reads across the memtable, the immutable memtable and the tables, while writers insert,
    memtables are switched and flushed, and compactions are installed (Get, Write,
    MakeRoomForWrite and CompactMemTable in db/db_impl.cc; Get in db/memtable.cc). */
module ReadPath {
  import opened DbFormat
  import opened Options
  import Compaction

  type TableId = nat
  type ReaderId = nat
  type SnapshotId = nat

  /** How far a Get has come, after it took its snapshot and its references. */
  datatype Stage = AtMem | AtImm | AtVersion | Done(result: Option<Bytes>)

  datatype Reader = Reader(key: Key, snapshot: nat, mem: TableId, imm: Option<TableId>, version: set<Entry>, stage: Stage)

  /** The group being written: its entries, and how many the memtable has. */
  datatype Writing = Writing(entries: seq<Entry>, inserted: nat)

  datatype Db = Db(
    tables: map<TableId, set<Entry>>,     // memtables, past ones too while readers hold them
    mem: TableId,
    imm: Option<TableId>,
    version: set<Entry>,                  // what the current version's files hold
    last: nat,                            // versions_->LastSequence()
    writing: Option<Writing>,
    snapshots: map<SnapshotId, nat>,
    readers: map<ReaderId, Reader>,
    history: set<Entry>,                  // every entry ever inserted
    floor: nat,                           // no read below it is answerable any more
    published: set<nat>,                  // the values LastSequence has had
    groups: set<(nat, nat)>)              // the sequence ranges of the groups, first exclusive
  {
    ghost function Imm(): set<Entry> {
      if imm.Some? && imm.value in tables then tables[imm.value] else {}
    }

    ghost function Mem(): set<Entry> {
      if mem in tables then tables[mem] else {}
    }

    ghost function Live(): set<Entry> {
      Mem() + Imm() + version
    }
  }

  /** MemTable::Get: the first entry at or behind the lookup key, if it has the same user key. */
  datatype Answer = Miss | Hit(value: Option<Bytes>)

  ghost function TableGet(es: set<Entry>, k: Key, s: nat): Answer {
    if exists e :: e in es && Visible(e, k, s) then Hit(Lookup(es, k, s)) else Miss
  }

  datatype Step =
    | BeginWrite(entries: seq<Entry>)
    | InsertOne
    | Publish            // SetLastSequence: the group is in the memtable, or its write failed and nothing is
    | Switch(id: TableId)
    | Flush
    | Install(inputs: seq<Compaction.Raw>, smallest: nat, isBase: Key -> bool, newer: set<Entry>, older: set<Entry>)
    | TakeSnapshot(id: SnapshotId)
    | ReleaseSnapshot(id: SnapshotId)
    | GetBegin(r: ReaderId, key: Key, snapshot: Option<SnapshotId>)
    | GetStep(r: ReaderId)

  /** The entries of a group carry the sequence numbers right behind the last one. */
  ghost predicate Numbered(entries: seq<Entry>, last: nat) {
    forall i :: 0 <= i < |entries| ==> entries[i].sn == last + 1 + i
  }

  ghost predicate Enabled(db: Db, step: Step) {
    match step
    case BeginWrite(entries) => db.writing.None? && Numbered(entries, db.last)    // see StoreSystem.LeaderIsAlone
    case InsertOne => db.writing.Some? && db.writing.value.inserted < |db.writing.value.entries|
    case Publish => db.writing.Some? && (db.writing.value.inserted == |db.writing.value.entries| || db.writing.value.inserted == 0)
    case Switch(id) => db.writing.None? && db.imm.None? && id !in db.tables
    case Flush => db.imm.Some?
    case Install(inputs, smallest, isBase, newer, older) =>
      && Compaction.SortedInput(inputs) && (forall r :: r in inputs ==> r.Parsed?)
      && db.version == Compaction.ParsedSet(inputs) + newer + older
      && Compaction.Surroundings(inputs, isBase, newer, older)
      && (smallest < MAX_SEQUENCE || (Compaction.FitSequences(inputs) && Compaction.AllDeleted(inputs, isBase)))
      && smallest <= db.last && (forall id :: id in db.snapshots ==> smallest <= db.snapshots[id])
    case TakeSnapshot(id) => id !in db.snapshots
    case ReleaseSnapshot(id) => id in db.snapshots
    case GetBegin(r, _, snapshot) => r !in db.readers && (snapshot.Some? ==> snapshot.value in db.snapshots)
    case GetStep(r) => r in db.readers && !db.readers[r].stage.Done?
  }

  ghost function ReadStage(db: Db, r: Reader): Stage {
    match r.stage
    case AtMem =>
      (match TableGet(if r.mem in db.tables then db.tables[r.mem] else {}, r.key, r.snapshot)
       case Hit(v) => Done(v)
       case Miss => if r.imm.Some? then AtImm else AtVersion)
    case AtImm =>
      (match TableGet(if r.imm.Some? && r.imm.value in db.tables then db.tables[r.imm.value] else {}, r.key, r.snapshot)
       case Hit(v) => Done(v)
       case Miss => AtVersion)
    case AtVersion => Done(Lookup(r.version, r.key, r.snapshot))
    case Done(_) => r.stage
  }

  function Begin(db: Db, entries: seq<Entry>): Db {
    db.(writing := Some(Writing(entries, 0)), groups := db.groups + {(db.last, db.last + |entries|)})
  }

  function Switched(db: Db, id: TableId): Db {
    db.(imm := Some(db.mem), mem := id, tables := db.tables[id := {}])
  }

  ghost function Flushed(db: Db): Db {
    db.(version := db.version + db.Imm(), imm := None)
  }

  ghost function Apply(db: Db, step: Step): Db
    requires Enabled(db, step)
  {
    match step
    case BeginWrite(entries) => Begin(db, entries)
    case InsertOne =>
      var w := db.writing.value;
      var e := w.entries[w.inserted];
      db.(tables := db.tables[db.mem := db.Mem() + {e}], history := db.history + {e},
          writing := Some(w.(inserted := w.inserted + 1)))
    case Publish =>
      var last := db.last + |db.writing.value.entries|;
      db.(last := last, writing := None, published := db.published + {last})
    case Switch(id) => Switched(db, id)
    case Flush => Flushed(db)
    case Install(inputs, smallest, isBase, newer, older) =>
      db.(version := Compaction.ParsedSet(Compaction.Survivors(inputs, |inputs|, smallest, isBase)) + newer + older,
          floor := if smallest > db.floor then smallest else db.floor)
    case TakeSnapshot(id) => db.(snapshots := db.snapshots[id := db.last])
    case ReleaseSnapshot(id) => db.(snapshots := db.snapshots - {id})
    case GetBegin(r, key, snapshot) =>
      var s := match snapshot case None => db.last case Some(id) => db.snapshots[id];
      db.(readers := db.readers[r := Reader(key, s, db.mem, db.imm, db.version, AtMem)])
    case GetStep(r) => db.(readers := db.readers[r := db.readers[r].(stage := ReadStage(db, db.readers[r]))])
  }

  // ----- Invariant -----

  /** Sequence numbers are given out once. */
  ghost predicate UniqueNumbers(es: set<Entry>) {
    forall a, b :: a in es && b in es && a.sn == b.sn ==> a == b
  }

  ghost predicate Newer(a: set<Entry>, b: set<Entry>) {
    forall x, y :: x in a && y in b ==> x.sn > y.sn
  }

  ghost predicate SameFrom(a: set<Entry>, b: set<Entry>, floor: nat) {
    forall k, s: nat :: s >= floor ==> Lookup(a, k, s) == Lookup(b, k, s)
  }

  ghost predicate LayersOk(db: Db) {
    && db.mem in db.tables && (db.imm.Some? ==> db.imm.value in db.tables && db.imm.value != db.mem)
    && UniqueNumbers(db.history) && db.Live() <= db.history
    && Newer(db.Mem(), db.Imm()) && Newer(db.Mem(), db.version) && Newer(db.Imm(), db.version)
    && (forall e :: e in db.history ==> e.sn <= Top(db))
    && (forall e :: e in db.Imm() + db.version ==> e.sn <= db.last)
  }

  /** The last sequence number handed to the memtable so far. */
  function Top(db: Db): nat {
    db.last + match db.writing case None => 0 case Some(w) => w.inserted
  }

  ghost predicate NumbersOk(db: Db) {
    && (db.writing.Some? ==> db.writing.value.inserted <= |db.writing.value.entries| && Numbered(db.writing.value.entries, db.last))
    && db.floor <= db.last && (forall id :: id in db.snapshots ==> db.floor <= db.snapshots[id] <= db.last)
  }

  /** What a reader holds on to answers for its key and snapshot as the full history does. */
  ghost predicate ReaderOk(db: Db, r: Reader) {
    && r.mem in db.tables && (r.imm.Some? ==> r.imm.value in db.tables && r.imm.value != db.mem)
    && r.snapshot <= db.last
    && var mem, imm := db.tables[r.mem], if r.imm.Some? then db.tables[r.imm.value] else {};
       && mem + imm + r.version <= db.history
       && Newer(mem, imm) && Newer(mem, r.version) && Newer(imm, r.version)
       && Lookup(mem + imm + r.version, r.key, r.snapshot) == Lookup(db.history, r.key, r.snapshot)
       && match r.stage
          case AtMem => true
          case AtImm => r.imm.Some? && Unseen(mem, r.key, r.snapshot)
          case AtVersion => Unseen(mem, r.key, r.snapshot) && Unseen(imm, r.key, r.snapshot)
          case Done(v) => v == Lookup(db.history, r.key, r.snapshot)
  }

  ghost predicate Unseen(es: set<Entry>, k: Key, s: nat) {
    forall e :: e in es ==> !Visible(e, k, s)
  }

  ghost predicate ReadersOk(db: Db) {
    forall id :: id in db.readers ==> ReaderOk(db, db.readers[id])
  }

  ghost predicate InFlight(db: Db, g: (nat, nat)) {
    db.writing.Some? && g == (db.last, db.last + |db.writing.value.entries|)
  }

  /** No value a reader can have taken as its snapshot lies inside a group's range. */
  ghost predicate PublishedOk(db: Db) {
    && db.last in db.published && (forall p :: p in db.published ==> p <= db.last)
    && (forall id :: id in db.snapshots ==> db.snapshots[id] in db.published)
    && (forall id :: id in db.readers ==> db.readers[id].snapshot in db.published)
    && (forall g, p :: g in db.groups && p in db.published ==> p <= g.0 || g.1 <= p)
    && (forall g :: g in db.groups ==> g.1 <= db.last || InFlight(db, g))
  }

  ghost predicate Inv(db: Db) {
    PublishedOk(db) && LayersOk(db) && NumbersOk(db) && SameFrom(db.Live(), db.history, db.floor) && ReadersOk(db)
  }

  // ----- Lookup over layers -----

  lemma UniqueIsDistinct(es: set<Entry>, sub: set<Entry>)
    requires UniqueNumbers(es) && sub <= es
    ensures Distinct(sub)
  {
  }

  /** Entries too young for the snapshot do not matter. */
  lemma YoungerIgnored(a: set<Entry>, b: set<Entry>, k: Key, s: nat)
    requires UniqueNumbers(a + b)
    requires forall e :: e in b ==> e in a || e.sn > s
    ensures Lookup(a + b, k, s) == Lookup(a, k, s)
  {
    UniqueIsDistinct(a + b, a + b);
    UniqueIsDistinct(a + b, a);
    if w :| w in a && Visible(w, k, s) {
      var e := NewestExists(a, k, s, w);
      LookupIs(a, k, s, e);
      assert IsNewest(a + b, k, s, e);
      LookupIs(a + b, k, s, e);
    } else {
      assert forall e :: e in a + b ==> !Visible(e, k, s);
    }
  }

  /** A layer that shows the key hides everything older. */
  lemma TopLayerDecides(top: set<Entry>, rest: set<Entry>, k: Key, s: nat)
    requires UniqueNumbers(top + rest) && Newer(top, rest)
    ensures Lookup(top + rest, k, s) == if Unseen(top, k, s) then Lookup(rest, k, s) else Lookup(top, k, s)
  {
    UniqueIsDistinct(top + rest, top + rest);
    UniqueIsDistinct(top + rest, top);
    UniqueIsDistinct(top + rest, rest);
    if Unseen(top, k, s) {
      if w :| w in rest && Visible(w, k, s) {
        var e := NewestExists(rest, k, s, w);
        LookupIs(rest, k, s, e);
        assert IsNewest(top + rest, k, s, e);
        LookupIs(top + rest, k, s, e);
      } else {
        assert forall e :: e in top + rest ==> !Visible(e, k, s);
      }
    } else {
      var w :| w in top && Visible(w, k, s);
      var e := NewestExists(top, k, s, w);
      LookupIs(top, k, s, e);
      assert IsNewest(top + rest, k, s, e);
      LookupIs(top + rest, k, s, e);
    }
  }

  /** Adding an entry younger than everything else does the same to any two sets that read alike. */
  lemma AddNewest(a: set<Entry>, b: set<Entry>, e: Entry, k: Key, s: nat)
    requires UniqueNumbers(b + {e}) && a <= b && (forall x :: x in b ==> x.sn < e.sn)
    requires Lookup(a, k, s) == Lookup(b, k, s)
    ensures Lookup(a + {e}, k, s) == Lookup(b + {e}, k, s)
  {
    assert {e} + a == a + {e} && {e} + b == b + {e};
    TopLayerDecides({e}, a, k, s);
    TopLayerDecides({e}, b, k, s);
  }

  // ----- Every step keeps the invariant -----

  /** A reader is not disturbed by steps that leave its tables alone. */
  lemma ReaderCarries(db: Db, q: Db, r: Reader)
    requires ReaderOk(db, r) && db.last <= q.last && q.history == db.history
    requires forall id :: id in db.tables ==> id in q.tables && q.tables[id] == db.tables[id]
    requires q.mem == db.mem || q.mem !in db.tables
    ensures ReaderOk(q, r)
  {
  }

  lemma ReadersCarry(db: Db, q: Db)
    requires ReadersOk(db) && db.last <= q.last && q.history == db.history && q.readers == db.readers
    requires forall id :: id in db.tables ==> id in q.tables && q.tables[id] == db.tables[id]
    requires q.mem == db.mem || q.mem !in db.tables
    ensures ReadersOk(q)
  {
    forall id | id in q.readers
      ensures ReaderOk(q, q.readers[id])
    {
      ReaderCarries(db, q, q.readers[id]);
    }
  }

  /** Whether the reader holds the table that grows or not, it reads the same. */
  lemma HeldReads(mem: set<Entry>, mem': set<Entry>, imm: set<Entry>, version: set<Entry>, history: set<Entry>, e: Entry, k: Key, s: nat)
    requires UniqueNumbers(history + {e}) && e.sn > s && (mem' == mem || mem' == mem + {e})
    requires mem + imm + version <= history
    ensures mem' + imm + version <= history + {e}
    ensures Lookup(mem' + imm + version, k, s) == Lookup(mem + imm + version, k, s)
    ensures Lookup(history + {e}, k, s) == Lookup(history, k, s)
  {
    hide Lookup;
    YoungerIgnored(history, {e}, k, s);
    if mem' != mem {
      assert mem' + imm + version == mem + imm + version + {e};
      assert forall x :: x in mem + imm + version + {e} ==> x in history + {e};
      YoungerIgnored(mem + imm + version, {e}, k, s);
    }
  }

  /** One more entry in the current memtable is too young for every reader. */
  lemma ReaderSeesInsert(db: Db, q: Db, r: Reader, e: Entry)
    requires ReaderOk(db, r) && UniqueNumbers(db.history + {e}) && e.sn > db.last
    requires forall x :: x in db.history ==> x.sn < e.sn
    requires db.mem in db.tables && q.tables == db.tables[db.mem := db.tables[db.mem] + {e}]
    requires q.history == db.history + {e} && q.last == db.last && q.mem == db.mem
    ensures ReaderOk(q, r)
  {
    hide Lookup, UniqueNumbers;
    var mem, imm := db.tables[r.mem], if r.imm.Some? then db.tables[r.imm.value] else {};
    HeldReads(mem, q.tables[r.mem], imm, r.version, db.history, e, r.key, r.snapshot);
  }

  lemma InsertLayers(db: Db)
    requires LayersOk(db) && NumbersOk(db) && Enabled(db, InsertOne)
    ensures var q, w := Apply(db, InsertOne), db.writing.value;
      var e := w.entries[w.inserted];
      && LayersOk(q) && NumbersOk(q) && q.Live() == db.Live() + {e}
      && UniqueNumbers(db.history + {e}) && e.sn > db.last && (forall x :: x in db.history ==> x.sn < e.sn)
      && db.mem in db.tables && db.Live() <= db.history
  {
    var q, w := Apply(db, InsertOne), db.writing.value;
    var e := w.entries[w.inserted];
    assert e.sn == Top(db) + 1;
    assert q.Live() == db.Live() + {e};
  }

  lemma InsertKeeps(db: Db)
    requires Inv(db) && Enabled(db, InsertOne)
    ensures Inv(Apply(db, InsertOne))
  {
    hide LayersOk, ReaderOk, NumbersOk, Lookup;
    var q, w := Apply(db, InsertOne), db.writing.value;
    var e := w.entries[w.inserted];
    InsertLayers(db);
    forall k, s: nat | s >= q.floor
      ensures Lookup(q.Live(), k, s) == Lookup(q.history, k, s)
    {
      AddNewest(db.Live(), db.history, e, k, s);
    }
    forall id | id in q.readers
      ensures ReaderOk(q, q.readers[id])
    {
      ReaderSeesInsert(db, q, q.readers[id], e);
    }
  }

  lemma SwitchKeeps(db: Db, id: TableId)
    requires Inv(db) && Enabled(db, Switch(id))
    ensures Inv(Apply(db, Switch(id)))
  {
    hide ReaderOk, SameFrom;
    var q := Apply(db, Switch(id));
    assert q.Live() == db.Live();
    ReadersCarry(db, q);
  }

  lemma FlushKeeps(db: Db)
    requires Inv(db) && Enabled(db, Flush)
    ensures Inv(Apply(db, Flush))
  {
    hide ReaderOk, SameFrom;
    var q := Apply(db, Flush);
    assert q.Live() == db.Live();
    ReadersCarry(db, q);
  }

  lemma KeptFromInputs(inputs: seq<Compaction.Raw>, smallest: nat, isBase: Key -> bool)
    ensures Compaction.ParsedSet(Compaction.Survivors(inputs, |inputs|, smallest, isBase)) <= Compaction.ParsedSet(inputs)
  {
    Compaction.KeptElements(inputs, |inputs|, smallest, isBase);
    Compaction.UnparsedOnly(inputs, |inputs|);
  }

  lemma VersionShrinks(db: Db, q: Db)
    requires LayersOk(db) && q == db.(version := q.version, floor := q.floor) && q.version <= db.version
    ensures LayersOk(q)
  {
  }

  lemma InstallLayers(db: Db, inputs: seq<Compaction.Raw>, smallest: nat, isBase: Key -> bool, newer: set<Entry>, older: set<Entry>)
    requires LayersOk(db) && NumbersOk(db) && PublishedOk(db) && Enabled(db, Install(inputs, smallest, isBase, newer, older))
    ensures var q := Apply(db, Install(inputs, smallest, isBase, newer, older));
      LayersOk(q) && NumbersOk(q) && PublishedOk(q)
  {
    hide Compaction.ParsedSet, Compaction.Survivors, Compaction.SortedInput, Compaction.Surroundings, LayersOk;
    var q := Apply(db, Install(inputs, smallest, isBase, newer, older));
    KeptFromInputs(inputs, smallest, isBase);
    assert q.version <= db.version;
    VersionShrinks(db, q);
  }

  lemma InstallKeeps(db: Db, inputs: seq<Compaction.Raw>, smallest: nat, isBase: Key -> bool, newer: set<Entry>, older: set<Entry>)
    requires Inv(db) && Enabled(db, Install(inputs, smallest, isBase, newer, older))
    ensures Inv(Apply(db, Install(inputs, smallest, isBase, newer, older)))
  {
    hide LayersOk, ReaderOk, NumbersOk, PublishedOk;
    var q := Apply(db, Install(inputs, smallest, isBase, newer, older));
    InstallLayers(db, inputs, smallest, isBase, newer, older);
    forall k, s: nat | s >= q.floor
      ensures Lookup(q.Live(), k, s) == Lookup(q.history, k, s)
    {
      InstallReads(db, inputs, smallest, isBase, newer, older, k, s);
    }
    ReadersCarry(db, q);
  }

  lemma InstallReads(db: Db, inputs: seq<Compaction.Raw>, smallest: nat, isBase: Key -> bool, newer: set<Entry>, older: set<Entry>, k: Key, s: nat)
    requires LayersOk(db) && SameFrom(db.Live(), db.history, db.floor)
    requires Enabled(db, Install(inputs, smallest, isBase, newer, older))
    requires s >= smallest && s >= db.floor
    ensures var q := Apply(db, Install(inputs, smallest, isBase, newer, older));
      Lookup(q.Live(), k, s) == Lookup(db.history, k, s)
  {
    var q := Apply(db, Install(inputs, smallest, isBase, newer, older));
    var above := newer + db.Mem() + db.Imm();
    var parsed := Compaction.ParsedSet(inputs);
    var kept := Compaction.ParsedSet(Compaction.Survivors(inputs, |inputs|, smallest, isBase));
    assert parsed + above + older == db.Live();
    assert kept + above + older == q.Live();
    UniqueIsDistinct(db.history, db.Live());
    Compaction.ParsableReadsPreserved(inputs, smallest, isBase, above, older);
  }

  lemma GetBeginKeeps(db: Db, r: ReaderId, key: Key, snapshot: Option<SnapshotId>)
    requires Inv(db) && Enabled(db, GetBegin(r, key, snapshot))
    ensures Inv(Apply(db, GetBegin(r, key, snapshot)))
  {
    hide ReaderOk, LayersOk, SameFrom;
    var q := Apply(db, GetBegin(r, key, snapshot));
    StateCarries(db, q);
    NewReaderOk(db, q.readers[r]);
    forall id | id in q.readers
      ensures ReaderOk(q, q.readers[id])
    {
      assert id != r ==> ReaderOk(db, q.readers[id]);
      ReaderCarries(db, q, q.readers[id]);
    }
  }

  lemma NewReaderOk(db: Db, r: Reader)
    requires LayersOk(db) && SameFrom(db.Live(), db.history, db.floor) && db.floor <= r.snapshot <= db.last
    requires r.mem == db.mem && r.imm == db.imm && r.version == db.version && r.stage.AtMem?
    ensures ReaderOk(db, r)
  {
    assert db.Mem() + db.Imm() + db.version == db.Live();
  }

  /** One layer of a Get. */
  lemma GetStepKeeps(db: Db, id: ReaderId)
    requires Inv(db) && Enabled(db, GetStep(id))
    ensures Inv(Apply(db, GetStep(id)))
  {
    hide ReaderOk, ReadStage, LayersOk, NumbersOk, SameFrom;
    var q, r := Apply(db, GetStep(id)), db.readers[id];
    LayersUnique(db);
    StageAdvances(db, r);
    StateCarries(db, q);
    forall other | other in q.readers
      ensures ReaderOk(q, q.readers[other])
    {
      if other != id {
        ReaderCarries(db, q, q.readers[other]);
      } else {
        ReaderCarries(db, q, r.(stage := ReadStage(db, r)));
      }
    }
  }

  lemma LayersUnique(db: Db)
    requires LayersOk(db)
    ensures UniqueNumbers(db.history)
  {
  }

  lemma StateCarries(db: Db, q: Db)
    requires LayersOk(db) && NumbersOk(db) && SameFrom(db.Live(), db.history, db.floor)
    requires q == db.(readers := q.readers)
    ensures LayersOk(q) && NumbersOk(q) && SameFrom(q.Live(), q.history, q.floor)
  {
  }

  lemma StageAdvances(db: Db, r: Reader)
    requires ReaderOk(db, r) && UniqueNumbers(db.history) && !r.stage.Done?
    ensures ReaderOk(db, r.(stage := ReadStage(db, r)))
  {
    hide Lookup;
    var mem, imm := db.tables[r.mem], if r.imm.Some? then db.tables[r.imm.value] else {};
    assert mem + (imm + r.version) == mem + imm + r.version;
    TopLayerDecides(mem, imm + r.version, r.key, r.snapshot);
    TopLayerDecides(imm, r.version, r.key, r.snapshot);
  }

  lemma StepKeeps(db: Db, step: Step)
    requires Inv(db) && Enabled(db, step)
    ensures Inv(Apply(db, step))
  {
    var q := Apply(db, step);
    match step
    case InsertOne => InsertKeeps(db);
    case Switch(id) => SwitchKeeps(db, id);
    case Flush => FlushKeeps(db);
    case Install(inputs, smallest, isBase, newer, older) => InstallKeeps(db, inputs, smallest, isBase, newer, older);
    case GetBegin(r, key, snapshot) => GetBeginKeeps(db, r, key, snapshot);
    case GetStep(r) => GetStepKeeps(db, r);
    case _ => BookkeepingKeeps(db, step);
  }

  lemma BookkeepingKeeps(db: Db, step: Step)
    requires Inv(db) && Enabled(db, step)
    requires step.BeginWrite? || step.Publish? || step.TakeSnapshot? || step.ReleaseSnapshot?
    ensures Inv(Apply(db, step))
  {
    hide ReaderOk, SameFrom, LayersOk, PublishedOk, Numbered;
    var q := Apply(db, step);
    BookkeepingLayers(db, step);
    BookkeepingPublished(db, step);
    assert q.Live() == db.Live();
    SameCarries(db, q);
    BookkeepingNumbers(db, step);
    ReadersCarry(db, q);
  }

  lemma SameCarries(db: Db, q: Db)
    requires SameFrom(db.Live(), db.history, db.floor) && q.Live() == db.Live() && q.history == db.history && q.floor == db.floor
    ensures SameFrom(q.Live(), q.history, q.floor)
  {
  }

  lemma BookkeepingLayers(db: Db, step: Step)
    requires LayersOk(db) && NumbersOk(db) && Enabled(db, step)
    requires step.BeginWrite? || step.Publish? || step.TakeSnapshot? || step.ReleaseSnapshot?
    ensures LayersOk(Apply(db, step)) && db.mem in db.tables
  {
    hide Newer, UniqueNumbers;
  }

  lemma BookkeepingNumbers(db: Db, step: Step)
    requires NumbersOk(db) && Enabled(db, step)
    requires step.BeginWrite? || step.Publish? || step.TakeSnapshot? || step.ReleaseSnapshot?
    ensures NumbersOk(Apply(db, step)) && db.last <= Apply(db, step).last
  {
    hide Numbered;
  }

  lemma BookkeepingPublished(db: Db, step: Step)
    requires PublishedOk(db) && NumbersOk(db) && Enabled(db, step)
    requires step.BeginWrite? || step.Publish? || step.TakeSnapshot? || step.ReleaseSnapshot?
    ensures PublishedOk(Apply(db, step))
  {
    hide Numbered;
  }

  // ----- Runs -----

  /** A database opened with what its version holds, before any write. */
  ghost predicate IsInit(db: Db) {
    && db.tables == map[0 := {}] && db.mem == 0 && db.imm.None? && db.writing.None?
    && db.snapshots == map[] && db.readers == map[] && db.groups == {} && db.published == {db.last}
    && db.floor <= db.last && db.history == db.version && UniqueNumbers(db.version)
    && forall e :: e in db.version ==> e.sn <= db.last
  }

  ghost predicate IsRun(states: seq<Db>, steps: seq<Step>) {
    && |states| == |steps| + 1 && IsInit(states[0])
    && forall i :: 0 <= i < |steps| ==> Enabled(states[i], steps[i]) && states[i + 1] == Apply(states[i], steps[i])
  }

  lemma InitInv(db: Db)
    requires IsInit(db)
    ensures Inv(db)
  {
    hide Lookup;
    assert db.Live() == db.history;
  }

  lemma {:induction false} RunInv(states: seq<Db>, steps: seq<Step>, i: nat)
    requires IsRun(states, steps) && i <= |steps|
    ensures Inv(states[i])
  {
    hide Inv, Enabled, Apply, IsInit;
    if i == 0 {
      InitInv(states[0]);
    } else {
      RunInv(states, steps, i - 1);
      StepKeeps(states[i - 1], steps[i - 1]);
    }
  }

  /** Main theorem. Under every interleaving of writers, memtable switches, flushes, compactions
      and other readers, a Get that has finished returned the newest entry up to its snapshot
      of everything ever written, and its snapshot cuts through no group. */
  lemma GetReturnsNewest(states: seq<Db>, steps: seq<Step>, i: nat, id: ReaderId)
    requires IsRun(states, steps) && i <= |steps| && id in states[i].readers && states[i].readers[id].stage.Done?
    ensures var db := states[i];
      var r := db.readers[id];
      && r.stage.result == Lookup(db.history, r.key, r.snapshot)
      && forall g :: g in db.groups ==> r.snapshot <= g.0 || g.1 <= r.snapshot
  {
    hide Enabled, Apply;
    RunInv(states, steps, i);
    assert ReaderOk(states[i], states[i].readers[id]);
  }

  /** What is readable at a published sequence number never changes afterwards, so the answer is
      the one of the moment the Get began. */
  lemma {:induction false} PastIsStable(states: seq<Db>, steps: seq<Step>, i: nat, j: nat, k: Key, s: nat)
    requires IsRun(states, steps) && i <= j <= |steps| && s <= states[i].last
    ensures s <= states[j].last
    ensures Lookup(states[j].history, k, s) == Lookup(states[i].history, k, s)
    decreases j
  {
    if i < j {
      hide Inv, ReadersOk, SameFrom;
      PastIsStable(states, steps, i, j - 1, k, s);
      RunInv(states, steps, j - 1);
      OneStepStable(states[j - 1], steps[j - 1], k, s);
    }
  }

  lemma OneStepStable(db: Db, step: Step, k: Key, s: nat)
    requires Inv(db) && Enabled(db, step) && s <= db.last
    ensures s <= Apply(db, step).last && Lookup(Apply(db, step).history, k, s) == Lookup(db.history, k, s)
  {
    if step == InsertOne {
      InsertLayers(db);
      var w := db.writing.value;
      YoungerIgnored(db.history, {w.entries[w.inserted]}, k, s);
    }
  }

  // ----- The snapshot a Get reads -----

  /** A Get keeps its key and its snapshot as long as it lasts. */
  lemma {:induction false} ReaderIsFixed(states: seq<Db>, steps: seq<Step>, i: nat, j: nat, id: ReaderId)
    requires IsRun(states, steps) && i <= j <= |steps| && id in states[i].readers
    ensures id in states[j].readers && states[j].readers[id].key == states[i].readers[id].key
    ensures states[j].readers[id].snapshot == states[i].readers[id].snapshot
    decreases j
  {
    if i < j {
      hide IsInit;
      ReaderIsFixed(states, steps, i, j - 1, id);
      StepFixesReader(states[j - 1], steps[j - 1], id);
    }
  }

  lemma StepFixesReader(db: Db, step: Step, id: ReaderId)
    requires Enabled(db, step) && id in db.readers
    ensures var q := Apply(db, step);
      id in q.readers && q.readers[id].key == db.readers[id].key && q.readers[id].snapshot == db.readers[id].snapshot
  {
    hide ReadStage;
  }

  /** A snapshot keeps its number until it is released. */
  lemma {:induction false} SnapshotIsFixed(states: seq<Db>, steps: seq<Step>, i: nat, j: nat, id: SnapshotId)
    requires IsRun(states, steps) && i <= j <= |steps| && id in states[i].snapshots
    requires forall n :: i <= n < j ==> steps[n] != ReleaseSnapshot(id)
    ensures id in states[j].snapshots && states[j].snapshots[id] == states[i].snapshots[id]
    decreases j
  {
    if i < j {
      hide IsInit;
      SnapshotIsFixed(states, steps, i, j - 1, id);
      StepFixesSnapshot(states[j - 1], steps[j - 1], id);
    }
  }

  lemma StepFixesSnapshot(db: Db, step: Step, id: SnapshotId)
    requires Enabled(db, step) && id in db.snapshots && step != ReleaseSnapshot(id)
    ensures var q := Apply(db, step); id in q.snapshots && q.snapshots[id] == db.snapshots[id]
  {
    hide ReadStage;
  }

  /** Main theorem about Gets without a snapshot: whatever happens meanwhile, the result is the value
      at the moment the Get began. */
  lemma GetReadsItsTime(states: seq<Db>, steps: seq<Step>, j: nat, i: nat, id: ReaderId, k: Key)
    requires IsRun(states, steps) && j < i <= |steps| && steps[j] == GetBegin(id, k, None)
    requires id in states[i].readers && states[i].readers[id].stage.Done?
    ensures states[i].readers[id].stage.result == Lookup(states[j].history, k, states[j].last)
  {
    hide Inv, IsInit, Lookup;
    ReaderIsFixed(states, steps, j + 1, i, id);
    GetReturnsNewest(states, steps, i, id);
    PastIsStable(states, steps, j, i, k, states[j].last);
  }

  /** Main theorem about Gets with a snapshot: the result is the value at the moment the snapshot was
      taken. */
  lemma GetReadsItsSnapshot(states: seq<Db>, steps: seq<Step>, m: nat, j: nat, i: nat, snapshot: SnapshotId, id: ReaderId, k: Key)
    requires IsRun(states, steps) && m < j < i <= |steps|
    requires steps[m] == TakeSnapshot(snapshot) && forall n :: m < n < j ==> steps[n] != ReleaseSnapshot(snapshot)
    requires steps[j] == GetBegin(id, k, Some(snapshot)) && id in states[i].readers && states[i].readers[id].stage.Done?
    ensures states[i].readers[id].stage.result == Lookup(states[m].history, k, states[m].last)
  {
    hide Inv, IsInit, Lookup;
    SnapshotIsFixed(states, steps, m + 1, j, snapshot);
    ReaderIsFixed(states, steps, j + 1, i, id);
    GetReturnsNewest(states, steps, i, id);
    PastIsStable(states, steps, m, i, k, states[m].last);
  }

  // ----- Gets end -----

  /** The layers still to be looked at. */
  function LayersLeft(stage: Stage): nat {
    match stage
    case AtMem => 3
    case AtImm => 2
    case AtVersion => 1
    case Done(_) => 0
  }

  /** An unfinished Get can always go on, no step of anybody sets it back, and its own steps bring it
      to its end: there are at most three of them. */
  lemma GetsEnd(db: Db, id: ReaderId, step: Step)
    requires id in db.readers && Enabled(db, step)
    ensures !db.readers[id].stage.Done? ==> Enabled(db, GetStep(id))
    ensures var q := Apply(db, step);
      && id in q.readers && LayersLeft(q.readers[id].stage) <= LayersLeft(db.readers[id].stage) <= 3
      && (step == GetStep(id) ==> LayersLeft(q.readers[id].stage) < LayersLeft(db.readers[id].stage))
  {
    hide TableGet, Lookup;
  }
}
