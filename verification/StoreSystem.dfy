/** The whole store: calls to Write in their queue and Gets across the layers, on one state
    (Write and Get in db/db_impl.cc).

    Here nothing but the write queue keeps two writers apart. That a group begins, or the memtable
    is switched, only while no other group is being inserted is proved. */
module StoreSystem {
  import opened DbFormat
  import B = Background
  import GC = GroupCommit
  import opened Options
  import P = WriteProgress
  import W = WriteQueue
  import R = ReadPath

  datatype Sys = Sys(w: W.Db, r: R.Db, initial: set<Entry>)

  /** The memtable entries of a record. */
  function Entries(rec: W.Record): (es: seq<Entry>)
    ensures |es| == |rec.ops|
    ensures forall i :: 0 <= i < |es| ==> es[i].sn == rec.first + i
  {
    seq(|rec.ops|, i requires 0 <= i < |rec.ops| => Entry(rec.ops[i].key, rec.first + i, rec.ops[i].kind, rec.ops[i].value))
  }

  ghost function Stored(recs: seq<W.Record>): set<Entry> {
    if recs == [] then {} else Stored(recs[..|recs| - 1]) + Elements(Entries(recs[|recs| - 1]))
  }

  datatype Step =
    | Queue(call: W.Step)                 // any other step of a call to Write or of the background thread
    | Lead(id: W.Id, n: nat)
    | InsertOne(id: W.Id)
    | Insert(id: W.Id, full: bool)        // all entries are in the memtable
    | Relock(id: W.Id)
    | Switch(id: W.Id, table: R.TableId)  // in MakeRoomForWrite
    | Flush(thread: W.Step)               // the immutable memtable has become a table
    | Read(step: R.Step)                  // Gets, snapshots, and the versions that compactions install

  function Pending(s: Sys, id: W.Id): W.Pending
    requires W.PcOf(s.w, id).Writes()
  {
    s.w.calls[id].pc.p
  }

  predicate Flushes(step: W.Step) {
    (step.BgFinish? || step.FlushInside?) && step.ok && step.res.Table?
  }

  /** The steps that only the write queue sees. */
  predicate QueueOnly(step: W.Step) {
    !step.Lead? && !step.Insert? && !step.Relock? && !step.Switch? && !Flushes(step)
  }

  ghost predicate Enabled(s: Sys, step: Step) {
    match step
    case Queue(st) => QueueOnly(st) && W.Enabled(s.w, st)
    case Lead(id, n) => W.Enabled(s.w, W.Lead(id, n))
    case InsertOne(id) => W.PcOf(s.w, id).Inserting? && R.Enabled(s.r, R.InsertOne)
    case Insert(id, full) => W.Enabled(s.w, W.Insert(id, full)) && s.r.writing.Some? && s.r.writing.value.inserted == |Pending(s, id).ops|
    case Relock(id) => W.Enabled(s.w, W.Relock(id)) && R.Enabled(s.r, R.Publish)
    case Switch(id, table) => W.Enabled(s.w, W.Switch(id)) && table !in s.r.tables
    case Flush(st) => Flushes(st) && W.Enabled(s.w, st)
    case Read(st) =>
      && !st.BeginWrite? && !st.InsertOne? && !st.Publish? && !st.Switch? && !st.Flush?
      && (st.GetStep? || s.w.mutex.None?) && R.Enabled(s.r, st)
  }

  ghost function Apply(s: Sys, step: Step): Sys
    requires Enabled(s, step)
  {
    match step
    case Queue(st) => s.(w := W.Apply(s.w, st))
    case Lead(id, n) =>
      var w := W.Apply(s.w, W.Lead(id, n));
      s.(w := w, r := R.Begin(s.r, Entries(w.calls[id].pc.p.AsRecord())))
    case InsertOne(_) => s.(r := R.Apply(s.r, R.InsertOne))
    case Insert(id, full) => s.(w := W.Apply(s.w, W.Insert(id, full)))
    case Relock(id) => s.(w := W.Apply(s.w, W.Relock(id)), r := R.Apply(s.r, R.Publish))
    case Switch(id, table) => s.(w := W.Apply(s.w, W.Switch(id)), r := R.Switched(s.r, table))
    case Flush(st) => s.(w := W.Apply(s.w, st), r := R.Flushed(s.r))
    case Read(st) => s.(r := R.Apply(s.r, st))
  }

  // ----- Invariant -----

  /** How far the call that writes has come with the memtable. */
  ghost predicate WriterOk(s: Sys, pc: W.Pc)
    requires pc.Writes()
  {
    && s.r.writing.Some? && s.r.writing.value.entries == Entries(pc.p.AsRecord())
    && (pc.p.base, pc.p.base + |pc.p.ops|) in s.r.groups
    && s.r.writing.value.inserted <= |pc.p.ops|
    && (pc.Inserting? || s.r.writing.value.inserted == if pc.Relocking? && pc.outcome.Committed? then |pc.p.ops| else 0)
    && s.r.history == s.initial + Stored(s.w.mem) +
         if pc.Inserting? then Elements(s.r.writing.value.entries[..s.r.writing.value.inserted]) else {}
  }

  ghost predicate Quiet(w: W.Db) {
    forall id :: id in w.calls ==> !w.calls[id].pc.Writes()
  }

  ghost predicate RangesKnown(s: Sys) {
    forall g :: g in s.w.groups ==> g.ops == [] || (g.base, g.base + |g.ops|) in s.r.groups
  }

  ghost predicate LinkOk(s: Sys) {
    && s.r.last == s.w.lastSequence && RangesKnown(s) && (s.r.imm.Some? <==> s.w.room.imm)
    && (forall id :: id in s.w.calls && s.w.calls[id].pc.Writes() ==> WriterOk(s, s.w.calls[id].pc))
    && (Quiet(s.w) ==> s.r.writing.None? && s.r.history == s.initial + Stored(s.w.mem))
  }

  ghost predicate Inv(s: Sys) {
    W.Inv(s.w) && P.RoomInv(s.w) && R.Inv(s.r) && LinkOk(s)
  }

  lemma ActiveIsAlone(w: W.Db, id: W.Id)
    requires W.Exclusive(w) && W.PcOf(w, id).Active()
    ensures forall other :: other in w.calls && other != id ==> !w.calls[other].pc.Writes()
  {
    assert forall other :: other in w.calls && w.calls[other].pc.Writes() ==> w.calls[other].pc.Active();
  }

  /** A call that makes room is the only one past the wait loop, so nothing is being inserted. */
  lemma LeaderIsAlone(s: Sys, id: W.Id)
    requires Inv(s) && W.PcOf(s.w, id).MakingRoom?
    ensures s.r.writing.None? && Quiet(s.w)
  {
    hide R.Inv, W.QueueOk, W.GroupsOk, W.SyncErrorIsFinal, W.IdleOk, W.CallsOk, W.Exclusive, Stored, WriterOk;
    ActiveIsAlone(s.w, id);
  }

  // ----- Every step keeps it -----

  /** Other steps of the queue do not touch a batch, or take it one stage further. */
  lemma QueueStepWrites(w: W.Db, step: W.Step, id: W.Id)
    requires W.Enabled(w, step) && QueueOnly(step) && id in W.Apply(w, step).calls
    ensures var pc, pc' := W.PcOf(w, id), W.Apply(w, step).calls[id].pc;
      && (pc.Writes() <==> pc'.Writes())
      && (pc.Writes() ==> pc.p == pc'.p)
      && (pc'.Inserting? ==> pc.Inserting? || pc.Logging? || pc.Syncing?)
      && (pc'.Relocking? ==> pc == pc' || !pc'.outcome.Committed?)
      && (pc' != pc && pc'.Writes() ==> pc.Logging? || pc.Syncing?)
  {
    hide GC.IsGroup, GC.Ops, W.BranchOf, B.Begin, B.Finish, B.MaybeSchedule, B.CanFinish, B.ResultOk;
  }

  lemma QueueStepKeepsFiles(w: W.Db, step: W.Step)
    requires W.Enabled(w, step) && QueueOnly(step)
    ensures var r := W.Apply(w, step);
      && r.mem == w.mem && r.lastSequence == w.lastSequence && w.calls.Keys <= r.calls.Keys && r.room.imm == w.room.imm
      && forall g :: g in r.groups ==> g in w.groups || g.ops == []
  {
    hide GC.IsGroup, GC.Ops, W.BranchOf, W.SignalAll, B.Begin, B.Finish, B.MaybeSchedule, B.CanFinish, B.ResultOk;
    match step
    case BgBegin => P.BeginKeepsImm(w.room, w.bgError);
    case BgFinish(ok, res) => FinishKeepsImm(w.room, w.bgError, ok, res);
    case Seek => ScheduleKeepsImm(w.room.(overdue := true), w.bgError);
    case Manual(_) => ScheduleKeepsImm(w.room.(manual := true), w.bgError);
    case _ =>
  }

  lemma FinishKeepsImm(room: B.Room, error: bool, ok: bool, res: B.Result)
    requires B.CanFinish(room, ok, res) && !(ok && res.Table?)
    ensures B.Finish(room, error, ok, res).imm == room.imm
  {
  }

  lemma ScheduleKeepsImm(room: B.Room, error: bool)
    ensures B.MaybeSchedule(room, error).imm == room.imm
  {
  }

  lemma QueueKeeps(s: Sys, step: W.Step)
    requires Inv(s) && Enabled(s, Queue(step))
    ensures LinkOk(Apply(s, Queue(step)))
  {
    hide P.RoomInv, W.Enabled, W.Apply, W.Inv, R.Inv, Stored;
    var q := Apply(s, Queue(step));
    QueueStepKeepsFiles(s.w, step);
    forall id | id in q.w.calls && q.w.calls[id].pc.Writes()
      ensures WriterOk(q, q.w.calls[id].pc)
    {
      QueueStepWrites(s.w, step, id);
      assert WriterOk(s, s.w.calls[id].pc);
      StageMoves(s, q, s.w.calls[id].pc, q.w.calls[id].pc);
    }
    if Quiet(q.w) {
      forall id | id in s.w.calls
        ensures !s.w.calls[id].pc.Writes()
      {
        QueueStepWrites(s.w, step, id);
      }
    }
  }

  lemma StageMoves(s: Sys, q: Sys, pc: W.Pc, pc': W.Pc)
    requires pc.Writes() && WriterOk(s, pc) && pc'.Writes() && pc.p == pc'.p
    requires q.r == s.r && q.initial == s.initial && q.w.mem == s.w.mem
    requires pc'.Inserting? ==> pc.Inserting? || pc.Logging? || pc.Syncing?
    requires pc'.Relocking? ==> pc == pc' || !pc'.outcome.Committed?
    requires pc' != pc ==> pc.Logging? || pc.Syncing?
    ensures WriterOk(q, pc')
  {
    hide Stored;
  }

  lemma BaseIsLast(w: W.Db, id: W.Id)
    requires W.Inv(w) && W.PcOf(w, id).Writes()
    ensures w.calls[id].pc.p.base == w.lastSequence
  {
    hide W.GroupsOk, W.QueueOk, W.Exclusive, W.IdleOk, W.SyncErrorIsFinal, W.FilesOk, GC.IsGroup;
    W.CallKnown(w, id);
  }

  lemma LeadKeeps(s: Sys, id: W.Id, n: nat)
    requires Inv(s) && Enabled(s, Lead(id, n))
    ensures Inv(Apply(s, Lead(id, n)))
  {
    hide W.Inv, P.RoomInv, R.Inv, Stored, GC.IsGroup, GC.Ops;
    var q := Apply(s, Lead(id, n));
    LeaderIsAlone(s, id);
    W.StepKeeps(s.w, W.Lead(id, n));
    P.StepKeepsRoom(s.w, W.Lead(id, n));
    var pc := q.w.calls[id].pc;
    var es := Entries(pc.p.AsRecord());
    assert R.Enabled(s.r, R.BeginWrite(es));
    R.StepKeeps(s.r, R.BeginWrite(es));
    assert WriterOk(q, pc);
  }

  /** The step of a call that writes, seen from the invariant: it is the only one to look at. */
  lemma WriterStep(s: Sys, q: Sys, id: W.Id)
    requires W.Exclusive(s.w) && W.PcOf(s.w, id).Writes() && LinkOk(s)
    requires id in q.w.calls && RangesKnown(q) && q.r.last == q.w.lastSequence && (q.r.imm.Some? <==> q.w.room.imm)
    requires forall other :: other in q.w.calls && other != id && q.w.calls[other].pc.Writes() ==> W.PcOf(s.w, other).Writes()
    requires if W.PcOf(q.w, id).Writes() then WriterOk(q, W.PcOf(q.w, id)) else q.r.writing.None? && q.r.history == q.initial + Stored(q.w.mem)
    ensures LinkOk(q)
  {
    hide W.Exclusive, WriterOk, Stored, RangesKnown;
    ActiveIsAlone(s.w, id);
    forall other | other in q.w.calls && other != id
      ensures !q.w.calls[other].pc.Writes()
    {
    }
    if W.PcOf(q.w, id).Writes() {
      assert q.w.calls[id].pc.Writes();
    }
  }

  lemma ElementsSnoc(es: seq<Entry>, k: nat)
    requires k < |es|
    ensures Elements(es[..k + 1]) == Elements(es[..k]) + {es[k]}
  {
    assert es[..k + 1] == es[..k] + [es[k]];
  }

  lemma InsertOneKeeps(s: Sys, id: W.Id)
    requires Inv(s) && Enabled(s, InsertOne(id))
    ensures Inv(Apply(s, InsertOne(id)))
  {
    hide W.Inv, P.RoomInv, R.Inv, Stored, Entries, W.Exclusive, Elements;
    var q := Apply(s, InsertOne(id));
    R.StepKeeps(s.r, R.InsertOne);
    W.CallsExclusive(s.w);
    var es, k := s.r.writing.value.entries, s.r.writing.value.inserted;
    assert WriterOk(s, s.w.calls[id].pc);
    ElementsSnoc(es, k);
    WriterStep(s, q, id);
  }

  lemma StoredSnoc(recs: seq<W.Record>, rec: W.Record)
    ensures Stored(recs + [rec]) == Stored(recs) + Elements(Entries(rec))
  {
    assert (recs + [rec])[..|recs|] == recs;
  }

  lemma InsertKeeps(s: Sys, id: W.Id, full: bool)
    requires Inv(s) && Enabled(s, Insert(id, full))
    ensures Inv(Apply(s, Insert(id, full)))
  {
    hide W.Inv, P.RoomInv, R.Inv, Stored, Elements, W.Exclusive, Entries, W.BranchOf;
    var q := Apply(s, Insert(id, full));
    W.StepKeeps(s.w, W.Insert(id, full));
    P.StepKeepsRoom(s.w, W.Insert(id, full));
    W.CallsExclusive(s.w);
    var pc := s.w.calls[id].pc;
    assert WriterOk(s, pc);
    var es := s.r.writing.value.entries;
    assert es[..|es|] == es;
    StoredSnoc(s.w.mem, pc.p.AsRecord());
    WriterStep(s, q, id);
  }

  lemma RelockWrites(w: W.Db, id: W.Id)
    requires W.Enabled(w, W.Relock(id))
    ensures var r := W.Apply(w, W.Relock(id));
      && r.calls.Keys == w.calls.Keys && !r.calls[id].pc.Writes() && r.room == w.room && r.mem == w.mem
      && (forall other :: other in r.calls && other != id && r.calls[other].pc.Writes() ==> W.PcOf(w, other).Writes())
      && r.lastSequence == w.calls[id].pc.p.base + |w.calls[id].pc.p.ops|
      && exists g: W.Group :: r.groups == w.groups + [g] && g.base == w.calls[id].pc.p.base && g.ops == w.calls[id].pc.p.ops
  {
    var pc := w.calls[id].pc;
    var g := W.Group(pc.p.members, pc.p.base, pc.p.ops, pc.outcome, pc.left);
    assert W.Apply(w, W.Relock(id)).groups == w.groups + [g];
  }

  lemma RelockKeeps(s: Sys, id: W.Id)
    requires Inv(s) && Enabled(s, Relock(id))
    ensures Inv(Apply(s, Relock(id)))
  {
    hide W.Inv, P.RoomInv, R.Inv, Stored, Elements, W.Exclusive, Entries, W.Apply;
    var q := Apply(s, Relock(id));
    W.StepKeeps(s.w, W.Relock(id));
    P.StepKeepsRoom(s.w, W.Relock(id));
    R.StepKeeps(s.r, R.Publish);
    W.CallsExclusive(s.w);
    BaseIsLast(s.w, id);
    RelockWrites(s.w, id);
    assert WriterOk(s, s.w.calls[id].pc);
    WriterStep(s, q, id);
  }

  lemma SwitchKeeps(s: Sys, id: W.Id, table: R.TableId)
    requires Inv(s) && Enabled(s, Switch(id, table))
    ensures Inv(Apply(s, Switch(id, table)))
  {
    hide W.Inv, P.RoomInv, R.Inv, Stored;
    LeaderIsAlone(s, id);
    W.StepKeeps(s.w, W.Switch(id));
    P.StepKeepsRoom(s.w, W.Switch(id));
    R.StepKeeps(s.r, R.Switch(table));
  }

  /** Only an immutable memtable is flushed. */
  lemma FlushHasImm(s: Sys, step: W.Step)
    requires Inv(s) && W.Enabled(s.w, step) && Flushes(step)
    ensures R.Enabled(s.r, R.Flush) && !W.Apply(s.w, step).room.imm
  {
    hide Inv, W.Enabled, W.Apply, Flushes, B.Served, R.Enabled;
    ImmAgrees(s);
    FlushedRoom(s.w, step);
    FlushEnabled(s.r);
  }

  lemma FlushEnabled(r: R.Db)
    requires r.imm.Some?
    ensures R.Enabled(r, R.Flush)
  {
  }

  lemma ImmAgrees(s: Sys)
    requires Inv(s)
    ensures (s.r.imm.Some? <==> s.w.room.imm) && B.Served(s.w.room, s.w.bgError)
  {
    hide W.Inv, R.Inv, RangesKnown, WriterOk, Quiet, B.Served;
  }

  lemma FlushedRoom(w: W.Db, step: W.Step)
    requires W.Enabled(w, step) && Flushes(step) && B.Served(w.room, w.bgError)
    ensures w.room.imm && !W.Apply(w, step).room.imm
  {
    hide W.SignalAll, B.LevelsOk, B.EntryAbove, B.HasWork;
  }

  lemma FlushKeeps(s: Sys, step: W.Step)
    requires Inv(s) && Enabled(s, Flush(step))
    ensures Inv(Apply(s, Flush(step)))
  {
    hide W.Inv, P.RoomInv, R.Inv, R.Enabled, Stored, Flushes, W.Enabled, W.Apply;
    var q := Apply(s, Flush(step));
    FlushHasImm(s, step);
    W.StepKeeps(s.w, step);
    P.StepKeepsRoom(s.w, step);
    R.StepKeeps(s.r, R.Flush);
    FlushStepWrites(s.w, step);
    forall id | id in q.w.calls && q.w.calls[id].pc.Writes()
      ensures WriterOk(q, q.w.calls[id].pc)
    {
      assert WriterOk(s, s.w.calls[id].pc);
    }
  }

  lemma FlushStepWrites(w: W.Db, step: W.Step)
    requires W.Enabled(w, step) && Flushes(step)
    ensures var r := W.Apply(w, step);
      && r.calls.Keys == w.calls.Keys && r.mem == w.mem && r.lastSequence == w.lastSequence && r.groups == w.groups
      && (forall id :: id in w.calls ==> (r.calls[id].pc.Writes() <==> w.calls[id].pc.Writes()))
      && (forall id :: id in w.calls && w.calls[id].pc.Writes() ==> r.calls[id].pc == w.calls[id].pc)
  {
  }

  lemma ReadKeeps(s: Sys, step: R.Step)
    requires Inv(s) && Enabled(s, Read(step))
    ensures Inv(Apply(s, Read(step)))
  {
    hide W.Inv, P.RoomInv, R.Inv, R.Enabled, Stored;
    var q := Apply(s, Read(step));
    R.StepKeeps(s.r, step);
    ReadStepKeepsHistory(s.r, step);
    forall id | id in q.w.calls && q.w.calls[id].pc.Writes()
      ensures WriterOk(q, q.w.calls[id].pc)
    {
      assert WriterOk(s, s.w.calls[id].pc);
    }
  }

  lemma ReadStepKeepsHistory(r: R.Db, step: R.Step)
    requires R.Enabled(r, step) && !step.BeginWrite? && !step.InsertOne? && !step.Publish? && !step.Switch? && !step.Flush?
    ensures var q := R.Apply(r, step);
      q.history == r.history && q.last == r.last && q.writing == r.writing && q.groups == r.groups && q.imm == r.imm
  {
  }

  lemma StepKeeps(s: Sys, step: Step)
    requires Inv(s) && Enabled(s, step)
    ensures Inv(Apply(s, step))
  {
    match step
    case Queue(st) =>
      W.StepKeeps(s.w, st);
      P.StepKeepsRoom(s.w, st);
      QueueKeeps(s, st);
    case Lead(id, n) => LeadKeeps(s, id, n);
    case InsertOne(id) => InsertOneKeeps(s, id);
    case Insert(id, full) => InsertKeeps(s, id, full);
    case Relock(id) => RelockKeeps(s, id);
    case Switch(id, table) => SwitchKeeps(s, id, table);
    case Flush(st) => FlushKeeps(s, st);
    case Read(st) => ReadKeeps(s, st);
  }

  // ----- Runs -----

  ghost predicate IsInit(s: Sys) {
    R.IsInit(s.r) && s.w == W.Init(s.r.last, s.w.room) && W.Opened(s.w.room) && s.initial == s.r.history
  }

  ghost predicate IsRun(states: seq<Sys>, steps: seq<Step>) {
    && |states| == |steps| + 1 && IsInit(states[0])
    && forall i :: 0 <= i < |steps| ==> Enabled(states[i], steps[i]) && states[i + 1] == Apply(states[i], steps[i])
  }

  lemma InitQuiet(s: Sys)
    requires IsInit(s)
    ensures LinkOk(s)
  {
    hide W.Inv, P.RoomInv, R.Inv;
  }

  lemma InitInv(s: Sys)
    requires IsInit(s)
    ensures Inv(s)
  {
    hide W.Inv, P.RoomInv, R.Inv, R.IsInit;
    W.InitInv(s.r.last, s.w.room);
    P.InitRoom(s.r.last, s.w.room);
    R.InitInv(s.r);
    InitQuiet(s);
  }

  lemma {:induction false} RunInv(states: seq<Sys>, steps: seq<Step>, i: nat)
    requires IsRun(states, steps) && i <= |steps|
    ensures Inv(states[i]) && states[i].initial == states[0].initial
  {
    hide Inv, Enabled, IsInit;
    if i == 0 {
      InitInv(states[0]);
    } else {
      RunInv(states, steps, i - 1);
      StepKeeps(states[i - 1], steps[i - 1]);
    }
  }

  /** The write queue keeps writers apart: whenever a group is about to be built or the memtable to
      be switched, the previous group is in its memtable and published, or has failed. */
  lemma WritersExclude(states: seq<Sys>, steps: seq<Step>, i: nat)
    requires IsRun(states, steps) && i < |steps| && (steps[i].Lead? || steps[i].Switch?)
    ensures states[i].r.writing.None?
    ensures steps[i].Lead? ==> R.Enabled(states[i].r, R.BeginWrite(Entries(Pending(states[i + 1], steps[i].id).AsRecord())))
    ensures steps[i].Switch? ==> R.Enabled(states[i].r, R.Switch(steps[i].table))
  {
    hide Inv, GC.IsGroup, GC.Ops, R.Inv, W.Inv, W.QueueOk, W.GroupsOk;
    RunInv(states, steps, i);
    LeaderIsAlone(states[i], steps[i].id);
    LastAgrees(states[i]);
    ImmAgrees(states[i]);
  }

  lemma LastAgrees(s: Sys)
    requires Inv(s)
    ensures s.r.last == s.w.lastSequence
  {
  }

  /** Entries of a batch under way are too young for every snapshot. */
  lemma CommittedReads(s: Sys, k: Key, snapshot: nat)
    requires Inv(s) && snapshot <= s.r.last
    ensures Lookup(s.r.history, k, snapshot) == Lookup(s.initial + Stored(W.Records(s.w.groups)), k, snapshot)
  {
    hide R.PublishedOk, R.ReadersOk, R.NumbersOk, R.SameFrom, W.QueueOk, W.GroupsOk, W.SyncErrorIsFinal, Stored, W.Records, Lookup;
    var settled := s.initial + Stored(W.Records(s.w.groups));
    var young := Young(s);
    R.YoungerIgnored(settled, young, k, snapshot);
  }

  lemma Young(s: Sys) returns (young: set<Entry>)
    requires Inv(s)
    ensures s.r.history == s.initial + Stored(W.Records(s.w.groups)) + young
    ensures forall e :: e in young ==> e.sn > s.r.last
    ensures R.UniqueNumbers(s.r.history)
  {
    hide R.PublishedOk, R.ReadersOk, R.NumbersOk, R.SameFrom, W.Inv, Stored, W.Records, Lookup, WriterOk;
    if Quiet(s.w) {
      QuietFiles(s.w);
      young := {};
    } else {
      var id :| id in s.w.calls && s.w.calls[id].pc.Writes();
      young := YoungOf(s, id);
    }
  }

  /** What the call under way has put into the memtable. */
  lemma YoungOf(s: Sys, id: W.Id) returns (young: set<Entry>)
    requires W.Inv(s.w) && LinkOk(s) && W.PcOf(s.w, id).Writes()
    ensures s.r.history == s.initial + Stored(W.Records(s.w.groups)) + young
    ensures forall e :: e in young ==> e.sn > s.r.last
  {
    hide W.Inv, Stored, W.Records, Entries;
    var pc := s.w.calls[id].pc;
    WriterFiles(s.w, id);
    BaseIsLast(s.w, id);
    assert WriterOk(s, pc);
    StoredSnoc(W.Records(s.w.groups), pc.p.AsRecord());
    var es := Entries(pc.p.AsRecord());
    young := if pc.Inserting? then Elements(es[..s.r.writing.value.inserted]) else if W.MemTail(pc) == [] then {} else Elements(es);
    assert W.Records(s.w.groups) + [] == W.Records(s.w.groups);
  }

  lemma QuietFiles(w: W.Db)
    requires W.Inv(w) && Quiet(w)
    ensures w.mem == W.Records(w.groups)
  {
    hide W.QueueOk, W.GroupsOk, W.SyncErrorIsFinal, W.Records, W.Pieces;
    W.FilesKnown(w);
  }

  lemma WriterFiles(w: W.Db, id: W.Id)
    requires W.Inv(w) && W.PcOf(w, id).Writes()
    ensures w.mem == W.Records(w.groups) + W.MemTail(w.calls[id].pc)
  {
    hide W.QueueOk, W.GroupsOk, W.SyncErrorIsFinal, W.Records, W.Pieces, W.PendingOk;
    W.CallKnown(w, id);
  }

  /** Main theorem. Under every interleaving of the calls to Write, one program counter to a call,
      with failing appends and syncs, memtable switches, flushes, compactions and other readers, a
      Get that has finished returned the newest value up to its snapshot that the store was opened
      with or that a committed group wrote, and its snapshot lies inside no group. */
  lemma GetReturnsNewestCommitted(states: seq<Sys>, steps: seq<Step>, i: nat, id: R.ReaderId)
    requires IsRun(states, steps) && i <= |steps| && id in states[i].r.readers && states[i].r.readers[id].stage.Done?
    ensures var s := states[i];
      var r := s.r.readers[id];
      && r.stage.result == Lookup(states[0].initial + Stored(W.Records(s.w.groups)), r.key, r.snapshot)
      && forall g :: g in s.w.groups && g.ops != [] ==> r.snapshot <= g.base || g.base + |g.ops| <= r.snapshot
  {
    hide Inv, Enabled, Apply, IsInit, R.LayersOk, R.NumbersOk, Lookup, Stored, W.Records;
    RunInv(states, steps, i);
    var s := states[i];
    ReaderKnown(s, id);
    CommittedReads(s, s.r.readers[id].key, s.r.readers[id].snapshot);
  }

  lemma ReaderKnown(s: Sys, id: R.ReaderId)
    requires Inv(s) && id in s.r.readers && s.r.readers[id].stage.Done?
    ensures var r := s.r.readers[id];
      && r.snapshot <= s.r.last && r.stage.result == Lookup(s.r.history, r.key, r.snapshot)
      && forall g :: g in s.w.groups && g.ops != [] ==> r.snapshot <= g.base || g.base + |g.ops| <= r.snapshot
  {
    hide R.LayersOk, R.NumbersOk, R.SameFrom, W.Inv, Lookup;
    assert R.ReaderOk(s.r, s.r.readers[id]);
  }

  /** What a call has committed is visible to every Get that takes no older snapshot: when Write has
      returned, its group lies at or before the last sequence number. */
  lemma CommittedIsVisible(states: seq<Sys>, steps: seq<Step>, i: nat, g: W.Group)
    requires IsRun(states, steps) && i <= |steps| && g in states[i].w.groups
    ensures g.base + |g.ops| <= states[i].r.last
    ensures g.outcome.Committed? ==> Elements(Entries(W.Record(g.base + 1, g.ops))) <= states[i].r.history
  {
    hide Inv, Enabled, Apply, IsInit, Stored, Entries, Elements;
    RunInv(states, steps, i);
    GroupVisible(states[i], g);
  }

  lemma GroupVisible(s: Sys, g: W.Group)
    requires Inv(s) && g in s.w.groups
    ensures g.base + |g.ops| <= s.r.last
    ensures g.outcome.Committed? ==> Elements(Entries(W.Record(g.base + 1, g.ops))) <= s.r.history
  {
    hide Inv, Stored, Elements, W.Contiguous, W.Length, W.Records;
    LastAgrees(s);
    GroupsBelow(s);
    var k :| 0 <= k < |s.w.groups| && s.w.groups[k] == g;
    BaseBelow(s.w.groups, s.w.start, k);
    if g.outcome.Committed? {
      RecordOfGroup(s.w.groups, k);
    }
  }

  lemma GroupsBelow(s: Sys)
    requires Inv(s)
    ensures W.Contiguous(s.w.groups, s.w.start) && s.w.lastSequence == s.w.start + W.Length(s.w.groups)
    ensures Stored(W.Records(s.w.groups)) <= s.r.history
  {
    hide W.QueueOk, W.SyncErrorIsFinal, R.Inv, Stored, W.Records;
    var young := Young(s);
  }

  lemma {:induction false} BaseBelow(gs: seq<W.Group>, start: nat, k: nat)
    requires W.Contiguous(gs, start) && k < |gs|
    ensures gs[k].base + |gs[k].ops| <= start + W.Length(gs)
    decreases |gs|
  {
    if k < |gs| - 1 {
      assert forall i :: 0 <= i < |gs| - 1 ==> gs[..|gs| - 1][..i] == gs[..i];
      BaseBelow(gs[..|gs| - 1], start, k);
    }
  }

  lemma {:induction false} RecordOfGroup(gs: seq<W.Group>, k: nat)
    requires k < |gs| && gs[k].outcome.Committed?
    ensures Elements(Entries(W.Record(gs[k].base + 1, gs[k].ops))) <= Stored(W.Records(gs))
    decreases |gs|
  {
    hide Elements, Stored;
    var init, last := gs[..|gs| - 1], gs[|gs| - 1];
    StoredSnoc(W.Records(init), W.Record(last.base + 1, last.ops));
    assert W.Records(init) + [] == W.Records(init);
    if k < |gs| - 1 {
      RecordOfGroup(init, k);
    }
  }

  /** What a step does to the layers is a step of the read path, or nothing. */
  lemma LayersStep(s: Sys, step: Step) returns (st: Option<R.Step>)
    requires Inv(s) && Enabled(s, step)
    ensures st.None? ==> Apply(s, step).r == s.r
    ensures st.Some? ==> R.Enabled(s.r, st.value) && Apply(s, step).r == R.Apply(s.r, st.value)
  {
    hide Inv, W.Enabled, W.Apply, R.Enabled, Flushes;
    match step
    case Queue(_) => st := None;
    case Lead(id, n) =>
      var begin := LeadLayers(s, id, n);
      st := Some(begin);
    case InsertOne(_) => st := Some(R.InsertOne);
    case Insert(_, _) => st := None;
    case Relock(_) => st := Some(R.Publish);
    case Switch(id, table) =>
      SwitchLayers(s, id, table);
      st := Some(R.Switch(table));
    case Flush(thread) =>
      FlushHasImm(s, thread);
      st := Some(R.Flush);
    case Read(step) => st := Some(step);
  }

  lemma LeadLayers(s: Sys, id: W.Id, n: nat) returns (st: R.Step)
    requires Inv(s) && Enabled(s, Lead(id, n))
    ensures R.Enabled(s.r, st) && Apply(s, Lead(id, n)).r == R.Apply(s.r, st)
  {
    hide Inv, GC.IsGroup, GC.Ops;
    LeaderIsAlone(s, id);
    LastAgrees(s);
    st := R.BeginWrite(Entries(Apply(s, Lead(id, n)).w.calls[id].pc.p.AsRecord()));
  }

  lemma SwitchLayers(s: Sys, id: W.Id, table: R.TableId)
    requires Inv(s) && Enabled(s, Switch(id, table))
    ensures R.Enabled(s.r, R.Switch(table))
  {
    hide Inv;
    LeaderIsAlone(s, id);
    ImmAgrees(s);
  }

  /** What is readable at a published sequence number never changes afterwards: neither in all that
      was ever inserted nor, as said for committed groups, in what Gets return. */
  lemma {:induction false} PastIsStable(states: seq<Sys>, steps: seq<Step>, i: nat, j: nat, k: Key, s: nat)
    requires IsRun(states, steps) && i <= j <= |steps| && s <= states[i].r.last
    ensures s <= states[j].r.last && Lookup(states[j].r.history, k, s) == Lookup(states[i].r.history, k, s)
    ensures Lookup(states[j].initial + Stored(W.Records(states[j].w.groups)), k, s)
         == Lookup(states[i].initial + Stored(W.Records(states[i].w.groups)), k, s)
    decreases j
  {
    hide Inv, Enabled, Apply, IsInit, Lookup, Stored, W.Records, R.Enabled, R.Apply;
    RunInv(states, steps, i);
    CommittedReads(states[i], k, s);
    if i < j {
      PastIsStable(states, steps, i, j - 1, k, s);
      RunInv(states, steps, j - 1);
      RunInv(states, steps, j);
      var st := LayersStep(states[j - 1], steps[j - 1]);
      if st.Some? {
        LayersInv(states[j - 1]);
        R.OneStepStable(states[j - 1].r, st.value, k, s);
      }
      CommittedReads(states[j], k, s);
    }
  }

  lemma LayersInv(s: Sys)
    requires Inv(s)
    ensures R.Inv(s.r)
  {
  }

  // ----- Gets, snapshots and finished writes -----

  /** A Get keeps its key and its snapshot as long as it lasts. */
  lemma {:induction false} ReaderIsFixed(states: seq<Sys>, steps: seq<Step>, i: nat, j: nat, id: R.ReaderId)
    requires IsRun(states, steps) && i <= j <= |steps| && id in states[i].r.readers
    ensures id in states[j].r.readers && states[j].r.readers[id].key == states[i].r.readers[id].key
    ensures states[j].r.readers[id].snapshot == states[i].r.readers[id].snapshot
    decreases j
  {
    hide Inv, Enabled, Apply, IsInit, R.Enabled, R.Apply;
    if i < j {
      ReaderIsFixed(states, steps, i, j - 1, id);
      RunInv(states, steps, j - 1);
      var st := LayersStep(states[j - 1], steps[j - 1]);
      if st.Some? {
        R.StepFixesReader(states[j - 1].r, st.value, id);
      }
    }
  }

  lemma ReleasesOnly(s: Sys, step: Step, id: R.SnapshotId)
    requires Enabled(s, step) && id in s.r.snapshots && step != Read(R.ReleaseSnapshot(id))
    ensures var q := Apply(s, step); id in q.r.snapshots && q.r.snapshots[id] == s.r.snapshots[id]
  {
    hide W.Enabled, W.Apply, R.ReadStage;
  }

  /** A snapshot keeps its number until it is released. */
  lemma {:induction false} SnapshotIsFixed(states: seq<Sys>, steps: seq<Step>, i: nat, j: nat, id: R.SnapshotId)
    requires IsRun(states, steps) && i <= j <= |steps| && id in states[i].r.snapshots
    requires forall n :: i <= n < j ==> steps[n] != Read(R.ReleaseSnapshot(id))
    ensures id in states[j].r.snapshots && states[j].r.snapshots[id] == states[i].r.snapshots[id]
    decreases j
  {
    hide Enabled, Apply, IsInit;
    if i < j {
      SnapshotIsFixed(states, steps, i, j - 1, id);
      ReleasesOnly(states[j - 1], steps[j - 1], id);
    }
  }

  /** What the store shows at a sequence number: what it was opened with and what committed groups
      wrote. */
  ghost function Shown(s: Sys): set<Entry> {
    s.initial + Stored(W.Records(s.w.groups))
  }

  /** A Get without a snapshot returns what the store showed when the Get began. */
  lemma GetReadsItsTime(states: seq<Sys>, steps: seq<Step>, j: nat, i: nat, id: R.ReaderId, k: Key)
    requires IsRun(states, steps) && j < i <= |steps| && steps[j] == Read(R.GetBegin(id, k, None))
    requires id in states[i].r.readers && states[i].r.readers[id].stage.Done?
    ensures states[i].r.readers[id].stage.result == Lookup(Shown(states[j]), k, states[j].r.last)
  {
    hide Inv, IsInit, Lookup, Stored, W.Records;
    BeginTakes(states[j], id, k, None);
    ReaderIsFixed(states, steps, j + 1, i, id);
    GetReturnsNewestCommitted(states, steps, i, id);
    PastIsStable(states, steps, j, i, k, states[j].r.last);
    RunInv(states, steps, i);
  }

  lemma BeginTakes(s: Sys, id: R.ReaderId, k: Key, snapshot: Option<R.SnapshotId>)
    requires Enabled(s, Read(R.GetBegin(id, k, snapshot)))
    ensures var q := Apply(s, Read(R.GetBegin(id, k, snapshot)));
      && id in q.r.readers && q.r.readers[id].key == k && (snapshot.Some? ==> snapshot.value in s.r.snapshots)
      && q.r.readers[id].snapshot == if snapshot.None? then s.r.last else s.r.snapshots[snapshot.value]
  {
  }

  lemma SnapshotTakes(s: Sys, id: R.SnapshotId)
    requires Enabled(s, Read(R.TakeSnapshot(id)))
    ensures var q := Apply(s, Read(R.TakeSnapshot(id))); id in q.r.snapshots && q.r.snapshots[id] == s.r.last
  {
  }

  /** A Get with a snapshot returns what the store showed when the snapshot was taken. */
  lemma GetReadsItsSnapshot(states: seq<Sys>, steps: seq<Step>, m: nat, j: nat, i: nat, snapshot: R.SnapshotId, id: R.ReaderId, k: Key)
    requires IsRun(states, steps) && m < j < i <= |steps|
    requires steps[m] == Read(R.TakeSnapshot(snapshot)) && forall n :: m < n < j ==> steps[n] != Read(R.ReleaseSnapshot(snapshot))
    requires steps[j] == Read(R.GetBegin(id, k, Some(snapshot))) && id in states[i].r.readers && states[i].r.readers[id].stage.Done?
    ensures states[i].r.readers[id].stage.result == Lookup(Shown(states[m]), k, states[m].r.last)
  {
    hide Inv, IsInit, Enabled, Apply, Lookup, Stored, W.Records;
    SnapshotTakes(states[m], snapshot);
    SnapshotIsFixed(states, steps, m + 1, j, snapshot);
    BeginTakes(states[j], id, k, Some(snapshot));
    ReaderIsFixed(states, steps, j + 1, i, id);
    GetReturnsNewestCommitted(states, steps, i, id);
    PastIsStable(states, steps, m, i, k, states[m].r.last);
    RunInv(states, steps, i);
  }

  /** A call's operations are in its group, one after the other behind those of the calls before it. */
  lemma {:induction false} OpsOfMember(ws: seq<GC.Writer>, m: nat, q: nat) returns (p: nat)
    requires m < |ws| && ws[m].batch.Some? && q < |ws[m].batch.value.ops|
    ensures p < |GC.Ops(ws)| && GC.Ops(ws)[p] == ws[m].batch.value.ops[q]
    ensures p == |GC.Ops(ws[..m])| + q
    decreases |ws|
  {
    var init := ws[..|ws| - 1];
    if m < |ws| - 1 {
      assert init[..m] == ws[..m];
      p := OpsOfMember(init, m, q);
    } else {
      p := |GC.Ops(init)| + q;
    }
  }

  /** The value an entry stands for. */
  function ValueOf(e: Entry): Option<Bytes> {
    if e.kind == Value then Some(e.value) else None
  }

  /** The number under which a group stores its operation at `p`. */
  function NumberOf(g: W.Group, p: nat): nat {
    g.base + 1 + p
  }

  ghost predicate Wrote(w: W.Db, call: W.Id, op: GC.Op, g: W.Group, p: nat) {
    g in w.groups && call in g.members && p < |g.ops| && g.ops[p] == op
  }

  /** Main theorem on reading one's writes: when Write has returned without an error, a Get of a key
      it wrote that begins afterwards returns the value of that operation or of a newer one. */
  lemma ReadsFinishedWrites(states: seq<Sys>, steps: seq<Step>, j: nat, i: nat, id: R.ReaderId, call: W.Id, q: nat)
      returns (g: W.Group, p: nat, e: Entry)
    requires IsRun(states, steps) && j < i <= |steps|
    requires W.PcOf(states[j].w, call) == W.Returned(W.Committed) && call in states[j].w.calls
    requires states[j].w.calls[call].w.batch.Some? && q < |states[j].w.calls[call].w.batch.value.ops|
    requires steps[j] == Read(R.GetBegin(id, states[j].w.calls[call].w.batch.value.ops[q].key, None))
    requires id in states[i].r.readers && states[i].r.readers[id].stage.Done?
    ensures var op := states[j].w.calls[call].w.batch.value.ops[q];
      && Wrote(states[j].w, call, op, g, p)
      && e in Shown(states[j]) && e.key == op.key && NumberOf(g, p) <= e.sn <= states[j].r.last
      && states[i].r.readers[id].stage.result == ValueOf(e)
  {
    hide Inv, IsInit, Enabled, Apply, Lookup, IsNewest, Stored, W.Records, Entries, Elements;
    var s := states[j];
    var op := s.w.calls[call].w.batch.value.ops[q];
    RunInv(states, steps, j);
    g, p := GroupOfOp(s, call, q);
    var own := Entry(op.key, NumberOf(g, p), op.kind, op.value);
    OwnIsShown(s, g, p);
    e := NewestShown(s, op.key, own);
    GetReadsItsTime(states, steps, j, i, id, op.key);
  }

  lemma GroupOfOp(s: Sys, call: W.Id, q: nat) returns (g: W.Group, p: nat)
    requires Inv(s) && call in s.w.calls && s.w.calls[call].pc == W.Returned(W.Committed)
    requires s.w.calls[call].w.batch.Some? && q < |s.w.calls[call].w.batch.value.ops|
    ensures Wrote(s.w, call, s.w.calls[call].w.batch.value.ops[q], g, p) && g.outcome.Committed?
  {
    hide R.Inv, P.RoomInv, LinkOk, W.QueueOk, W.SyncErrorIsFinal, W.Exclusive, W.IdleOk, W.LeaderOk, GC.Ops, GC.ByteSize;
    W.CallKnown(s.w, call);
    var n :| 0 <= n < |s.w.groups| && call in s.w.groups[n].members && s.w.groups[n].outcome.Committed?;
    g := s.w.groups[n];
    var ws := W.Writers(s.w, g.members);
    assert W.GroupOk(s.w, g);
    var m :| 0 <= m < |g.members| && g.members[m] == call;
    assert ws[m] == s.w.calls[call].w;
    p := OpsOfMember(ws, m, q);
  }

  lemma OwnIsShown(s: Sys, g: W.Group, p: nat)
    requires Inv(s) && g in s.w.groups && g.outcome.Committed? && p < |g.ops|
    ensures Entry(g.ops[p].key, NumberOf(g, p), g.ops[p].kind, g.ops[p].value) in Shown(s) && NumberOf(g, p) <= s.r.last
  {
    hide Inv, Stored, W.Records;
    var k :| 0 <= k < |s.w.groups| && s.w.groups[k] == g;
    RecordOfGroup(s.w.groups, k);
    GroupVisible(s, g);
    var es := Entries(W.Record(g.base + 1, g.ops));
    assert es[p] in Elements(es);
  }

  lemma NewestShown(s: Sys, k: Key, own: Entry) returns (e: Entry)
    requires Inv(s) && own in Shown(s) && own.key == k && own.sn <= s.r.last
    ensures e in Shown(s) && e.key == k && own.sn <= e.sn <= s.r.last && Lookup(Shown(s), k, s.r.last) == ValueOf(e)
  {
    hide Inv, Stored, W.Records;
    var young := Young(s);
    e := NewestExists(Shown(s), k, s.r.last, own);
    R.UniqueIsDistinct(s.r.history, Shown(s));
    LookupIs(Shown(s), k, s.r.last, e);
  }
}
