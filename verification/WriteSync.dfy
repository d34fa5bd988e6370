/** What a synced write promises (WriteOptions::sync, include/leveldb/options.h): once Write has
    returned without an error, the record of its batch is on disk and stays there. */
module WriteSync {
  import opened GroupCommit
  import B = Background
  import opened WriteQueue

  /** The log record is on disk as a whole. */
  ghost predicate OnDisk(db: Db, r: Record) {
    exists k :: k in db.durable && k < |db.log| && db.log[k] == Piece(r, Whole)
  }

  ghost predicate CallSynced(db: Db, c: Call) {
    match c.pc
    case Syncing(p) => db.fileStart < |db.log| && db.log[|db.log| - 1] == Piece(p.AsRecord(), Whole)
    case Inserting(p) => c.w.sync ==> OnDisk(db, p.AsRecord())
    case Relocking(p, outcome, _) => outcome.Committed? && c.w.sync ==> OnDisk(db, p.AsRecord())
    case _ => true
  }

  ghost predicate GroupSynced(db: Db, g: Group) {
    (g.outcome.Committed? && g.members != [] && g.members[0] in db.calls && db.calls[g.members[0]].w.sync) ==>
      OnDisk(db, Record(g.base + 1, g.ops))
  }

  ghost predicate SyncOk(db: Db) {
    && db.fileStart <= |db.log|
    && (forall id :: id in db.calls ==> CallSynced(db, db.calls[id]))
    && (forall g :: g in db.groups ==> GroupSynced(db, g))
  }

  /** Nothing is taken from the log or from the disk. */
  ghost predicate Keeps(db: Db, r: Db) {
    db.log <= r.log && db.durable <= r.durable && SameWriters(db, r)
  }

  lemma StaysOnDisk(db: Db, r: Db, record: Record)
    requires Keeps(db, r) && OnDisk(db, record)
    ensures OnDisk(r, record)
  {
    var k :| k in db.durable && k < |db.log| && db.log[k] == Piece(record, Whole);
    assert k in r.durable && r.log[k] == db.log[k];
  }

  lemma StepOnlyAdds(db: Db, step: Step)
    requires Enabled(db, step)
    ensures Keeps(db, Apply(db, step)) && (step.Append? || Apply(db, step).log == db.log)
  {
    hide IsGroup, Ops, BranchOf;
  }

  function GroupOf(pc: Pc): Group
    requires pc.Relocking?
  {
    Group(pc.p.members, pc.p.base, pc.p.ops, pc.outcome, pc.left)
  }

  /** What a step does to the log file and the groups. */
  lemma StepShape(db: Db, step: Step)
    requires Enabled(db, step)
    ensures var r := Apply(db, step);
      && (r.fileStart == db.fileStart || (step.Switch? && r.fileStart == |db.log|))
      && forall g :: g in r.groups ==>
           g in db.groups || !g.outcome.Committed? || (step.Relock? && PcOf(db, step.id).Relocking? && g == GroupOf(db.calls[step.id].pc))
  {
    hide IsGroup, Ops, BranchOf;
  }

  /** A step lets no call but its own write, and its own only from where it stood before. */
  lemma StepOfCall(db: Db, step: Step, id: Id)
    requires Exclusive(db) && Enabled(db, step) && id in Apply(db, step).calls
    ensures var r := Apply(db, step);
      !r.calls[id].pc.Writes() || (id in db.calls && r.calls[id] == db.calls[id])
      || (id in db.calls && (step.Append? || step.Sync? || step.Insert? || step.Lead?) && step.id == id)
  {
    hide IsGroup, Ops, BranchOf, B.Begin, B.Finish, B.MaybeSchedule, B.CanFinish, B.ResultOk;
  }

  /** The call that writes is alone, so the record it appended is the last of the log file. */
  lemma WriterKeepsSync(db: Db, step: Step)
    requires SyncOk(db) && Enabled(db, step) && (step.Append? || step.Sync? || step.Insert? || step.Lead?)
    ensures CallSynced(Apply(db, step), Apply(db, step).calls[step.id])
  {
    hide IsGroup, Ops, BranchOf;
    var r, id := Apply(db, step), step.id;
    assert CallSynced(db, db.calls[id]);
    StepOnlyAdds(db, step);
    if step.Sync? && step.ok {
      var k := |db.log| - 1;
      assert InFile(db, k);
      assert k in r.durable && r.log[k] == Piece(db.calls[id].pc.p.AsRecord(), Whole);
    } else if step.Insert? && db.calls[id].w.sync {
      StaysOnDisk(db, r, db.calls[id].pc.p.AsRecord());
    }
  }

  lemma AloneKeepsSync(db: Db, step: Step, id: Id)
    requires Inv(db) && SyncOk(db) && Enabled(db, step) && id in db.calls && id in Apply(db, step).calls
    requires Apply(db, step).calls[id] == db.calls[id] && db.calls[id].pc.Writes()
    ensures CallSynced(Apply(db, step), db.calls[id])
  {
    hide IsGroup, Ops, BranchOf, OnDisk, QueueOk, GroupsOk, SyncErrorIsFinal, CallsOk, IdleOk;
    var r, pc := Apply(db, step), db.calls[id].pc;
    assert CallSynced(db, db.calls[id]);
    StepOnlyAdds(db, step);
    StepShape(db, step);
    if step.Append? || step.Switch? {
      assert db.calls[step.id].pc.Active();
    }
    if !pc.Syncing? && !pc.Logging? && db.calls[id].w.sync && (pc.Inserting? || pc.outcome.Committed?) {
      StaysOnDisk(db, r, pc.p.AsRecord());
    }
  }

  lemma OldGroupSynced(db: Db, r: Db, g: Group)
    requires Keeps(db, r) && GroupSynced(db, g) && GroupOk(db, g)
    ensures GroupSynced(r, g)
  {
    hide OnDisk, Batched;
    if g.outcome.Committed? && db.calls[g.members[0]].w.sync {
      StaysOnDisk(db, r, Record(g.base + 1, g.ops));
    }
  }

  /** The leader is the first of its group. */
  lemma NewGroupSynced(db: Db, r: Db, id: Id)
    requires Inv(db) && Keeps(db, r) && PcOf(db, id).Relocking? && CallSynced(db, db.calls[id])
    ensures GroupSynced(r, GroupOf(db.calls[id].pc))
  {
    hide OnDisk, Inv, Batched, FilesOk, SyncLost;
    WriterKnows(db, id);
    var pc := db.calls[id].pc;
    assert pc.p.members[0] == id;
    if pc.outcome.Committed? && db.calls[id].w.sync {
      StaysOnDisk(db, r, pc.p.AsRecord());
    }
  }

  lemma GroupsKeepSync(db: Db, step: Step, g: Group)
    requires Inv(db) && SyncOk(db) && Enabled(db, step) && g in Apply(db, step).groups
    ensures GroupSynced(Apply(db, step), g)
  {
    hide CallsOk, QueueOk, SyncErrorIsFinal, Exclusive, IdleOk, CallSynced, Enabled, Apply, GroupOk;
    var r := Apply(db, step);
    StepOnlyAdds(db, step);
    StepShape(db, step);
    if g in db.groups {
      OldGroupSynced(db, r, g);
    } else if g.outcome.Committed? {
      NewGroupSynced(db, r, step.id);
    }
  }

  lemma StepKeepsSync(db: Db, step: Step)
    requires Inv(db) && SyncOk(db) && Enabled(db, step)
    ensures SyncOk(Apply(db, step))
  {
    hide Inv, Enabled, Apply, CallSynced, GroupSynced;
    var r := Apply(db, step);
    StepOnlyAdds(db, step);
    StepShape(db, step);
    CallsExclusive(db);
    forall id | id in r.calls
      ensures CallSynced(r, r.calls[id])
    {
      StepOfCall(db, step, id);
      if !r.calls[id].pc.Writes() {
        Unsynced(r, r.calls[id]);
      } else if id in db.calls && r.calls[id] == db.calls[id] {
        AloneKeepsSync(db, step, id);
      } else {
        WriterKeepsSync(db, step);
      }
    }
    forall g | g in r.groups
      ensures GroupSynced(r, g)
    {
      GroupsKeepSync(db, step, g);
    }
  }

  lemma Unsynced(db: Db, c: Call)
    requires !c.pc.Writes()
    ensures CallSynced(db, c)
  {
  }

  lemma {:induction false} RunSyncOk(states: seq<Db>, steps: seq<Step>, start: nat, i: nat)
    requires IsRun(states, steps, start) && i <= |steps|
    ensures SyncOk(states[i])
  {
    hide Inv, Enabled, Apply;
    if i > 0 {
      RunSyncOk(states, steps, start, i - 1);
      RunInv(states, steps, start, i - 1);
      StepKeepsSync(states[i - 1], steps[i - 1]);
    }
  }

  /** Returned without an error, or told so by its leader. */
  predicate Acknowledged(c: Call) {
    if c.pc.Returned? then c.pc.outcome.Committed? else c.done && c.status.Committed?
  }

  /** Main theorem: in every reachable state, a call that asked for a sync and has returned without
      an error, or has been told so by its leader, is in a group whose record is on disk. */
  lemma SyncedIsOnDisk(states: seq<Db>, steps: seq<Step>, start: nat, i: nat, id: Id)
    requires IsRun(states, steps, start) && i <= |steps| && id in states[i].calls
    requires states[i].calls[id].w.sync && Acknowledged(states[i].calls[id])
    ensures var db := states[i];
      exists g :: g in db.groups && id in g.members && g.outcome == Committed && OnDisk(db, Record(g.base + 1, g.ops))
  {
    hide Inv, Enabled, Apply, CallSynced, OnDisk;
    RunSyncOk(states, steps, start, i);
    RunInv(states, steps, start, i);
    var db := states[i];
    var j := ServedBy(db, id);
    var g := db.groups[j];
    assert g in db.groups && GroupSynced(db, g);
    SyncingLeader(db, g, id);
  }

  lemma ServedBy(db: Db, id: Id) returns (j: nat)
    requires Inv(db) && id in db.calls && Acknowledged(db.calls[id])
    ensures j < |db.groups| && id in db.groups[j].members && db.groups[j].outcome == Committed && GroupOk(db, db.groups[j])
  {
    hide QueueOk, SyncErrorIsFinal, Exclusive, IdleOk, LeaderOk, GroupOk;
    assert CallOk(db, id, db.calls[id]);
    assert Served(db, id, Committed);
    j :| 0 <= j < |db.groups| && id in db.groups[j].members && db.groups[j].outcome == Committed;
  }

  /** A call that asked for a sync joins only leaders that did. */
  lemma SyncingLeader(db: Db, g: Group, id: Id)
    requires GroupOk(db, g) && g.outcome.Committed? && id in g.members && db.calls[id].w.sync
    ensures db.calls[g.members[0]].w.sync
  {
    hide Ops, ByteSize;
    var i :| 0 <= i < |g.members| && g.members[i] == id;
    assert Writers(db, g.members)[i].sync;
  }

  /** What is on disk at one time is so ever after. */
  lemma {:induction false} DiskOnlyGrows(states: seq<Db>, steps: seq<Step>, start: nat, i: nat, j: nat, r: Record)
    requires IsRun(states, steps, start) && i <= j <= |steps| && OnDisk(states[i], r)
    ensures OnDisk(states[j], r)
    decreases j
  {
    hide Enabled, Apply, OnDisk;
    if i < j {
      DiskOnlyGrows(states, steps, start, i, j - 1, r);
      StepOnlyAdds(states[j - 1], steps[j - 1]);
      StaysOnDisk(states[j - 1], states[j], r);
    }
  }

  /** A call stays the one that was made. */
  lemma {:induction false} CallIsAsMade(states: seq<Db>, steps: seq<Step>, start: nat, i: nat, j: nat, id: Id, w: Writer)
    requires IsRun(states, steps, start) && i < j <= |steps| && steps[i] == Arrive(id, w)
    ensures id in states[j].calls && states[j].calls[id].w == w
    decreases j
  {
    hide Enabled, Apply;
    if i + 1 < j {
      CallIsAsMade(states, steps, start, i, j - 1, id, w);
      StepOnlyAdds(states[j - 1], steps[j - 1]);
    } else {
      ArrivesAsMade(states[i], id, w);
    }
  }

  lemma ArrivesAsMade(db: Db, id: Id, w: Writer)
    requires Enabled(db, Arrive(id, w))
    ensures var r := Apply(db, Arrive(id, w)); id in r.calls && r.calls[id].w == w
  {
  }
}
