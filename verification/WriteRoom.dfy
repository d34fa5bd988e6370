/** What MakeRoomForWrite does for whom (db/db_impl.cc): null batches get a switch of the memtable,
    writes to a crowded level 0 are delayed, and level 0 stops growing. */
module WriteRoom {
  import B = Background
  import opened GroupCommit
  import opened WriteQueue
  import opened WriteProgress

  /** The step has been taken before the i-th one. */
  predicate Happened(steps: seq<Step>, i: nat, step: Step)
    requires i <= |steps|
  {
    exists k :: 0 <= k < i && steps[k] == step
  }

  predicate Forces(pc: Pc) {
    (pc.MakingRoom? || pc.Sleeping? || pc.RoomWait?) && pc.force
  }

  predicate MayBeDelayed(pc: Pc) {
    (pc.MakingRoom? || pc.RoomWait?) && pc.allowDelay
  }

  /** A call in MakeRoomForWrite no longer forces a switch after it has made one, and is no longer to be
      delayed after it has been. */
  ghost predicate HistoryOk(steps: seq<Step>, i: nat, id: Id, c: Call)
    requires i <= |steps|
  {
    c.pc.InRoom() ==>
      && (c.w.batch.None? ==> Forces(c.pc) || Happened(steps, i, Switch(id)))
      && (c.w.batch.Some? ==> MayBeDelayed(c.pc) || Happened(steps, i, Sleep(id)))
  }

  lemma HappenedGrows(steps: seq<Step>, i: nat, step: Step)
    requires i < |steps| && (Happened(steps, i, step) || steps[i] == step)
    ensures Happened(steps, i + 1, step)
  {
    if steps[i] != step {
      var k :| 0 <= k < i && steps[k] == step;
      assert 0 <= k < i + 1;
    }
  }

  /** The call stays in MakeRoomForWrite, and what it forces or may be delayed for changes at a switch
      or a delay only. */
  predicate StaysInRoom(c: Call, d: Call, step: Step, id: Id) {
    && c.w == d.w && c.pc.InRoom()
    && (Forces(c.pc) ==> Forces(d.pc) || step == Switch(id))
    && (MayBeDelayed(c.pc) ==> MayBeDelayed(d.pc) || step == Sleep(id))
  }

  lemma SignalStaysInRoom(db: Db, r: Db, step: Step, id: Id)
    requires r.calls == db.calls || r.calls == SignalAll(db.calls)
    requires id in db.calls && id in r.calls && r.calls[id].pc.InRoom()
    ensures StaysInRoom(db.calls[id], r.calls[id], step, id)
  {
  }

  /** Whoever settles a group, takes it off the queue or leaves is alone past the wait loop. */
  lemma NobodyInRoom(db: Db, step: Step, id: Id)
    requires Exclusive(db) && Enabled(db, step) && (step.PopOne? || step.Leave? || step.Relock?) && id in Apply(db, step).calls
    ensures !Apply(db, step).calls[id].pc.InRoom()
  {
    assert db.calls[step.id].pc.Active();
  }

  /** What a step makes of a call in MakeRoomForWrite. */
  lemma RoomStep(db: Db, step: Step, id: Id)
    requires Exclusive(db) && Enabled(db, step) && id in Apply(db, step).calls && Apply(db, step).calls[id].pc.InRoom()
    ensures var c := Apply(db, step).calls[id];
      || (step == Test(id) && Forces(c.pc) == c.w.batch.None? && MayBeDelayed(c.pc) == c.w.batch.Some?)
      || (id in db.calls && StaysInRoom(db.calls[id], c, step, id))
  {
    hide IsGroup, Ops, B.Begin, B.Finish, B.MaybeSchedule, B.CanFinish, B.ResultOk, BranchOf, SignalAll, Exclusive;
    if step.BgBegin? || step.BgFinish? || step.FlushInside? {
      SignalStaysInRoom(db, Apply(db, step), step, id);
    } else if step.PopOne? || step.Leave? || step.Relock? {
      NobodyInRoom(db, step, id);
    }
  }

  lemma {:induction false} RunHistory(states: seq<Db>, steps: seq<Step>, start: nat, i: nat, id: Id)
    requires IsRun(states, steps, start) && i <= |steps| && id in states[i].calls
    ensures HistoryOk(steps, i, id, states[i].calls[id])
  {
    hide Enabled, Apply, Inv, Forces, MayBeDelayed, Happened;
    if i > 0 && states[i].calls[id].pc.InRoom() {
      RunInv(states, steps, start, i - 1);
      CallsExclusive(states[i - 1]);
      RoomStep(states[i - 1], steps[i - 1], id);
      if id in states[i - 1].calls {
        RunHistory(states, steps, start, i - 1, id);
      }
      if Happened(steps, i - 1, Switch(id)) || steps[i - 1] == Switch(id) {
        HappenedGrows(steps, i - 1, Switch(id));
      }
      if Happened(steps, i - 1, Sleep(id)) || steps[i - 1] == Sleep(id) {
        HappenedGrows(steps, i - 1, Sleep(id));
      }
    }
  }

  /** A null batch that makes room for itself has the memtable switched before it returns. */
  lemma NullBatchSwitches(states: seq<Db>, steps: seq<Step>, start: nat, i: nat, id: Id)
    requires IsRun(states, steps, start) && i < |steps| && steps[i] == NullBatch(id)
    ensures Happened(steps, i, Switch(id))
  {
    hide Apply, Inv, Happened;
    RunHistory(states, steps, start, i, id);
  }

  /** A write that leads while level 0 has eight files or more has been delayed. */
  lemma CrowdedWritesAreDelayed(states: seq<Db>, steps: seq<Step>, start: nat, i: nat, id: Id, n: nat)
    requires IsRun(states, steps, start) && i < |steps| && steps[i] == Lead(id, n) && states[i].room.files >= 8
    ensures Happened(steps, i, Sleep(id))
  {
    hide Apply, Inv, Happened, IsGroup;
    RunHistory(states, steps, start, i, id);
  }

  // ----- One delay -----

  /** Not yet past the wait loop. */
  predicate InLoop(pc: Pc) {
    pc.Waiting? || pc.Waking? || pc.AtTest?
  }

  predicate Undelayed(pc: Pc) {
    InLoop(pc) || MayBeDelayed(pc)
  }

  predicate OfThread(step: Step) {
    step.BgBegin? || step.BgFinish? || step.FlushInside?
  }

  predicate Several(step: Step) {
    step.PopOne? || step.Leave? || step.Relock?
  }

  /** A call that is as yet undelayed, or forces a switch, was so before. */
  predicate AsBefore(c: Call, d: Call) {
    && c.w == d.w && (Undelayed(d.pc) ==> Undelayed(c.pc)) && (Forces(d.pc) ==> Forces(c.pc))
  }

  lemma SignalAsBefore(db: Db, r: Db, id: Id)
    requires r.calls == db.calls || r.calls == SignalAll(db.calls)
    requires id in r.calls
    ensures id in db.calls && AsBefore(db.calls[id], r.calls[id])
  {
  }

  lemma SeveralAsBefore(db: Db, step: Step, id: Id)
    requires Enabled(db, step) && Several(step) && id in Apply(db, step).calls
    ensures id in db.calls && AsBefore(db.calls[id], Apply(db, step).calls[id])
  {
  }

  /** A call that has not been delayed was so before, or has just arrived. */
  lemma UndelayedBefore(db: Db, step: Step, id: Id)
    requires Enabled(db, step) && id in Apply(db, step).calls && Undelayed(Apply(db, step).calls[id].pc)
    ensures id !in db.calls || (Undelayed(db.calls[id].pc) && step != Sleep(id))
    ensures step == Sleep(id) ==> id in db.calls
  {
    hide IsGroup, Ops, B.Begin, B.Finish, B.MaybeSchedule, B.CanFinish, B.ResultOk, BranchOf, SignalAll;
    if OfThread(step) {
      SignalAsBefore(db, Apply(db, step), id);
    } else if Several(step) {
      SeveralAsBefore(db, step, id);
    }
  }

  lemma CallsStay(db: Db, step: Step)
    requires Enabled(db, step)
    ensures db.calls.Keys <= Apply(db, step).calls.Keys
    ensures step.Sleep? ==> step.id in db.calls
  {
    hide IsGroup, Ops, B.Begin, B.Finish, B.MaybeSchedule, B.CanFinish, B.ResultOk, BranchOf, SignalAll;
  }

  lemma {:induction false} NotYetThere(states: seq<Db>, steps: seq<Step>, start: nat, i: nat, id: Id)
    requires IsRun(states, steps, start) && i <= |steps| && id !in states[i].calls
    ensures !Happened(steps, i, Sleep(id))
  {
    hide Enabled, Apply;
    if i > 0 {
      CallsStay(states[i - 1], steps[i - 1]);
      NotYetThere(states, steps, start, i - 1, id);
      NotHappened(steps, i - 1, Sleep(id));
    }
  }

  lemma NotHappened(steps: seq<Step>, i: nat, step: Step)
    requires i < |steps| && !Happened(steps, i, step) && steps[i] != step
    ensures !Happened(steps, i + 1, step)
  {
  }

  lemma {:induction false} UndelayedNeverSlept(states: seq<Db>, steps: seq<Step>, start: nat, i: nat, id: Id)
    requires IsRun(states, steps, start) && i <= |steps| && id in states[i].calls && Undelayed(states[i].calls[id].pc)
    ensures !Happened(steps, i, Sleep(id))
  {
    hide Enabled, Apply, Undelayed, Happened;
    if i > 0 {
      UndelayedBefore(states[i - 1], steps[i - 1], id);
      if id in states[i - 1].calls {
        UndelayedNeverSlept(states, steps, start, i - 1, id);
      } else {
        NotYetThere(states, steps, start, i - 1, id);
      }
      NotHappened(steps, i - 1, Sleep(id));
    } else {
      NothingHappened(steps, Sleep(id));
    }
  }

  lemma NothingHappened(steps: seq<Step>, step: Step)
    ensures !Happened(steps, 0, step)
  {
  }

  /** Nobody waits without a reason: a write is delayed once at most, with eight files or more on level
      0, and waits for the background when the memtable is full or a switch is forced and the last one
      is still there or level 0 has twelve files or more. */
  lemma WaitsHaveReasons(states: seq<Db>, steps: seq<Step>, start: nat, i: nat, id: Id)
    requires IsRun(states, steps, start) && i < |steps|
    ensures steps[i] == Sleep(id) ==> states[i].room.files >= 8 && !Happened(steps, i, Sleep(id))
    ensures steps[i] == WaitForRoom(id) ==> states[i].room.imm || states[i].room.files >= 12
    ensures steps[i] == WaitForRoom(id) ==> states[i].room.full || (id in states[i].calls && states[i].calls[id].w.batch.None?)
  {
    hide Apply, Inv, Happened, IsGroup;
    if steps[i] == Sleep(id) {
      UndelayedNeverSlept(states, steps, start, i, id);
    } else if steps[i] == WaitForRoom(id) && Forces(states[i].calls[id].pc) {
      ForcedIsNull(states, steps, start, i, id);
    }
  }

  /** Only null batches force a switch. */
  lemma ForcedBefore(db: Db, step: Step, id: Id)
    requires Enabled(db, step) && id in Apply(db, step).calls && Forces(Apply(db, step).calls[id].pc)
    ensures Apply(db, step).calls[id].w.batch.None? || (id in db.calls && db.calls[id].w == Apply(db, step).calls[id].w && Forces(db.calls[id].pc))
  {
    hide IsGroup, Ops, B.Begin, B.Finish, B.MaybeSchedule, B.CanFinish, B.ResultOk, BranchOf, SignalAll;
    if OfThread(step) {
      SignalAsBefore(db, Apply(db, step), id);
    } else if Several(step) {
      SeveralAsBefore(db, step, id);
    }
  }

  lemma {:induction false} ForcedIsNull(states: seq<Db>, steps: seq<Step>, start: nat, i: nat, id: Id)
    requires IsRun(states, steps, start) && i <= |steps| && id in states[i].calls && Forces(states[i].calls[id].pc)
    ensures states[i].calls[id].w.batch.None?
  {
    hide Enabled, Apply, Forces;
    if i > 0 {
      ForcedBefore(states[i - 1], steps[i - 1], id);
      if states[i].calls[id].w.batch.Some? {
        ForcedIsNull(states, steps, start, i - 1, id);
      }
    }
  }

  /** While there is anything to do in the background, four files on level 0 included, the thread is
      scheduled, unless the database is being closed or has failed. */
  lemma WorkIsScheduled(states: seq<Db>, steps: seq<Step>, start: nat, i: nat)
    requires IsRun(states, steps, start) && i <= |steps|
    ensures var room := states[i].room;
      (room.imm || room.manual || room.overdue || room.files >= 4) && !room.shutdown && !states[i].bgError ==> room.scheduled
  {
    hide Enabled, Apply, WaitersOk, B.LevelsOk, B.EntryAbove;
    RunRoomInv(states, steps, start, i);
  }

  // ----- Level 0 -----

  function FilesToCome(db: Db): nat {
    db.room.files + if db.room.imm then 1 else 0
  }

  lemma SwitchBoundsFiles(db: Db, id: Id, limit: nat)
    requires Enabled(db, Switch(id)) && FilesToCome(db) <= limit && 12 <= limit
    ensures FilesToCome(Apply(db, Switch(id))) <= limit
  {
    hide B.HasWork;
  }

  lemma ResultBoundsFiles(room: B.Room, res: B.Result)
    requires B.ResultOk(room, res) && (res.Table? ==> room.imm)
    ensures var r := B.WithResult(room, res); r.files + (if r.imm then 1 else 0) <= room.files + (if room.imm then 1 else 0)
  {
    hide B.LevelsOk;
  }

  lemma EndKeepsFiles(room: B.Room, error: bool)
    ensures B.End(room, error).files == room.files && B.End(room, error).imm == room.imm
  {
    hide B.HasWork;
  }

  lemma FinishBoundsFiles(room: B.Room, error: bool, ok: bool, res: B.Result)
    requires B.CanFinish(room, ok, res) && (room.bg.Flushing? ==> room.imm)
    ensures var r := B.Finish(room, error, ok, res); r.files + (if r.imm then 1 else 0) <= room.files + (if room.imm then 1 else 0)
  {
    hide B.LevelsOk, B.WithResult, B.End;
    if ok {
      ResultBoundsFiles(room, res);
    }
    var done := if ok then B.WithResult(room, res) else room;
    EndKeepsFiles(if room.bg == B.Compacting(true) then done.(manual := false) else done, error || !ok);
  }

  /** A table takes the place of the immutable memtable, and a compaction adds no file to level 0. */
  lemma ThreadBoundsFiles(db: Db, step: Step)
    requires RoomInv(db) && Enabled(db, step) && (step.BgFinish? || step.FlushInside?)
    ensures FilesToCome(Apply(db, step)) <= FilesToCome(db)
  {
    hide WaitersOk, SignalAll, B.LevelsOk, B.HasWork, B.EntryAbove, B.ResultOk, B.WithResult, B.Finish, B.CanFinish;
    match step
    case BgFinish(ok, res) => FinishBoundsFiles(db.room, db.bgError, ok, res);
    case FlushInside(ok, res) =>
      if ok {
        ResultBoundsFiles(db.room, res);
      }
  }

  lemma OthersKeepFiles(db: Db, step: Step)
    requires Enabled(db, step) && !step.Switch? && !step.BgFinish? && !step.FlushInside?
    ensures FilesToCome(Apply(db, step)) == FilesToCome(db)
  {
    hide IsGroup, Ops, BranchOf, SignalAll, B.EntryAbove, B.HasWork;
  }

  lemma StepBoundsFiles(db: Db, step: Step, limit: nat)
    requires RoomInv(db) && Enabled(db, step) && FilesToCome(db) <= limit && 12 <= limit
    ensures FilesToCome(Apply(db, step)) <= limit
  {
    hide RoomInv, Enabled, Apply, FilesToCome;
    if step.Switch? {
      SwitchBoundsFiles(db, step.id, limit);
    } else if step.BgFinish? || step.FlushInside? {
      ThreadBoundsFiles(db, step);
    } else {
      OthersKeepFiles(db, step);
    }
  }

  /** Level 0 never gets more than twelve files, the one from an immutable memtable included, unless it
      had more when the database was opened. */
  lemma {:induction false} LevelZeroIsBounded(states: seq<Db>, steps: seq<Step>, start: nat, i: nat)
    requires IsRun(states, steps, start) && i <= |steps|
    ensures var first := states[0].room.files; FilesToCome(states[i]) <= if first > 12 then first else 12
  {
    hide Enabled, Apply, RoomInv;
    if i > 0 {
      LevelZeroIsBounded(states, steps, start, i - 1);
      RunRoomInv(states, steps, start, i - 1);
      var limit := if states[0].room.files > 12 then states[0].room.files else 12;
      StepBoundsFiles(states[i - 1], steps[i - 1], limit);
    }
  }
}
