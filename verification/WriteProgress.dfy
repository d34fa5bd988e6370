/** Every write returns (Write, MakeRoomForWrite and BackgroundCall in db/db_impl.cc): unless the
    database is being closed, some call or the scheduled background thread can go on until all calls
    have returned, and they cannot go on for ever. */
module WriteProgress {
  import B = Background
  import opened Options
  import opened GroupCommit
  import opened WriteQueue

  /** A step that a call or the background thread takes of its own. The others are up to the
      surroundings: new calls, spurious wake-ups, reads that charge a file, manual compactions and
      the closing of the database. */
  predicate Forward(step: Step) {
    && !step.Arrive? && !step.WakeForNothing? && !step.RoomWakeForNothing?
    && !step.Seek? && !step.Manual? && !step.Shutdown?
  }

  ghost predicate AllReturned(db: Db) {
    forall id :: id in db.calls ==> db.calls[id].pc.Returned?
  }

  // ----- Nobody waits for the background in vain -----

  predicate Sleeps(pc: Pc) {
    pc.RoomWait? && !pc.signalled
  }

  /** What a call that waits unsignalled waits for is still to come. */
  ghost predicate WaitersOk(db: Db) {
    forall id :: id in db.calls && Sleeps(db.calls[id].pc) ==>
      !db.bgError && (db.room.imm || db.room.files >= B.L0_STOP_TRIGGER)
  }

  ghost predicate RoomInv(db: Db) {
    B.Served(db.room, db.bgError) && WaitersOk(db)
  }

  lemma AllSignalled(db: Db)
    ensures forall id :: id in db.calls ==> !Sleeps(SignalAll(db.calls)[id].pc)
  {
  }

  /** The steps of a call leave the background alone, but for the switch. */
  lemma CallKeepsRoom(db: Db, step: Step)
    requires RoomInv(db) && Enabled(db, step)
    requires step.Arrive? || step.Test? || step.Wake? || step.WakeForNothing? || step.Sleep? || step.WakeFromSleep?
      || step.WaitForRoom? || step.RoomWakeForNothing? || step.Reacquire? || step.RoomFails? || step.NullBatch? || step.Lead?
      || step.Append? || step.Sync? || step.Insert? || step.PopOne? || step.Leave?
    ensures RoomInv(Apply(db, step))
  {
    hide IsGroup, Ops, B.EntryAbove;
  }

  lemma SwitchKeepsRoom(db: Db, id: Id)
    requires RoomInv(db) && Enabled(db, Switch(id))
    ensures RoomInv(Apply(db, Switch(id)))
  {
    hide B.EntryAbove;
  }

  lemma RelockKeepsRoom(db: Db, id: Id)
    requires RoomInv(db) && Enabled(db, Relock(id))
    ensures RoomInv(Apply(db, Relock(id)))
  {
    hide B.Served;
    var pc := db.calls[id].pc;
    var r := Settle(db, id, pc.p.last, Group(pc.p.members, pc.p.base, pc.p.ops, pc.outcome, pc.left)).(
      mutex := Some(id), lastSequence := pc.p.base + |pc.p.ops|);
    if pc.outcome.SyncFailed? {
      ServedWithError(db.room, db.bgError);
      assert B.Served(r.room, true);
      AllSignalled(r);
    }
  }

  lemma ServedWithError(room: B.Room, error: bool)
    requires B.Served(room, error)
    ensures B.Served(room, true)
  {
  }

  lemma BackgroundKeepsRoom(db: Db, step: Step)
    requires RoomInv(db) && Enabled(db, step) && (step.BgBegin? || step.BgFinish? || step.FlushInside?)
    ensures RoomInv(Apply(db, step))
  {
    hide B.Served, B.ResultOk, SignalAll;
    AllSignalled(db);
    match step
    case BgBegin =>
      B.BeginServes(db.room, db.bgError);
      BeginKeepsImm(db.room, db.bgError);
    case BgFinish(ok, res) => B.FinishServes(db.room, db.bgError, ok, res);
    case FlushInside(ok, res) =>
      if ok {
        B.InsideServes(db.room, db.bgError, res);
      } else {
        ServedWithError(db.room, db.bgError);
      }
  }

  lemma BeginKeepsImm(room: B.Room, error: bool)
    ensures B.Begin(room, error).imm == room.imm && B.Begin(room, error).files == room.files
  {
  }

  lemma SurroundingsKeepRoom(db: Db, step: Step)
    requires RoomInv(db) && Enabled(db, step) && (step.Seek? || step.Manual? || step.Shutdown?)
    ensures RoomInv(Apply(db, step))
  {
    hide B.EntryAbove;
  }

  lemma StepKeepsRoom(db: Db, step: Step)
    requires RoomInv(db) && Enabled(db, step)
    ensures RoomInv(Apply(db, step))
  {
    hide RoomInv, Enabled, Apply;
    match step
    case Switch(id) => SwitchKeepsRoom(db, id);
    case Relock(id) => RelockKeepsRoom(db, id);
    case BgBegin => BackgroundKeepsRoom(db, step);
    case BgFinish(_, _) => BackgroundKeepsRoom(db, step);
    case FlushInside(_, _) => BackgroundKeepsRoom(db, step);
    case Seek => SurroundingsKeepRoom(db, step);
    case Manual(_) => SurroundingsKeepRoom(db, step);
    case Shutdown => SurroundingsKeepRoom(db, step);
    case _ => CallKeepsRoom(db, step);
  }

  lemma {:induction false} RunRoomInv(states: seq<Db>, steps: seq<Step>, start: nat, i: nat)
    requires IsRun(states, steps, start) && i <= |steps|
    ensures RoomInv(states[i])
  {
    hide Enabled, Apply, B.LevelsOk, B.HasWork;
    if i > 0 {
      RunRoomInv(states, steps, start, i - 1);
      StepKeepsRoom(states[i - 1], steps[i - 1]);
    }
  }

  // ----- Somebody can go on -----

  /** No call and no background step is possible. */
  ghost predicate AtRest(db: Db) {
    forall step :: Forward(step) ==> !Enabled(db, step)
  }

  ghost predicate Strands(db: Db, id: Id) {
    && id in db.calls && Sleeps(db.calls[id].pc)
    && forall other :: other in db.calls && other != id ==> db.calls[other].pc.Waiting? || db.calls[other].pc.Returned?
  }

  /** A call waits for a signal that nobody will give, and the others sleep behind it. */
  ghost predicate Stranded(db: Db) {
    db.mutex.None? && exists id :: Strands(db, id)
  }

  lemma KnownQueue(db: Db)
    requires QueueOk(db)
    ensures Known(db, db.queue)
  {
    forall id | id in db.queue
      ensures id in db.calls
    {
      assert id in db.arrivals;
    }
  }

  /** The call in MakeRoomForWrite takes the branch it is at. */
  lemma RoomGoesOn(db: Db, id: Id) returns (step: Step)
    requires Inv(db) && PcOf(db, id).MakingRoom?
    ensures Forward(step) && Enabled(db, step)
  {
    hide Inv, IsGroup, MayJoin, BranchOf;
    var pc := db.calls[id].pc;
    match BranchOf(db, pc.force, pc.allowDelay)
    case Fail => step := RoomFails(id);
    case Delay => step := Sleep(id);
    case Wait => step := WaitForRoom(id);
    case NewTable => step := Switch(id);
    case Enough =>
      if db.calls[id].w.batch.None? {
        step := NullBatch(id);
      } else {
        LeaderInFront(db, id);
        var n := GroupExists(Writers(db, db.queue), 1);
        step := Lead(id, n);
      }
  }

  lemma LeaderInFront(db: Db, id: Id)
    requires Inv(db) && PcOf(db, id).MakingRoom?
    ensures Known(db, db.queue) && db.queue != [] && db.queue[0] == id
  {
    hide GroupsOk, QueueOk, SyncErrorIsFinal, Exclusive, IdleOk, FilesOk, PendingOk, Served;
    KnownQueue(db);
    CallKnown(db, id);
  }

  lemma PopperHasQueue(db: Db, id: Id)
    requires Inv(db) && PcOf(db, id).Popping?
    ensures db.queue != []
  {
    hide GroupsOk, QueueOk, SyncErrorIsFinal, Exclusive, IdleOk, FilesOk, PassiveOk;
    CallKnown(db, id);
  }

  lemma LeaderGoesOn(db: Db, id: Id) returns (step: Step)
    requires Inv(db) && PcOf(db, id).Active() && !Sleeps(PcOf(db, id)) && (db.mutex.None? || db.mutex == Some(id))
    ensures Forward(step) && Enabled(db, step)
  {
    hide Inv, BranchOf;
    OwnsMutex(db, id);
    match db.calls[id].pc
    case MakingRoom(_, _) => step := RoomGoesOn(db, id);
    case Sleeping(_) => step := WakeFromSleep(id);
    case RoomWait(_, _, _) => step := Reacquire(id);
    case Logging(_) => step := Append(id, Whole, true);
    case Syncing(_) => step := Sync(id, true);
    case Inserting(_) => step := Insert(id, false);
    case Relocking(_, _, _) => step := Relock(id);
    case Popping(_, _) =>
      PopperHasQueue(db, id);
      step := PopOne(id);
    case Notifying(_) => step := Leave(id);
  }

  /** A scheduled thread begins, or ends its round. */
  lemma BackgroundGoesOn(db: Db) returns (step: Step)
    requires RoomInv(db) && db.mutex.None? && db.room.scheduled
    ensures Forward(step) && Enabled(db, step)
  {
    hide B.Served, B.CanFinish;
    if db.room.bg.Idle? {
      step := BgBegin;
    } else {
      var res := B.SomeResult(db.room, db.bgError);
      step := BgFinish(true, res);
    }
  }

  lemma OwnerGoesOn(db: Db) returns (step: Step)
    requires Inv(db) && db.mutex.Some?
    ensures Forward(step) && Enabled(db, step)
  {
    hide GroupsOk, QueueOk, SyncErrorIsFinal, Exclusive, IdleOk, LeaderOk, PassiveOk;
    var id := db.mutex.value;
    OwnsMutex(db, id);
    if db.calls[id].pc.AtTest? {
      step := Test(id);
    } else {
      step := LeaderGoesOn(db, id);
    }
  }

  /** With the mutex free, somebody is past the wait loop or waking up. */
  lemma SomeCall(db: Db) returns (id: Id)
    requires Inv(db) && !AllReturned(db) && db.mutex.None?
    ensures id in db.calls && (db.calls[id].pc.Active() || db.calls[id].pc.Waking?)
  {
    hide GroupsOk, QueueOk, SyncErrorIsFinal, Exclusive, FilesOk, LeaderOk, Served;
    id :| id in db.calls && !db.calls[id].pc.Returned?;
    CallKnown(db, id);
    if db.calls[id].pc.Waiting? {
      if Idle(db) {
        KnownQueue(db);
        id := db.queue[0];
        CallKnown(db, id);
      } else {
        id :| id in db.calls && db.calls[id].pc.Active();
      }
    }
  }

  lemma SomeStep(db: Db) returns (step: Step)
    requires Inv(db) && RoomInv(db) && (db.room.scheduled || (!AllReturned(db) && !Stranded(db)))
    ensures Forward(step) && Enabled(db, step)
  {
    hide Inv, RoomInv, Enabled;
    if db.mutex.Some? {
      step := OwnerGoesOn(db);
    } else if db.room.scheduled {
      step := BackgroundGoesOn(db);
    } else {
      var id := SomeCall(db);
      if db.calls[id].pc.Waking? {
        step := Wake(id);
        CanWake(db, id);
      } else if !Sleeps(db.calls[id].pc) {
        step := LeaderGoesOn(db, id);
      } else {
        assert !Strands(db, id);
        var other :| other in db.calls && other != id && !db.calls[other].pc.Waiting? && !db.calls[other].pc.Returned?;
        PassiveWakes(db, id, other);
        step := Wake(other);
        CanWake(db, other);
      }
    }
  }

  lemma CanWake(db: Db, id: Id)
    requires id in db.calls && db.calls[id].pc.Waking? && db.mutex.None?
    ensures Enabled(db, Wake(id))
  {
  }

  lemma PassiveWakes(db: Db, id: Id, other: Id)
    requires Inv(db) && id in db.calls && other in db.calls && other != id && db.calls[id].pc.Active() && db.mutex.None?
    requires !db.calls[other].pc.Waiting? && !db.calls[other].pc.Returned?
    ensures db.calls[other].pc.Waking?
  {
    hide GroupsOk, QueueOk, SyncErrorIsFinal, IdleOk, CallsOk;
    OwnsMutex(db, other);
  }

  /** Nothing moves where all have returned or one is stranded and the thread is not scheduled. */
  lemma NoStep(db: Db)
    requires Inv(db) && RoomInv(db) && !db.room.scheduled && (AllReturned(db) || Stranded(db))
    ensures AtRest(db)
  {
    hide Inv, B.LevelsOk, B.HasWork, IsGroup, BranchOf;
    forall step | Forward(step)
      ensures !Enabled(db, step)
    {
    }
  }

  /** Main theorem: what rest looks like. In every reachable state, no call and not the background
      thread can go on exactly if the thread is not scheduled and either all calls have returned or
      a call is stranded. Only the closing of the database strands calls. */
  lemma NeverStuck(states: seq<Db>, steps: seq<Step>, start: nat, i: nat)
    requires IsRun(states, steps, start) && i <= |steps|
    ensures var db := states[i];
      && (AtRest(db) <==> !db.room.scheduled && (AllReturned(db) || Stranded(db)))
      && (!db.room.scheduled && Stranded(db) ==>
            db.room.shutdown && !db.bgError && (db.room.imm || db.room.files >= B.L0_STOP_TRIGGER))
  {
    hide Inv, RoomInv, Enabled, Apply, AllReturned, Stranded, AtRest;
    RunInv(states, steps, start, i);
    RunRoomInv(states, steps, start, i);
    var db := states[i];
    if !db.room.scheduled && (AllReturned(db) || Stranded(db)) {
      NoStep(db);
    } else {
      var step := SomeStep(db);
      NotAtRest(db, step);
    }
    if !db.room.scheduled && Stranded(db) {
      StrandedWhenClosed(db);
    }
  }

  /** A call that waits for the background is signalled, or the thread is scheduled, or the database
      is being closed. */
  lemma WaiterIsServed(states: seq<Db>, steps: seq<Step>, start: nat, i: nat, id: Id)
    requires IsRun(states, steps, start) && i <= |steps| && PcOf(states[i], id).RoomWait?
    ensures var db := states[i];
      db.calls[id].pc.signalled || (!db.bgError && (db.room.scheduled || db.room.shutdown))
  {
    hide Enabled, Apply, B.LevelsOk, B.EntryAbove;
    RunRoomInv(states, steps, start, i);
  }

  lemma NotAtRest(db: Db, step: Step)
    requires Forward(step) && Enabled(db, step)
    ensures !AtRest(db)
  {
  }

  lemma StrandedWhenClosed(db: Db)
    requires RoomInv(db) && !db.room.scheduled && Stranded(db)
    ensures db.room.shutdown && !db.bgError && (db.room.imm || db.room.files >= B.L0_STOP_TRIGGER)
  {
    hide B.LevelsOk, B.EntryAbove;
  }

  /** The steps that calls take outside MakeRoomForWrite and the writing, and those of nobody. */
  predicate Elsewhere(step: Step) {
    step.Arrive? || step.Test? || step.Wake? || step.WakeForNothing? || step.Seek? || step.Manual? || step.Shutdown?
  }

  /** A sleeping call leaves no step to another one past the wait loop, and a thread that is not
      scheduled takes none. */
  lemma OnlyElsewhere(db: Db, step: Step, id: Id)
    requires Exclusive(db) && Enabled(db, step) && B.Served(db.room, db.bgError) && !db.room.scheduled
    requires id in db.calls && Sleeps(db.calls[id].pc)
    ensures Elsewhere(step) || step == RoomWakeForNothing(id)
  {
    hide IsGroup, Ops, BranchOf, B.LevelsOk, B.HasWork, B.EntryAbove, B.ResultOk;
    assert db.calls[id].pc.Active();
    if !Elsewhere(step) && !step.BgBegin? && !step.BgFinish? && !step.FlushInside? {
      assert PcOf(db, step.id).Active();
    }
  }

  /** Once closed with the thread unscheduled, a stranded call is left waiting by every step but a
      wake-up for nothing. */
  lemma StaysStranded(db: Db, step: Step, id: Id)
    requires Inv(db) && RoomInv(db) && Enabled(db, step) && step != RoomWakeForNothing(id)
    requires id in db.calls && Sleeps(db.calls[id].pc) && db.room.shutdown && !db.room.scheduled
    ensures var r := Apply(db, step);
      id in r.calls && r.calls[id] == db.calls[id] && r.room.shutdown && !r.room.scheduled
  {
    hide Inv, WaitersOk, B.Served, IsGroup, Ops, BranchOf, B.HasWork;
    KnowsQueue(db);
    OnlyElsewhere(db, step, id);
    ElsewhereKeeps(db, step, id);
  }

  lemma ElsewhereKeeps(db: Db, step: Step, id: Id)
    requires Enabled(db, step) && Elsewhere(step)
    requires id in db.calls && Sleeps(db.calls[id].pc) && db.room.shutdown && !db.room.scheduled
    ensures var r := Apply(db, step);
      id in r.calls && r.calls[id] == db.calls[id] && r.room.shutdown && !r.room.scheduled
  {
  }

  /** A store with one call in it, and twelve files on level 0. */
  function OneCall(pc: Pc, mutex: Option<Id>, scheduled: bool, shutdown: bool): Db {
    var room := B.Room(false, false, 12, [12, 0, 0, 0, 0, 0, 0], false, false, scheduled, B.Idle, shutdown);
    Db(map[0 := Call(Writer(None, false), pc, false, Committed)], [0], mutex, 0, [], 0, {}, [], false, room, 0, [0], [], 0)
  }

  lemma OneCallArrives()
    ensures var s, step := Init(0, OneCall(AtTest, None, true, false).room), Arrive(0, Writer(None, false));
      Opened(s.room) && Enabled(s, step) && Apply(s, step) == OneCall(AtTest, Some(0), true, false)
  {
  }

  lemma OneCallTests()
    ensures var s := OneCall(AtTest, Some(0), true, false);
      Enabled(s, Test(0)) && Apply(s, Test(0)) == OneCall(MakingRoom(true, false), Some(0), true, false)
  {
  }

  lemma OneCallWaits(scheduled: bool, shutdown: bool)
    ensures var s := OneCall(MakingRoom(true, false), Some(0), scheduled, shutdown);
      Enabled(s, WaitForRoom(0)) && Apply(s, WaitForRoom(0)) == OneCall(RoomWait(true, false, false), None, scheduled, shutdown)
  {
  }

  lemma OneCallCloses()
    ensures var s := OneCall(RoomWait(true, false, false), None, true, false);
      Enabled(s, Shutdown) && Apply(s, Shutdown) == OneCall(RoomWait(true, false, false), None, true, true)
  {
  }

  lemma OneCallSignalled()
    ensures var t := OneCall(RoomWait(true, false, false), None, true, true);
      Enabled(t, BgBegin) && Apply(t, BgBegin) == OneCall(RoomWait(true, false, true), None, false, true)
  {
    var t := OneCall(RoomWait(true, false, false), None, true, true);
    assert SignalAll(t.calls) == OneCall(RoomWait(true, false, true), None, false, true).calls;
  }

  lemma OneCallLooksAgain()
    ensures var s := OneCall(RoomWait(true, false, true), None, false, true);
      Enabled(s, Reacquire(0)) && Apply(s, Reacquire(0)) == OneCall(MakingRoom(true, false), Some(0), false, true)
  {
  }

  /** A run on which a write waits for a compaction while the database is closed: the thread ends
      without making room, the call looks again and waits for good. */
  lemma ClosingStrands() returns (states: seq<Db>, steps: seq<Step>)
    ensures IsRun(states, steps, 0) && Stranded(states[|steps|]) && !states[|steps|].room.scheduled
  {
    hide Enabled, Apply;
    var waits := RoomWait(true, false, false);
    steps := [Arrive(0, Writer(None, false)), Test(0), WaitForRoom(0), Shutdown, BgBegin, Reacquire(0), WaitForRoom(0)];
    states := [
      Init(0, OneCall(AtTest, None, true, false).room), OneCall(AtTest, Some(0), true, false),
      OneCall(MakingRoom(true, false), Some(0), true, false), OneCall(waits, None, true, false), OneCall(waits, None, true, true),
      OneCall(RoomWait(true, false, true), None, false, true), OneCall(MakingRoom(true, false), Some(0), false, true),
      OneCall(waits, None, false, true)];
    OneCallArrives();
    OneCallTests();
    OneCallWaits(true, false);
    OneCallCloses();
    OneCallSignalled();
    OneCallLooksAgain();
    OneCallWaits(false, true);
    assert Strands(states[7], 0);
  }

  // ----- Nobody goes on for ever -----

  /** How far a call is, twice over, with what it may still do in MakeRoomForWrite. */
  function Weight(c: Call): nat {
    match c.pc
    case Waking => if c.done then 4 else 26
    case AtTest => if c.done then 2 else 24
    case Waiting => 22
    case MakingRoom(force, allowDelay) => 18 + Flag(force) + Flag(allowDelay)
    case Sleeping(force) => 18 + Flag(force)
    case RoomWait(force, allowDelay, _) => 18 + Flag(force) + Flag(allowDelay)
    case Logging(_) => 16
    case Syncing(_) => 14
    case Inserting(_) => 12
    case Relocking(_, _, _) => 10
    case Popping(_, _) => 8
    case Notifying(_) => 6
    case Returned(_) => 0
  }

  function Flag(b: bool): nat {
    if b then 1 else 0
  }

  /** Where a call is in the loop of MakeRoomForWrite. */
  function Turn(c: Call): nat {
    match c.pc
    case Sleeping(_) => 2
    case RoomWait(_, _, signalled) => if signalled then 2 else 0
    case MakingRoom(_, _) => 1
    case _ => 0
  }

  ghost function Total(calls: map<Id, Call>, ids: seq<Id>, f: Call -> nat): nat
    requires forall id :: id in ids ==> id in calls
  {
    if ids == [] then 0 else Total(calls, ids[1..], f) + f(calls[ids[0]])
  }

  lemma {:induction false} TotalSame(calls: map<Id, Call>, ids: seq<Id>, f: Call -> nat, id: Id, c: Call)
    requires (forall i :: i in ids ==> i in calls) && id !in ids
    ensures Total(calls[id := c], ids, f) == Total(calls, ids, f)
  {
    if ids != [] {
      TotalSame(calls, ids[1..], f, id, c);
    }
  }

  lemma {:induction false} TotalChanges(calls: map<Id, Call>, ids: seq<Id>, f: Call -> nat, id: Id, c: Call)
    requires (forall i :: i in ids ==> i in calls) && NoDup(ids) && id in ids
    ensures Total(calls[id := c], ids, f) + f(calls[id]) == Total(calls, ids, f) + f(c)
  {
    TailOf(ids, id);
    if ids[0] == id {
      TotalSame(calls, ids[1..], f, id, c);
    } else {
      assert NoDup(ids[1..]);
      TotalChanges(calls, ids[1..], f, id, c);
    }
  }

  /** What lowers from step to step, the first that changes deciding. */
  datatype Rank = Rank(calls: nat, imm: nat, hope: nat, manual: nat, debt: nat, turns: nat)

  predicate Below(a: Rank, b: Rank) {
    a.calls < b.calls || (a.calls == b.calls &&
      (a.imm < b.imm || (a.imm == b.imm &&
        (a.hope < b.hope || (a.hope == b.hope &&
          (a.manual < b.manual || (a.manual == b.manual &&
            (a.debt < b.debt || (a.debt == b.debt && a.turns < b.turns)))))))))
  }

  function ManualLeft(room: B.Room): nat {
    if room.bg == B.Compacting(true) then 1 else if room.manual then 2 else 0
  }

  function ThreadLeft(room: B.Room): nat {
    if !room.scheduled then 0 else if room.bg.Idle? then 4 else 3
  }

  ghost function RankOf(db: Db): Rank
    requires Known(db, db.arrivals) && |db.room.levels| == B.LEVELS
  {
    Rank(Total(db.calls, db.arrivals, Weight) + 2 * |db.queue| + Flag(db.room.full), Flag(db.room.imm), Flag(!db.bgError),
         ManualLeft(db.room), B.Debt(db.room.levels), Total(db.calls, db.arrivals, Turn) + ThreadLeft(db.room))
  }

  /** The rank is defined. */
  ghost predicate Ranked(db: Db) {
    Known(db, db.arrivals) && |db.room.levels| == B.LEVELS
  }

  ghost predicate ArrivalsOk(db: Db) {
    NoDup(db.arrivals) && Known(db, db.arrivals) && forall id :: id in db.calls ==> id in db.arrivals
  }

  lemma ArrivalsKnown(db: Db)
    requires QueueOk(db)
    ensures ArrivalsOk(db)
  {
  }

  /** One call moves on, and nothing grows but what comes later in the rank. */
  lemma OneMoves(db: Db, r: Db, id: Id)
    requires QueueOk(db) && RoomInv(db) && id in db.calls && id in r.calls && r.arrivals == db.arrivals && r.queue == db.queue
    requires r.calls == db.calls[id := r.calls[id]] && |r.room.levels| == B.LEVELS
    requires Weight(r.calls[id]) + Flag(r.room.full) < Weight(db.calls[id]) + Flag(db.room.full)
    ensures Ranked(db) && Ranked(r) && Below(RankOf(r), RankOf(db))
  {
    hide QueueOk, Weight, Turn, B.Debt;
    ArrivalsKnown(db);
    TotalChanges(db.calls, db.arrivals, Weight, id, r.calls[id]);
  }

  /** One call goes round in MakeRoomForWrite. */
  lemma OneTurns(db: Db, r: Db, id: Id)
    requires QueueOk(db) && RoomInv(db) && id in db.calls && id in r.calls && r == db.(calls := r.calls, mutex := r.mutex)
    requires r.calls == db.calls[id := r.calls[id]]
    requires Weight(r.calls[id]) == Weight(db.calls[id]) && Turn(r.calls[id]) < Turn(db.calls[id])
    ensures Ranked(db) && Ranked(r) && Below(RankOf(r), RankOf(db))
  {
    hide QueueOk, Weight, Turn, B.Debt;
    ArrivalsKnown(db);
    TotalChanges(db.calls, db.arrivals, Weight, id, r.calls[id]);
    TotalChanges(db.calls, db.arrivals, Turn, id, r.calls[id]);
  }

  /** Two calls move and the queue gets no longer. */
  lemma TwoMove(db: Db, r: Db, a: Id, b: Id, ca: Call, cb: Call)
    requires QueueOk(db) && RoomInv(db) && a in db.calls && b in db.calls && a != b && r.room == db.room
    requires r.calls == db.calls[a := ca][b := cb] && r.arrivals == db.arrivals
    requires Weight(ca) + Weight(cb) + 2 * |r.queue| < Weight(db.calls[a]) + Weight(db.calls[b]) + 2 * |db.queue|
    ensures Ranked(db) && Ranked(r) && Below(RankOf(r), RankOf(db))
  {
    hide QueueOk, Weight, B.Debt;
    ArrivalsKnown(db);
    TotalChanges(db.calls, db.arrivals, Weight, a, ca);
    TotalChanges(db.calls[a := ca], db.arrivals, Weight, b, cb);
  }

  lemma PopLowers(db: Db, id: Id)
    requires QueueOk(db) && RoomInv(db) && Enabled(db, PopOne(id))
    ensures var r := Apply(db, PopOne(id)); Ranked(db) && Ranked(r) && Below(RankOf(r), RankOf(db))
  {
    hide QueueOk, RoomInv, RankOf, Ranked;
    var r, ready := Pop(db, id), db.queue[0];
    HeadKnown(db);
    if ready != id {
      TwoMove(db, r, ready, id, r.calls[ready], r.calls[id]);
    } else {
      OnePops(db, id);
    }
  }

  lemma OnePops(db: Db, id: Id)
    requires QueueOk(db) && RoomInv(db) && Enabled(db, PopOne(id)) && db.queue[0] == id
    ensures var r := Pop(db, id); Ranked(db) && Ranked(r) && Below(RankOf(r), RankOf(db))
  {
    hide QueueOk, B.Debt, Turn;
    ArrivalsKnown(db);
    LevelsKnown(db);
    TotalChanges(db.calls, db.arrivals, Weight, id, Pop(db, id).calls[id]);
  }

  lemma LeaveLowers(db: Db, id: Id)
    requires QueueOk(db) && RoomInv(db) && Enabled(db, Leave(id))
    ensures var r := Apply(db, Leave(id)); Ranked(db) && Ranked(r) && Below(RankOf(r), RankOf(db))
  {
    hide QueueOk, RankOf;
    var r := Apply(db, Leave(id));
    HeadKnown(db);
    if db.queue != [] && db.queue[0] != id {
      TwoMove(db, r, id, db.queue[0], r.calls[id], r.calls[db.queue[0]]);
    } else {
      OneMoves(db, r, id);
    }
  }

  predicate OneCallStep(step: Step) {
    !step.PopOne? && !step.Leave? && !step.BgBegin? && !step.BgFinish? && !step.FlushInside? && !step.Relock?
  }

  predicate TurnStep(step: Step) {
    step.WakeFromSleep? || step.WaitForRoom? || step.Reacquire?
  }

  lemma TurnIs(db: Db, step: Step)
    requires Enabled(db, step) && TurnStep(step)
    ensures var r, id := Apply(db, step), step.id;
      && id in db.calls && id in r.calls && r.calls == db.calls[id := r.calls[id]] && r == db.(calls := r.calls, mutex := r.mutex)
      && Weight(r.calls[id]) == Weight(db.calls[id]) && Turn(r.calls[id]) < Turn(db.calls[id])
  {
    hide BranchOf;
  }

  lemma StepIs(db: Db, step: Step)
    requires Enabled(db, step) && Forward(step) && OneCallStep(step) && !TurnStep(step)
    ensures var r, id := Apply(db, step), step.id;
      && id in db.calls && id in r.calls && r.arrivals == db.arrivals && r.queue == db.queue && r.calls == db.calls[id := r.calls[id]]
      && r.room.levels == db.room.levels
      && (step.Sleep? || step.Switch? || step.RoomFails? || step.NullBatch? || step.Lead? || step.Insert? ||
            (r.room == db.room && Weight(r.calls[id]) < Weight(db.calls[id])))
  {
    hide IsGroup, Ops, BranchOf;
  }

  lemma RoomLowersWeight(db: Db, step: Step)
    requires Enabled(db, step)
    requires step.Sleep? || step.Switch? || step.RoomFails? || step.NullBatch? || step.Lead? || step.Insert?
    ensures var r, id := Apply(db, step), step.id;
      id in db.calls && id in r.calls && Weight(r.calls[id]) + Flag(r.room.full) < Weight(db.calls[id]) + Flag(db.room.full)
  {
    hide IsGroup, Ops, B.HasWork;
  }

  lemma CallLowers(db: Db, step: Step)
    requires QueueOk(db) && RoomInv(db) && Enabled(db, step) && Forward(step) && OneCallStep(step)
    ensures Ranked(db) && Ranked(Apply(db, step)) && Below(RankOf(Apply(db, step)), RankOf(db))
  {
    hide QueueOk, Enabled, Apply, RankOf, Weight, Turn, B.LevelsOk;
    LevelsKnown(db);
    if TurnStep(step) {
      TurnIs(db, step);
      OneTurns(db, Apply(db, step), step.id);
    } else {
      StepIs(db, step);
      if step.Sleep? || step.Switch? || step.RoomFails? || step.NullBatch? || step.Lead? || step.Insert? {
        RoomLowersWeight(db, step);
      }
      OneMoves(db, Apply(db, step), step.id);
    }
  }

  lemma LevelsKnown(db: Db)
    requires RoomInv(db)
    ensures |db.room.levels| == B.LEVELS
  {
  }

  // ----- Signals do not set anybody back by much -----

  /** A signal to all changes at most the one call past the wait loop. */
  lemma SignalIsOne(db: Db) returns (id: Id)
    requires Exclusive(db)
    ensures SignalAll(db.calls) == db.calls ||
            (id in db.calls && db.calls[id].pc.RoomWait?
             && SignalAll(db.calls) == db.calls[id := SignalAll(db.calls)[id]])
  {
    if w :| w in db.calls && db.calls[w].pc.RoomWait? {
      id := w;
      forall other | other in db.calls && other != id
        ensures SignalAll(db.calls)[other] == db.calls[other]
      {
        assert db.calls[id].pc.Active() && !db.calls[other].pc.Active();
      }
    } else {
      id := 0;
    }
  }

  lemma SignalTotals(db: Db)
    requires ArrivalsOk(db) && Exclusive(db)
    ensures (forall id :: id in db.arrivals ==> id in SignalAll(db.calls))
    ensures Total(SignalAll(db.calls), db.arrivals, Weight) == Total(db.calls, db.arrivals, Weight)
    ensures Total(SignalAll(db.calls), db.arrivals, Turn) <= Total(db.calls, db.arrivals, Turn) + 2
  {
    hide Exclusive, Total;
    var id := SignalIsOne(db);
    if SignalAll(db.calls) != db.calls {
      TotalChanges(db.calls, db.arrivals, Weight, id, SignalAll(db.calls)[id]);
      TotalChanges(db.calls, db.arrivals, Turn, id, SignalAll(db.calls)[id]);
    }
  }

  lemma RelockLowers(db: Db, id: Id)
    requires QueueOk(db) && Exclusive(db) && RoomInv(db) && Enabled(db, Relock(id))
    ensures var r := Apply(db, Relock(id)); Ranked(db) && Ranked(r) && Below(RankOf(r), RankOf(db))
  {
    hide QueueOk, Exclusive, SignalAll, Weight, Turn, B.LevelsOk, B.Debt;
    var pc := db.calls[id].pc;
    var settled := Settle(db, id, pc.p.last, Group(pc.p.members, pc.p.base, pc.p.ops, pc.outcome, pc.left)).(
      mutex := Some(id), lastSequence := pc.p.base + |pc.p.ops|);
    LevelsKnown(db);
    ArrivalsKnown(db);
    WeightsOfRelock(db.calls[id], settled.calls[id]);
    OneMoves(db, settled, id);
    if pc.outcome.SyncFailed? && !db.bgError {
      StaysExclusive(db, settled, id);
      SignalTotals(settled);
    }
  }

  lemma StaysExclusive(db: Db, r: Db, id: Id)
    requires Exclusive(db) && id in db.calls && db.calls[id].pc.Active() && id in r.calls && r.calls == db.calls[id := r.calls[id]]
    ensures Exclusive(r)
  {
    assert forall other :: other in r.calls && r.calls[other].pc.Active() ==> db.calls[other].pc.Active();
  }

  lemma KnowsQueue(db: Db)
    requires Inv(db)
    ensures QueueOk(db) && Exclusive(db)
  {
  }

  lemma WeightsOfRelock(c: Call, d: Call)
    requires c.pc.Relocking? && d.pc.Popping?
    ensures Weight(d) < Weight(c)
  {
  }

  // ----- Rounds of the thread -----

  /** What a step of the thread does to the room, apart from the calls. */
  ghost predicate RoomLower(room: B.Room, error: bool, r: B.Room, rError: bool, signal: nat)
    requires |room.levels| == B.LEVELS && |r.levels| == B.LEVELS
  {
    Below(Rank(Flag(r.full), Flag(r.imm), Flag(!rError), ManualLeft(r), B.Debt(r.levels), ThreadLeft(r) + signal),
          Rank(Flag(room.full), Flag(room.imm), Flag(!error), ManualLeft(room), B.Debt(room.levels), ThreadLeft(room)))
  }

  lemma BeginLowers(room: B.Room, error: bool)
    requires B.Served(room, error) && room.scheduled && room.bg.Idle?
    ensures var r := B.Begin(room, error);
      |r.levels| == B.LEVELS && RoomLower(room, error, r, error, if r.bg.Idle? then 2 else 0)
  {
    hide B.Debt, B.EntryAbove;
  }

  lemma FinishLowers(room: B.Room, error: bool, ok: bool, res: B.Result)
    requires B.Served(room, error) && B.CanFinish(room, ok, res)
    ensures var r := B.Finish(room, error, ok, res); |r.levels| == B.LEVELS && RoomLower(room, error, r, error || !ok, 2)
  {
    hide B.Debt, B.EntryAbove, B.NeedsCompaction;
    if ok && res.Moved? {
      B.MovedLowersDebt(room, res);
    }
  }

  lemma InsideLowers(room: B.Room, error: bool, ok: bool, res: B.Result)
    requires B.Served(room, error) && room.imm && (if ok then res.Table? && B.ResultOk(room, res) else !error)
    ensures var r := if ok then B.WithResult(room, res) else room;
      |r.levels| == B.LEVELS && RoomLower(room, error, r, error || !ok, 2)
  {
    hide B.Debt, B.EntryAbove, B.NeedsCompaction;
  }

  /** A step of the thread that lowers the room's part lowers the rank. */
  lemma ThreadLowers(db: Db, r: Db, signal: nat)
    requires QueueOk(db) && Exclusive(db) && RoomInv(db) && |r.room.levels| == B.LEVELS
    requires r == db.(calls := r.calls, room := r.room, bgError := r.bgError) && r.room.full == db.room.full
    requires (signal == 0 && r.calls == db.calls) || (signal == 2 && r.calls == SignalAll(db.calls))
    requires RoomLower(db.room, db.bgError, r.room, r.bgError, signal)
    ensures Ranked(db) && Ranked(r) && Below(RankOf(r), RankOf(db))
  {
    hide QueueOk, Exclusive, B.Debt, B.Served, WaitersOk, SignalAll, ManualLeft, ThreadLeft;
    LevelsKnown(db);
    ArrivalsKnown(db);
    SignalTotals(db);
  }

  lemma BackgroundLowers(db: Db, step: Step)
    requires Inv(db) && RoomInv(db) && Enabled(db, step) && (step.BgBegin? || step.BgFinish? || step.FlushInside?)
    ensures Ranked(db) && Ranked(Apply(db, step)) && Below(RankOf(Apply(db, step)), RankOf(db))
  {
    hide Inv, QueueOk, Exclusive, B.Served, B.CanFinish, B.ResultOk, WaitersOk, SignalAll, RoomLower, RankOf, Ranked;
    var r := Apply(db, step);
    KnowsQueue(db);
    match step
    case BgBegin =>
      BeginLowers(db.room, db.bgError);
      BeginKeepsFull(db.room, db.bgError);
      ThreadLowers(db, r, if r.room.bg.Idle? then 2 else 0);
    case BgFinish(ok, res) =>
      FinishLowers(db.room, db.bgError, ok, res);
      FinishKeepsFull(db.room, db.bgError, ok, res);
      ThreadLowers(db, r, 2);
    case FlushInside(ok, res) =>
      InsideLowers(db.room, db.bgError, ok, res);
      ThreadLowers(db, r, 2);
  }

  lemma BeginKeepsFull(room: B.Room, error: bool)
    ensures B.Begin(room, error).full == room.full
  {
  }

  lemma FinishKeepsFull(room: B.Room, error: bool, ok: bool, res: B.Result)
    requires B.CanFinish(room, ok, res)
    ensures B.Finish(room, error, ok, res).full == room.full
  {
  }

  lemma ForwardLowers(db: Db, step: Step)
    requires Inv(db) && RoomInv(db) && Enabled(db, step) && Forward(step)
    ensures Ranked(db) && Ranked(Apply(db, step)) && Below(RankOf(Apply(db, step)), RankOf(db))
  {
    hide Inv, RoomInv, Enabled, Apply, RankOf, Ranked, Below;
    KnowsQueue(db);
    match step
    case PopOne(id) => PopLowers(db, id);
    case Leave(id) => LeaveLowers(db, id);
    case Relock(id) => RelockLowers(db, id);
    case BgBegin => BackgroundLowers(db, step);
    case BgFinish(_, _) => BackgroundLowers(db, step);
    case FlushInside(_, _) => BackgroundLowers(db, step);
    case _ => CallLowers(db, step);
  }

  // ----- Runs without end -----

  ghost predicate IsEndless(states: nat -> Db, steps: nat -> Step, start: nat) {
    && states(0) == Init(start, states(0).room) && Opened(states(0).room)
    && forall i: nat :: Enabled(states(i), steps(i)) && states(i + 1) == Apply(states(i), steps(i))
  }

  lemma {:induction false} EndlessInv(states: nat -> Db, steps: nat -> Step, start: nat, i: nat)
    requires IsEndless(states, steps, start)
    ensures Inv(states(i)) && RoomInv(states(i))
  {
    hide Inv, Enabled, Apply, B.LevelsOk, B.HasWork, Init;
    if i == 0 {
      InitInv(start, states(0).room);
      InitRoom(start, states(0).room);
    } else {
      EndlessInv(states, steps, start, i - 1);
      assert Enabled(states(i - 1), steps(i - 1));
      StepKeeps(states(i - 1), steps(i - 1));
      StepKeepsRoom(states(i - 1), steps(i - 1));
    }
  }

  lemma InitRoom(start: nat, room: B.Room)
    requires Opened(room)
    ensures RoomInv(Init(start, room))
  {
  }

  /** Main theorem: no run goes on for ever by itself. However long a run is, later on it has a step
      of the surroundings: a new call, a spurious wake-up, a charged read, a manual compaction or the
      closing of the database. */
  lemma {:induction false} NoEndlessRun(states: nat -> Db, steps: nat -> Step, start: nat, i: nat) returns (j: nat)
    requires IsEndless(states, steps, start)
    ensures j >= i && !Forward(steps(j))
    decreases RankAt(states, i).calls, RankAt(states, i).imm, RankAt(states, i).hope, RankAt(states, i).manual,
      RankAt(states, i).debt, RankAt(states, i).turns
  {
    hide Inv, RoomInv, Enabled, Apply, RankOf, Ranked, Init, Opened;
    if !Forward(steps(i)) {
      j := i;
    } else {
      EndlessInv(states, steps, start, i);
      assert Enabled(states(i), steps(i));
      ForwardLowers(states(i), steps(i));
      j := NoEndlessRun(states, steps, start, i + 1);
    }
  }

  ghost function RankAt(states: nat -> Db, i: nat): Rank {
    if Ranked(states(i)) then RankOf(states(i)) else Rank(0, 0, 0, 0, 0, 0)
  }

  /** Main theorem: every call returns. A run that calls and thread have taken as far as they can, on
      a store that is not being closed, has no call left in it, and the thread has nothing to do. */
  lemma EveryCallReturns(states: seq<Db>, steps: seq<Step>, start: nat, i: nat)
    requires IsRun(states, steps, start) && i <= |steps| && AtRest(states[i]) && !states[i].room.shutdown
    ensures AllReturned(states[i]) && !states[i].room.scheduled
    ensures states[i].bgError || (!states[i].room.imm && !B.NeedsCompaction(states[i].room))
  {
    hide Inv, Enabled, Apply, AllReturned, Stranded, AtRest, WaitersOk, B.LevelsOk, B.NeedsCompaction;
    NeverStuck(states, steps, start, i);
    RunRoomInv(states, steps, start, i);
  }
}
