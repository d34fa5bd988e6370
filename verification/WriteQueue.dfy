/** The write queue, one thread to a call (Write and MakeRoomForWrite in db/db_impl.cc).

    Every call has its own program counter. A step is what one call does between two points
    where the mutex or the processor may change hands; within the critical sections too, each
    writer taken off the queue is a step of its own. */
module WriteQueue {
  import B = Background
  import opened Options
  import opened GroupCommit

  type Id = nat

  /** The status a call returns. */
  datatype Outcome = Committed | LogFailed | SyncFailed | NoRoom | NothingToWrite

  /** Operations numbered from `first`. */
  datatype Record = Record(first: nat, ops: seq<Op>)

  /** What an append leaves in the log file. A failed one may leave anything of the three. */
  datatype Left = Nothing | Torn | Whole

  datatype Piece = Piece(record: Record, left: Left)

  /** The local variables of a call that writes for the writers up to `last`: the operations of its
      batch and the sequence number before them; `members` names those writers. */
  datatype Pending = Pending(last: Id, ops: seq<Op>, base: nat, members: seq<Id>) {
    function AsRecord(): Record { Record(base + 1, ops) }
  }

  datatype Pc =
    | Waiting                                                // in cv.Wait
    | Waking                                                 // signalled, and still without the mutex
    | AtTest                                                 // at the condition of the wait loop
    | MakingRoom(force: bool, allowDelay: bool)              // at the loop of MakeRoomForWrite
    | Sleeping(force: bool)                                  // there, delayed for a millisecond without the mutex
    | RoomWait(force: bool, allowDelay: bool, signalled: bool)  // there, in background_work_finished_signal_.Wait
    | Logging(p: Pending)
    | Syncing(p: Pending)
    | Inserting(p: Pending)
    | Relocking(p: Pending, outcome: Outcome, left: Left)    // about to take the mutex again
    | Popping(last: Id, outcome: Outcome)
    | Notifying(outcome: Outcome)
    | Returned(outcome: Outcome)
  {
    /** Past the wait loop and not yet returned. */
    predicate Active() { !Waiting? && !Waking? && !AtTest? && !Returned? }

    /** In MakeRoomForWrite. */
    predicate InRoom() { MakingRoom? || Sleeping? || RoomWait? }

    /** Owns the mutex. */
    predicate Holds() { AtTest? || MakingRoom? || Popping? || Notifying? }

    /** Has a batch under way. */
    predicate Writes() { Logging? || Syncing? || Inserting? || Relocking? }
  }

  datatype Call = Call(w: Writer, pc: Pc, done: bool, status: Outcome)

  /** A group whose fate is decided. */
  datatype Group = Group(members: seq<Id>, base: nat, ops: seq<Op>, outcome: Outcome, left: Left)

  datatype Db = Db(
    calls: map<Id, Call>,
    queue: seq<Id>,           // writers_
    mutex: Option<Id>,
    lastSequence: nat,
    log: seq<Piece>,          // of all log files, one after the other
    fileStart: nat,           // where the current log file begins in it
    durable: set<nat>,        // the places in it of what is on disk for certain
    mem: seq<Record>,
    bgError: bool,
    room: B.Room,
    // What has happened so far; no step depends on it.
    start: nat,               // the sequence number the database was opened at
    arrivals: seq<Id>,
    groups: seq<Group>,
    unpopped: nat)            // members of the last group still in the queue

  function Writers(db: Db, ids: seq<Id>): seq<Writer>
    requires Known(db, ids)
  {
    seq(|ids|, i requires 0 <= i < |ids| => db.calls[ids[i]].w)
  }

  predicate Known(db: Db, ids: seq<Id>) {
    forall id :: id in ids ==> id in db.calls
  }

  // ----- Steps -----

  datatype Step =
    | Arrive(id: Id, w: Writer)
    | Test(id: Id)                              // !w.done && &w != writers_.front()
    | Wake(id: Id)                              // cv.Wait returns
    | WakeForNothing(id: Id)                    // a spurious wake-up
    | Sleep(id: Id)                             // delay this write once
    | WakeFromSleep(id: Id)
    | WaitForRoom(id: Id)                       // the memtable is full and cannot be switched yet
    | RoomWakeForNothing(id: Id)
    | Reacquire(id: Id)
    | Switch(id: Id)                            // a new memtable and log
    | RoomFails(id: Id)                         // the background error, or no new log file
    | NullBatch(id: Id)
    | Lead(id: Id, n: nat)                      // build the group and release the mutex
    | Append(id: Id, left: Left, ok: bool)
    | Sync(id: Id, ok: bool)
    | Insert(id: Id, full: bool)                // it may fill the memtable
    | Relock(id: Id)
    | PopOne(id: Id)
    | Leave(id: Id)                             // signal the new head and return
    | BgBegin                                   // BackgroundCall
    | BgFinish(ok: bool, res: B.Result)
    | FlushInside(ok: bool, res: B.Result)      // DoCompactionWork finds an immutable memtable
    | Seek                                      // a read charges a file
    | Manual(on: bool)                          // a manual compaction is asked for, or given up
    | Shutdown

  function PcOf(db: Db, id: Id): Pc {
    if id in db.calls then db.calls[id].pc else Returned(NoRoom)
  }

  /** The branches of the loop in MakeRoomForWrite, in their order. */
  datatype Branch = Fail | Delay | Enough | Wait | NewTable

  function BranchOf(db: Db, force: bool, allowDelay: bool): Branch {
    if db.bgError then Fail
    else if allowDelay && db.room.files >= B.L0_SLOWDOWN_TRIGGER then Delay
    else if !force && !db.room.full then Enough
    else if db.room.imm || db.room.files >= B.L0_STOP_TRIGGER then Wait
    else NewTable
  }

  /** The call is at the loop and takes this branch. */
  predicate Takes(db: Db, id: Id, b: Branch) {
    PcOf(db, id).MakingRoom? && BranchOf(db, db.calls[id].pc.force, db.calls[id].pc.allowDelay) == b
  }

  ghost predicate Enabled(db: Db, step: Step) {
    match step
    case Arrive(id, _) => id !in db.calls && db.mutex.None?
    case Test(id) => PcOf(db, id).AtTest?
    case Wake(id) => PcOf(db, id).Waking? && db.mutex.None?
    case WakeForNothing(id) => PcOf(db, id).Waiting?
    case Sleep(id) => Takes(db, id, Delay)
    case WakeFromSleep(id) => PcOf(db, id).Sleeping? && db.mutex.None?
    case WaitForRoom(id) => Takes(db, id, Wait)
    case RoomWakeForNothing(id) => PcOf(db, id).RoomWait? && !db.calls[id].pc.signalled
    case Reacquire(id) => PcOf(db, id).RoomWait? && db.calls[id].pc.signalled && db.mutex.None?
    case Switch(id) => Takes(db, id, NewTable)
    case RoomFails(id) => Takes(db, id, Fail) || Takes(db, id, NewTable)
    case NullBatch(id) => Takes(db, id, Enough) && db.calls[id].w.batch.None?
    case Lead(id, n) =>
      && Takes(db, id, Enough) && db.calls[id].w.batch.Some?
      && Known(db, db.queue) && IsGroup(Writers(db, db.queue), n)
    case Append(id, left, ok) => PcOf(db, id).Logging? && (ok ==> left.Whole?)
    case Sync(id, _) => PcOf(db, id).Syncing?
    case Insert(id, _) => PcOf(db, id).Inserting?
    case Relock(id) => PcOf(db, id).Relocking? && db.mutex.None?
    case PopOne(id) => PcOf(db, id).Popping? && db.queue != []
    case Leave(id) => PcOf(db, id).Notifying?
    case BgBegin => db.mutex.None? && db.room.scheduled && db.room.bg.Idle?
    case BgFinish(ok, res) => db.mutex.None? && B.CanFinish(db.room, ok, res)
    case FlushInside(ok, res) =>
      // behind an error a further failure changes nothing
      && db.mutex.None? && db.room.bg.Compacting? && db.room.imm
      && (if ok then res.Table? && B.ResultOk(db.room, res) else !db.bgError)
    case Seek => db.mutex.None? && B.EntryAbove(db.room.levels)
    case Manual(_) => db.mutex.None?
    case Shutdown => db.mutex.None?
  }

  function Goto(db: Db, id: Id, pc: Pc): map<Id, Call>
    requires id in db.calls
  {
    db.calls[id := db.calls[id].(pc := pc)]
  }

  /** cv.Signal: only a call inside Wait takes notice. */
  function Signalled(c: Call): Call {
    if c.pc.Waiting? then c.(pc := Waking) else c
  }

  /** background_work_finished_signal_.SignalAll */
  function SignalAll(calls: map<Id, Call>): (r: map<Id, Call>)
    ensures r.Keys == calls.Keys
  {
    map id | id in calls ::
      if calls[id].pc.RoomWait? then calls[id].(pc := calls[id].pc.(signalled := true)) else calls[id]
  }

  /** The status is settled; next the members leave the queue. */
  function Settle(db: Db, id: Id, last: Id, g: Group): Db
    requires id in db.calls
  {
    db.(calls := Goto(db, id, Popping(last, g.outcome)), groups := db.groups + [g], unpopped := |g.members|)
  }

  function Written(left: Left, r: Record): seq<Piece> {
    if left.Nothing? then [] else [Piece(r, left)]
  }

  function Pop(db: Db, id: Id): Db
    requires PcOf(db, id).Popping? && db.queue != []
  {
    var pc, ready := db.calls[id].pc, db.queue[0];
    var calls :=
      if ready != id && ready in db.calls then
        db.calls[ready := Signalled(db.calls[ready].(done := true, status := pc.outcome))]
      else db.calls;
    db.(calls := calls[id := db.calls[id].(pc := if ready == pc.last then Notifying(pc.outcome) else pc)],
        queue := db.queue[1..], unpopped := if db.unpopped > 0 then db.unpopped - 1 else 0)
  }

  predicate InFile(db: Db, k: nat) {
    db.fileStart <= k < |db.log|
  }

  /** The places of the current log file. */
  function FilePlaces(db: Db): set<nat> {
    set k: nat | k < |db.log| && InFile(db, k)
  }

  ghost function Apply(db: Db, step: Step): Db
    requires Enabled(db, step)
  {
    match step
    case Arrive(id, w) =>
      db.(calls := db.calls[id := Call(w, AtTest, false, Committed)], queue := db.queue + [id],
          arrivals := db.arrivals + [id], mutex := Some(id))
    case Test(id) =>
      if db.calls[id].done then db.(calls := Goto(db, id, Returned(db.calls[id].status)), mutex := None)
      else if db.queue != [] && db.queue[0] == id then
        db.(calls := Goto(db, id, MakingRoom(db.calls[id].w.batch.None?, db.calls[id].w.batch.Some?)))
      else db.(calls := Goto(db, id, Waiting), mutex := None)
    case Wake(id) => db.(calls := Goto(db, id, AtTest), mutex := Some(id))
    case WakeForNothing(id) => db.(calls := Goto(db, id, Waking))
    case Sleep(id) => db.(calls := Goto(db, id, Sleeping(db.calls[id].pc.force)), mutex := None)
    case WakeFromSleep(id) => db.(calls := Goto(db, id, MakingRoom(db.calls[id].pc.force, false)), mutex := Some(id))
    case WaitForRoom(id) =>
      var pc := db.calls[id].pc;
      db.(calls := Goto(db, id, RoomWait(pc.force, pc.allowDelay, false)), mutex := None)
    case RoomWakeForNothing(id) =>
      var pc := db.calls[id].pc;
      db.(calls := Goto(db, id, RoomWait(pc.force, pc.allowDelay, true)))
    case Reacquire(id) =>
      var pc := db.calls[id].pc;
      db.(calls := Goto(db, id, MakingRoom(pc.force, pc.allowDelay)), mutex := Some(id))
    case Switch(id) =>
      db.(calls := Goto(db, id, MakingRoom(false, db.calls[id].pc.allowDelay)),
          fileStart := |db.log|, room := B.MaybeSchedule(db.room.(imm := true, full := false), db.bgError))
    case RoomFails(id) => Settle(db, id, id, Group([id], db.lastSequence, [], NoRoom, Nothing))
    case NullBatch(id) => Settle(db, id, id, Group([id], db.lastSequence, [], NothingToWrite, Nothing))
    case Lead(id, n) =>
      var p := Pending(db.queue[n - 1], Ops(Writers(db, db.queue)[..n]), db.lastSequence, db.queue[..n]);
      db.(calls := Goto(db, id, Logging(p)), mutex := None)
    case Append(id, left, ok) =>
      var p := db.calls[id].pc.p;
      var pc := if !ok then Relocking(p, LogFailed, left) else if db.calls[id].w.sync then Syncing(p) else Inserting(p);
      db.(calls := Goto(db, id, pc), log := db.log + Written(left, p.AsRecord()))
    case Sync(id, ok) =>
      var p := db.calls[id].pc.p;
      db.(calls := Goto(db, id, if ok then Inserting(p) else Relocking(p, SyncFailed, Whole)),
          durable := if ok then db.durable + FilePlaces(db) else db.durable)
    case Insert(id, full) =>
      var p := db.calls[id].pc.p;
      db.(calls := Goto(db, id, Relocking(p, Committed, Whole)), mem := db.mem + [p.AsRecord()],
          room := db.room.(full := db.room.full || full))
    case Relock(id) =>
      var pc := db.calls[id].pc;
      var p := pc.p;
      var r := Settle(db, id, p.last, Group(p.members, p.base, p.ops, pc.outcome, pc.left)).(
        mutex := Some(id), lastSequence := p.base + |p.ops|);
      if pc.outcome.SyncFailed? then RecordError(r) else r
    case PopOne(id) => Pop(db, id)
    case Leave(id) =>
      var calls := Goto(db, id, Returned(db.calls[id].pc.outcome));
      var awake :=
        if db.queue != [] && db.queue[0] in calls then calls[db.queue[0] := Signalled(calls[db.queue[0]])] else calls;
      db.(calls := awake, mutex := None)
    case BgBegin =>
      var room := B.Begin(db.room, db.bgError);
      db.(room := room, calls := if room.bg.Idle? then SignalAll(db.calls) else db.calls)
    case BgFinish(ok, res) =>
      db.(room := B.Finish(db.room, db.bgError, ok, res), bgError := db.bgError || !ok, calls := SignalAll(db.calls))
    case FlushInside(ok, res) =>
      db.(room := if ok then B.WithResult(db.room, res) else db.room, bgError := db.bgError || !ok, calls := SignalAll(db.calls))
    case Seek => db.(room := B.MaybeSchedule(db.room.(overdue := true), db.bgError))
    case Manual(on) =>
      var room := db.room.(manual := on);
      db.(room := if on then B.MaybeSchedule(room, db.bgError) else room)
    case Shutdown => db.(room := db.room.(shutdown := true))
  }

  /** RecordBackgroundError */
  function RecordError(db: Db): Db {
    db.(bgError := true, calls := if db.bgError then db.calls else SignalAll(db.calls))
  }

  // ----- Invariant -----

  predicate NoDup(ids: seq<Id>) {
    forall i, j :: 0 <= i < j < |ids| ==> ids[i] != ids[j]
  }

  ghost function Members(gs: seq<Group>): seq<Id> {
    if gs == [] then [] else Members(gs[..|gs| - 1]) + gs[|gs| - 1].members
  }

  /** What the groups left in the log. */
  ghost function Pieces(gs: seq<Group>): seq<Piece> {
    if gs == [] then []
    else
      var g := gs[|gs| - 1];
      Pieces(gs[..|gs| - 1]) + Written(g.left, Record(g.base + 1, g.ops))
  }

  /** What the groups put into the memtables. */
  ghost function Records(gs: seq<Group>): seq<Record> {
    if gs == [] then []
    else
      var g := gs[|gs| - 1];
      Records(gs[..|gs| - 1]) + if g.outcome.Committed? then [Record(g.base + 1, g.ops)] else []
  }

  ghost function Length(gs: seq<Group>): nat {
    if gs == [] then 0 else Length(gs[..|gs| - 1]) + |gs[|gs| - 1].ops|
  }

  /** Each group starts right behind the sequence numbers of the groups before it. */
  ghost predicate Contiguous(gs: seq<Group>, start: nat) {
    forall i :: 0 <= i < |gs| ==> gs[i].base == start + Length(gs[..i])
  }

  /** The batch of a group: its members' operations in order, within the bounds of a group. */
  ghost predicate Batched(ws: seq<Writer>, ops: seq<Op>) {
    && ws != [] && ws[0].batch.Some? && ops == Ops(ws)
    && (forall i :: 0 <= i < |ws| && ws[i].sync ==> ws[0].sync)
    && ByteSize(ws) <= (if ws[0].batch.value.size > MEGABYTE then ws[0].batch.value.size else MEGABYTE)
  }

  ghost predicate GroupOk(db: Db, g: Group) {
    && g.members != [] && Known(db, g.members)
    && match g.outcome
       case NoRoom => |g.members| == 1 && g.ops == [] && g.left.Nothing?
       case NothingToWrite => |g.members| == 1 && g.ops == [] && g.left.Nothing? && db.calls[g.members[0]].w.batch.None?
       case Committed => g.left.Whole? && Batched(Writers(db, g.members), g.ops)
       case SyncFailed => g.left.Whole? && Batched(Writers(db, g.members), g.ops) && db.calls[g.members[0]].w.sync
       case LogFailed => Batched(Writers(db, g.members), g.ops)
  }

  /** The calls in order of arrival: those of the settled groups, then the rest of the queue. */
  ghost predicate QueueOk(db: Db) {
    && NoDup(db.arrivals) && (forall id :: id in db.arrivals <==> id in db.calls)
    && db.unpopped <= |db.queue| <= |db.arrivals|
    && db.queue == db.arrivals[|db.arrivals| - |db.queue|..]
    && Members(db.groups) == db.arrivals[..|db.arrivals| - |db.queue| + db.unpopped]
  }

  ghost predicate GroupsOk(db: Db) {
    && (forall i :: 0 <= i < |db.groups| ==> GroupOk(db, db.groups[i]))
    && Contiguous(db.groups, db.start) && db.lastSequence == db.start + Length(db.groups)
  }

  /** `id` belongs to a settled group with that outcome. */
  ghost predicate Served(db: Db, id: Id, outcome: Outcome) {
    exists i :: 0 <= i < |db.groups| && id in db.groups[i].members && db.groups[i].outcome == outcome
  }

  ghost predicate SyncLost(db: Db) {
    exists i :: 0 <= i < |db.groups| && db.groups[i].outcome.SyncFailed?
  }

  /** After a failed sync nothing is ever written again. */
  ghost predicate SyncErrorIsFinal(db: Db) {
    && (forall i, j :: 0 <= i < j < |db.groups| && db.groups[i].outcome.SyncFailed? ==> db.groups[j].outcome.NoRoom?)
    && (SyncLost(db) ==> db.bgError)
  }

  function LogTail(pc: Pc): seq<Piece> {
    match pc
    case Syncing(p) => [Piece(p.AsRecord(), Whole)]
    case Inserting(p) => [Piece(p.AsRecord(), Whole)]
    case Relocking(p, _, left) => Written(left, p.AsRecord())
    case _ => []
  }

  function MemTail(pc: Pc): seq<Record> {
    if pc.Relocking? && pc.outcome.Committed? then [pc.p.AsRecord()] else []
  }

  /** The log and the memtables hold what the settled groups left there, then the tails. */
  ghost predicate FilesOk(db: Db, log: seq<Piece>, mem: seq<Record>) {
    db.log == Pieces(db.groups) + log && db.mem == Records(db.groups) + mem
  }

  ghost predicate PendingOk(db: Db, p: Pending) {
    && p.members != [] && p.members <= db.queue && p.last == p.members[|p.members| - 1] && p.base == db.lastSequence
    && Known(db, p.members) && Batched(Writers(db, p.members), p.ops) && !SyncLost(db)
  }

  ghost predicate AtHead(db: Db, id: Id) {
    db.queue != [] && db.queue[0] == id && db.unpopped == 0
  }

  ghost predicate PoppingOk(db: Db, id: Id, last: Id, outcome: Outcome) {
    && 0 < db.unpopped <= |db.queue| && last == db.queue[db.unpopped - 1]
    && db.groups != []
    && var g := db.groups[|db.groups| - 1];
       && g.outcome == outcome && id in g.members
       && (forall i :: 0 <= i < db.unpopped ==> db.queue[i] in g.members)
       && (id in db.queue ==> id == db.queue[0])
  }

  /** A call past the wait loop. */
  ghost predicate LeaderOk(db: Db, id: Id, pc: Pc) {
    && FilesOk(db, LogTail(pc), MemTail(pc))
    && match pc
       case Popping(last, outcome) => PoppingOk(db, id, last, outcome)
       case Notifying(outcome) => db.unpopped == 0 && id !in db.queue && Served(db, id, outcome)
       case Relocking(p, outcome, left) =>
         && AtHead(db, id) && PendingOk(db, p)
         && (outcome.Committed? || outcome.SyncFailed? ==> left.Whole?)
         && !outcome.NoRoom? && !outcome.NothingToWrite?
         && (outcome.SyncFailed? ==> id in db.calls && db.calls[id].w.sync)
       case Syncing(p) => AtHead(db, id) && PendingOk(db, p) && id in db.calls && db.calls[id].w.sync
       case Logging(p) => AtHead(db, id) && PendingOk(db, p)
       case Inserting(p) => AtHead(db, id) && PendingOk(db, p)
       case _ => AtHead(db, id)
  }

  /** A call before or behind all that. */
  ghost predicate PassiveOk(db: Db, id: Id, c: Call) {
    match c.pc
    case Returned(outcome) => id !in db.queue && Served(db, id, outcome)
    case Waiting => !c.done && id in db.queue
    case _ => if c.done then id !in db.queue && Served(db, id, c.status) else id in db.queue
  }

  ghost predicate CallOk(db: Db, id: Id, c: Call) {
    && (c.pc.Holds() <==> db.mutex == Some(id))
    && if c.pc.Active() then LeaderOk(db, id, c.pc) && !c.done else PassiveOk(db, id, c)
  }

  ghost predicate CallsOk(db: Db) {
    && (forall id :: id in db.calls ==> CallOk(db, id, db.calls[id]))
    && (db.mutex.Some? ==> db.mutex.value in db.calls)
  }

  /** At most one call is past the wait loop. */
  ghost predicate Exclusive(db: Db) {
    forall a, b :: a in db.calls && b in db.calls && db.calls[a].pc.Active() && db.calls[b].pc.Active() ==> a == b
  }

  ghost predicate Idle(db: Db) {
    forall id :: id in db.calls ==> !db.calls[id].pc.Active()
  }

  /** With nobody past the wait loop, the head of the queue is awake and nothing is under way. */
  ghost predicate IdleOk(db: Db) {
    Idle(db) ==> (db.queue != [] ==> !PcOf(db, db.queue[0]).Waiting?) && db.unpopped == 0 && FilesOk(db, [], [])
  }

  ghost predicate Inv(db: Db) {
    QueueOk(db) && GroupsOk(db) && SyncErrorIsFinal(db) && CallsOk(db) && Exclusive(db) && IdleOk(db)
  }

  // ----- What carries over from one state to the next -----

  ghost predicate SameWriters(db: Db, r: Db) {
    forall id :: id in db.calls ==> id in r.calls && r.calls[id].w == db.calls[id].w
  }

  lemma WritersSame(db: Db, r: Db, ids: seq<Id>)
    requires Known(db, ids) && SameWriters(db, r)
    ensures Known(r, ids) && Writers(r, ids) == Writers(db, ids)
  {
  }

  lemma GroupCarries(db: Db, r: Db, g: Group)
    requires GroupOk(db, g) && SameWriters(db, r)
    ensures GroupOk(r, g)
  {
    hide Batched;
    WritersSame(db, r, g.members);
  }

  lemma BooksCarry(db: Db, r: Db)
    requires GroupsOk(db) && SyncErrorIsFinal(db) && SameWriters(db, r)
    requires r.groups == db.groups && r.start == db.start && r.lastSequence == db.lastSequence && (db.bgError ==> r.bgError)
    ensures GroupsOk(r) && SyncErrorIsFinal(r)
  {
    hide GroupOk, Length;
    forall i | 0 <= i < |r.groups|
      ensures GroupOk(r, r.groups[i])
    {
      GroupCarries(db, r, r.groups[i]);
    }
  }

  lemma ServedCarries(db: Db, r: Db, id: Id, outcome: Outcome)
    requires Served(db, id, outcome) && db.groups <= r.groups
    ensures Served(r, id, outcome)
  {
    var i :| 0 <= i < |db.groups| && id in db.groups[i].members && db.groups[i].outcome == outcome;
    assert r.groups[i] == db.groups[i];
  }

  lemma PassiveCarries(db: Db, r: Db, id: Id, c: Call)
    requires PassiveOk(db, id, c) && db.groups <= r.groups && (id in db.queue <==> id in r.queue)
    ensures PassiveOk(r, id, c)
  {
    hide Served;
    if c.pc.Returned? {
      ServedCarries(db, r, id, c.pc.outcome);
    } else if c.done {
      ServedCarries(db, r, id, c.status);
    }
  }

  lemma PendingCarries(db: Db, r: Db, p: Pending)
    requires PendingOk(db, p) && SameWriters(db, r) && db.queue <= r.queue
    requires r.groups == db.groups && r.lastSequence == db.lastSequence
    ensures PendingOk(r, p)
  {
    hide Batched;
    WritersSame(db, r, p.members);
  }

  /** New arrivals and the background do not concern the call past the wait loop. */
  lemma LeaderCarries(db: Db, r: Db, id: Id, pc: Pc)
    requires LeaderOk(db, id, pc) && SameWriters(db, r) && db.queue <= r.queue && (id in db.queue <==> id in r.queue)
    requires r == db.(calls := r.calls, queue := r.queue, mutex := r.mutex, bgError := r.bgError, arrivals := r.arrivals, room := r.room)
    ensures LeaderOk(r, id, pc)
  {
    hide PendingOk, Served;
    if pc.Writes() {
      PendingCarries(db, r, pc.p);
    } else if pc.Notifying? {
      ServedCarries(db, r, id, pc.outcome);
    }
  }

  // ----- Steps of a call inside the wait loop -----

  function MutexAfter(db: Db, id: Id, pc: Pc): Option<Id> {
    if pc.Holds() then Some(id) else if db.mutex == Some(id) then None else db.mutex
  }

  predicate AtFront(db: Db, id: Id) {
    db.queue != [] && db.queue[0] == id
  }

  /** A call stays inside the wait loop, or leaves it for good. */
  lemma PassiveMoves(db: Db, r: Db, id: Id, c: Call)
    requires Inv(db) && id in db.calls && !db.calls[id].pc.Active() && !c.pc.Active() && c.w == db.calls[id].w
    requires r == db.(calls := db.calls[id := c], mutex := MutexAfter(db, id, c.pc))
    requires c.pc.Holds() ==> db.mutex.None? || db.mutex == Some(id)
    requires PassiveOk(r, id, c) && (c.pc.Waiting? ==> !AtFront(db, id))
    ensures Inv(r)
  {
    hide PassiveOk, LeaderOk, GroupsOk, SyncErrorIsFinal, FilesOk;
    BooksCarry(db, r);
    forall other | other in r.calls
      ensures CallOk(r, other, r.calls[other])
    {
      if other != id {
        assert CallOk(db, other, db.calls[other]);
        if db.calls[other].pc.Active() {
          LeaderCarries(db, r, other, db.calls[other].pc);
        } else {
          PassiveCarries(db, r, other, db.calls[other]);
        }
      }
    }
    IdleCarries(db, r, id);
  }

  lemma IdleCarries(db: Db, r: Db, id: Id)
    requires IdleOk(db) && id in db.calls && id in r.calls && !r.calls[id].pc.Active() && !db.calls[id].pc.Active()
    requires r == db.(calls := db.calls[id := r.calls[id]], mutex := r.mutex)
    requires r.calls[id].pc.Waiting? ==> !AtFront(db, id)
    ensures IdleOk(r)
  {
    if Idle(r) {
      forall other | other in db.calls
        ensures !db.calls[other].pc.Active()
      {
        assert other != id ==> r.calls[other] == db.calls[other];
      }
    }
  }

  lemma CallKnown(db: Db, id: Id)
    requires CallsOk(db) && id in db.calls
    ensures CallOk(db, id, db.calls[id])
  {
  }

  lemma CallsExclusive(db: Db)
    requires Inv(db)
    ensures Exclusive(db)
  {
  }

  lemma WaitKeeps(db: Db, step: Step)
    requires Inv(db) && Enabled(db, step)
    requires step.Wake? || step.WakeForNothing? || (step.Test? && (db.calls[step.id].done || !AtFront(db, step.id)))
    ensures Inv(Apply(db, step))
  {
    hide CallsOk, QueueOk, GroupsOk, SyncErrorIsFinal, IdleOk, Exclusive, Served;
    var r, id := Apply(db, step), step.id;
    CallKnown(db, id);
    var c := r.calls[id];
    if c.pc.Returned? {
      ServedCarries(db, r, id, c.status);
    } else if c.done {
      ServedCarries(db, r, id, c.status);
    }
    PassiveMoves(db, r, id, c);
  }

  lemma ArriveKeeps(db: Db, id: Id, w: Writer)
    requires Inv(db) && Enabled(db, Arrive(id, w))
    ensures Inv(Apply(db, Arrive(id, w)))
  {
    hide PassiveOk, LeaderOk, GroupsOk, SyncErrorIsFinal, FilesOk;
    var r := Apply(db, Arrive(id, w));
    BooksCarry(db, r);
    forall other | other in r.calls
      ensures CallOk(r, other, r.calls[other])
    {
      if other == id {
        NewArrival(r, id);
      } else {
        assert CallOk(db, other, db.calls[other]);
        if db.calls[other].pc.Active() {
          LeaderCarries(db, r, other, db.calls[other].pc);
        } else {
          PassiveCarries(db, r, other, db.calls[other]);
        }
      }
    }
    ArriveQueue(db, id, w);
    ArriveIdle(db, id, w);
  }

  lemma NewArrival(db: Db, id: Id)
    requires id in db.calls && db.calls[id].pc.AtTest? && !db.calls[id].done && id in db.queue && db.mutex == Some(id)
    ensures CallOk(db, id, db.calls[id])
  {
  }

  lemma ArriveQueue(db: Db, id: Id, w: Writer)
    requires QueueOk(db) && Enabled(db, Arrive(id, w))
    ensures QueueOk(Apply(db, Arrive(id, w)))
  {
    var r := Apply(db, Arrive(id, w));
    assert id !in db.arrivals;
    assert r.arrivals[|r.arrivals| - |r.queue|..] == r.queue;
    assert r.arrivals[..|r.arrivals| - |r.queue| + r.unpopped] == db.arrivals[..|db.arrivals| - |db.queue| + db.unpopped];
  }

  lemma ArriveIdle(db: Db, id: Id, w: Writer)
    requires QueueOk(db) && IdleOk(db) && Enabled(db, Arrive(id, w))
    ensures IdleOk(Apply(db, Arrive(id, w)))
  {
    var r := Apply(db, Arrive(id, w));
    if Idle(r) {
      forall other | other in db.calls
        ensures !db.calls[other].pc.Active()
      {
        assert r.calls[other] == db.calls[other];
      }
      assert forall other :: other in db.queue ==> other in db.arrivals;
    }
  }

  // ----- Steps of the call past the wait loop -----

  lemma OneActive(db: Db, id: Id)
    requires id in db.calls && forall other :: other in db.calls ==> (db.calls[other].pc.Active() <==> other == id)
    ensures Exclusive(db) && IdleOk(db)
  {
    hide FilesOk;
    assert db.calls[id].pc.Active();
  }

  /** The one active call, or one about to become it, goes on. */
  lemma LeaderMoves(db: Db, r: Db, id: Id, pc: Pc)
    requires Inv(db) && id in db.calls && pc.Active()
    requires db.calls[id].pc.Active() || Idle(db)
    requires r.calls == Goto(db, id, pc) && r.queue == db.queue && r.mutex == MutexAfter(db, id, pc)
    requires pc.Holds() ==> db.mutex.None? || db.mutex == Some(id)
    requires db.groups <= r.groups && !db.calls[id].done
    requires QueueOk(r) && GroupsOk(r) && SyncErrorIsFinal(r) && LeaderOk(r, id, pc)
    ensures Inv(r)
  {
    hide PassiveOk, LeaderOk, GroupsOk, SyncErrorIsFinal, FilesOk, QueueOk;
    forall other | other in r.calls
      ensures CallOk(r, other, r.calls[other])
    {
      if other != id {
        assert CallOk(db, other, db.calls[other]);
        assert !db.calls[other].pc.Active();
        PassiveCarries(db, r, other, db.calls[other]);
      }
    }
    assert r.calls[id].pc.Active();
  }

  /** Whoever finds itself at the head of the queue is alone. */
  lemma HeadIsAlone(db: Db, id: Id)
    requires Inv(db) && PcOf(db, id).AtTest? && AtFront(db, id)
    ensures Idle(db)
  {
    hide GroupsOk, SyncErrorIsFinal, FilesOk, QueueOk, PendingOk, IdleOk, PassiveOk, Exclusive;
    assert CallOk(db, id, db.calls[id]);
    forall other | other in db.calls
      ensures !db.calls[other].pc.Active()
    {
      assert CallOk(db, other, db.calls[other]);
    }
  }

  lemma LeadersStart(db: Db, id: Id)
    requires Inv(db) && Enabled(db, Test(id)) && !db.calls[id].done && AtFront(db, id)
    ensures Inv(Apply(db, Test(id)))
  {
    hide GroupsOk, CallsOk, SyncErrorIsFinal, QueueOk, Exclusive, Idle, PassiveOk;
    var r := Apply(db, Test(id));
    HeadIsAlone(db, id);
    CallKnown(db, id);
    BooksCarry(db, r);
    QueueCarries(db, r);
    LeaderMoves(db, r, id, r.calls[id].pc);
  }

  lemma QueueCarries(db: Db, r: Db)
    requires QueueOk(db) && r.calls.Keys == db.calls.Keys
    requires r.queue == db.queue && r.arrivals == db.arrivals && r.unpopped == db.unpopped && r.groups == db.groups
    ensures QueueOk(r)
  {
  }

  lemma RoomMoves(db: Db, r: Db, id: Id, pc: Pc)
    requires Inv(db) && PcOf(db, id).InRoom() && pc.InRoom()
    requires pc.Holds() ==> db.mutex.None? || db.mutex == Some(id)
    requires r == db.(calls := Goto(db, id, pc), mutex := MutexAfter(db, id, pc), room := r.room, fileStart := r.fileStart)
    ensures Inv(r)
  {
    hide GroupsOk, CallsOk, SyncErrorIsFinal, QueueOk, Exclusive, Idle, PassiveOk, IdleOk;
    CallKnown(db, id);
    BooksCarry(db, r);
    QueueCarries(db, r);
    LeaderMoves(db, r, id, pc);
  }

  lemma OwnsMutex(db: Db, id: Id)
    requires Inv(db) && id in db.calls
    ensures db.calls[id].pc.Holds() <==> db.mutex == Some(id)
  {
    hide GroupsOk, SyncErrorIsFinal, QueueOk, Exclusive, Idle, PassiveOk, IdleOk, LeaderOk;
    CallKnown(db, id);
  }

  lemma RoomKeeps(db: Db, step: Step)
    requires Inv(db) && Enabled(db, step)
    requires step.Sleep? || step.WakeFromSleep? || step.WaitForRoom? || step.RoomWakeForNothing? || step.Reacquire? || step.Switch?
    ensures Inv(Apply(db, step))
  {
    hide Inv, BranchOf;
    var r, id := Apply(db, step), step.id;
    OwnsMutex(db, id);
    RoomMoves(db, r, id, r.calls[id].pc);
  }

  lemma PrefixOps(ws: seq<Writer>, n: nat)
    requires IsGroup(ws, n)
    ensures 1 <= n <= |ws| && Batched(ws[..n], Ops(ws[..n]))
  {
    GroupIsBounded(ws, n);
  }

  lemma LeadIs(db: Db, id: Id, n: nat) returns (p: Pending)
    requires Enabled(db, Lead(id, n))
    ensures PcOf(db, id).MakingRoom? && Known(db, db.queue) && IsGroup(Writers(db, db.queue), n) && 1 <= n <= |db.queue|
    ensures p == Pending(db.queue[n - 1], Ops(Writers(db, db.queue)[..n]), db.lastSequence, db.queue[..n])
    ensures Apply(db, Lead(id, n)) == db.(calls := Goto(db, id, Logging(p)), mutex := None)
  {
    hide Ops, BranchOf;
    p := Pending(db.queue[n - 1], Ops(Writers(db, db.queue)[..n]), db.lastSequence, db.queue[..n]);
  }

  /** What the call at the loop of MakeRoomForWrite knows. */
  lemma RoomKnows(db: Db, id: Id)
    requires Inv(db) && PcOf(db, id).MakingRoom?
    ensures db.mutex == Some(id) && !db.calls[id].done && AtHead(db, id) && FilesOk(db, [], [])
  {
    hide GroupsOk, QueueOk, SyncErrorIsFinal, Exclusive, Idle, IdleOk, FilesOk, PassiveOk;
    CallKnown(db, id);
  }

  lemma NotLost(db: Db)
    requires SyncErrorIsFinal(db) && !db.bgError
    ensures !SyncLost(db)
  {
  }

  lemma LeadKeeps(db: Db, id: Id, n: nat)
    requires Inv(db) && Enabled(db, Lead(id, n))
    ensures Inv(Apply(db, Lead(id, n)))
  {
    hide GroupsOk, CallsOk, QueueOk, Exclusive, Idle, IdleOk, SyncErrorIsFinal, IsGroup, Ops, Batched, Enabled, Apply, FilesOk, SyncLost;
    var p := LeadIs(db, id, n);
    var r := Apply(db, Lead(id, n));
    RoomKnows(db, id);
    LeadAllowed(db, id, n);
    NotLost(db);
    BooksCarry(db, r);
    QueueCarries(db, r);
    PrefixOps(Writers(db, db.queue), n);
    LeadPending(db, r, id, n, p);
    FilesGrowNot(db, r);
    LeaderMoves(db, r, id, Logging(p));
  }

  lemma LeadAllowed(db: Db, id: Id, n: nat)
    requires Enabled(db, Lead(id, n))
    ensures !db.bgError
  {
    hide IsGroup;
  }

  lemma LeadPending(db: Db, r: Db, id: Id, n: nat, p: Pending)
    requires Known(db, db.queue) && 1 <= n <= |db.queue| && !SyncLost(db) && id in db.calls
    requires Batched(Writers(db, db.queue)[..n], Ops(Writers(db, db.queue)[..n]))
    requires p == Pending(db.queue[n - 1], Ops(Writers(db, db.queue)[..n]), db.lastSequence, db.queue[..n])
    requires r == db.(calls := Goto(db, id, Logging(p)), mutex := None)
    ensures PendingOk(r, p)
  {
    hide Batched, Ops;
    assert Writers(r, r.queue[..n]) == Writers(db, db.queue)[..n];
  }

  lemma FilesGrow(db: Db, r: Db, pc: Pc, to: Pc, log: seq<Piece>, mem: seq<Record>)
    requires FilesOk(db, LogTail(pc), MemTail(pc)) && r.groups == db.groups
    requires r.log == db.log + log && r.mem == db.mem + mem
    requires LogTail(to) == LogTail(pc) + log && MemTail(to) == MemTail(pc) + mem
    ensures FilesOk(r, LogTail(to), MemTail(to))
  {
    hide Pieces, Records, LogTail, MemTail;
  }

  /** What a call that writes knows, whichever step it is at. */
  lemma WriterKnows(db: Db, id: Id)
    requires Inv(db) && PcOf(db, id).Writes()
    ensures db.mutex != Some(id) && !db.calls[id].done
    ensures var pc := db.calls[id].pc;
      FilesOk(db, LogTail(pc), MemTail(pc)) && AtHead(db, id) && PendingOk(db, pc.p) && (pc.Syncing? ==> db.calls[id].w.sync)
  {
    hide GroupsOk, QueueOk, Exclusive, IdleOk, SyncErrorIsFinal, PendingOk, FilesOk;
    CallKnown(db, id);
  }

  lemma WriterMoves(db: Db, r: Db, id: Id, pc: Pc)
    requires Inv(db) && PcOf(db, id).Writes() && pc.Writes() && pc.p == db.calls[id].pc.p
    requires r == db.(calls := Goto(db, id, pc), log := r.log, durable := r.durable, mem := r.mem, room := r.room)
    requires FilesOk(r, LogTail(pc), MemTail(pc))
    requires pc.Syncing? || (pc.Relocking? && pc.outcome.SyncFailed?) ==> db.calls[id].w.sync
    requires pc.Relocking? ==> (pc.outcome.LogFailed? || pc.left.Whole?) && !pc.outcome.NoRoom? && !pc.outcome.NothingToWrite?
    ensures Inv(r)
  {
    hide GroupsOk, CallsOk, QueueOk, Exclusive, Idle, PassiveOk, IdleOk, PendingOk, SyncErrorIsFinal, FilesOk;
    WriterKnows(db, id);
    BooksCarry(db, r);
    QueueCarries(db, r);
    PendingCarries(db, r, pc.p);
    LeaderMoves(db, r, id, pc);
  }

  lemma WriteKeeps(db: Db, step: Step)
    requires Inv(db) && Enabled(db, step) && (step.Append? || step.Sync? || step.Insert?)
    ensures Inv(Apply(db, step))
  {
    hide Inv, FilesOk, PendingOk;
    var r, id := Apply(db, step), step.id;
    WriterKnows(db, id);
    var pc := r.calls[id].pc;
    var log := if step.Append? then Written(step.left, pc.p.AsRecord()) else [];
    var mem := if step.Insert? then [pc.p.AsRecord()] else [];
    assert LogTail(pc) == LogTail(db.calls[id].pc) + log;
    FilesGrow(db, r, db.calls[id].pc, pc, log, mem);
    WriterMoves(db, r, id, pc);
  }

  // ----- Settling a group -----

  lemma SnocBooks(gs: seq<Group>, g: Group, start: nat)
    requires Contiguous(gs, start) && g.base == start + Length(gs)
    ensures Contiguous(gs + [g], start) && Length(gs + [g]) == Length(gs) + |g.ops|
    ensures Members(gs + [g]) == Members(gs) + g.members
    ensures Pieces(gs + [g]) == Pieces(gs) + Written(g.left, Record(g.base + 1, g.ops))
    ensures Records(gs + [g]) == Records(gs) + if g.outcome.Committed? then [Record(g.base + 1, g.ops)] else []
  {
    var all := gs + [g];
    assert all[..|gs|] == gs;
    forall i | 0 <= i < |all|
      ensures all[i].base == start + Length(all[..i])
    {
      if i < |gs| {
        assert all[..i] == gs[..i];
      }
    }
  }

  /** What a group must be for its leader to settle it. */
  ghost predicate Settles(db: Db, id: Id, g: Group) {
    && AtHead(db, id) && g.members != [] && g.members <= db.queue
    && g.base == db.lastSequence && GroupOk(db, g)
    && (g.outcome.NoRoom? || !SyncLost(db))
    && FilesOk(db, Written(g.left, Record(g.base + 1, g.ops)), if g.outcome.Committed? then [Record(g.base + 1, g.ops)] else [])
  }

  lemma SettleQueue(db: Db, r: Db, g: Group)
    requires QueueOk(db) && r.calls.Keys == db.calls.Keys && g.members <= db.queue && db.unpopped == 0
    requires r.queue == db.queue && r.arrivals == db.arrivals && r.unpopped == |g.members| && r.groups == db.groups + [g]
    requires Members(r.groups) == Members(db.groups) + g.members
    ensures QueueOk(r)
  {
    var n := |db.arrivals| - |db.queue|;
    assert db.arrivals[..n + |g.members|] == db.arrivals[..n] + db.arrivals[n..n + |g.members|];
    assert db.arrivals[n..n + |g.members|] == db.queue[..|g.members|];
  }

  lemma SettleGroups(db: Db, r: Db, g: Group)
    requires GroupsOk(db) && SyncErrorIsFinal(db) && GroupOk(db, g) && SameWriters(db, r)
    requires r.groups == db.groups + [g] && r.start == db.start && r.lastSequence == db.lastSequence + |g.ops|
    requires Contiguous(r.groups, db.start) && Length(r.groups) == Length(db.groups) + |g.ops|
    requires (g.outcome.NoRoom? || !SyncLost(db)) && r.bgError == (db.bgError || g.outcome.SyncFailed?)
    ensures GroupsOk(r) && SyncErrorIsFinal(r)
  {
    hide GroupOk, Length, Contiguous;
    forall i | 0 <= i < |r.groups|
      ensures GroupOk(r, r.groups[i])
    {
      GroupCarries(db, r, r.groups[i]);
    }
  }

  lemma QueueIsNoDup(db: Db)
    requires QueueOk(db)
    ensures NoDup(db.queue)
  {
    hide Members;
    var n := |db.arrivals| - |db.queue|;
    forall i, j | 0 <= i < j < |db.queue|
      ensures db.queue[i] != db.queue[j]
    {
      assert db.queue[i] == db.arrivals[n + i] && db.queue[j] == db.arrivals[n + j];
    }
  }

  lemma SettleKeeps(db: Db, r: Db, id: Id, g: Group)
    requires Inv(db) && id in db.calls && db.calls[id].pc.Active() && !db.calls[id].done
    requires db.mutex.None? || db.mutex == Some(id)
    requires Settles(db, id, g)
    requires r == Settle(db, id, g.members[|g.members| - 1], g).(
      mutex := Some(id), lastSequence := db.lastSequence + |g.ops|, bgError := db.bgError || g.outcome.SyncFailed?)
    ensures Inv(r)
  {
    hide GroupOk, CallsOk, Exclusive, Idle, PassiveOk, IdleOk, PendingOk, SyncErrorIsFinal, Pieces, Records, Members, Length, QueueOk,
      Contiguous;
    BaseIsLast(db);
    SnocBooks(db.groups, g, db.start);
    SettleQueue(db, r, g);
    SettleGroups(db, r, g);
    QueueIsNoDup(db);
    LeaderMoves(db, r, id, r.calls[id].pc);
  }

  lemma BaseIsLast(db: Db)
    requires GroupsOk(db)
    ensures Contiguous(db.groups, db.start) && db.lastSequence == db.start + Length(db.groups)
  {
  }

  lemma NothingSettles(db: Db, id: Id, outcome: Outcome)
    requires id in db.calls && LeaderOk(db, id, db.calls[id].pc) && db.calls[id].pc.MakingRoom? && SyncErrorIsFinal(db)
    requires outcome.NoRoom? || (outcome.NothingToWrite? && !db.bgError && db.calls[id].w.batch.None?)
    ensures Settles(db, id, Group([id], db.lastSequence, [], outcome, Nothing))
  {
    hide Pieces, Records, Batched;
  }

  lemma PendingSettles(db: Db, id: Id, p: Pending, outcome: Outcome, left: Left)
    requires id in db.calls && db.calls[id].pc == Relocking(p, outcome, left) && LeaderOk(db, id, db.calls[id].pc)
    ensures Settles(db, id, Group(p.members, p.base, p.ops, outcome, left))
  {
    hide Pieces, Records, Batched;
    assert p.members[0] == id;
  }

  lemma NothingKeeps(db: Db, step: Step)
    requires Inv(db) && Enabled(db, step) && (step.RoomFails? || step.NullBatch?)
    ensures Inv(Apply(db, step))
  {
    hide GroupsOk, CallsOk, Exclusive, Idle, PassiveOk, IdleOk, SyncErrorIsFinal, QueueOk, Settles;
    var r, id := Apply(db, step), step.id;
    CallKnown(db, id);
    var outcome := if step.RoomFails? then NoRoom else NothingToWrite;
    NothingSettles(db, id, outcome);
    SettleKeeps(db, r, id, Group([id], db.lastSequence, [], outcome, Nothing));
  }

  lemma RelockKeeps(db: Db, id: Id)
    requires Inv(db) && Enabled(db, Relock(id))
    ensures Inv(Apply(db, Relock(id)))
  {
    hide GroupsOk, CallsOk, Exclusive, Idle, PassiveOk, IdleOk, SyncErrorIsFinal, QueueOk, Settles, Batched;
    var r := Apply(db, Relock(id));
    CallKnown(db, id);
    var pc := db.calls[id].pc;
    PendingSettles(db, id, pc.p, pc.outcome, pc.left);
    var g := Group(pc.p.members, pc.p.base, pc.p.ops, pc.outcome, pc.left);
    var settled := Settle(db, id, g.members[|g.members| - 1], g).(
      mutex := Some(id), lastSequence := db.lastSequence + |g.ops|, bgError := db.bgError || g.outcome.SyncFailed?);
    SettleKeeps(db, settled, id, g);
    BackgroundKeeps(settled, r);
  }

  // ----- Leaving the queue -----

  lemma PopQueue(db: Db, r: Db)
    requires QueueOk(db) && r.calls.Keys == db.calls.Keys && db.unpopped > 0
    requires r.queue == db.queue[1..] && r.arrivals == db.arrivals && r.unpopped == db.unpopped - 1 && r.groups == db.groups
    ensures QueueOk(r)
  {
    assert r.queue == db.arrivals[|db.arrivals| - |r.queue|..];
  }

  lemma TailOf(ids: seq<Id>, id: Id)
    requires NoDup(ids) && ids != []
    ensures id in ids[1..] <==> id in ids && id != ids[0]
  {
    if id in ids && id != ids[0] {
      var i :| 0 <= i < |ids| && ids[i] == id;
      assert ids[1..][i - 1] == id;
    }
    if id in ids[1..] {
      var i :| 0 <= i < |ids| - 1 && ids[1..][i] == id;
      assert ids[i + 1] == id;
    }
  }

  lemma PopLeader(db: Db, id: Id)
    requires QueueOk(db) && id in db.calls && db.calls[id].pc.Popping? && db.queue != [] && LeaderOk(db, id, db.calls[id].pc)
    ensures var r := Pop(db, id);
      r.calls[id].pc.Active() && r.calls[id].pc.Holds() && LeaderOk(r, id, r.calls[id].pc)
  {
    hide Pieces, Records, QueueOk;
    var r, pc := Pop(db, id), db.calls[id].pc;
    QueueIsNoDup(db);
    TailOf(db.queue, id);
    assert forall i :: 0 <= i < |r.queue| ==> r.queue[i] == db.queue[i + 1];
    if db.queue[0] == pc.last {
      assert Served(r, id, pc.outcome) by {
        assert id in db.groups[|db.groups| - 1].members;
      }
    }
  }

  /** Whoever is popped by another call finds its status and its leave, and is woken. */
  lemma PopMember(db: Db, id: Id, other: Id)
    requires QueueOk(db) && id in db.calls && db.calls[id].pc.Popping? && db.queue != [] && LeaderOk(db, id, db.calls[id].pc)
    requires other in db.calls && CallOk(db, other, db.calls[other]) && !db.calls[other].pc.Active() && db.mutex == Some(id)
    requires other != id
    ensures var r := Pop(db, id); CallOk(r, other, r.calls[other])
  {
    hide FilesOk, QueueOk, Served;
    var r, pc := Pop(db, id), db.calls[id].pc;
    QueueIsNoDup(db);
    TailOf(db.queue, other);
    if other == db.queue[0] {
      InLastGroup(r, other, pc.outcome);
    } else {
      PassiveCarries(db, r, other, db.calls[other]);
    }
  }

  lemma InLastGroup(db: Db, id: Id, outcome: Outcome)
    requires db.groups != [] && id in db.groups[|db.groups| - 1].members && db.groups[|db.groups| - 1].outcome == outcome
    ensures Served(db, id, outcome)
  {
  }

  lemma PopKeeps(db: Db, id: Id)
    requires Inv(db) && Enabled(db, PopOne(id))
    ensures Inv(Apply(db, PopOne(id)))
  {
    hide CallOk, GroupsOk, SyncErrorIsFinal, QueueOk, Pop, Exclusive, IdleOk;
    var r := Pop(db, id);
    PopCount(db, id);
    PopKeys(db, id);
    BooksCarry(db, r);
    PopQueue(db, r);
    forall other | other in r.calls
      ensures CallOk(r, other, r.calls[other]) && (r.calls[other].pc.Active() <==> other == id)
    {
      PopCall(db, r, id, other);
    }
    OneActive(r, id);
  }

  lemma PopCall(db: Db, r: Db, id: Id, other: Id)
    requires Enabled(db, PopOne(id)) && r == Pop(db, id) && other in db.calls && r.calls.Keys == db.calls.Keys
    requires QueueOk(db) && CallsOk(db) && Exclusive(db)
    ensures CallOk(r, other, r.calls[other]) && (r.calls[other].pc.Active() <==> other == id)
  {
    hide PassiveOk, LeaderOk, QueueOk;
    assert CallOk(db, id, db.calls[id]) && CallOk(db, other, db.calls[other]);
    if other == id {
      PopLeader(db, id);
    } else {
      PopMember(db, id, other);
    }
  }

  lemma PopCount(db: Db, id: Id)
    requires CallsOk(db) && Enabled(db, PopOne(id))
    ensures db.unpopped > 0 && db.mutex == Some(id)
  {
    hide FilesOk;
    assert CallOk(db, id, db.calls[id]);
  }

  lemma PopKeys(db: Db, id: Id)
    requires PcOf(db, id).Popping? && db.queue != []
    ensures var r := Pop(db, id);
      && r.calls.Keys == db.calls.Keys && SameWriters(db, r)
      && r == db.(calls := r.calls, queue := db.queue[1..], unpopped := if db.unpopped > 0 then db.unpopped - 1 else 0)
  {
  }

  lemma LeaveKeeps(db: Db, id: Id)
    requires Inv(db) && Enabled(db, Leave(id))
    ensures Inv(Apply(db, Leave(id)))
  {
    hide LeaderOk, GroupsOk, SyncErrorIsFinal, FilesOk, QueueOk, CallOk, PassiveOk, Served, Exclusive, IdleOk;
    var r := Apply(db, Leave(id));
    LeaverKnows(db, id);
    HeadKnown(db);
    BooksCarry(db, r);
    QueueCarries(db, r);
    forall other | other in r.calls
      ensures CallOk(r, other, r.calls[other]) && !r.calls[other].pc.Active()
    {
      LeaveMember(db, id, other);
    }
    LeaveIdle(db, r);
  }

  lemma LeaveIdle(db: Db, r: Db)
    requires db.unpopped == 0 && FilesOk(db, [], []) && r.groups == db.groups && r.log == db.log && r.mem == db.mem
    requires r.queue == db.queue && r.unpopped == db.unpopped && (r.queue != [] ==> !PcOf(r, r.queue[0]).Waiting?)
    requires Idle(r)
    ensures Exclusive(r) && IdleOk(r)
  {
    FilesGrowNot(db, r);
  }

  lemma LeaveMember(db: Db, id: Id, other: Id)
    requires CallsOk(db) && Exclusive(db) && Enabled(db, Leave(id)) && other in db.calls && (db.queue != [] ==> db.queue[0] in db.calls)
    ensures var r := Apply(db, Leave(id)); CallOk(r, other, r.calls[other]) && !r.calls[other].pc.Active()
  {
    hide Served, FilesOk, BranchOf, PoppingOk, PendingOk, AtHead, LogTail, MemTail, SignalAll;
    var r := Apply(db, Leave(id));
    assert CallOk(db, id, db.calls[id]) && CallOk(db, other, db.calls[other]);
    if other == id {
      ServedCarries(db, r, id, db.calls[id].pc.outcome);
    } else {
      PassiveCarries(db, r, other, db.calls[other]);
    }
  }

  lemma LeaverKnows(db: Db, id: Id)
    requires CallsOk(db) && Enabled(db, Leave(id))
    ensures db.unpopped == 0 && db.mutex == Some(id) && FilesOk(db, [], [])
  {
    assert CallOk(db, id, db.calls[id]);
  }

  lemma FilesGrowNot(db: Db, r: Db)
    requires FilesOk(db, [], []) && r.groups == db.groups && r.log == db.log && r.mem == db.mem
    ensures FilesOk(r, [], [])
  {
  }

  lemma HeadKnown(db: Db)
    requires QueueOk(db)
    ensures db.queue != [] ==> db.queue[0] in db.calls
  {
    assert db.queue != [] ==> db.queue[0] in db.arrivals;
  }

  /** Signals to whoever waits for the background concern no one else. */
  lemma BackgroundKeeps(db: Db, r: Db)
    requires Inv(db) && (db.bgError ==> r.bgError)
    requires r == db.(calls := r.calls, room := r.room, bgError := r.bgError)
    requires r.calls == db.calls || r.calls == SignalAll(db.calls)
    ensures Inv(r)
  {
    hide CallOk, GroupsOk, SyncErrorIsFinal, FilesOk, QueueOk, SignalAll;
    SignalledCalls(db, r);
    BooksCarry(db, r);
    QueueCarries(db, r);
    forall other | other in r.calls
      ensures CallOk(r, other, r.calls[other])
    {
      SignalledCall(db, r, other);
    }
    if Idle(r) {
      forall other | other in db.calls
        ensures !db.calls[other].pc.Active()
      {
        assert !r.calls[other].pc.Active();
      }
      FilesGrowNot(db, r);
    }
  }

  ghost predicate MaybeSignalled(c: Call, d: Call) {
    d == c || (c.pc.RoomWait? && d == c.(pc := RoomWait(c.pc.force, c.pc.allowDelay, true)))
  }

  lemma SignalledCalls(db: Db, r: Db)
    requires r.calls == db.calls || r.calls == SignalAll(db.calls)
    ensures r.calls.Keys == db.calls.Keys && SameWriters(db, r)
    ensures forall id :: id in db.calls ==> id in r.calls && MaybeSignalled(db.calls[id], r.calls[id])
    ensures forall id :: id in db.calls ==> id in r.calls && (r.calls[id].pc.Active() <==> db.calls[id].pc.Active())
    ensures forall id :: id in db.calls ==> id in r.calls && (r.calls[id].pc.Waiting? <==> db.calls[id].pc.Waiting?)
  {
  }

  lemma SignalledCall(db: Db, r: Db, id: Id)
    requires id in db.calls && id in r.calls && CallOk(db, id, db.calls[id]) && MaybeSignalled(db.calls[id], r.calls[id])
    requires SameWriters(db, r) && r == db.(calls := r.calls, room := r.room, bgError := r.bgError)
    ensures CallOk(r, id, r.calls[id])
  {
    hide LeaderOk, PassiveOk;
    if db.calls[id].pc.Active() {
      LeaderCarries(db, r, id, db.calls[id].pc);
      SignalledIsOk(r, id, db.calls[id].pc, r.calls[id].pc);
    } else {
      PassiveCarries(db, r, id, db.calls[id]);
    }
  }

  lemma SignalledIsOk(db: Db, id: Id, pc: Pc, to: Pc)
    requires LeaderOk(db, id, pc) && (to == pc || (pc.RoomWait? && to == RoomWait(pc.force, pc.allowDelay, true)))
    ensures LeaderOk(db, id, to)
  {
  }

  lemma StepKeeps(db: Db, step: Step)
    requires Inv(db) && Enabled(db, step)
    ensures Inv(Apply(db, step))
  {
    hide Inv;
    match step
    case Arrive(id, w) => ArriveKeeps(db, id, w);
    case Test(id) =>
      if db.calls[id].done || !AtFront(db, id) {
        WaitKeeps(db, step);
      } else {
        LeadersStart(db, id);
      }
    case Wake(_) => WaitKeeps(db, step);
    case WakeForNothing(_) => WaitKeeps(db, step);
    case Sleep(_) => RoomKeeps(db, step);
    case WakeFromSleep(_) => RoomKeeps(db, step);
    case WaitForRoom(_) => RoomKeeps(db, step);
    case RoomWakeForNothing(_) => RoomKeeps(db, step);
    case Reacquire(_) => RoomKeeps(db, step);
    case Switch(_) => RoomKeeps(db, step);
    case RoomFails(_) => NothingKeeps(db, step);
    case NullBatch(_) => NothingKeeps(db, step);
    case Lead(id, n) => LeadKeeps(db, id, n);
    case Append(_, _, _) => WriteKeeps(db, step);
    case Sync(_, _) => WriteKeeps(db, step);
    case Insert(_, _) => WriteKeeps(db, step);
    case Relock(id) => RelockKeeps(db, id);
    case PopOne(id) => PopKeeps(db, id);
    case Leave(id) => LeaveKeeps(db, id);
    case _ => BackgroundKeeps(db, Apply(db, step));
  }

  // ----- Runs -----

  function Init(start: nat, room: B.Room): Db {
    Db(map[], [], None, start, [], 0, {}, [], false, room, start, [], [], 0)
  }

  /** DB::Open ends with MaybeScheduleCompaction. */
  ghost predicate Opened(room: B.Room) {
    && B.LevelsOk(room) && !room.imm && !room.manual && room.bg.Idle? && !room.shutdown
    && (room.scheduled <==> B.HasWork(room))
  }

  ghost predicate IsRun(states: seq<Db>, steps: seq<Step>, start: nat) {
    && |states| == |steps| + 1 && states[0] == Init(start, states[0].room) && Opened(states[0].room)
    && forall i :: 0 <= i < |steps| ==> Enabled(states[i], steps[i]) && states[i + 1] == Apply(states[i], steps[i])
  }

  lemma {:induction false} RunInv(states: seq<Db>, steps: seq<Step>, start: nat, i: nat)
    requires IsRun(states, steps, start) && i <= |steps|
    ensures Inv(states[i])
  {
    hide Inv, Enabled, Apply, Init;
    if i == 0 {
      InitInv(start, states[0].room);
    } else {
      RunInv(states, steps, start, i - 1);
      StepKeeps(states[i - 1], steps[i - 1]);
    }
  }

  lemma InitInv(start: nat, room: B.Room)
    ensures Inv(Init(start, room))
  {
    hide PassiveOk, LeaderOk, GroupOk, Served, Batched;
  }

  /** In every reachable state at most one call is past the wait loop. It is the head of the queue
      until it starts to take its group off, and nobody else owns the mutex while it does. */
  lemma OneLeader(states: seq<Db>, steps: seq<Step>, start: nat, i: nat, id: Id)
    requires IsRun(states, steps, start) && i <= |steps| && PcOf(states[i], id).Active()
    ensures var db := states[i];
      && (forall other :: other in db.calls && other != id ==> !db.calls[other].pc.Active())
      && (if PcOf(db, id).Popping? || PcOf(db, id).Notifying? then db.mutex == Some(id) else AtFront(db, id))
  {
    hide Apply, Enabled, QueueOk, GroupsOk, SyncErrorIsFinal, IdleOk, PendingOk, FilesOk, Served;
    RunInv(states, steps, start, i);
    assert CallOk(states[i], id, states[i].calls[id]);
  }

  /** No wake-up is lost: with nobody past the wait loop the head of the queue is not asleep. */
  lemma HeadIsAwake(states: seq<Db>, steps: seq<Step>, start: nat, i: nat)
    requires IsRun(states, steps, start) && i <= |steps| && states[i].queue != []
    ensures var db := states[i];
      (exists id :: id in db.calls && db.calls[id].pc.Active()) || PcOf(db, db.queue[0]).Waking? || PcOf(db, db.queue[0]).AtTest?
  {
    hide Apply, Enabled, GroupsOk, SyncErrorIsFinal, LeaderOk, FilesOk, Served, Exclusive;
    RunInv(states, steps, start, i);
    var db := states[i];
    HeadKnown(db);
    assert CallOk(db, db.queue[0], db.calls[db.queue[0]]);
  }

  lemma {:induction false} MemberOfGroup(gs: seq<Group>, i: nat, id: Id)
    requires i < |gs| && id in gs[i].members
    ensures id in Members(gs)
  {
    if i < |gs| - 1 {
      MemberOfGroup(gs[..|gs| - 1], i, id);
    }
  }

  lemma NotInBoth(a: seq<Id>, b: seq<Id>, id: Id)
    requires NoDup(a + b) && id in a
    ensures id !in b
  {
    var i :| 0 <= i < |a| && a[i] == id;
    forall j | 0 <= j < |b|
      ensures b[j] != id
    {
      assert (a + b)[i] == id && (a + b)[|a| + j] == b[j];
    }
  }

  lemma NoDupPrefix(a: seq<Id>, b: seq<Id>)
    requires NoDup(a + b)
    ensures NoDup(a)
  {
    assert forall i :: 0 <= i < |a| ==> (a + b)[i] == a[i];
  }

  /** No call belongs to two groups. */
  lemma {:induction false} OneGroup(gs: seq<Group>, i: nat, j: nat, id: Id)
    requires NoDup(Members(gs)) && i < |gs| && j < |gs| && id in gs[i].members && id in gs[j].members
    ensures i == j
    decreases |gs|
  {
    var n := |gs| - 1;
    var init := gs[..n];
    NoDupPrefix(Members(init), gs[n].members);
    if i < n && j < n {
      OneGroup(init, i, j, id);
    } else if i < n {
      MemberOfGroup(init, i, id);
      NotInBoth(Members(init), gs[n].members, id);
    } else if j < n {
      MemberOfGroup(init, j, id);
      NotInBoth(Members(init), gs[n].members, id);
    }
  }

  lemma MembersNoDup(db: Db)
    requires QueueOk(db)
    ensures NoDup(Members(db.groups))
  {
  }

  /** A call that returned, or has been told that it is done, is in exactly one group, and its
      status is what the group's leader got. */
  lemma MergedCallsAgree(states: seq<Db>, steps: seq<Step>, start: nat, i: nat, id: Id)
    requires IsRun(states, steps, start) && i <= |steps| && id in states[i].calls
    ensures var db, c := states[i], states[i].calls[id];
      && (c.pc.Returned? || c.done ==> exists j :: 0 <= j < |db.groups| && id in db.groups[j].members)
      && (forall j :: 0 <= j < |db.groups| && id in db.groups[j].members ==>
            (c.pc.Returned? ==> c.pc.outcome == db.groups[j].outcome)
            && (c.done && !c.pc.Returned? ==> c.status == db.groups[j].outcome))
      && (forall j, k :: 0 <= j < |db.groups| && 0 <= k < |db.groups| && id in db.groups[j].members && id in db.groups[k].members ==> j == k)
  {
    hide Apply, Enabled, GroupsOk, SyncErrorIsFinal, LeaderOk, FilesOk, Exclusive, IdleOk, QueueOk, NoDup;
    RunInv(states, steps, start, i);
    var db, c := states[i], states[i].calls[id];
    MembersNoDup(db);
    assert CallOk(db, id, c);
    forall j, k | 0 <= j < |db.groups| && 0 <= k < |db.groups| && id in db.groups[j].members && id in db.groups[k].members
      ensures j == k
    {
      OneGroup(db.groups, j, k, id);
    }
  }

  /** Main theorem about what is written. In every reachable state the groups, one after the other,
      are the calls that have left the queue or are about to, in order of arrival; sequence ranges
      follow each other without gap or overlap; the log holds what each group's append left there,
      the memtables the operations of the committed groups, both in order and with at most the
      batch under way behind them; a group keeps within its bounds and no synced write rode with a
      leader that did not sync; after a failed sync every group fails. */
  lemma GroupCommitIsCorrect(states: seq<Db>, steps: seq<Step>, start: nat, i: nat)
    requires IsRun(states, steps, start) && i <= |steps|
    ensures var db := states[i];
      && NoDup(db.arrivals) && db.unpopped <= |db.queue| && db.arrivals == Members(db.groups) + db.queue[db.unpopped..]
      && (forall g :: g in db.groups ==> GroupOk(db, g))
      && Contiguous(db.groups, db.start) && db.lastSequence == db.start + Length(db.groups)
      && Pieces(db.groups) <= db.log && Records(db.groups) <= db.mem
      && ((forall id :: id in db.calls ==> !db.calls[id].pc.Writes()) ==> db.log == Pieces(db.groups) && db.mem == Records(db.groups))
      && |db.log| <= |Pieces(db.groups)| + 1 && |db.mem| <= |Records(db.groups)| + 1
      && SyncErrorIsFinal(db)
  {
    hide Apply, Enabled, SyncErrorIsFinal, GroupOk, Contiguous, Length;
    RunInv(states, steps, start, i);
    ArrivalsSplit(states[i]);
    FilesKnown(states[i]);
  }

  lemma ArrivalsSplit(db: Db)
    requires QueueOk(db)
    ensures db.unpopped <= |db.queue| && db.arrivals == Members(db.groups) + db.queue[db.unpopped..]
  {
    var n := |db.arrivals| - |db.queue| + db.unpopped;
    assert db.arrivals == db.arrivals[..n] + db.arrivals[n..];
    assert db.arrivals[n..] == db.queue[db.unpopped..];
  }

  lemma FilesKnown(db: Db)
    requires CallsOk(db) && IdleOk(db)
    ensures Pieces(db.groups) <= db.log && Records(db.groups) <= db.mem
    ensures |db.log| <= |Pieces(db.groups)| + 1 && |db.mem| <= |Records(db.groups)| + 1
    ensures (forall id :: id in db.calls ==> !db.calls[id].pc.Writes()) ==> db.log == Pieces(db.groups) && db.mem == Records(db.groups)
  {
    hide Pieces, Records, PendingOk, Served, PoppingOk;
    if !Idle(db) {
      var id :| id in db.calls && db.calls[id].pc.Active();
      assert CallOk(db, id, db.calls[id]);
    }
  }

  /** No two operations ever share a sequence number. */
  lemma {:induction false} RangesDisjoint(gs: seq<Group>, start: nat, i: nat, j: nat)
    requires Contiguous(gs, start) && i < j < |gs|
    ensures gs[i].base + |gs[i].ops| <= gs[j].base
    decreases j
  {
    assert gs[..j][..j - 1] == gs[..j - 1];
    if i < j - 1 {
      RangesDisjoint(gs, start, i, j - 1);
    }
  }
}
