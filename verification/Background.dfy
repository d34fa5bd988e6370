/** The background thread and what MakeRoomForWrite looks at (MaybeScheduleCompaction, BackgroundCall
    and BackgroundCompaction in db/db_impl.cc; Finalize and PickCompaction in db/version_set.cc). */
module Background {
  const L0_COMPACTION_TRIGGER: nat := 4
  const L0_SLOWDOWN_TRIGGER: nat := 8
  const L0_STOP_TRIGGER: nat := 12
  const LEVELS: nat := 7
  const MAX_MEM_COMPACT_LEVEL: nat := 2

  /** What the thread does while it has released the mutex. */
  datatype Bg = Idle | Flushing | Compacting(manual: bool)

  datatype Room = Room(
    full: bool,            // the memtable is over write_buffer_size
    imm: bool,             // imm_ != nullptr
    files: nat,            // NumLevelFiles(0)
    levels: seq<nat>,      // entries on each level
    overdue: bool,         // another level is too large, or a file was sought too often
    manual: bool,          // manual_compaction_ != nullptr
    scheduled: bool,       // background_compaction_scheduled_
    bg: Bg,
    shutdown: bool)        // shutting_down_

  /** Some entry is not on the last level yet. */
  ghost predicate EntryAbove(levels: seq<nat>) {
    exists l :: 0 <= l < |levels| - 1 && levels[l] > 0
  }

  /** Every file holds an entry, and what is overdue is not on the last level. */
  ghost predicate LevelsOk(r: Room) {
    |r.levels| == LEVELS && (r.files > 0 <==> r.levels[0] > 0) && (r.overdue ==> EntryAbove(r.levels))
  }

  /** VersionSet::NeedsCompaction: level 0 scores its files, the others their bytes. */
  predicate NeedsCompaction(r: Room) {
    r.files >= L0_COMPACTION_TRIGGER || r.overdue
  }

  predicate HasWork(r: Room) {
    r.imm || r.manual || NeedsCompaction(r)
  }

  function MaybeSchedule(r: Room, error: bool): Room {
    if r.scheduled || r.shutdown || error || !HasWork(r) then r else r.(scheduled := true)
  }

  /** The end of BackgroundCall. */
  function End(r: Room, error: bool): Room {
    MaybeSchedule(r.(bg := Idle, scheduled := false), error)
  }

  /** BackgroundCall finds something to do and releases the mutex, or ends at once. */
  function Begin(r: Room, error: bool): Room {
    if r.shutdown || error || !HasWork(r) then End(r, error)
    else if r.imm then r.(bg := Flushing)
    else r.(bg := Compacting(r.manual))
  }

  /** What a round of work did to the levels. */
  datatype Result =
    | Table(level: nat, entries: nat, overdue: bool)    // the memtable became a table
    | Moved(level: nat, taken: nat, met: nat, merged: nat, files: nat, overdue: bool)    // inputs and output of a compaction
    | NoInputs                                          // nothing in the range of a manual compaction

  /** A table goes to one of the upper levels. A compaction takes at least one entry of a level and
      what it meets on the next one, and leaves no more than it took. */
  ghost predicate ResultOk(r: Room, res: Result) {
    && |r.levels| == LEVELS
    && match res
       case Table(level, entries, overdue) => level <= MAX_MEM_COMPACT_LEVEL && LevelsOk(WithResult(r, res))
       case Moved(level, taken, met, merged, files, overdue) =>
         && level < LEVELS - 1 && 1 <= taken <= r.levels[level] && met <= r.levels[level + 1] && merged <= taken + met
         && (if level == 0 then files < r.files else files == r.files)
         && LevelsOk(WithResult(r, res))
       case NoInputs => true
  }

  function WithResult(r: Room, res: Result): Room
    requires |r.levels| == LEVELS
    requires res.Table? ==> res.level < LEVELS
    requires res.Moved? ==> res.level < LEVELS - 1 && res.taken <= r.levels[res.level] && res.met <= r.levels[res.level + 1]
  {
    match res
    case Table(level, entries, overdue) =>
      r.(imm := false, overdue := overdue, levels := r.levels[level := r.levels[level] + entries],
         files := if level == 0 && entries > 0 then r.files + 1 else r.files)
    case Moved(level, taken, met, merged, files, overdue) =>
      r.(levels := r.levels[level := r.levels[level] - taken][level + 1 := r.levels[level + 1] - met + merged],
         files := files, overdue := overdue)
    case NoInputs => r
  }

  /** The round ends: its result when it succeeds, a background error when it does not. */
  ghost predicate CanFinish(r: Room, ok: bool, res: Result) {
    match r.bg
    case Idle => false
    case Flushing => ok ==> res.Table? && ResultOk(r, res)
    case Compacting(manual) => ok ==> !res.Table? && (res.NoInputs? ==> manual) && ResultOk(r, res)
  }

  ghost function Finish(r: Room, error: bool, ok: bool, res: Result): Room
    requires CanFinish(r, ok, res)
  {
    var done := if ok then WithResult(r, res) else r;
    End(if r.bg == Compacting(true) then done.(manual := false) else done, error || !ok)
  }

  // ----- Invariants of the thread -----

  /** Work is never left lying: while there is any, the thread is scheduled, unless the database is
      being closed or has failed. */
  ghost predicate Served(r: Room, error: bool) {
    && LevelsOk(r)
    && (HasWork(r) && !r.shutdown && !error ==> r.scheduled)
    && (!r.bg.Idle? ==> r.scheduled)
    && (r.bg.Flushing? ==> r.imm)
    && (r.bg == Compacting(false) ==> EntryAbove(r.levels))
  }

  lemma TableKeepsAbove(r: Room, res: Result)
    requires |r.levels| == LEVELS && res.Table? && ResultOk(r, res) && EntryAbove(r.levels)
    ensures EntryAbove(WithResult(r, res).levels)
  {
    var l :| 0 <= l < LEVELS - 1 && r.levels[l] > 0;
    assert WithResult(r, res).levels[l] > 0;
  }

  /** A file on level 0 is an entry above the last level. */
  lemma FileAbove(r: Room)
    requires LevelsOk(r) && NeedsCompaction(r)
    ensures EntryAbove(r.levels)
  {
    if r.files > 0 {
      assert r.levels[0] > 0;
    }
  }

  /** The next round can always succeed. */
  lemma SomeResult(r: Room, error: bool) returns (res: Result)
    requires Served(r, error) && !r.bg.Idle?
    ensures CanFinish(r, true, res)
  {
    if r.bg.Flushing? {
      res := Table(0, 0, false);
    } else if r.bg.manual {
      res := NoInputs;
    } else {
      var l :| 0 <= l < LEVELS - 1 && r.levels[l] > 0;
      res := Moved(l, r.levels[l], 0, r.levels[l], if l == 0 then 0 else r.files, false);
      assert ResultOk(r, res);
    }
  }

  lemma BeginServes(r: Room, error: bool)
    requires Served(r, error) && r.scheduled && r.bg.Idle?
    ensures Served(Begin(r, error), error)
  {
    if !r.imm && NeedsCompaction(r) {
      FileAbove(r);
    }
  }

  lemma FinishServes(r: Room, error: bool, ok: bool, res: Result)
    requires Served(r, error) && CanFinish(r, ok, res)
    ensures Served(Finish(r, error, ok, res), error || !ok)
  {
  }

  /** DoCompactionWork has written the immutable memtable on the way. */
  lemma InsideServes(r: Room, error: bool, res: Result)
    requires Served(r, error) && r.bg.Compacting? && res.Table? && ResultOk(r, res)
    ensures Served(WithResult(r, res), error)
  {
    if r.bg == Compacting(false) {
      TableKeepsAbove(r, res);
    }
  }

  // ----- How much compaction is left to do -----

  /** Entries times the levels below them. */
  function Debt(levels: seq<nat>): nat
    requires |levels| <= LEVELS
  {
    if levels == [] then 0 else levels[0] * (|levels| - 1) + Debt(levels[1..])
  }

  lemma DebtUnfold(levels: seq<nat>)
    requires 1 <= |levels| <= LEVELS
    ensures Debt(levels) == levels[0] * (|levels| - 1) + Debt(levels[1..])
  {
  }

  lemma Times(a: int, b: int, c: int)
    ensures (a - b) * c == a * c - b * c
  {
  }

  lemma {:induction false} DebtChanges(levels: seq<nat>, l: nat, n: nat)
    requires |levels| <= LEVELS && l < |levels|
    ensures Debt(levels[l := n]) == Debt(levels) + (n - levels[l]) * (|levels| - 1 - l)
  {
    hide Debt;
    DebtUnfold(levels);
    DebtUnfold(levels[l := n]);
    if l == 0 {
      assert levels[l := n][1..] == levels[1..];
      Times(n, levels[0], |levels| - 1);
    } else {
      assert levels[l := n][1..] == levels[1..][l - 1 := n];
      DebtChanges(levels[1..], l - 1, n);
    }
  }

  /** A compaction lowers the debt. */
  lemma MovedLowersDebt(r: Room, res: Result)
    requires res.Moved? && ResultOk(r, res)
    ensures |WithResult(r, res).levels| == LEVELS && Debt(WithResult(r, res).levels) < Debt(r.levels)
  {
    hide Debt;
    var l, s := res.level, r.levels[res.level := r.levels[res.level] - res.taken];
    var n := r.levels[l + 1] - res.met + res.merged;
    DebtChanges(r.levels, l, r.levels[l] - res.taken);
    DebtChanges(s, l + 1, n);
    DebtArith(res.taken, res.met, res.merged, LEVELS - 1 - l);
  }

  lemma DebtArith(taken: nat, met: nat, merged: nat, below: nat)
    requires taken >= 1 && merged <= taken + met && below >= 1
    ensures (merged - met) * (below - 1) < taken * below
  {
    assert (merged - met) * (below - 1) <= taken * (below - 1);
    assert taken * below == taken * (below - 1) + taken;
  }
}
