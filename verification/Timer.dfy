/** The timer queue of the event loop (timer.c). */
module Timers {
  import opened Heaps

  const MAX_TIME: nat := 0x1_0000_0000_0000_0000 - 1   // the largest 64-bit word
  const INT_MAX: nat := 0x7fff_ffff

  datatype Handle = Handle(active: bool, hasCallback: bool, closing: bool, repeat: nat, key: Rank)

  /** A loop seen from outside: its clock, its counter of starts, its handles. */
  datatype State = State(time: nat, counter: nat, handles: seq<Handle>)

  ghost predicate Active(s: State, i: nat) {
    i < |s.handles| && s.handles[i].active
  }

  ghost predicate Due(s: State, i: nat) {
    Active(s, i) && s.handles[i].key.timeout <= s.time
  }

  /** Active timers are open, have a callback and were started at different moments, before the next
      one will be. */
  ghost predicate WellFormed(s: State) {
    && s.time <= MAX_TIME
    && (forall i: nat :: i < |s.handles| ==> s.handles[i].repeat <= MAX_TIME)
    && (forall i: nat :: Active(s, i) ==>
          s.handles[i].hasCallback && !s.handles[i].closing && s.handles[i].key.startId < s.counter)
    && (forall i: nat, j: nat :: Active(s, i) && Active(s, j) && i != j ==>
          s.handles[i].key.startId != s.handles[j].key.startId)
  }

  /** Timer `i` comes first among the active ones. */
  ghost predicate IsFirst(s: State, i: nat) {
    Active(s, i) && forall j: nat :: Active(s, j) && j != i ==> Less(s.handles[i].key, s.handles[j].key)
  }

  lemma FirstIsUnique(s: State, i: nat, j: nat)
    requires IsFirst(s, i) && IsFirst(s, j)
    ensures i == j
  {
  }

  // ----- What the calls do to the state -----

  function Stopped(s: State, i: nat): State
    requires i < |s.handles|
  {
    s.(handles := s.handles[i := s.handles[i].(active := false)])
  }

  /** The due time: the sum in 64 bits, or the largest word when the sum wraps around. */
  function Clamped(time: nat, timeout: nat): nat {
    var sum := (time + timeout) % (MAX_TIME + 1);
    if sum < timeout then MAX_TIME else sum
  }

  function Started(s: State, i: nat, callback: bool, timeout: nat, repeat: nat): State
    requires i < |s.handles|
  {
    if s.handles[i].closing || !callback then s
    else s.(counter := s.counter + 1,
            handles := s.handles[i := Handle(true, true, false, repeat, Rank(Clamped(s.time, timeout), s.counter))])
  }

  function Restarted(s: State, i: nat): State
    requires i < |s.handles|
  {
    var h := s.handles[i];
    if !h.hasCallback || h.repeat == 0 then s
    else Started(Stopped(s, i), i, true, h.repeat, h.repeat)
  }

  /** A call a timer callback makes; calls on handles of other loops change nothing here. */
  datatype Action =
    | Start(i: nat, callback: bool, timeout: nat, repeat: nat)
    | Stop(i: nat)
    | Again(i: nat)
    | SetRepeat(i: nat, repeat: nat)
    | Close(i: nat)

  function Acted(s: State, a: Action): State {
    if a.i >= |s.handles| then s
    else
      match a
      case Start(i, callback, timeout, repeat) => Started(s, i, callback, timeout, repeat)
      case Stop(i) => Stopped(s, i)
      case Again(i) => Restarted(s, i)
      case SetRepeat(i, repeat) => s.(handles := s.handles[i := s.handles[i].(repeat := repeat)])
      case Close(i) => var t := Stopped(s, i); t.(handles := t.handles[i := t.handles[i].(closing := true)])
  }

  function AllActed(s: State, acts: seq<Action>): State
    decreases |acts|
  {
    if acts == [] then s else AllActed(Acted(s, acts[0]), acts[1..])
  }

  predicate ActionInRange(a: Action) {
    match a
    case Start(_, _, timeout, repeat) => timeout <= MAX_TIME && repeat <= MAX_TIME
    case SetRepeat(_, repeat) => repeat <= MAX_TIME
    case _ => true
  }

  /** One round of uv__run_timers: the timer is stopped, restarted when it repeats, and its
      callback makes the calls `acts`. */
  function Fired(s: State, i: nat, acts: seq<Action>): State
    requires i < |s.handles|
  {
    AllActed(Restarted(Stopped(s, i), i), acts)
  }

  /** The due time in unbounded numbers. */
  function DueTime(time: nat, timeout: nat): nat {
    if time + timeout > 0xffff_ffff_ffff_ffff then 0xffff_ffff_ffff_ffff else time + timeout
  }

  // ----- What every call keeps -----

  lemma ClampedIsMin(time: nat, timeout: nat)
    requires time <= MAX_TIME && timeout <= MAX_TIME
    ensures Clamped(time, timeout) == if time + timeout <= MAX_TIME then time + timeout else MAX_TIME
    ensures timeout > 0 && time < MAX_TIME ==> Clamped(time, timeout) > time
  {
  }

  /** Handle `i` may have changed, with a fresh start number if it is active; nothing else did. */
  ghost predicate Touched(s: State, t: State, i: nat) {
    && t.time == s.time && t.counter >= s.counter && |t.handles| == |s.handles| && i < |s.handles|
    && (forall j: nat :: j < |s.handles| && j != i ==> t.handles[j] == s.handles[j])
    && t.handles[i].repeat <= MAX_TIME
    && (t.handles[i].active ==> t.handles[i].hasCallback && !t.handles[i].closing)
    && (t.handles[i].active ==>
          (s.handles[i].active && t.handles[i].key == s.handles[i].key)
          || s.counter <= t.handles[i].key.startId < t.counter)
  }

  lemma TouchedKeeps(s: State, t: State, i: nat)
    requires WellFormed(s) && Touched(s, t, i)
    ensures WellFormed(t)
  {
    assert forall j: nat :: Active(t, j) && j != i ==> Active(s, j);
  }

  lemma RestartedTouches(s: State, i: nat)
    requires WellFormed(s) && i < |s.handles|
    ensures Touched(s, Restarted(s, i), i) && WellFormed(Restarted(s, i))
    ensures Touched(s, Restarted(Stopped(s, i), i), i) && WellFormed(Restarted(Stopped(s, i), i))
  {
    TouchedKeeps(s, Restarted(s, i), i);
    TouchedKeeps(s, Restarted(Stopped(s, i), i), i);
  }

  lemma ActedTouches(s: State, a: Action)
    requires WellFormed(s) && ActionInRange(a)
    ensures if a.i < |s.handles| then Touched(s, Acted(s, a), a.i) else Acted(s, a) == s
    ensures WellFormed(Acted(s, a))
  {
    if a.i < |s.handles| {
      TouchedKeeps(s, Acted(s, a), a.i);
    }
  }

  // ----- What is due -----

  ghost function DueSet(s: State): set<nat> {
    set i: nat | i < |s.handles| && Due(s, i)
  }

  /** No timer became due: what is due in `t` was due in `s` with the same key. */
  ghost predicate NothingNewDue(s: State, t: State) {
    && t.time == s.time && |t.handles| == |s.handles|
    && forall i: nat :: Due(t, i) ==> Due(s, i) && t.handles[i].key == s.handles[i].key
  }

  predicate PositiveStart(a: Action) {
    ActionInRange(a) && (a.Start? ==> a.timeout > 0)
  }

  /** A start becomes due at once exactly with timeout zero, or at the end of time. */
  lemma DueAtOnceIff(time: nat, timeout: nat)
    requires time <= MAX_TIME && timeout <= MAX_TIME
    ensures Clamped(time, timeout) <= time <==> timeout == 0 || time == MAX_TIME
  {
  }

  lemma RestartedAddsNoDue(s: State, i: nat)
    requires WellFormed(s) && s.time < MAX_TIME && i < |s.handles|
    ensures NothingNewDue(s, Restarted(s, i))
    ensures NothingNewDue(s, Restarted(Stopped(s, i), i)) && !Due(Restarted(Stopped(s, i), i), i)
  {
    ClampedIsMin(s.time, s.handles[i].repeat);
  }

  lemma ActedAddsNoDue(s: State, a: Action)
    requires WellFormed(s) && s.time < MAX_TIME && PositiveStart(a)
    ensures NothingNewDue(s, Acted(s, a))
  {
    if a.Start? {
      ClampedIsMin(s.time, a.timeout);
    } else if a.Again? && a.i < |s.handles| {
      RestartedAddsNoDue(s, a.i);
    }
  }

  predicate Touches(acts: seq<Action>, i: nat) {
    exists m :: 0 <= m < |acts| && acts[m].i == i
  }

  lemma {:induction false} AllActedKeeps(s: State, acts: seq<Action>)
    requires WellFormed(s) && forall a :: a in acts ==> ActionInRange(a)
    ensures WellFormed(AllActed(s, acts)) && AllActed(s, acts).time == s.time
    ensures |AllActed(s, acts).handles| == |s.handles|
    ensures forall i: nat :: i < |s.handles| && !Touches(acts, i) ==> AllActed(s, acts).handles[i] == s.handles[i]
    decreases |acts|
  {
    if acts != [] {
      hide WellFormed, Acted;
      ActedTouches(s, acts[0]);
      AllActedKeeps(Acted(s, acts[0]), acts[1..]);
      forall i: nat | i < |s.handles| && !Touches(acts, i)
        ensures AllActed(s, acts).handles[i] == s.handles[i]
      {
        assert acts[0].i != i;
        assert forall m :: 0 <= m < |acts[1..]| ==> acts[1..][m] == acts[m + 1];
      }
    }
  }

  lemma {:induction false} AllActedAddsNoDue(s: State, acts: seq<Action>)
    requires WellFormed(s) && s.time < MAX_TIME && forall a :: a in acts ==> PositiveStart(a)
    ensures NothingNewDue(s, AllActed(s, acts))
    decreases |acts|
  {
    if acts != [] {
      hide WellFormed, Acted, Due;
      assert PositiveStart(acts[0]);
      ActedTouches(s, acts[0]);
      ActedAddsNoDue(s, acts[0]);
      AllActedAddsNoDue(Acted(s, acts[0]), acts[1..]);
    }
  }

  lemma FiredKeeps(s: State, i: nat, acts: seq<Action>)
    requires WellFormed(s) && i < |s.handles| && forall a :: a in acts ==> ActionInRange(a)
    ensures WellFormed(Fired(s, i, acts)) && Fired(s, i, acts).time == s.time
    ensures |Fired(s, i, acts).handles| == |s.handles|
    ensures forall j: nat :: j < |s.handles| && j != i && !Touches(acts, j) ==> Fired(s, i, acts).handles[j] == s.handles[j]
  {
    RestartedTouches(s, i);
    AllActedKeeps(Restarted(Stopped(s, i), i), acts);
  }

  lemma FiredAddsNoDue(s: State, i: nat, acts: seq<Action>)
    requires WellFormed(s) && s.time < MAX_TIME && i < |s.handles| && forall a :: a in acts ==> PositiveStart(a)
    ensures NothingNewDue(s, Fired(s, i, acts)) && !Due(Fired(s, i, acts), i)
  {
    RestartedTouches(s, i);
    RestartedAddsNoDue(s, i);
    AllActedAddsNoDue(Restarted(Stopped(s, i), i), acts);
  }

  /** What the calls of a callback do to their handle, in full. */
  lemma ActedIs(s: State, a: Action)
    requires WellFormed(s) && ActionInRange(a) && a.i < |s.handles|
    ensures var t, h := Acted(s, a), s.handles[a.i];
      && |t.handles| == |s.handles|
      && match a
         case Start(i, callback, timeout, repeat) =>
           if h.closing || !callback then t == s
           else t.handles[i] == Handle(true, true, false, repeat, Rank(DueTime(s.time, timeout), s.counter)) && t.counter == s.counter + 1
         case Stop(i) => t.handles[i] == h.(active := false) && t.counter == s.counter
         case Again(i) =>
           if !h.hasCallback || h.repeat == 0 then t == s
           else if h.closing then t.handles[i] == h.(active := false)
           else t.handles[i] == Handle(true, true, false, h.repeat, Rank(DueTime(s.time, h.repeat), s.counter)) && t.counter == s.counter + 1
         case SetRepeat(i, repeat) => t.handles[i] == h.(repeat := repeat) && t.counter == s.counter
         case Close(i) => t.handles[i] == h.(active := false, closing := true) && t.counter == s.counter
  {
    match a
    case Start(_, _, timeout, _) => ClampedIsMin(s.time, timeout);
    case _ => ClampedIsMin(s.time, s.handles[a.i].repeat);
  }

  // ----- Whole runs of uv__run_timers -----

  /** The calls made by the callback of the k-th timer to fire. */
  type Script = nat -> seq<Action>

  ghost predicate InRange(script: Script) {
    forall k: nat, a :: a in script(k) ==> ActionInRange(a)
  }

  ghost predicate PositiveStarts(script: Script) {
    forall k: nat, a :: a in script(k) ==> PositiveStart(a)
  }

  /** Only the first `from` callbacks may start timers to be due at once. */
  ghost predicate PositiveFrom(script: Script, from: nat) {
    InRange(script) && forall k: nat, a :: k >= from && a in script(k) ==> PositiveStart(a)
  }

  /** From `s`, with `k` timers fired before, the loop fires `fired`, which brings it to `t`. */
  ghost predicate Steps(s: State, script: Script, k: nat, fired: seq<nat>, t: State)
    decreases |fired|
  {
    if fired == [] then
      t == s
    else
      IsFirst(s, fired[0]) && Due(s, fired[0]) && Steps(Fired(s, fired[0], script(k)), script, k + 1, fired[1..], t)
  }

  /** The loop fires exactly `fired` and returns. */
  ghost predicate Run(s: State, script: Script, k: nat, fired: seq<nat>, t: State) {
    Steps(s, script, k, fired, t) && forall i: nat :: !Due(t, i)
  }

  lemma StepsBegin(s: State, script: Script)
    ensures Steps(s, script, 0, [], s)
  {
  }

  lemma NoneDueWhenEmpty(s: State)
    requires forall i: nat :: !Active(s, i)
    ensures forall i: nat :: !Due(s, i)
  {
  }

  /** Firing a due timer leaves fewer due, which is why the loop ends. */
  lemma FewerDue(s: State, i: nat, acts: seq<Action>)
    requires WellFormed(s) && s.time < MAX_TIME && Due(s, i) && forall a :: a in acts ==> PositiveStart(a)
    ensures DueSet(Fired(s, i, acts)) < DueSet(s)
    ensures |DueSet(Fired(s, i, acts))| < |DueSet(s)|
    ensures Fired(s, i, acts).time == s.time
  {
    FiredAddsNoDue(s, i, acts);
    assert i in DueSet(s) && i !in DueSet(Fired(s, i, acts));
    SmallerSet(DueSet(Fired(s, i, acts)), DueSet(s));
  }

  lemma {:induction false} SmallerSet(a: set<nat>, b: set<nat>)
    requires a < b
    ensures |a| < |b|
  {
    var x :| x in b - a;
    assert b == (b - a) + a && |b - a| > 0;
  }

  lemma {:induction false} StepsExtend(s: State, script: Script, k: nat, fired: seq<nat>, t: State, i: nat)
    requires Steps(s, script, k, fired, t) && IsFirst(t, i) && Due(t, i)
    ensures Steps(s, script, k, fired + [i], Fired(t, i, script(k + |fired|)))
    decreases |fired|
  {
    if fired != [] {
      hide IsFirst, Due, Fired;
      StepsExtend(Fired(s, fired[0], script(k)), script, k + 1, fired[1..], t, i);
      assert (fired + [i])[1..] == fired[1..] + [i];
      assert k + |fired| == k + 1 + |fired[1..]|;
    } else {
      assert ([] + [i])[1..] == [];
    }
  }

  /** The loop has one outcome. */
  lemma {:induction false} RunIsUnique(s: State, script: Script, k: nat, f: seq<nat>, t: State, g: seq<nat>, u: State)
    requires Run(s, script, k, f, t) && Run(s, script, k, g, u)
    ensures f == g && t == u
    decreases |f|
  {
    if f != [] && g != [] {
      FirstIsUnique(s, f[0], g[0]);
      RunIsUnique(Fired(s, f[0], script(k)), script, k + 1, f[1..], t, g[1..], u);
      assert f == [f[0]] + f[1..] && g == [g[0]] + g[1..];
    }
  }

  /** Whatever the callbacks do, firing keeps the state well-formed and the clock. */
  lemma {:induction false} StepsKeep(s: State, script: Script, k: nat, fired: seq<nat>, t: State)
    requires WellFormed(s) && InRange(script) && Steps(s, script, k, fired, t)
    ensures WellFormed(t) && t.time == s.time && |t.handles| == |s.handles|
    decreases |fired|
  {
    if fired != [] {
      FiredKeeps(s, fired[0], script(k));
      StepsKeep(Fired(s, fired[0], script(k)), script, k + 1, fired[1..], t);
    }
  }

  /** Both are due, `i` earlier than `j`, or at the same time and started earlier. */
  ghost predicate DueBefore(s: State, i: nat, j: nat) {
    && Due(s, i) && Due(s, j)
    && var a, b := s.handles[i].key, s.handles[j].key;
       a.timeout < b.timeout || (a.timeout == b.timeout && a.startId < b.startId)
  }

  /** With positive starts only timers due at the beginning fire, each at most once, in the
      order of their due times and, for equal ones, in the order they were started. */
  lemma {:induction false} FiredInOrder(s: State, script: Script, k: nat, fired: seq<nat>, t: State)
    requires WellFormed(s) && s.time < MAX_TIME && PositiveStarts(script) && Steps(s, script, k, fired, t)
    ensures forall a :: 0 <= a < |fired| ==> Due(s, fired[a])
    ensures forall a, b :: 0 <= a < b < |fired| ==> DueBefore(s, fired[a], fired[b])
    decreases |fired|
  {
    if fired != [] {
      assert forall a :: a in script(k) ==> PositiveStart(a);
      var rest, u := fired[1..], Fired(s, fired[0], script(k));
      FiredKeeps(s, fired[0], script(k));
      FiredAddsNoDue(s, fired[0], script(k));
      FiredInOrder(u, script, k + 1, rest, t);
      forall a | 1 <= a < |fired|
        ensures Due(s, fired[a]) && Due(u, fired[a]) && fired[a] != fired[0]
        ensures s.handles[fired[a]].key == u.handles[fired[a]].key
      {
        assert fired[a] == rest[a - 1] && Due(u, rest[a - 1]);
      }
      forall a, b | 1 <= a < b < |fired|
        ensures DueBefore(s, fired[a], fired[b])
      {
        assert fired[a] == rest[a - 1] && fired[b] == rest[b - 1];
        assert DueBefore(u, rest[a - 1], rest[b - 1]);
      }
    }
  }

  /** The callback of the timer fired `m` places on calls something on timer `i`. */
  predicate TouchedAt(script: Script, k: nat, m: nat, i: nat) {
    Touches(script(k + m), i)
  }

  /** No due timer is skipped: it fires unless an earlier callback of the run touched it. */
  lemma {:induction false} DueTimersFire(s: State, script: Script, k: nat, fired: seq<nat>, t: State, i: nat)
    requires WellFormed(s) && InRange(script) && Run(s, script, k, fired, t) && Due(s, i)
    ensures i in fired || exists m: nat :: m < |fired| && TouchedAt(script, k, m, i)
    decreases |fired|
  {
    if fired[0] != i && !TouchedAt(script, k, 0, i) {
      var u := Fired(s, fired[0], script(k));
      FiredKeeps(s, fired[0], script(k));
      DueTimersFire(u, script, k + 1, fired[1..], t, i);
      if i !in fired[1..] {
        var m: nat :| m < |fired[1..]| && TouchedAt(script, k + 1, m, i);
        assert k + 1 + m == k + (m + 1);
        assert TouchedAt(script, k, m + 1, i);
      }
    }
  }

  // ----- When the loop returns -----

  /** Among the first `n` handles, the first active one. */
  lemma {:induction false} FirstAmong(s: State, n: nat, i: nat) returns (first: nat)
    requires WellFormed(s) && n <= |s.handles| && i < n && Active(s, i)
    ensures first < n && Active(s, first)
    ensures forall j: nat :: j < n && Active(s, j) && j != first ==> Less(s.handles[first].key, s.handles[j].key)
    decreases n
  {
    var last := n - 1;
    if w: nat :| w < last && Active(s, w) {
      first := FirstAmong(s, last, w);
      if Active(s, last) && !Less(s.handles[first].key, s.handles[last].key) {
        first := last;
      }
    } else {
      first := last;
    }
  }

  lemma FirstDue(s: State, i: nat) returns (first: nat)
    requires WellFormed(s) && Due(s, i)
    ensures IsFirst(s, first) && Due(s, first)
  {
    first := FirstAmong(s, |s.handles|, i);
  }

  /** With positive starts from some callback on, the loop returns. */
  lemma {:induction false} RunExists(s: State, script: Script, k: nat, from: nat) returns (fired: seq<nat>, t: State)
    requires WellFormed(s) && s.time < MAX_TIME && PositiveFrom(script, from)
    ensures Run(s, script, k, fired, t)
    decreases if k < from then from - k else 0, |DueSet(s)|
  {
    hide WellFormed, Fired, IsFirst, Due;
    fired, t := [], s;
    if i: nat :| Due(s, i) {
      var first := FirstDue(s, i);
      FirstIsHandle(s, first);
      FiredKeeps(s, first, script(k));
      if k >= from {
        FewerDue(s, first, script(k));
      }
      var rest, u := RunExists(Fired(s, first, script(k)), script, k + 1, from);
      fired, t := [first] + rest, u;
      assert fired[1..] == rest;
    }
  }

  lemma FirstIsHandle(s: State, i: nat)
    requires IsFirst(s, i)
    ensures i < |s.handles|
  {
  }

  /** Every callback ends by starting timer `i` to be due at once, and none closes it. */
  ghost predicate KeepsStarting(script: Script, i: nat, time: nat) {
    && InRange(script)
    && (forall k: nat, a :: a in script(k) ==> a != Close(i))
    && forall k: nat :: script(k) != [] && StartsAtOnce(script(k)[|script(k)| - 1], i, time)
  }

  predicate StartsAtOnce(a: Action, i: nat, time: nat) {
    a.Start? && a.i == i && a.callback && Clamped(time, a.timeout) <= time
  }

  lemma {:induction false} NotClosed(s: State, acts: seq<Action>, i: nat)
    requires i < |s.handles| && !s.handles[i].closing && Close(i) !in acts
    ensures |AllActed(s, acts).handles| == |s.handles| && !AllActed(s, acts).handles[i].closing
    decreases |acts|
  {
    if acts != [] {
      assert acts[0] != Close(i);
      NotClosed(Acted(s, acts[0]), acts[1..], i);
    }
  }

  lemma {:induction false} AllActedSnoc(s: State, acts: seq<Action>, a: Action)
    ensures AllActed(s, acts + [a]) == Acted(AllActed(s, acts), a)
    decreases |acts|
  {
    hide Acted;
    if acts != [] {
      assert (acts + [a])[1..] == acts[1..] + [a];
      AllActedSnoc(Acted(s, acts[0]), acts[1..], a);
    } else {
      assert ([] + [a])[1..] == [];
    }
  }

  /** After such a callback timer `i` is due, whichever timer has fired. */
  lemma StillDue(s: State, first: nat, acts: seq<Action>, i: nat)
    requires WellFormed(s) && first < |s.handles| && i < |s.handles| && !s.handles[i].closing
    requires acts != [] && (forall a :: a in acts ==> ActionInRange(a) && a != Close(i))
    requires StartsAtOnce(acts[|acts| - 1], i, s.time)
    ensures var t := Fired(s, first, acts); Due(t, i) && !t.handles[i].closing
  {
    hide WellFormed, Clamped;
    var u, init := Restarted(Stopped(s, first), first), acts[..|acts| - 1];
    assert acts == init + [acts[|acts| - 1]];
    RestartedTouches(s, first);
    AllActedKeeps(u, init);
    NotClosed(u, init, i);
    AllActedSnoc(u, init, acts[|acts| - 1]);
  }

  /** When every callback starts an open timer again to be due at once, the loop never returns. */
  lemma {:induction false} DueAtOnceNeverReturns(s: State, script: Script, i: nat, k: nat, fired: seq<nat>, t: State)
    requires WellFormed(s) && Due(s, i) && !s.handles[i].closing && KeepsStarting(script, i, s.time)
    ensures !Run(s, script, k, fired, t)
    decreases |fired|
  {
    if fired != [] && IsFirst(s, fired[0]) {
      hide WellFormed, Fired;
      StillDue(s, fired[0], script(k), i);
      FiredKeeps(s, fired[0], script(k));
      DueAtOnceNeverReturns(Fired(s, fired[0], script(k)), script, i, k + 1, fired[1..], t);
    }
  }

  // ----- Repeating timers -----

  /** A handle that has just fired: armed again with its interval, or idle when it does not repeat. */
  function Rearmed(h: Handle, time: nat, counter: nat): Handle {
    if h.repeat > 0 then Handle(true, true, false, h.repeat, Rank(DueTime(time, h.repeat), counter)) else h.(active := false)
  }

  lemma FiringRearms(s: State, i: nat, acts: seq<Action>)
    requires WellFormed(s) && Active(s, i) && !Touches(acts, i) && forall a :: a in acts ==> ActionInRange(a)
    ensures |Fired(s, i, acts).handles| == |s.handles|
    ensures Fired(s, i, acts).handles[i] == Rearmed(s.handles[i], s.time, s.counter)
  {
    RestartedTouches(s, i);
    AllActedKeeps(Restarted(Stopped(s, i), i), acts);
    ClampedIsMin(s.time, s.handles[i].repeat);
  }

  lemma {:induction false} AllActedSplit(s: State, acts: seq<Action>, n: nat)
    requires n <= |acts|
    ensures AllActed(s, acts) == AllActed(AllActed(s, acts[..n]), acts[n..])
    decreases n
  {
    hide Acted;
    if n > 0 {
      assert acts[..n][0] == acts[0] && acts[..n][1..] == acts[1..][..n - 1] && acts[1..][n - 1..] == acts[n..];
      AllActedSplit(Acted(s, acts[0]), acts[1..], n - 1);
    } else {
      assert acts[0..] == acts;
    }
  }

  /** A timer is armed before its callback runs, so a callback that ends by stopping or closing its own
      timer has the last word. */
  lemma CallbackStopsItself(s: State, i: nat, acts: seq<Action>, n: nat)
    requires WellFormed(s) && i < |s.handles| && n < |acts| && forall a :: a in acts ==> ActionInRange(a)
    requires (acts[n] == Stop(i) || acts[n] == Close(i)) && !Touches(acts[n + 1..], i)
    ensures i < |Fired(s, i, acts).handles| && !Fired(s, i, acts).handles[i].active
  {
    hide WellFormed;
    var t := Restarted(Stopped(s, i), i);
    RestartedTouches(s, i);
    AllActedKeeps(t, acts[..n]);
    var u := AllActed(t, acts[..n]);
    AllActedSplit(t, acts, n);
    assert acts[n..][0] == acts[n] && acts[n..][1..] == acts[n + 1..];
    ActedTouches(u, acts[n]);
    AllActedKeeps(Acted(u, acts[n]), acts[n + 1..]);
  }

  /** A timer that is not due stays as it is while no callback touches it. */
  lemma {:induction false} UntouchedStays(s: State, script: Script, k: nat, fired: seq<nat>, t: State, i: nat)
    requires WellFormed(s) && InRange(script) && Steps(s, script, k, fired, t) && i < |s.handles| && !Due(s, i)
    requires Untouched(script, k, 0, |fired|, i)
    ensures |t.handles| == |s.handles| && t.handles[i] == s.handles[i]
    decreases |fired|
  {
    if fired != [] {
      hide WellFormed, Fired;
      assert !TouchedAt(script, k, 0, i);
      FiredKeeps(s, fired[0], script(k));
      LaterUntouched(script, k, 0, |fired|, i);
      UntouchedStays(Fired(s, fired[0], script(k)), script, k + 1, fired[1..], t, i);
    }
  }

  /** No callback from the one `from` places on calls anything on timer `i`. */
  ghost predicate Untouched(script: Script, k: nat, from: nat, until: nat, i: nat) {
    forall m: nat :: from <= m < until ==> !TouchedAt(script, k, m, i)
  }

  lemma LaterUntouched(script: Script, k: nat, from: nat, until: nat, i: nat)
    requires Untouched(script, k, from, until, i)
    ensures Untouched(script, k + 1, if from == 0 then 0 else from - 1, if until == 0 then 0 else until - 1, i)
  {
    var l := k + 1;
    forall m: nat | (if from == 0 then 0 else from - 1) <= m < until - 1
      ensures !TouchedAt(script, l, m, i)
    {
      assert !TouchedAt(script, k, m + 1, i);
    }
  }

  /** Main theorem about repeating timers. Let the m-th timer to fire be touched neither by its own
      callback nor by later ones. When the loop returns it is armed again for an interval behind the
      loop's time, if it repeats, and idle otherwise. */
  lemma {:induction false} RepeatingIsArmed(s: State, script: Script, k: nat, fired: seq<nat>, t: State, m: nat, u: State)
    requires WellFormed(s) && s.time < MAX_TIME && InRange(script) && Steps(s, script, k, fired, t)
    requires m < |fired| && Steps(s, script, k, fired[..m], u) && fired[m] < |u.handles|
    requires Untouched(script, k, m, |fired|, fired[m])
    ensures fired[m] < |t.handles| && t.handles[fired[m]] == Rearmed(u.handles[fired[m]], s.time, u.counter)
    decreases |fired|
  {
    hide WellFormed, Fired;
    var i, v := fired[m], Fired(s, fired[0], script(k));
    FiredKeeps(s, fired[0], script(k));
    LaterUntouched(script, k, m, |fired|, i);
    if m == 0 {
      assert !TouchedAt(script, k, 0, i);
      FiringRearms(s, i, script(k));
      UntouchedStays(v, script, k + 1, fired[1..], t, i);
    } else {
      assert fired[..m][0] == fired[0] && fired[..m][1..] == fired[1..][..m - 1] && fired[1..][m - 1] == i;
      RepeatingIsArmed(v, script, k + 1, fired[1..], t, m - 1, u);
    }
  }

  /** Every callback makes this one call. */
  function Always(a: Action): Script {
    n => [a]
  }

  /** Main theorem about termination. When every callback restarts one due, open timer, the loop
      returns exactly if the timeout is positive and the clock not at its end. */
  lemma RestartingReturnsIff(s: State, i: nat, timeout: nat, repeat: nat, k: nat)
    requires WellFormed(s) && Due(s, i) && !s.handles[i].closing && timeout <= MAX_TIME && repeat <= MAX_TIME
    ensures (exists fired, t :: Run(s, Always(Start(i, true, timeout, repeat)), k, fired, t)) <==> timeout > 0 && s.time < MAX_TIME
  {
    hide Run, WellFormed, Due;
    var script := Always(Start(i, true, timeout, repeat));
    TimeInRange(s);
    if timeout > 0 && s.time < MAX_TIME {
      var fired, t := RunExists(s, script, k, 0);
    } else {
      DueAtOnceIff(s.time, timeout);
      assert KeepsStarting(script, i, s.time);
      forall fired, t
        ensures !Run(s, script, k, fired, t)
      {
        DueAtOnceNeverReturns(s, script, i, k, fired, t);
      }
    }
  }

  lemma TimeInRange(s: State)
    requires WellFormed(s)
    ensures s.time <= MAX_TIME
  {
  }

  // ----- The loop and its handles -----

  class Timer {
    const node: HeapNode
    var active: bool
    var hasCallback: bool
    var closing: bool
    var repeat: nat

    constructor (index: nat)
      ensures !active && !hasCallback && !closing && repeat == 0
      ensures fresh(node) && node.owner == index && node.key == Rank(0, 0)
    {
      active, hasCallback, closing, repeat := false, false, false, 0;
      node := new HeapNode(index);
    }
  }

  class Loop {
    const heap: Heap
    const timers: seq<Timer>
    var time: nat
    var counter: nat
    ghost var state: State

    ghost function Nodes(): set<HeapNode> {
      set t | t in timers :: t.node
    }

    /** Handle `i` as the heap and its own fields show it. */
    ghost predicate Shows(i: nat)
      requires i < |timers|
      reads this, heap, timers, Nodes()
    {
      var t := timers[i];
      assert t.node in Nodes();
      && t.node.owner == i
      && (t.active <==> t.node in heap.nodes)
      && i < |state.handles|
      && state.handles[i] == Handle(t.active, t.hasCallback, t.closing, t.repeat, t.node.key)
    }

    ghost predicate Valid()
      reads this, heap, timers, Nodes()
    {
      && heap.nodes <= Nodes() && heap.Valid()
      && state.time == time && state.counter == counter && |state.handles| == |timers|
      && (forall i: nat {:trigger Shows(i)} :: i < |timers| ==> Shows(i))
      && WellFormed(state)
    }

    /** A loop whose handles have all been through uv_timer_init. */
    constructor (ts: seq<Timer>, now: nat)
      requires now <= MAX_TIME
      requires forall i: nat :: i < |ts| ==> ts[i].node.owner == i && ts[i].node.key == Rank(0, 0)
      requires forall i: nat :: i < |ts| ==> !ts[i].active && !ts[i].hasCallback && !ts[i].closing && ts[i].repeat == 0
      ensures Valid() && fresh(heap) && timers == ts
      ensures state.time == now && forall i: nat :: !Active(state, i)
    {
      timers, time, counter := ts, now, 0;
      heap := new Heap();
      state := State(now, 0, seq(|ts|, i => Handle(false, false, false, 0, Rank(0, 0))));
      new;
      assert heap.nodes <= Nodes();
    }

    /** uv_timer_stop */
    method Stop(i: nat)
      requires Valid() && i < |timers|
      modifies `state, heap, timers`active, heap.nodes`left, heap.nodes`right, heap.nodes`parent, heap.nodes`slot
      ensures Valid() && state == Stopped(old(state), i)
      ensures state == old(state).(handles := old(state).handles[i := old(state).handles[i].(active := false)])
    {
      var t := timers[i];
      assert Shows(i);
      if t.active {
        heap.Remove(t.node);
        t.active := false;
      }
      state := Stopped(state, i);
      forall j: nat | j < |timers|
        ensures Shows(j)
      {
        assert old(Shows(j));
      }
    }

    /** The part of uv_timer_start after the checks, for a stopped handle. */
    method Arm(i: nat, timeout: nat, repeat: nat)
      requires Valid() && i < |timers| && timeout <= MAX_TIME && repeat <= MAX_TIME
      requires !timers[i].active && !timers[i].closing
      modifies `state, `counter, heap, timers, Nodes()
      ensures Valid() && state == Started(old(state), i, true, timeout, repeat)
    {
      hide WellFormed, Started;
      var t := timers[i];
      assert Shows(i);
      ghost var next := Started(state, i, true, timeout, repeat);
      StartedIs(state, i, timeout, repeat);
      var clamped := (time + timeout) % (MAX_TIME + 1);
      if clamped < timeout {
        clamped := MAX_TIME;
      }
      t.hasCallback, t.repeat, t.node.key := true, repeat, Rank(clamped, counter);
      counter := counter + 1;
      assert heap.Valid();
      heap.Insert(t.node);
      t.active := true;
      state := next;
      assert Shows(i);
      forall j: nat | j < |timers| && j != i
        ensures Shows(j)
      {
        assert old(Shows(j)) && old(Shows(i));
      }
    }

    lemma StartedIs(s: State, i: nat, timeout: nat, repeat: nat)
      requires WellFormed(s) && i < |s.handles| && !s.handles[i].closing && timeout <= MAX_TIME && repeat <= MAX_TIME
      ensures Started(s, i, true, timeout, repeat) == State(s.time, s.counter + 1,
                s.handles[i := Handle(true, true, false, repeat, Rank(Clamped(s.time, timeout), s.counter))])
      ensures WellFormed(Started(s, i, true, timeout, repeat))
    {
      TouchedKeeps(s, Started(s, i, true, timeout, repeat), i);
    }

    /** uv_timer_start */
    method Start(i: nat, callback: bool, timeout: nat, repeat: nat) returns (ok: bool)
      requires Valid() && i < |timers| && timeout <= MAX_TIME && repeat <= MAX_TIME
      modifies `state, `counter, heap, timers, Nodes()
      ensures Valid() && state == Started(old(state), i, callback, timeout, repeat)
      ensures ok == (callback && !old(timers[i].closing))
      ensures state == old(state).(counter := state.counter, handles := old(state).handles[i := state.handles[i]])
      ensures ok ==> state.counter == old(counter) + 1
      ensures ok ==> state.handles[i] == Handle(true, true, false, repeat, Rank(DueTime(time, timeout), old(counter)))
      ensures !ok ==> state == old(state)
    {
      assert Shows(i);
      if timers[i].closing || !callback {
        return false;
      }
      if timers[i].active {
        Stop(i);
        assert Shows(i);
      }
      Arm(i, timeout, repeat);
      ok := true;
    }

    /** uv_timer_again */
    method Again(i: nat) returns (ok: bool)
      requires Valid() && i < |timers|
      modifies `state, `counter, heap, timers, Nodes()
      ensures Valid() && state == Restarted(old(state), i)
      ensures ok == old(timers[i].hasCallback)
      ensures state == old(state).(counter := state.counter, handles := old(state).handles[i := state.handles[i]])
      ensures !ok || old(timers[i].repeat) == 0 ==> state == old(state)
      ensures ok && old(timers[i].repeat) > 0 ==> if old(timers[i].closing)
        then state.counter == old(counter) && state.handles[i] == old(state).handles[i].(active := false)
        else state.counter == old(counter) + 1 && state.handles[i] ==
               Handle(true, true, false, old(timers[i].repeat), Rank(DueTime(time, old(timers[i].repeat)), old(counter)))
    {
      assert Shows(i);
      if !timers[i].hasCallback {
        return false;
      }
      if timers[i].repeat != 0 {
        Stop(i);
        assert Shows(i);
        var _ := Start(i, true, timers[i].repeat, timers[i].repeat);
      }
      ok := true;
    }

    /** uv_timer_set_repeat */
    method SetRepeat(i: nat, repeat: nat)
      requires Valid() && i < |timers| && repeat <= MAX_TIME
      modifies `state, timers`repeat
      ensures Valid() && state == Acted(old(state), Action.SetRepeat(i, repeat))
      ensures state == old(state).(handles := old(state).handles[i := old(state).handles[i].(repeat := repeat)])
    {
      assert Shows(i);
      ActedTouches(state, Action.SetRepeat(i, repeat));
      timers[i].repeat := repeat;
      state := Acted(state, Action.SetRepeat(i, repeat));
      forall j: nat | j < |timers|
        ensures Shows(j)
      {
        assert old(Shows(j)) && old(Shows(i));
      }
    }

    /** What uv_close does to a timer. */
    method Close(i: nat)
      requires Valid() && i < |timers|
      modifies `state, heap, timers`active, timers`closing
      modifies heap.nodes`left, heap.nodes`right, heap.nodes`parent, heap.nodes`slot
      ensures Valid() && state == Acted(old(state), Action.Close(i))
      ensures state == old(state).(handles := old(state).handles[i := old(state).handles[i].(active := false, closing := true)])
    {
      ghost var next := Acted(state, Action.Close(i));
      ActedTouches(state, Action.Close(i));
      Stop(i);
      assert Shows(i);
      assert !timers[i].active;
      MarkClosing(i);
      assert state == next;
    }

    method MarkClosing(i: nat)
      requires Valid() && i < |timers| && !timers[i].active
      modifies `state, timers`closing
      ensures Valid() && state == old(state).(handles := old(state).handles[i := old(state).handles[i].(closing := true)])
    {
      assert Shows(i);
      timers[i].closing := true;
      state := state.(handles := state.handles[i := state.handles[i].(closing := true)]);
      TouchedKeeps(old(state), state, i);
      forall j: nat | j < |timers|
        ensures Shows(j)
      {
        assert old(Shows(j)) && old(Shows(i));
      }
    }

    lemma MinIsFirst()
      requires Valid()
      ensures heap.min == null ==> forall i: nat :: !Active(state, i)
      ensures heap.min != null ==>
        && heap.min.owner < |timers| && timers[heap.min.owner].node == heap.min
        && IsFirst(state, heap.min.owner)
    {
      heap.EmptyIffNoMin();
      forall i: nat | Active(state, i)
        ensures timers[i].node in heap.nodes && state.handles[i].key == timers[i].node.key
        ensures heap.min != null && !Less(timers[i].node.key, heap.min.key)
      {
        assert Shows(i);
        heap.MinIsLeast(timers[i].node);
      }
      if heap.min != null {
        assert heap.min in heap.nodes by {
          assert heap.LinkedAt(1);
        }
        var t :| t in timers && t.node == heap.min;
        var i :| 0 <= i < |timers| && timers[i] == t;
        assert Shows(i);
      }
    }

    /** uv__next_timeout */
    method NextTimeout() returns (r: int)
      requires Valid()
      ensures r == -1 <==> forall i: nat :: !Active(state, i)
      ensures r == 0 <==> exists i: nat :: Due(state, i)
      ensures -1 <= r <= INT_MAX
      ensures forall i: nat :: Active(state, i) && r > 0 ==> time + r <= state.handles[i].key.timeout
      ensures 0 < r < INT_MAX ==> exists i: nat :: Active(state, i) && time + r == state.handles[i].key.timeout
    {
      MinIsFirst();
      if heap.min == null {
        return -1;
      }
      ghost var first := heap.min.owner;
      assert Shows(first);
      if heap.min.key.timeout <= time {
        assert Due(state, first);
        return 0;
      }
      var diff := heap.min.key.timeout - time;
      if diff > INT_MAX {
        diff := INT_MAX;
      }
      return diff;
    }

    /** One call made by a callback. */
    method Perform(a: Action)
      requires Valid() && ActionInRange(a)
      modifies `state, `counter, heap, timers, Nodes()
      ensures Valid() && state == Acted(old(state), a)
    {
      if a.i < |timers| {
        match a {
          case Start(i, callback, timeout, repeat) => var _ := Start(i, callback, timeout, repeat);
          case Stop(i) => Stop(i);
          case Again(i) => var _ := Again(i);
          case SetRepeat(i, repeat) => SetRepeat(i, repeat);
          case Close(i) => Close(i);
        }
      }
    }

    method Callback(acts: seq<Action>)
      requires Valid() && forall a :: a in acts ==> ActionInRange(a)
      modifies `state, `counter, heap, timers, Nodes()
      ensures Valid() && state == AllActed(old(state), acts)
    {
      hide Acted, WellFormed;
      var m := 0;
      while m < |acts|
        invariant 0 <= m <= |acts| && Valid()
        invariant AllActed(state, acts[m..]) == AllActed(old(state), acts)
      {
        assert acts[m..][0] == acts[m] && acts[m..][1..] == acts[m + 1..];
        Perform(acts[m]);
        m := m + 1;
      }
    }

    /** uv__run_timers, when only finitely many callbacks start timers to be due at once. */
    method RunTimers(script: Script, ghost from: nat) returns (ghost fired: seq<nat>)
      requires Valid() && time < MAX_TIME && PositiveFrom(script, from)
      modifies `state, `counter, heap, timers, Nodes()
      ensures Valid() && Run(old(state), script, 0, fired, state)
    {
      hide Steps, WellFormed, Fired, IsFirst, Due;
      var k := 0;
      fired := [];
      StepsBegin(state, script);
      while true
        invariant Valid() && time < MAX_TIME && k == |fired|
        invariant Steps(old(state), script, 0, fired, state)
        decreases if k < from then from - k else 0, |DueSet(state)|
      {
        MinIsFirst();
        if heap.min == null {
          NoneDueWhenEmpty(state);
          break;
        }
        var i := heap.min.owner;
        DueIffMinDue(i);
        if heap.min.key.timeout > time {
          break;
        }
        if k >= from {
          FewerDue(state, i, script(k));
        }
        StepsExtend(old(state), script, 0, fired, state, i);
        FireOne(i, script(k));
        k := k + 1;
        fired := fired + [i];
      }
    }

    lemma DueIffMinDue(i: nat)
      requires Valid() && i < |timers| && timers[i].node == heap.min && IsFirst(state, i)
      ensures heap.min.key.timeout <= time <==> Due(state, i)
      ensures heap.min.key.timeout > time ==> forall j: nat :: !Due(state, j)
    {
      assert Shows(i);
    }

    /** The body of the loop, from the stop to the callback. */
    method FireOne(i: nat, acts: seq<Action>)
      requires Valid() && i < |timers| && forall a :: a in acts ==> ActionInRange(a)
      modifies `state, `counter, heap, timers, Nodes()
      ensures Valid() && state == Fired(old(state), i, acts)
    {
      Stop(i);
      var _ := Again(i);
      Callback(acts);
    }
  }
}
