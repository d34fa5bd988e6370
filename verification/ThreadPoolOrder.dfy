/** Work is taken in the order it was submitted, slow I/O work in an order of its own
    (post and worker, threadpool.c). */
module ThreadPoolOrder {
  import opened Options
  import opened ThreadPool

  /** The items in the shared queue, without the messages. */
  function WorkIds(q: seq<Msg>): seq<Id> {
    if q == [] then [] else WorkIds(q[..|q| - 1]) + match q[|q| - 1]
      case Work(id) => [id]
      case _ => []
  }

  function Lane(s: Pool, kind: Kind): seq<Id> {
    if kind == Fast then WorkIds(s.wq) else s.slow
  }

  /** Queued on the lane for its kind. */
  predicate OnLane(s: Pool, id: Id, kind: Kind) {
    At(s, id, if kind == Fast then OnWq else OnSlow)
  }

  /** The items of a kind in the order they were submitted in. */
  function Submitted(steps: seq<Step>, kind: Kind): seq<Id> {
    if steps == [] then []
    else
      var step := steps[|steps| - 1];
      Submitted(steps[..|steps| - 1], kind) + if step.Submit? && step.kind == kind then [step.id] else []
  }

  /** Those of them still queued. */
  function Still(s: Pool, ids: seq<Id>, kind: Kind): seq<Id> {
    if ids == [] then []
    else Still(s, ids[..|ids| - 1], kind) + if OnLane(s, ids[|ids| - 1], kind) then [ids[|ids| - 1]] else []
  }

  ghost predicate InOrder(s: Pool, ids: seq<Id>, kind: Kind) {
    NoDup(ids) && (forall id :: id in ids ==> id in s.items) && Lane(s, kind) == Still(s, ids, kind)
  }

  // ----- Sequences -----

  lemma WorkIdsSnoc(q: seq<Msg>, m: Msg)
    ensures WorkIds(q + [m]) == WorkIds(q) + if m.Work? then [m.id] else []
  {
    assert (q + [m])[..|q|] == q;
  }

  lemma {:induction false} WorkIdsConcat(a: seq<Msg>, b: seq<Msg>)
    ensures WorkIds(a + b) == WorkIds(a) + WorkIds(b)
    decreases |b|
  {
    if b == [] {
      assert a + b == a;
    } else {
      var init, m := b[..|b| - 1], b[|b| - 1];
      assert a + b == (a + init) + [m] && b == init + [m];
      WorkIdsConcat(a, init);
      WorkIdsSnoc(a + init, m);
      WorkIdsSnoc(init, m);
    }
  }

  lemma WorkIdsHead(q: seq<Msg>)
    requires q != []
    ensures WorkIds(q) == (if q[0].Work? then [q[0].id] else []) + WorkIds(q[1..])
  {
    WorkIdsConcat([q[0]], q[1..]);
    assert q == [q[0]] + q[1..];
    WorkIdsSnoc([], q[0]);
    assert [] + [q[0]] == [q[0]];
  }

  lemma {:induction false} WorkIdsRemove(q: seq<Msg>, id: Id)
    ensures WorkIds(Remove(q, Work(id))) == Remove(WorkIds(q), id)
    decreases |q|
  {
    hide WorkIds;
    if q == [] {
      NoWorkIds();
    } else {
      WorkIdsHead(q);
      WorkIdsRemove(q[1..], id);
      var rest := Remove(q[1..], Work(id));
      WorkIdsHead([q[0]] + rest);
      assert ([q[0]] + rest)[1..] == rest;
      if q[0].Work? {
        assert WorkIds(q)[1..] == WorkIds(q[1..]);
      } else {
        assert WorkIds(q) == WorkIds(q[1..]) && WorkIds([q[0]] + rest) == WorkIds(rest);
      }
    }
  }

  lemma NoWorkIds()
    ensures WorkIds([]) == []
  {
  }

  lemma RemoveIs(q: seq<Id>, x: Id)
    ensures Remove(q, x) == if q == [] then [] else if q[0] == x then q[1..] else [q[0]] + Remove(q[1..], x)
  {
  }

  lemma {:induction false} RemoveSnoc(q: seq<Id>, y: Id, x: Id)
    requires x !in q || x != y
    ensures Remove(q + [y], x) == if x == y then q else Remove(q, x) + [y]
    decreases |q|
  {
    hide Remove;
    RemoveIs(q, x);
    RemoveIs(q + [y], x);
    RemoveIs([], x);
    if q == [] {
      assert (q + [y])[1..] == [];
    } else {
      assert (q + [y])[1..] == q[1..] + [y];
      RemoveSnoc(q[1..], y, x);
    }
  }

  lemma RemoveHead(q: seq<Id>)
    requires q != []
    ensures Remove(q, q[0]) == q[1..]
  {
  }

  lemma {:induction false} StillSubset(s: Pool, ids: seq<Id>, kind: Kind)
    ensures forall id :: id in Still(s, ids, kind) <==> id in ids && OnLane(s, id, kind)
    decreases |ids|
  {
    if ids != [] {
      StillSubset(s, ids[..|ids| - 1], kind);
      assert ids == ids[..|ids| - 1] + [ids[|ids| - 1]];
    }
  }

  lemma {:induction false} StillSame(s: Pool, r: Pool, ids: seq<Id>, kind: Kind)
    requires forall id :: id in ids ==> (OnLane(r, id, kind) <==> OnLane(s, id, kind))
    ensures Still(r, ids, kind) == Still(s, ids, kind)
    decreases |ids|
  {
    if ids != [] {
      StillSame(s, r, ids[..|ids| - 1], kind);
    }
  }

  lemma {:induction false} StillRemoved(s: Pool, r: Pool, ids: seq<Id>, kind: Kind, x: Id)
    requires NoDup(ids) && forall id :: id in ids ==> (OnLane(r, id, kind) <==> OnLane(s, id, kind) && id != x)
    ensures Still(r, ids, kind) == Remove(Still(s, ids, kind), x)
    decreases |ids|
  {
    hide Remove, OnLane;
    if ids == [] {
      RemoveNothing(x);
    } else {
      var init, y := ids[..|ids| - 1], ids[|ids| - 1];
      StillRemoved(s, r, init, kind, x);
      StillSubset(s, init, kind);
      assert y !in init && y in ids;
      if OnLane(s, y, kind) {
        RemoveSnoc(Still(s, init, kind), y, x);
      }
      assert Still(s, init, kind) + [] == Still(s, init, kind) && Still(r, init, kind) + [] == Still(r, init, kind);
      if x == y {
        RemoveAbsent(Still(s, init, kind), x);
      }
    }
  }

  lemma RemoveNothing(x: Id)
    ensures Remove([], x) == []
  {
  }

  lemma RemoveAbsent(q: seq<Id>, x: Id)
    requires x !in q
    ensures Remove(q, x) == q
  {
  }

  // ----- Every step keeps the order -----

  /** Nothing changes on a lane. */
  ghost predicate LaneSame(s: Pool, r: Pool, kind: Kind) {
    Lane(r, kind) == Lane(s, kind) && forall id :: id in s.items ==> id in r.items && (OnLane(r, id, kind) <==> OnLane(s, id, kind))
  }

  /** An item leaves a lane. */
  ghost predicate LaneLeft(s: Pool, r: Pool, kind: Kind, x: Id) {
    && Lane(r, kind) == Remove(Lane(s, kind), x)
    && forall id :: id in s.items ==> id in r.items && (OnLane(r, id, kind) <==> OnLane(s, id, kind) && id != x)
  }

  lemma SameKeeps(s: Pool, r: Pool, ids: seq<Id>, kind: Kind)
    requires InOrder(s, ids, kind) && LaneSame(s, r, kind)
    ensures InOrder(r, ids, kind)
  {
    StillSame(s, r, ids, kind);
  }

  lemma LeftKeeps(s: Pool, r: Pool, ids: seq<Id>, kind: Kind, x: Id)
    requires InOrder(s, ids, kind) && LaneLeft(s, r, kind, x)
    ensures InOrder(r, ids, kind)
  {
    StillRemoved(s, r, ids, kind, x);
  }

  lemma PostLane(s: Pool, m: Msg, woken: Tid)
    ensures var r := Post(s, m, woken);
      r.items == s.items && r.slow == s.slow && WorkIds(r.wq) == WorkIds(s.wq) + if m.Work? then [m.id] else []
  {
    WorkIdsSnoc(s.wq, m);
  }

  lemma SubmitLanes(s: Pool, id: Id, l: nat, kind: Kind, woken: Tid, other: Kind)
    requires Enabled(s, Submit(id, l, kind, woken))
    ensures var r := DoSubmit(s, id, l, kind, woken);
      && Lane(r, other) == Lane(s, other) + (if kind == other then [id] else [])
      && id in r.items && (OnLane(r, id, other) <==> kind == other)
      && forall x :: x in s.items ==> x in r.items && (OnLane(r, x, other) <==> OnLane(s, x, other))
  {
    hide WorkIds, Post;
    var item := Item(l, kind, Job, if kind == SlowIO then OnSlow else OnWq, 0, [], false);
    var t := s.(items := s.items[id := item]);
    if kind == SlowIO {
      PostLane(t.(slow := t.slow + [id]), RunSlow, woken);
    } else {
      PostLane(t, Work(id), woken);
    }
  }

  lemma SubmitKeeps(s: Pool, ids: seq<Id>, step: Step, kind: Kind)
    requires step.Submit? && Enabled(s, step) && InOrder(s, ids, kind)
    ensures InOrder(DoSubmit(s, step.id, step.loop, step.kind, step.woken), if step.kind == kind then ids + [step.id] else ids, kind)
  {
    hide Lane, DoSubmit, OnLane;
    var r := DoSubmit(s, step.id, step.loop, step.kind, step.woken);
    SubmitLanes(s, step.id, step.loop, step.kind, step.woken, kind);
    StillSame(s, r, ids, kind);
    if step.kind == kind {
      assert (ids + [step.id])[..|ids|] == ids;
    }
  }

  /** A worker takes the item at the head of the shared queue. */
  lemma TakeFast(s: Pool, t: Tid, kind: Kind)
    requires QueuesHold(s) && t < |s.workers| && HeadsKnown(s) && s.wq != [] && s.wq[0].Work?
    ensures var id := s.wq[0].id;
      var r := SetItem(s, id, s.items[id].(place := With(t))).(wq := s.wq[1..], workers := s.workers[t := Running(id, false)]);
      && (kind == SlowIO ==> LaneSame(s, r, kind))
      && (kind == Fast ==> Lane(s, kind) != [] && id == Lane(s, kind)[0] && LaneLeft(s, r, kind, id))
  {
    hide WorkIds, Remove;
    var id := s.wq[0].id;
    WorkIdsHead(s.wq);
    assert At(s, id, OnWq);
    RemoveHead(WorkIds(s.wq));
    assert WorkIds(s.wq)[1..] == WorkIds(s.wq[1..]);
  }

  /** A worker takes the item at the head of the slow queue. */
  lemma TakeSlowLane(s: Pool, t: Tid, kind: Kind)
    requires QueuesHold(s) && t < |s.workers| && HeadsKnown(s) && s.wq != [] && s.wq[0].RunSlow? && s.slow != []
    ensures var id, r := s.slow[0], TakeSlow(s, t);
      && (kind == Fast ==> LaneSame(s, r, kind))
      && (kind == SlowIO ==> Lane(s, kind) != [] && id == Lane(s, kind)[0] && LaneLeft(s, r, kind, id))
  {
    hide WorkIds, Remove;
    WorkIdsHead(s.wq);
    assert WorkIds(s.wq) == WorkIds(s.wq[1..]);
    assert At(s, s.slow[0], OnSlow);
    RemoveHead(s.slow);
  }

  /** The slow-I/O message moves by itself. */
  lemma MessageMoves(s: Pool, kind: Kind)
    requires s.wq != [] && s.wq[0].RunSlow?
    ensures LaneSame(s, s.(wq := s.wq[1..]), kind) && LaneSame(s, s.(wq := s.wq[1..] + [RunSlow]), kind)
  {
    hide WorkIds;
    WorkIdsHead(s.wq);
    WorkIdsSnoc(s.wq[1..], RunSlow);
    assert WorkIds(s.wq) == WorkIds(s.wq[1..]) && WorkIds(s.wq[1..]) + [] == WorkIds(s.wq[1..]);
  }

  lemma PostedLane(s: Pool, woken: Tid, kind: Kind)
    ensures LaneSame(s, Post(s, RunSlow, woken), kind)
  {
    hide Post, WorkIds;
    PostLane(s, RunSlow, woken);
  }

  /** Waking and falling asleep concern no lane. */
  lemma WorkersAside(s: Pool, r: Pool, kind: Kind)
    requires r == s.(workers := r.workers, idle := r.idle)
    ensures LaneSame(s, r, kind)
  {
  }

  /** The head of the shared queue, or of the slow one, goes to a worker; messages move by themselves. */
  lemma TopLane(s: Pool, t: Tid, woken: Tid, kind: Kind) returns (taken: Option<Id>)
    requires Inv(s) && t < |s.workers| && HeadsKnown(s)
    ensures var r := DoWorkerTop(s, t, woken);
      && (taken.None? ==> LaneSame(s, r, kind))
      && (taken.Some? ==> Lane(s, kind) != [] && taken.value == Lane(s, kind)[0] && LaneLeft(s, r, kind, taken.value))
  {
    hide WorkersOk, CountersOk, LoopsOk, ItemsOk, NotStuck, Lane, OnLane, Post, QueuesHold, TakeSlow, Scheduled;
    taken := None;
    var a, r := Reacquire(s, t), DoWorkerTop(s, t, woken);
    QueuesSame(s, a);
    WorkersAside(s, a, kind);
    if a.MustWait() || s.wq[0].Exit? {
      WorkersAside(s, r, kind);
    } else if s.wq[0].Work? {
      TakeFast(a, t, kind);
      taken := if kind == Fast then Some(s.wq[0].id) else None;
    } else {
      MessageMoves(a, kind);
      if a.running < a.Threshold() && s.slow != [] {
        TakeSlowLane(a, t, kind);
        PostedLane(TakeSlow(a, t), woken, kind);
        taken := if kind == SlowIO then Some(s.slow[0]) else None;
      }
    }
  }

  lemma QueuesSame(s: Pool, r: Pool)
    requires Inv(s) && r == s.(workers := r.workers, idle := r.idle)
    ensures QueuesHold(r)
  {
    hide WorkersOk, CountersOk, LoopsOk, ItemsOk, NotStuck;
  }

  lemma CancelLane(s: Pool, id: Id, kind: Kind)
    requires Inv(s) && id in s.items && s.items[id].loop < |s.loops|
    ensures var r := DoCancelBegin(s, id); LaneSame(s, r, kind) || LaneLeft(s, r, kind, id)
  {
    hide Inv, WorkIds, Remove;
    QueuesKnown(s);
    WorkIdsRemove(s.wq, id);
  }

  lemma QueuesKnown(s: Pool)
    requires Inv(s)
    ensures QueuesHold(s)
  {
  }

  predicate OffLanes(p: Place) {
    !p.OnWq? && !p.OnSlow?
  }

  /** An item that is on neither queue moves on. */
  lemma ElsewhereLane(s: Pool, r: Pool, id: Id, kind: Kind)
    requires r.wq == s.wq && r.slow == s.slow && id in s.items && id in r.items && r.items == s.items[id := r.items[id]]
    requires OffLanes(s.items[id].place) && OffLanes(r.items[id].place)
    ensures LaneSame(s, r, kind)
  {
    hide WorkIds;
  }

  lemma HeldElsewhere(s: Pool, t: Tid)
    requires Inv(s) && t < |s.workers| && s.workers[t].Holds().Some?
    ensures s.workers[t].id in s.items && OffLanes(s.items[s.workers[t].id].place)
  {
    hide QueuesHold, CountersOk, LoopsOk, ItemsOk, NotStuck;
    assert HolderOk(s, t);
  }

  lemma LoopElsewhere(s: Pool, l: nat)
    requires Inv(s) && l < |s.loops|
    ensures s.loops[l].cancelling.Some? ==> s.loops[l].cancelling.value in s.items && OffLanes(s.items[s.loops[l].cancelling.value].place)
    ensures s.loops[l].batch != [] ==> s.loops[l].batch[0] in s.items && OffLanes(s.items[s.loops[l].batch[0]].place)
  {
    hide QueuesHold, CountersOk, WorkersOk, ItemsOk, NotStuck;
    assert LoopOk(s, l);
    if s.loops[l].cancelling.Some? {
      assert AtOn(s, s.loops[l].cancelling.value, Cancelling, l);
    }
    if s.loops[l].batch != [] {
      assert AtOn(s, s.loops[l].batch[0], InBatch, l);
    }
  }

  lemma OtherLane(s: Pool, step: Step, kind: Kind)
    requires Inv(s) && Enabled(s, step) && Known(s, step)
    requires !step.Submit? && !step.WorkerTop? && !step.CancelBegin?
    ensures LaneSame(s, Apply(s, step), kind)
  {
    hide Inv, LaneSame, Post;
    var r := Apply(s, step);
    match step
    case PostExit(woken) => ExitLane(s, woken, kind);
    case SpuriousWake(_) => WorkersAside(s, r, kind);
    case RunWork(t) =>
      HeldElsewhere(s, t);
      ElsewhereLane(s, r, s.workers[t].id, kind);
    case FinishWork(t) =>
      HeldElsewhere(s, t);
      ElsewhereLane(s, r, s.workers[t].id, kind);
    case Relock(_) => RelockLane(s, r, kind);
    case CancelEnd(l) =>
      LoopElsewhere(s, l);
      ElsewhereLane(s, r, s.loops[l].cancelling.value, kind);
    case TakeBatch(l) => BatchLane(s, l, kind);
    case FireDone(l) =>
      LoopElsewhere(s, l);
      ElsewhereLane(s, r, s.loops[l].batch[0], kind);
  }

  lemma ExitLane(s: Pool, woken: Tid, kind: Kind)
    ensures LaneSame(s, Post(s, Exit, woken), kind)
  {
    hide Post, WorkIds;
    PostLane(s, Exit, woken);
  }

  lemma RelockLane(s: Pool, r: Pool, kind: Kind)
    requires r == s.(workers := r.workers, running := r.running)
    ensures LaneSame(s, r, kind)
  {
  }

  lemma BatchLane(s: Pool, l: nat, kind: Kind)
    requires Inv(s) && l < |s.loops|
    ensures LaneSame(s, DoTakeBatch(s, l), kind)
  {
    hide WorkersOk, CountersOk, QueuesHold, ItemsOk, NotStuck, WorkIds;
    assert LoopOk(s, l);
    forall id | id in s.loops[l].pending
      ensures At(s, id, OnLoop)
    {
      assert AtOn(s, id, OnLoop, l);
    }
  }

  lemma StepKeepsOrder(s: Pool, ids: seq<Id>, step: Step, kind: Kind)
    requires Inv(s) && Enabled(s, step) && Known(s, step) && InOrder(s, ids, kind)
    ensures InOrder(Apply(s, step), if step.Submit? && step.kind == kind then ids + [step.id] else ids, kind)
  {
    hide Inv, InOrder, LaneSame, LaneLeft, DoSubmit, DoWorkerTop, DoCancelBegin;
    var r := Apply(s, step);
    if step.Submit? {
      SubmitKeeps(s, ids, step, kind);
    } else if step.WorkerTop? {
      var taken := TopLane(s, step.t, step.woken, kind);
      if taken.None? {
        SameKeeps(s, r, ids, kind);
      } else {
        LeftKeeps(s, r, ids, kind, taken.value);
      }
    } else if step.CancelBegin? {
      CancelLane(s, step.id, kind);
      if LaneSame(s, r, kind) {
        SameKeeps(s, r, ids, kind);
      } else {
        LeftKeeps(s, r, ids, kind, step.id);
      }
    } else {
      OtherLane(s, step, kind);
      SameKeeps(s, r, ids, kind);
    }
  }

  // ----- Runs -----

  lemma SubmittedSnoc(steps: seq<Step>, step: Step, kind: Kind)
    ensures Submitted(steps + [step], kind) ==
      if step.Submit? && step.kind == kind then Submitted(steps, kind) + [step.id] else Submitted(steps, kind)
  {
    assert (steps + [step])[..|steps|] == steps;
  }

  lemma NothingSubmitted(kind: Kind)
    ensures Submitted([], kind) == []
  {
  }

  lemma NothingYet(s: Pool, kind: Kind)
    requires s.wq == [] && s.slow == []
    ensures InOrder(s, [], kind)
  {
  }

  /** In every reachable state each queue holds the items still queued in order of submission. */
  lemma {:induction false} QueuedInOrder(states: seq<Pool>, steps: seq<Step>, nthreads: nat, nloops: nat, i: nat, kind: Kind)
    requires IsRun(states, steps, nthreads, nloops) && i <= |steps|
    ensures InOrder(states[i], Submitted(steps[..i], kind), kind)
  {
    hide Inv, Enabled, Known, Apply, InOrder, Submitted;
    if i == 0 {
      assert steps[..0] == [];
      NothingSubmitted(kind);
      NothingYet(states[0], kind);
    } else {
      QueuedInOrder(states, steps, nthreads, nloops, i - 1, kind);
      RunInv(states, steps, nthreads, nloops, i - 1);
      InvKnows(states[i - 1], steps[i - 1]);
      StepKeepsOrder(states[i - 1], Submitted(steps[..i - 1], kind), steps[i - 1], kind);
      SubmittedSnoc(steps[..i - 1], steps[i - 1], kind);
      assert steps[..i] == steps[..i - 1] + [steps[i - 1]];
    }
  }

  /** Main theorem: when an item goes from its queue to a worker, no item of its kind submitted before
      it is still queued. */
  lemma FirstComeFirstServed(states: seq<Pool>, steps: seq<Step>, nthreads: nat, nloops: nat, i: nat, kind: Kind, x: nat, y: nat, t: Tid)
    requires IsRun(states, steps, nthreads, nloops) && i < |steps|
    requires x < y < |Submitted(steps[..i], kind)|
    requires OnLane(states[i], Submitted(steps[..i], kind)[y], kind) && At(states[i + 1], Submitted(steps[..i], kind)[y], With(t))
    ensures !OnLane(states[i], Submitted(steps[..i], kind)[x], kind)
  {
    hide Known, Apply;
    var ids, s, step := Submitted(steps[..i], kind), states[i], steps[i];
    QueuedInOrder(states, steps, nthreads, nloops, i, kind);
    RunInv(states, steps, nthreads, nloops, i);
    InvKnows(s, step);
    TakerIsFirst(s, step, kind, ids[y], t);
    if OnLane(s, ids[x], kind) {
      StillOrder(s, ids, kind, x, y);
    }
  }

  /** Only the head of a queue is taken. */
  lemma TakerIsFirst(s: Pool, step: Step, kind: Kind, id: Id, t: Tid)
    requires Inv(s) && Enabled(s, step) && Known(s, step) && OnLane(s, id, kind) && At(Apply(s, step), id, With(t))
    ensures Lane(s, kind) != [] && Lane(s, kind)[0] == id
  {
    hide Inv, DoSubmit, DoWorkerTop, DoCancelBegin, Lane;
    if step.Submit? {
      SubmitLanes(s, step.id, step.loop, step.kind, step.woken, kind);
    } else if step.WorkerTop? {
      var taken := TopLane(s, step.t, step.woken, kind);
    } else if step.CancelBegin? {
      CancelTakesNothing(s, step.id, id);
    } else {
      OtherLane(s, step, kind);
    }
  }

  lemma CancelTakesNothing(s: Pool, x: Id, id: Id)
    requires x in s.items && s.items[x].loop < |s.loops| && id in s.items
    ensures DoCancelBegin(s, x).items[id].place == s.items[id].place || DoCancelBegin(s, x).items[id].place.Cancelling?
  {
  }

  /** Of two queued items the earlier one is not behind the head. */
  lemma {:induction false} StillOrder(s: Pool, ids: seq<Id>, kind: Kind, x: nat, y: nat)
    requires NoDup(ids) && x < y < |ids| && OnLane(s, ids[x], kind)
    ensures Still(s, ids, kind) != [] && Still(s, ids, kind)[0] != ids[y]
    decreases |ids|
  {
    var init := ids[..|ids| - 1];
    StillSubset(s, init, kind);
    assert ids[x] == init[x];
    if y < |init| {
      StillOrder(s, init, kind, x, y);
    } else {
      assert ids[y] !in init;
    }
  }

  // ----- Done callbacks -----

  /** The items whose callbacks a loop has still to call, in the order it will call them. */
  function Upcoming(s: Pool, l: nat): seq<Id>
    requires l < |s.loops|
  {
    s.loops[l].batch + s.loops[l].pending
  }

  ghost predicate Ahead(q: seq<Id>, a: Id, b: Id) {
    a in q && forall i, j :: 0 <= i < |q| && 0 <= j < |q| && q[i] == a && q[j] == b ==> i < j
  }

  lemma AheadOfNew(q: seq<Id>, x: Id, a: Id, b: Id)
    requires Ahead(q, a, b) && x !in q
    ensures Ahead(q + [x], a, b)
  {
  }

  lemma AheadInTail(q: seq<Id>, a: Id, b: Id)
    requires Ahead(q, a, b) && q[0] != a
    ensures Ahead(q[1..], a, b)
  {
    var i :| 0 <= i < |q| && q[i] == a;
    assert q[1..][i - 1] == a;
  }

  lemma AheadWithout(q: seq<Id>, k: nat, a: Id, b: Id)
    requires Ahead(q, a, b) && k < |q| && q[k] != a
    ensures Ahead(q[..k] + q[k + 1..], a, b)
  {
    var r := q[..k] + q[k + 1..];
    assert forall i :: 0 <= i < |r| ==> r[i] == q[if i < k then i else i + 1];
    var i :| 0 <= i < |q| && q[i] == a;
    assert r[if i < k then i else i - 1] == a;
  }

  lemma {:induction false} RemoveDeletes(q: seq<Id>, x: Id) returns (k: nat)
    requires x in q
    ensures k < |q| && q[k] == x && Remove(q, x) == q[..k] + q[k + 1..]
  {
    hide Remove;
    RemoveIs(q, x);
    if q[0] == x {
      k := 0;
    } else {
      k := RemoveDeletes(q[1..], x);
      k := k + 1;
      assert q[..k] == [q[0]] + q[1..][..k - 1];
    }
  }

  lemma AheadRemoved(q: seq<Id>, r: seq<Id>, x: Id, a: Id, b: Id)
    requires Ahead(q + r, a, b) && x != a
    ensures Ahead(Remove(q, x) + Remove(r, x), a, b)
  {
    hide Remove, Ahead;
    var q' := Remove(q, x);
    if x in q {
      var k := RemoveDeletes(q, x);
      assert (q + r)[k] == x && (q + r)[..k] + (q + r)[k + 1..] == q' + r;
      AheadWithout(q + r, k, a, b);
    }
    if x in r {
      var k := RemoveDeletes(r, x);
      var n := |q'| + k;
      assert (q' + r)[n] == x && (q' + r)[..n] + (q' + r)[n + 1..] == q' + Remove(r, x);
      AheadWithout(q' + r, n, a, b);
    }
  }

  /** A new item on a loop's queue. */
  lemma PostedIsNew(s: Pool, l: nat, id: Id)
    requires Inv(s) && l < |s.loops| && id in s.items && !s.items[id].place.OnLoop? && !s.items[id].place.InBatch?
    ensures id !in Upcoming(s, l)
  {
    hide QueuesHold, WorkersOk, CountersOk, ItemsOk, NotStuck;
    assert LoopOk(s, l);
    assert !AtOn(s, id, OnLoop, l) && !AtOn(s, id, InBatch, l);
  }

  /** What a step does to the callbacks to come. */
  ghost predicate UpcomingChanges(s: Pool, step: Step, r: Pool, l: nat)
    requires l < |s.loops|
  {
    && |r.loops| == |s.loops|
    && (|| Upcoming(r, l) == Upcoming(s, l)
        || (exists x :: x !in Upcoming(s, l) && Upcoming(r, l) == Upcoming(s, l) + [x])
        || (step == FireDone(l) && Upcoming(s, l) != [] && Upcoming(r, l) == Upcoming(s, l)[1..]
            && Upcoming(s, l)[0] in r.items && r.items[Upcoming(s, l)[0]].fired != [])
        || (step.CancelBegin? && Upcoming(r, l) == Remove(s.loops[l].batch, step.id) + Remove(s.loops[l].pending, step.id)))
    && forall id :: id in s.items && s.items[id].fired != [] ==> id in r.items && r.items[id].fired != []
  }

  lemma StepUpcoming(s: Pool, step: Step, l: nat)
    requires Inv(s) && Enabled(s, step) && Known(s, step) && l < |s.loops|
    ensures UpcomingChanges(s, step, Apply(s, step), l)
  {
    hide Inv, Post, Remove;
    match step
    case FinishWork(t) => FinishUpcoming(s, t, l);
    case CancelEnd(m) => CancelEndUpcoming(s, m, l);
    case FireDone(m) => FireUpcoming(s, m, l);
    case TakeBatch(m) => TakeUpcoming(s, m, l);
    case PostExit(woken) => PostUpcoming(s, Exit, woken);
    case Submit(_, _, _, _) => SubmitUpcoming(s, step, l);
    case WorkerTop(t, woken) => TopUpcoming(s, t, woken, l);
    case _ =>
  }

  lemma PostUpcoming(s: Pool, m: Msg, woken: Tid)
    ensures Post(s, m, woken).loops == s.loops && Post(s, m, woken).items == s.items
  {
  }

  lemma SubmitUpcoming(s: Pool, step: Step, l: nat)
    requires step.Submit? && Enabled(s, step) && l < |s.loops|
    ensures UpcomingChanges(s, step, DoSubmit(s, step.id, step.loop, step.kind, step.woken), l)
  {
    hide Remove;
  }

  lemma TopUpcoming(s: Pool, t: Tid, woken: Tid, l: nat)
    requires t < |s.workers| && HeadsKnown(s) && l < |s.loops|
    ensures UpcomingChanges(s, WorkerTop(t, woken), DoWorkerTop(s, t, woken), l)
  {
    hide Remove;
  }

  lemma FinishUpcoming(s: Pool, t: Tid, l: nat)
    requires Inv(s) && Enabled(s, FinishWork(t)) && Known(s, FinishWork(t)) && l < |s.loops|
    ensures UpcomingChanges(s, FinishWork(t), DoFinish(s, t), l)
  {
    hide Inv, Remove;
    var id := s.workers[t].id;
    HeldPlace(s, t);
    PostedIsNew(s, l, id);
    if s.items[id].loop == l {
      assert Upcoming(DoFinish(s, t), l) == Upcoming(s, l) + [id];
    }
  }

  lemma HeldPlace(s: Pool, t: Tid)
    requires Inv(s) && t < |s.workers| && s.workers[t].Holds().Some?
    ensures s.workers[t].id in s.items && s.items[s.workers[t].id].place == With(t)
  {
    hide QueuesHold, CountersOk, LoopsOk, ItemsOk, NotStuck;
    assert HolderOk(s, t);
  }

  lemma CancelEndUpcoming(s: Pool, m: nat, l: nat)
    requires Inv(s) && Enabled(s, CancelEnd(m)) && Known(s, CancelEnd(m)) && l < |s.loops|
    ensures UpcomingChanges(s, CancelEnd(m), DoCancelEnd(s, m), l)
  {
    hide Inv, Remove;
    var id := s.loops[m].cancelling.value;
    CancelledPlace(s, m);
    PostedIsNew(s, l, id);
    if m == l {
      assert Upcoming(DoCancelEnd(s, m), l) == Upcoming(s, l) + [id];
    }
  }

  lemma CancelledPlace(s: Pool, l: nat)
    requires Inv(s) && l < |s.loops| && s.loops[l].cancelling.Some?
    ensures var id := s.loops[l].cancelling.value; id in s.items && s.items[id].place == Cancelling
  {
    hide QueuesHold, CountersOk, WorkersOk, ItemsOk, NotStuck;
    assert LoopOk(s, l) && AtOn(s, s.loops[l].cancelling.value, Cancelling, l);
  }

  lemma FireUpcoming(s: Pool, m: nat, l: nat)
    requires Enabled(s, FireDone(m)) && Known(s, FireDone(m)) && l < |s.loops|
    ensures UpcomingChanges(s, FireDone(m), DoFire(s, m), l)
  {
    hide Remove;
    if m == l {
      assert Upcoming(DoFire(s, m), l) == Upcoming(s, l)[1..];
    }
  }

  lemma TakeUpcoming(s: Pool, m: nat, l: nat)
    requires Enabled(s, TakeBatch(m)) && l < |s.loops|
    ensures UpcomingChanges(s, TakeBatch(m), DoTakeBatch(s, m), l)
  {
    hide Remove;
    if m == l {
      assert Upcoming(DoTakeBatch(s, m), l) == Upcoming(s, l);
    }
  }

  /** Of two items posted to a loop the first keeps its lead until its callback has been called. */
  lemma {:induction false} LeadIsKept(states: seq<Pool>, steps: seq<Step>, nthreads: nat, nloops: nat, i: nat, j: nat, l: nat, a: Id, b: Id)
    requires IsRun(states, steps, nthreads, nloops) && i <= j <= |steps| && l < |states[i].loops|
    requires Ahead(Upcoming(states[i], l), a, b) && forall n :: i <= n < j ==> steps[n] != CancelBegin(a)
    ensures |states[j].loops| == |states[i].loops|
    ensures (a in states[j].items && states[j].items[a].fired != []) || Ahead(Upcoming(states[j], l), a, b)
    decreases j
  {
    hide Inv, Enabled, Known, Apply, Ahead, Upcoming, Remove;
    if i < j {
      LeadIsKept(states, steps, nthreads, nloops, i, j - 1, l, a, b);
      RunInv(states, steps, nthreads, nloops, j - 1);
      InvKnows(states[j - 1], steps[j - 1]);
      StepUpcoming(states[j - 1], steps[j - 1], l);
      LeadStep(states[j - 1], steps[j - 1], states[j], l, a, b);
    }
  }

  lemma LeadStep(s: Pool, step: Step, r: Pool, l: nat, a: Id, b: Id)
    requires l < |s.loops| && UpcomingChanges(s, step, r, l) && step != CancelBegin(a)
    requires (a in s.items && s.items[a].fired != []) || Ahead(Upcoming(s, l), a, b)
    ensures (a in r.items && r.items[a].fired != []) || Ahead(Upcoming(r, l), a, b)
  {
    hide Remove, Ahead;
    var q := Upcoming(s, l);
    if Ahead(q, a, b) && Upcoming(r, l) != q {
      if x :| x !in q && Upcoming(r, l) == q + [x] {
        AheadOfNew(q, x, a, b);
      } else if step == FireDone(l) {
        if q[0] != a {
          AheadInTail(q, a, b);
        }
      } else {
        AheadRemoved(s.loops[l].batch, s.loops[l].pending, step.id, a, b);
      }
    }
  }

  /** Main theorem: callbacks are called in the order their items were posted to the loop, cancelled
      ones apart. When the callback of the later one is about to be called, that of the earlier one has
      been. */
  lemma CallbacksInOrder(states: seq<Pool>, steps: seq<Step>, nthreads: nat, nloops: nat, i: nat, j: nat, l: nat, a: Id, b: Id)
    requires IsRun(states, steps, nthreads, nloops) && i <= j < |steps| && l < |states[i].loops| && a != b
    requires Ahead(Upcoming(states[i], l), a, b) && forall n :: i <= n < j ==> steps[n] != CancelBegin(a)
    requires steps[j] == FireDone(l) && l < |states[j].loops| && states[j].loops[l].batch != [] && states[j].loops[l].batch[0] == b
    ensures a in states[j].items && states[j].items[a].fired != []
  {
    hide Inv, Known, Apply;
    LeadIsKept(states, steps, nthreads, nloops, i, j, l, a, b);
    assert Upcoming(states[j], l)[0] == b;
  }

  // ----- Each on its loop -----

  predicate SameRequest(s: Pool, r: Pool, id: Id) {
    id in s.items && id in r.items && r.items[id].loop == s.items[id].loop && r.items[id].kind == s.items[id].kind
  }

  lemma TopKeepsRequest(s: Pool, t: Tid, woken: Tid, id: Id)
    requires t < |s.workers| && HeadsKnown(s) && id in s.items
    ensures SameRequest(s, DoWorkerTop(s, t, woken), id)
  {
    hide Remove;
  }

  lemma SubmitKeepsRequest(s: Pool, step: Step, id: Id)
    requires step.Submit? && Enabled(s, step) && id in s.items
    ensures SameRequest(s, DoSubmit(s, step.id, step.loop, step.kind, step.woken), id)
  {
    hide Remove;
  }

  lemma StepKeepsLoop(s: Pool, step: Step, id: Id)
    requires Enabled(s, step) && Known(s, step) && id in s.items
    ensures SameRequest(s, Apply(s, step), id)
  {
    hide Remove, Post, DoSubmit, DoWorkerTop;
    match step
    case Submit(_, _, _, _) => SubmitKeepsRequest(s, step, id);
    case WorkerTop(t, woken) => TopKeepsRequest(s, t, woken, id);
    case PostExit(woken) => PostUpcoming(s, Exit, woken);
    case _ =>
  }

  lemma {:induction false} ItemIsAsSubmitted(states: seq<Pool>, steps: seq<Step>, nthreads: nat, nloops: nat, i: nat, j: nat, id: Id, l: nat, kind: Kind, woken: Tid)
    requires IsRun(states, steps, nthreads, nloops) && i < j <= |steps| && steps[i] == Submit(id, l, kind, woken)
    ensures id in states[j].items && states[j].items[id].loop == l && states[j].items[id].kind == kind
    decreases j
  {
    if i + 1 < j {
      hide Enabled, Known, Apply, Inv;
      ItemIsAsSubmitted(states, steps, nthreads, nloops, i, j - 1, id, l, kind, woken);
      RunInv(states, steps, nthreads, nloops, j - 1);
      InvKnows(states[j - 1], steps[j - 1]);
      StepKeepsLoop(states[j - 1], steps[j - 1], id);
    } else {
      hide Inv;
      RunInv(states, steps, nthreads, nloops, i);
      SubmitLanes(states[i], id, l, kind, woken, kind);
      SubmittedItem(states[i], id, l, kind, woken);
    }
  }

  lemma SubmittedItem(s: Pool, id: Id, l: nat, kind: Kind, woken: Tid)
    ensures var r := DoSubmit(s, id, l, kind, woken); id in r.items && r.items[id].loop == l && r.items[id].kind == kind
  {
  }

  /** Main theorem: a callback is called by the loop that the item was submitted on. */
  lemma FiresOnItsLoop(states: seq<Pool>, steps: seq<Step>, nthreads: nat, nloops: nat, i: nat, j: nat, id: Id, l: nat, kind: Kind, woken: Tid, m: nat)
    requires IsRun(states, steps, nthreads, nloops) && i < j < |steps| && steps[i] == Submit(id, l, kind, woken)
    requires steps[j] == FireDone(m) && m < |states[j].loops| && states[j].loops[m].batch != [] && states[j].loops[m].batch[0] == id
    ensures m == l
  {
    hide Enabled, Known, Apply, QueuesHold, WorkersOk, CountersOk, ItemsOk, NotStuck;
    ItemIsAsSubmitted(states, steps, nthreads, nloops, i, j, id, l, kind, woken);
    RunInv(states, steps, nthreads, nloops, j);
    assert LoopOk(states[j], m);
    assert AtOn(states[j], id, InBatch, m);
  }
}
