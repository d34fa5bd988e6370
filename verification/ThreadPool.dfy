/** The worker pool (src/threadpool.c): a shared work queue, a separately capped slow-I/O
    queue, cancellation, and the completion queues of the event loops.

    Each critical section, condition wait and callback is one atomic step; every interleaving
    of steps is a run. */
module ThreadPool {
  import opened Options

  type Id = nat
  type Tid = nat

  // ----- State -----

  datatype Msg = Work(id: Id) | RunSlow | Exit

  datatype Kind = Fast | SlowIO

  /** The `work` pointer of an item. */
  datatype Fn = Job | Null | CancelledFn

  datatype Err = Success | ECANCELED

  /** Where an item is; `Linked` places are queues, so that QUEUE_EMPTY(&w->wq) is false there. */
  datatype Place = OnWq | OnSlow | With(t: Tid) | Cancelling | OnLoop | InBatch | Gone
  {
    predicate Linked() { OnWq? || OnSlow? || OnLoop? || InBatch? }
  }

  datatype Item = Item(loop: nat, kind: Kind, fn: Fn, place: Place, runs: nat, fired: seq<Err>, cancelReturned0: bool)

  datatype Worker =
    | Ready                          // about to test the wait condition
    | Waiting                        // inside uv_cond_wait
    | Signalled                      // woken, has not got the mutex back
    | Running(id: Id, slow: bool)    // mutex released, work not called yet
    | Ran(id: Id, slow: bool)        // work returned
    | Posted(slow: bool)             // item handed to its loop
    | Exited
  {
    function Holds(): Option<Id> { if Running? || Ran? then Some(id) else None }
    predicate OnSlowWork() { (Running? || Ran? || Posted?) && slow }
    predicate Idle() { Waiting? || Signalled? }
    predicate Awake() { !Waiting? && !Exited? }
  }

  datatype Loop = Loop(pending: seq<Id>, batch: seq<Id>, cancelling: Option<Id>)

  datatype Pool = Pool(
    wq: seq<Msg>,
    slow: seq<Id>,
    idle: int,
    running: int,
    workers: seq<Worker>,
    loops: seq<Loop>,
    items: map<Id, Item>)
  {
    function Threshold(): nat { (|workers| + 1) / 2 }

    /** The condition under which a worker waits. */
    predicate MustWait() {
      wq == [] || (wq == [RunSlow] && running >= Threshold())
    }
  }

  function Remove<T(==)>(q: seq<T>, x: T): (r: seq<T>)
    ensures forall y :: y in r ==> y in q
    ensures forall y :: y in q && y != x ==> y in r
    ensures NoDup(q) ==> NoDup(r) && x !in r
    ensures x !in q ==> r == q
  {
    if q == [] then [] else
    assert NoDup(q) ==> NoDup(q[1..]) && q[0] !in q[1..];
    if q[0] == x then q[1..] else
    var rest := Remove(q[1..], x);
    assert NoDup(q) ==> forall j :: 0 <= j < |rest| ==> rest[j] in q[1..];
    [q[0]] + rest
  }

  predicate NoDup<T(==)>(q: seq<T>) {
    forall i, j :: 0 <= i < j < |q| ==> q[i] != q[j]
  }

  function Count(ws: seq<Worker>, p: Worker -> bool): nat {
    if ws == [] then 0 else Count(ws[1..], p) + if p(ws[0]) then 1 else 0
  }

  lemma {:induction false} CountUpdate(ws: seq<Worker>, p: Worker -> bool, t: Tid, w: Worker)
    requires t < |ws|
    ensures Count(ws[t := w], p) == Count(ws, p) - (if p(ws[t]) then 1 else 0) + (if p(w) then 1 else 0)
  {
    if t == 0 {
      assert ws[t := w][1..] == ws[1..];
    } else {
      assert ws[t := w][1..] == ws[1..][t - 1 := w];
      CountUpdate(ws[1..], p, t - 1, w);
    }
  }

  lemma {:induction false} CountPositive(ws: seq<Worker>, p: Worker -> bool)
    ensures Count(ws, p) > 0 <==> exists t :: 0 <= t < |ws| && p(ws[t])
    ensures Count(ws, p) <= |ws|
  {
    if ws != [] {
      CountPositive(ws[1..], p);
      if Count(ws[1..], p) > 0 {
        var t :| 0 <= t < |ws[1..]| && p(ws[1..][t]);
        assert p(ws[t + 1]);
      }
      if t :| 0 < t < |ws| && p(ws[t]) {
        assert p(ws[1..][t - 1]);
      }
    }
  }

  // ----- Steps -----

  datatype Step =
    | Submit(id: Id, loop: nat, kind: Kind, woken: Tid)
    | PostExit(woken: Tid)
    | WorkerTop(t: Tid, woken: Tid)
    | SpuriousWake(t: Tid)
    | RunWork(t: Tid)
    | FinishWork(t: Tid)
    | Relock(t: Tid)
    | CancelBegin(id: Id)
    | CancelEnd(loop: nat)
    | TakeBatch(loop: nat)
    | FireDone(loop: nat)

  /** uv_cond_signal: one of the waiting threads, if there is any, stops waiting. */
  predicate MayWake(s: Pool, woken: Tid) {
    (exists t :: 0 <= t < |s.workers| && s.workers[t].Waiting?) ==> woken < |s.workers| && s.workers[woken].Waiting?
  }

  function Signal(s: Pool, woken: Tid): Pool {
    if woken < |s.workers| && s.workers[woken].Waiting? then s.(workers := s.workers[woken := Signalled]) else s
  }

  function SignalIfIdle(s: Pool, woken: Tid): Pool {
    if s.idle > 0 then Signal(s, woken) else s
  }

  /** post() */
  function Post(s: Pool, m: Msg, woken: Tid): Pool {
    SignalIfIdle(s.(wq := s.wq + [m]), woken)
  }

  predicate Enabled(s: Pool, step: Step) {
    match step
    case Submit(id, l, _, woken) => id !in s.items && l < |s.loops| && MayWake(s, woken)
    case PostExit(woken) => Exit !in s.wq && MayWake(s, woken)
    case WorkerTop(t, woken) => t < |s.workers| && (s.workers[t].Ready? || s.workers[t].Signalled?) && MayWake(s, woken)
    case SpuriousWake(t) => t < |s.workers| && s.workers[t].Waiting?
    case RunWork(t) => t < |s.workers| && s.workers[t].Running?
    case FinishWork(t) => t < |s.workers| && s.workers[t].Ran?
    case Relock(t) => t < |s.workers| && s.workers[t].Posted?
    case CancelBegin(id) =>
      // on the loop's thread, before the item's done callback ran
      id in s.items && s.items[id].fired == [] && s.items[id].loop < |s.loops| && s.loops[s.items[id].loop].cancelling.None?
    case CancelEnd(l) => l < |s.loops| && s.loops[l].cancelling.Some?
    case TakeBatch(l) => l < |s.loops| && s.loops[l].batch == [] && s.loops[l].cancelling.None?
    case FireDone(l) => l < |s.loops| && s.loops[l].batch != [] && s.loops[l].cancelling.None?
  }

  function DoSubmit(s: Pool, id: Id, l: nat, kind: Kind, woken: Tid): Pool {
    var item := Item(l, kind, Job, if kind == SlowIO then OnSlow else OnWq, 0, [], false);
    var s := s.(items := s.items[id := item]);
    if kind == SlowIO then
      var s := s.(slow := s.slow + [id]);
      if RunSlow in s.wq then s else Post(s, RunSlow, woken)
    else
      Post(s, Work(id), woken)
  }

  predicate HeadsKnown(s: Pool) {
    && (s.wq != [] && s.wq[0].Work? ==> s.wq[0].id in s.items)
    && (s.slow != [] ==> s.slow[0] in s.items)
  }

  /** Getting the mutex back inside uv_cond_wait. */
  function Reacquire(s: Pool, t: Tid): Pool
    requires t < |s.workers|
  {
    if s.workers[t].Signalled? then s.(idle := s.idle - 1, workers := s.workers[t := Ready]) else s
  }

  /** The worker at the head of the slow-I/O queue's turn. */
  function TakeSlow(s: Pool, t: Tid): Pool
    requires t < |s.workers| && HeadsKnown(s) && s.slow != [] && s.wq != []
  {
    var id := s.slow[0];
    SetItem(s, id, s.items[id].(place := With(t)))
      .(wq := s.wq[1..], slow := s.slow[1..], running := s.running + 1, workers := s.workers[t := Running(id, true)])
  }

  /** The part of worker() under the mutex, up to releasing it or going round again. */
  function DoWorkerTop(s0: Pool, t: Tid, woken: Tid): Pool
    requires t < |s0.workers| && HeadsKnown(s0)
  {
    var s := Reacquire(s0, t);
    if s.MustWait() then
      s.(idle := s.idle + 1, workers := s.workers[t := Waiting])
    else
      match s.wq[0]
      case Exit =>
        Signal(s.(workers := s.workers[t := Exited]), woken)
      case Work(id) =>
        SetItem(s, id, s.items[id].(place := With(t)))
          .(wq := s.wq[1..], workers := s.workers[t := Running(id, false)])
      case RunSlow =>
        if s.running >= s.Threshold() then
          s.(wq := s.wq[1..] + [RunSlow])
        else if s.slow == [] then
          s.(wq := s.wq[1..])
        else
          var s := TakeSlow(s, t);
          if s.slow != [] then Post(s, RunSlow, woken) else s
  }

  function SetItem(s: Pool, id: Id, item: Item): Pool {
    s.(items := s.items[id := item])
  }

  function SetLoop(s: Pool, l: nat, loop: Loop): Pool
    requires l < |s.loops|
  {
    s.(loops := s.loops[l := loop])
  }

  function DoFinish(s: Pool, t: Tid): Pool
    requires t < |s.workers| && s.workers[t].Ran? && s.workers[t].id in s.items
    requires s.items[s.workers[t].id].loop < |s.loops|
  {
    var id, slow := s.workers[t].id, s.workers[t].slow;
    var item := s.items[id];
    var loop := s.loops[item.loop];
    SetLoop(SetItem(s, id, item.(fn := Null, place := OnLoop)), item.loop, loop.(pending := loop.pending + [id]))
      .(workers := s.workers[t := Posted(slow)])
  }

  /** uv__work_cancel up to releasing the locks; it returns UV_EBUSY, changing nothing, unless the
      item is linked into a queue and its work pointer is not null. */
  function DoCancelBegin(s: Pool, id: Id): Pool
    requires id in s.items && s.items[id].loop < |s.loops|
  {
    var item := s.items[id];
    if !item.place.Linked() || item.fn == Null then s
    else
      var loop := s.loops[item.loop];
      SetLoop(SetItem(s, id, item.(place := Cancelling)), item.loop,
              Loop(Remove(loop.pending, id), Remove(loop.batch, id), Some(id)))
        .(wq := Remove(s.wq, Work(id)), slow := Remove(s.slow, id))
  }

  function DoCancelEnd(s: Pool, l: nat): Pool
    requires l < |s.loops| && s.loops[l].cancelling.Some? && s.loops[l].cancelling.value in s.items
  {
    var loop := s.loops[l];
    var id := loop.cancelling.value;
    SetLoop(SetItem(s, id, s.items[id].(fn := CancelledFn, place := OnLoop, cancelReturned0 := true)), l,
            loop.(pending := loop.pending + [id], cancelling := None))
  }

  function DoTakeBatch(s: Pool, l: nat): Pool
    requires l < |s.loops|
  {
    var loop := s.loops[l];
    SetLoop(s, l, loop.(pending := [], batch := loop.pending))
      .(items := map id | id in s.items ::
          if id in loop.pending then s.items[id].(place := InBatch) else s.items[id])
  }

  function DoFire(s: Pool, l: nat): Pool
    requires l < |s.loops| && s.loops[l].batch != [] && s.loops[l].batch[0] in s.items
  {
    var loop := s.loops[l];
    var item := s.items[loop.batch[0]];
    var err := if item.fn == CancelledFn then ECANCELED else Success;
    SetLoop(SetItem(s, loop.batch[0], item.(place := Gone, fired := item.fired + [err])), l, loop.(batch := loop.batch[1..]))
  }

  /** The items a step reaches through a queue or a worker are known to the pool. */
  ghost predicate Known(s: Pool, step: Step) {
    match step
    case WorkerTop(_, _) => HeadsKnown(s)
    case RunWork(t) => t < |s.workers| && s.workers[t].Running? && s.workers[t].id in s.items
    case FinishWork(t) =>
      t < |s.workers| && s.workers[t].Ran? && s.workers[t].id in s.items && s.items[s.workers[t].id].loop < |s.loops|
    case CancelEnd(l) => l < |s.loops| && s.loops[l].cancelling.Some? && s.loops[l].cancelling.value in s.items
    case FireDone(l) => l < |s.loops| && s.loops[l].batch != [] && s.loops[l].batch[0] in s.items
    case _ => true
  }

  ghost function Apply(s: Pool, step: Step): Pool
    requires Enabled(s, step) && Known(s, step)
  {
    match step
    case Submit(id, l, kind, woken) => DoSubmit(s, id, l, kind, woken)
    case PostExit(woken) => Post(s, Exit, woken)
    case WorkerTop(t, woken) => DoWorkerTop(s, t, woken)
    case SpuriousWake(t) => s.(workers := s.workers[t := Signalled])
    case RunWork(t) =>
      var w := s.workers[t];
      SetItem(s, w.id, s.items[w.id].(runs := s.items[w.id].runs + 1)).(workers := s.workers[t := Ran(w.id, w.slow)])
    case FinishWork(t) => DoFinish(s, t)
    case Relock(t) =>
      s.(running := s.running - (if s.workers[t].slow then 1 else 0), workers := s.workers[t := Ready])
    case CancelBegin(id) => DoCancelBegin(s, id)
    case CancelEnd(l) => DoCancelEnd(s, l)
    case TakeBatch(l) => DoTakeBatch(s, l)
    case FireDone(l) => DoFire(s, l)
  }

  // ----- Invariant -----

  predicate At(s: Pool, id: Id, p: Place) {
    id in s.items && s.items[id].place == p
  }

  predicate AtOn(s: Pool, id: Id, p: Place, l: nat) {
    At(s, id, p) && s.items[id].loop == l
  }

  /** The shared queues hold exactly the items placed on them, each once. */
  ghost predicate QueuesHold(s: Pool) {
    && NoDup(s.wq) && NoDup(s.slow)
    && (forall id :: Work(id) in s.wq <==> At(s, id, OnWq))
    && (forall id :: id in s.slow <==> At(s, id, OnSlow))
  }

  /** Pending slow work has its message scheduled. */
  ghost predicate Scheduled(s: Pool) {
    s.slow != [] ==> RunSlow in s.wq
  }

  /** The item a worker holds is placed with it, and has run once or not yet. */
  ghost predicate HolderOk(s: Pool, t: Tid)
    requires t < |s.workers|
  {
    var w := s.workers[t];
    w.Holds().Some? ==> At(s, w.id, With(t)) && s.items[w.id].runs == if w.Ran? then 1 else 0
  }

  ghost predicate Holder(s: Pool, id: Id, t: Tid) {
    t < |s.workers| && s.workers[t].Holds() == Some(id)
  }

  ghost predicate WorkersOk(s: Pool) {
    && (forall t: Tid :: t < |s.workers| ==> HolderOk(s, t))
    && (forall id: Id, t: Tid {:trigger At(s, id, With(t))} :: At(s, id, With(t)) ==> Holder(s, id, t))
  }

  /** The counters the code keeps are the numbers they stand for, and the cap holds. */
  ghost predicate CountersOk(s: Pool) {
    && s.idle == Count(s.workers, (w: Worker) => w.Idle())
    && s.running == Count(s.workers, (w: Worker) => w.OnSlowWork())
    && s.running <= s.Threshold()
  }

  ghost predicate LoopsOk(s: Pool) {
    && (forall id :: id in s.items ==> s.items[id].loop < |s.loops|)
    && (forall l :: 0 <= l < |s.loops| ==> LoopOk(s, l))
  }

  ghost predicate LoopOk(s: Pool, l: nat)
    requires l < |s.loops|
  {
    && NoDup(s.loops[l].pending) && NoDup(s.loops[l].batch)
    && (forall id :: id in s.loops[l].pending <==> AtOn(s, id, OnLoop, l))
    && (forall id :: id in s.loops[l].batch <==> AtOn(s, id, InBatch, l))
    && (forall id: Id :: s.loops[l].cancelling == Some(id) <==> AtOn(s, id, Cancelling, l))
  }

  /** What has happened to an item, told from its place. */
  ghost predicate ItemOk(i: Item) {
    && (i.cancelReturned0 <==> i.fn == CancelledFn)
    && match i.place
       case OnWq => i.fn == Job && i.runs == 0 && i.fired == []
       case OnSlow => i.fn == Job && i.runs == 0 && i.fired == []
       case With(_) => i.fn == Job && i.runs <= 1 && i.fired == []
       case Cancelling => i.fn != Null && i.runs == 0 && i.fired == []
       case OnLoop => i.fn != Job && i.runs == (if i.fn == Null then 1 else 0) && i.fired == []
       case InBatch => i.fn != Job && i.runs == (if i.fn == Null then 1 else 0) && i.fired == []
       case Gone => i.fn != Job && i.runs == (if i.fn == Null then 1 else 0)
                    && i.fired == [if i.fn == CancelledFn then ECANCELED else Success]
  }

  ghost predicate ItemsOk(s: Pool) {
    forall id :: id in s.items ==> ItemOk(s.items[id])
  }

  ghost predicate SomeoneAwake(s: Pool) {
    exists t :: 0 <= t < |s.workers| && s.workers[t].Awake()
  }

  ghost predicate AllExited(s: Pool) {
    forall t :: 0 <= t < |s.workers| ==> s.workers[t].Exited?
  }

  /** The pool is never stuck: acceptable work means some worker is awake or signalled. */
  ghost predicate NotStuck(s: Pool) {
    !s.MustWait() ==> SomeoneAwake(s) || AllExited(s)
  }

  ghost predicate Inv(s: Pool) {
    QueuesHold(s) && Scheduled(s) && WorkersOk(s) && CountersOk(s) && LoopsOk(s) && ItemsOk(s) && NotStuck(s)
  }

  // ----- Every step keeps the invariant -----

  /** Workers that only stop waiting: nobody's item, and nobody's slow job, changes. */
  ghost predicate OnlyWoken(s: Pool, r: Pool) {
    && r == s.(workers := r.workers) && |r.workers| == |s.workers|
    && forall t :: 0 <= t < |s.workers| ==> r.workers[t] == s.workers[t] || (s.workers[t].Waiting? && r.workers[t].Signalled?)
  }

  lemma SignalKeeps(s: Pool, woken: Tid)
    requires MayWake(s, woken) && CountersOk(s)
    ensures var r := Signal(s, woken);
      OnlyWoken(s, r) && CountersOk(r) && (SomeoneAwake(r) || AllExited(r))
  {
    var r := Signal(s, woken);
    if woken < |s.workers| && s.workers[woken].Waiting? {
      CountUpdate(s.workers, (w: Worker) => w.Idle(), woken, Signalled);
      CountUpdate(s.workers, (w: Worker) => w.OnSlowWork(), woken, Signalled);
      assert r.workers[woken].Awake();
    } else if !AllExited(s) {
      var t :| 0 <= t < |s.workers| && !s.workers[t].Exited?;
      assert s.workers[t].Awake();
    }
  }

  lemma PostKeeps(s: Pool, m: Msg, woken: Tid)
    requires MayWake(s, woken) && CountersOk(s)
    ensures var r := Post(s, m, woken);
      OnlyWoken(s.(wq := s.wq + [m]), r) && CountersOk(r) && (SomeoneAwake(r) || AllExited(r))
  {
    if s.idle > 0 {
      SignalKeeps(s.(wq := s.wq + [m]), woken);
    } else {
      CountPositive(s.workers, (w: Worker) => w.Idle());
      if !AllExited(s) {
        var t :| 0 <= t < |s.workers| && !s.workers[t].Exited?;
        var p := (w: Worker) => w.Idle();
        assert !p(s.workers[t]);
        assert s.workers[t].Awake();
      }
    }
  }

  /** Nothing about held items changes when workers without items change among themselves. */
  lemma HoldersCarry(s: Pool, r: Pool)
    requires WorkersOk(s) && |r.workers| == |s.workers|
    requires forall t :: 0 <= t < |s.workers| ==>
               r.workers[t] == s.workers[t] || (s.workers[t].Holds().None? && r.workers[t].Holds().None?)
    requires forall id: Id, t: Tid :: At(s, id, With(t)) ==> id in r.items && r.items[id] == s.items[id]
    requires forall id: Id, t: Tid :: At(r, id, With(t)) ==> At(s, id, With(t))
    ensures WorkersOk(r)
  {
    forall id: Id, t: Tid | At(r, id, With(t))
      ensures Holder(r, id, t)
    {
      assert At(s, id, With(t)) && Holder(s, id, t);
    }
    forall t: Tid | t < |r.workers|
      ensures HolderOk(r, t)
    {
      assert HolderOk(s, t);
      if s.workers[t].Holds().Some? {
        assert At(s, s.workers[t].id, With(t));
      }
    }
  }

  predicate InLoopPlace(p: Place) {
    p.OnLoop? || p.InBatch? || p.Cancelling?
  }

  /** Nothing about the loops changes when only items elsewhere move elsewhere. */
  lemma LoopsCarry(s: Pool, r: Pool)
    requires LoopsOk(s) && r.loops == s.loops
    requires forall id :: id in s.items && InLoopPlace(s.items[id].place) ==> id in r.items && r.items[id] == s.items[id]
    requires forall id :: id in r.items && InLoopPlace(r.items[id].place) ==> id in s.items && r.items[id] == s.items[id]
    requires forall id :: id in r.items ==> r.items[id].loop < |r.loops|
    ensures LoopsOk(r)
  {
    forall l | 0 <= l < |r.loops|
      ensures LoopOk(r, l)
    {
      assert LoopOk(s, l);
      assert forall id, p :: InLoopPlace(p) ==> (AtOn(r, id, p, l) <==> AtOn(s, id, p, l));
    }
  }

  lemma AppendKeepsNoDup<T>(q: seq<T>, x: T)
    requires NoDup(q) && x !in q
    ensures NoDup(q + [x])
  {
  }

  /** At most the item `x` moved into or out of the shared queues. */
  lemma QueuesCarry(s: Pool, r: Pool, x: Id)
    requires QueuesHold(s) && NoDup(r.wq) && NoDup(r.slow)
    requires forall id :: id != x ==> (Work(id) in r.wq <==> Work(id) in s.wq) && (id in r.slow <==> id in s.slow)
    requires forall id :: id != x ==> (At(r, id, OnWq) <==> At(s, id, OnWq)) && (At(r, id, OnSlow) <==> At(s, id, OnSlow))
    requires Work(x) in r.wq <==> At(r, x, OnWq)
    requires x in r.slow <==> At(r, x, OnSlow)
    ensures QueuesHold(r)
  {
  }

  predicate InQueuePlace(s: Pool, x: Id) {
    At(s, x, OnWq) || At(s, x, OnSlow)
  }

  /** The shared queues are untouched, and the item `x` that moved was and is elsewhere. */
  lemma QueuesUntouched(s: Pool, r: Pool, x: Id)
    requires QueuesHold(s) && r.wq == s.wq && r.slow == s.slow
    requires forall id :: id != x ==> (id in s.items <==> id in r.items) && (id in s.items ==> r.items[id] == s.items[id])
    requires !InQueuePlace(s, x) && !InQueuePlace(r, x)
    ensures QueuesHold(r)
  {
    assert forall id, p :: id != x ==> (At(r, id, p) <==> At(s, id, p));
  }

  /** A new item that waits for a worker concerns no loop. */
  lemma NewItemLoops(s: Pool, r: Pool, id: Id)
    requires LoopsOk(s) && id !in s.items && id in r.items && r.loops == s.loops
    requires r.items == s.items[id := r.items[id]] && r.items[id].loop < |s.loops| && !InLoopPlace(r.items[id].place)
    ensures LoopsOk(r)
  {
    LoopsCarry(s, r);
  }

  /** A new item is not held by a worker either. */
  lemma NewItemHolders(s: Pool, r: Pool, id: Id)
    requires WorkersOk(s) && id !in s.items && id in r.items && r.items == s.items[id := r.items[id]] && !r.items[id].place.With?
    requires |r.workers| == |s.workers|
    requires forall t :: 0 <= t < |s.workers| ==>
               r.workers[t] == s.workers[t] || (s.workers[t].Holds().None? && r.workers[t].Holds().None?)
    ensures WorkersOk(r)
  {
    HoldersCarry(s, r);
  }

  lemma SubmitFastKeeps(s: Pool, id: Id, l: nat, woken: Tid)
    requires Inv(s) && Enabled(s, Submit(id, l, Fast, woken))
    ensures Inv(DoSubmit(s, id, l, Fast, woken))
  {
    hide LoopsOk, WorkersOk;
    var r := DoSubmit(s, id, l, Fast, woken);
    var a := s.(items := s.items[id := Item(l, Fast, Job, OnWq, 0, [], false)]);
    assert !At(s, id, OnWq);
    PostKeeps(a, Work(id), woken);
    AppendKeepsNoDup(s.wq, Work(id));
    QueuesCarry(s, r, id);
    NewItemHolders(s, r, id);
    NewItemLoops(s, r, id);
  }

  lemma SubmitSlowKeeps(s: Pool, id: Id, l: nat, woken: Tid)
    requires Inv(s) && Enabled(s, Submit(id, l, SlowIO, woken))
    ensures Inv(DoSubmit(s, id, l, SlowIO, woken))
  {
    hide LoopsOk, WorkersOk;
    var r := DoSubmit(s, id, l, SlowIO, woken);
    var b := s.(items := s.items[id := Item(l, SlowIO, Job, OnSlow, 0, [], false)], slow := s.slow + [id]);
    assert !At(s, id, OnSlow);
    AppendKeepsNoDup(s.slow, id);
    if RunSlow !in b.wq {
      PostKeeps(b, RunSlow, woken);
      AppendKeepsNoDup(s.wq, RunSlow);
    }
    QueuesCarry(s, r, id);
    NewItemHolders(s, r, id);
    NewItemLoops(s, r, id);
  }

  lemma PostExitKeeps(s: Pool, woken: Tid)
    requires Inv(s) && Enabled(s, PostExit(woken))
    ensures Inv(Post(s, Exit, woken))
  {
    PostKeeps(s, Exit, woken);
    AppendKeepsNoDup(s.wq, Exit);
    var r := Post(s, Exit, woken);
    HoldersCarry(s, r);
    LoopsCarry(s, r);
  }

  /** One worker changes what it holds, and only the item `x` with it. */
  lemma HolderChange(s: Pool, r: Pool, t: Tid, x: Id)
    requires WorkersOk(s) && t < |s.workers| && |r.workers| == |s.workers|
    requires forall u :: 0 <= u < |s.workers| && u != t ==> r.workers[u] == s.workers[u]
    requires forall id :: id != x ==> (id in s.items <==> id in r.items) && (id in s.items ==> r.items[id] == s.items[id])
    requires x in s.items && x in r.items
    requires s.workers[t].Holds() == None || s.workers[t].Holds() == Some(x)
    requires s.items[x].place == With(t) || !s.items[x].place.With?
    requires match r.workers[t].Holds()
      case None => !r.items[x].place.With?
      case Some(y) => y == x && At(r, x, With(t)) && r.items[x].runs == if r.workers[t].Ran? then 1 else 0
    ensures WorkersOk(r)
  {
    forall id: Id, u: Tid | At(r, id, With(u))
      ensures Holder(r, id, u)
    {
      if id != x {
        assert At(s, id, With(u)) && Holder(s, id, u);
      }
    }
    forall u: Tid | u < |r.workers|
      ensures HolderOk(r, u)
    {
      assert HolderOk(s, u);
    }
  }

  lemma HeldAt(s: Pool, t: Tid)
    requires WorkersOk(s) && t < |s.workers| && s.workers[t].Holds().Some?
    ensures At(s, s.workers[t].id, With(t)) && HolderOk(s, t)
  {
    assert HolderOk(s, t);
  }

  lemma CountersSame(s: Pool, r: Pool)
    requires CountersOk(s) && r.workers == s.workers && r.idle == s.idle && r.running == s.running
    ensures CountersOk(r)
  {
  }

  lemma CountersChange(s: Pool, t: Tid, w: Worker)
    requires t < |s.workers| && CountersOk(s)
    ensures var was := s.workers[t];
      && Count(s.workers[t := w], (w: Worker) => w.Idle()) == s.idle - (if was.Idle() then 1 else 0) + (if w.Idle() then 1 else 0)
      && Count(s.workers[t := w], (w: Worker) => w.OnSlowWork())
           == s.running - (if was.OnSlowWork() then 1 else 0) + (if w.OnSlowWork() then 1 else 0)
  {
    CountUpdate(s.workers, (w: Worker) => w.Idle(), t, w);
    CountUpdate(s.workers, (w: Worker) => w.OnSlowWork(), t, w);
  }

  lemma CountersAfter(s: Pool, r: Pool, t: Tid, w: Worker)
    requires t < |s.workers| && CountersOk(s) && r.workers == s.workers[t := w] && r.idle == s.idle && r.running == s.running
    requires w.Idle() == s.workers[t].Idle() && w.OnSlowWork() == s.workers[t].OnSlowWork()
    ensures CountersOk(r)
  {
    CountersChange(s, t, w);
  }

  lemma ReacquireKeeps(s: Pool, t: Tid)
    requires Inv(s) && t < |s.workers| && (s.workers[t].Ready? || s.workers[t].Signalled?)
    ensures Inv(Reacquire(s, t)) && Reacquire(s, t).workers[t].Ready?
  {
    var r := Reacquire(s, t);
    CountersChange(s, t, Ready);
    HoldersCarry(s, r);
    LoopsCarry(s, r);
    assert r.workers[t].Awake();
  }

  lemma WaitKeeps(s: Pool, t: Tid)
    requires Inv(s) && t < |s.workers| && s.workers[t].Ready? && s.MustWait()
    ensures Inv(s.(idle := s.idle + 1, workers := s.workers[t := Waiting]))
  {
    var r := s.(idle := s.idle + 1, workers := s.workers[t := Waiting]);
    CountersChange(s, t, Waiting);
    HoldersCarry(s, r);
    LoopsCarry(s, r);
  }

  lemma ExitKeeps(s: Pool, t: Tid, woken: Tid)
    requires Inv(s) && t < |s.workers| && s.workers[t].Ready? && MayWake(s, woken)
    ensures Inv(Signal(s.(workers := s.workers[t := Exited]), woken))
  {
    var a := s.(workers := s.workers[t := Exited]);
    CountersChange(s, t, Exited);
    assert MayWake(a, woken) by {
      if u :| 0 <= u < |a.workers| && a.workers[u].Waiting? {
        assert s.workers[u].Waiting?;
      }
    }
    SignalKeeps(a, woken);
    var r := Signal(a, woken);
    HoldersCarry(s, r);
    LoopsCarry(s, r);
  }

  lemma TailKeepsNoDup<T>(q: seq<T>)
    requires NoDup(q) && q != []
    ensures NoDup(q[1..]) && forall x :: x in q[1..] <==> x in q && x != q[0]
  {
  }

  /** An item that moves outside the loops concerns none of them. */
  lemma OutsideLoops(s: Pool, r: Pool, x: Id)
    requires LoopsOk(s) && r.loops == s.loops && x in s.items && x in r.items && r.items == s.items[x := r.items[x]]
    requires r.items[x].loop == s.items[x].loop && !InLoopPlace(s.items[x].place) && !InLoopPlace(r.items[x].place)
    ensures LoopsOk(r)
  {
    LoopsCarry(s, r);
  }

  lemma TakeWorkKeeps(s: Pool, t: Tid, id: Id)
    requires Inv(s) && t < |s.workers| && s.workers[t].Ready? && s.wq != [] && s.wq[0] == Work(id) && HeadsKnown(s)
    ensures Inv(SetItem(s, id, s.items[id].(place := With(t))).(wq := s.wq[1..], workers := s.workers[t := Running(id, false)]))
  {
    hide LoopsOk, WorkersOk;
    var r := SetItem(s, id, s.items[id].(place := With(t))).(wq := s.wq[1..], workers := s.workers[t := Running(id, false)]);
    assert Work(id) in s.wq && At(s, id, OnWq);
    TailKeepsNoDup(s.wq);
    CountersChange(s, t, Running(id, false));
    QueuesCarry(s, r, id);
    HolderChange(s, r, t, id);
    OutsideLoops(s, r, id);
    assert r.workers[t].Awake();
  }

  /** The message goes round the queue, or disappears when it has nothing to run. */
  lemma MessageKeeps(s: Pool, t: Tid)
    requires Inv(s) && t < |s.workers| && s.workers[t].Ready? && s.wq != [] && s.wq[0] == RunSlow
    ensures Inv(s.(wq := s.wq[1..] + [RunSlow]))
    ensures s.slow == [] ==> Inv(s.(wq := s.wq[1..]))
  {
    assert s.workers[t].Awake();
    TailKeepsNoDup(s.wq);
    AppendKeepsNoDup(s.wq[1..], RunSlow);
    QueuesCarry(s, s.(wq := s.wq[1..] + [RunSlow]), 0);
    HoldersCarry(s, s.(wq := s.wq[1..] + [RunSlow]));
    LoopsCarry(s, s.(wq := s.wq[1..] + [RunSlow]));
    if s.slow == [] {
      QueuesCarry(s, s.(wq := s.wq[1..]), 0);
      HoldersCarry(s, s.(wq := s.wq[1..]));
      LoopsCarry(s, s.(wq := s.wq[1..]));
    }
  }

  lemma TakeSlowHalf(s: Pool, t: Tid, woken: Tid)
    requires Inv(s) && t < |s.workers| && s.workers[t].Ready? && MayWake(s, woken)
    requires s.wq != [] && s.wq[0] == RunSlow && s.running < s.Threshold() && s.slow != [] && HeadsKnown(s)
    ensures var a := TakeSlow(s, t);
      && QueuesHold(a) && RunSlow !in a.wq && WorkersOk(a) && CountersOk(a) && LoopsOk(a) && ItemsOk(a)
      && SomeoneAwake(a) && MayWake(a, woken)
  {
    hide LoopsOk, WorkersOk;
    var a, id := TakeSlow(s, t), s.slow[0];
    assert id in s.slow && At(s, id, OnSlow);
    TailKeepsNoDup(s.wq);
    TailKeepsNoDup(s.slow);
    QueuesCarry(s, a, id);
    CountersChange(s, t, Running(id, true));
    HolderChange(s, a, t, id);
    OutsideLoops(s, a, id);
    assert a.workers[t].Awake();
    assert MayWake(a, woken) by {
      if u :| 0 <= u < |a.workers| && a.workers[u].Waiting? {
        assert s.workers[u].Waiting?;
      }
    }
  }

  lemma TakeSlowKeeps(s: Pool, t: Tid, woken: Tid)
    requires Inv(s) && t < |s.workers| && s.workers[t].Ready? && MayWake(s, woken)
    requires s.wq != [] && s.wq[0] == RunSlow && s.running < s.Threshold() && s.slow != [] && HeadsKnown(s)
    ensures var a := TakeSlow(s, t); Inv(if a.slow != [] then Post(a, RunSlow, woken) else a)
  {
    var a := TakeSlow(s, t);
    TakeSlowHalf(s, t, woken);
    if a.slow != [] {
      PostKeeps(a, RunSlow, woken);
      AppendKeepsNoDup(a.wq, RunSlow);
      var r := Post(a, RunSlow, woken);
      QueuesCarry(a, r, 0);
      HoldersCarry(a, r);
      LoopsCarry(a, r);
    }
  }

  lemma WorkerTopKeeps(s0: Pool, t: Tid, woken: Tid)
    requires Inv(s0) && Enabled(s0, WorkerTop(t, woken)) && HeadsKnown(s0)
    ensures Inv(DoWorkerTop(s0, t, woken))
  {
    ReacquireKeeps(s0, t);
    var s := Reacquire(s0, t);
    assert MayWake(s, woken) by {
      if u :| 0 <= u < |s.workers| && s.workers[u].Waiting? {
        assert s0.workers[u].Waiting?;
      }
    }
    if s.MustWait() {
      WaitKeeps(s, t);
    } else {
      match s.wq[0]
      case Exit => ExitKeeps(s, t, woken);
      case Work(id) => TakeWorkKeeps(s, t, id);
      case RunSlow =>
        if s.running >= s.Threshold() || s.slow == [] {
          MessageKeeps(s, t);
        } else {
          TakeSlowKeeps(s, t, woken);
        }
    }
  }

  lemma SpuriousWakeKeeps(s: Pool, t: Tid)
    requires Inv(s) && Enabled(s, SpuriousWake(t))
    ensures Inv(s.(workers := s.workers[t := Signalled]))
  {
    var r := s.(workers := s.workers[t := Signalled]);
    CountersChange(s, t, Signalled);
    HoldersCarry(s, r);
    LoopsCarry(s, r);
    assert r.workers[t].Awake();
  }

  lemma RunWorkKeeps(s: Pool, t: Tid)
    requires Inv(s) && Enabled(s, RunWork(t)) && Known(s, RunWork(t))
    ensures Inv(Apply(s, RunWork(t)))
  {
    var r, x := Apply(s, RunWork(t)), s.workers[t].id;
    HeldAt(s, t);
    CountersChange(s, t, Ran(x, s.workers[t].slow));
    QueuesUntouched(s, r, x);
    HolderChange(s, r, t, x);
    LoopsCarry(s, r);
    assert r.workers[t].Awake();
  }

  lemma RelockKeeps(s: Pool, t: Tid)
    requires Inv(s) && Enabled(s, Relock(t))
    ensures Inv(Apply(s, Relock(t)))
  {
    var r := Apply(s, Relock(t));
    CountersChange(s, t, Ready);
    HoldersCarry(s, r);
    LoopsCarry(s, r);
    assert r.workers[t].Awake();
  }

  /** One loop changes, and only the item `x` with it. */
  lemma LoopChange(s: Pool, r: Pool, l: nat, x: Id)
    requires LoopsOk(s) && l < |s.loops| == |r.loops| && r.loops == s.loops[l := r.loops[l]]
    requires forall id :: id != x ==> (id in s.items <==> id in r.items) && (id in s.items ==> r.items[id] == s.items[id])
    requires x in s.items && x in r.items && s.items[x].loop == l && r.items[x].loop == l
    requires NoDup(r.loops[l].pending) && NoDup(r.loops[l].batch)
    requires forall id :: id != x ==> (id in r.loops[l].pending <==> id in s.loops[l].pending)
    requires forall id :: id != x ==> (id in r.loops[l].batch <==> id in s.loops[l].batch)
    requires forall id :: id != x ==> (r.loops[l].cancelling == Some(id) <==> s.loops[l].cancelling == Some(id))
    requires x in r.loops[l].pending <==> r.items[x].place == OnLoop
    requires x in r.loops[l].batch <==> r.items[x].place == InBatch
    requires r.loops[l].cancelling == Some(x) <==> r.items[x].place == Cancelling
    ensures LoopsOk(r)
  {
    forall m | 0 <= m < |r.loops|
      ensures LoopOk(r, m)
    {
      assert LoopOk(s, m);
      if m == l {
        assert forall id, p :: id != x ==> (AtOn(r, id, p, l) <==> AtOn(s, id, p, l));
      } else {
        assert forall id, p :: AtOn(r, id, p, m) <==> AtOn(s, id, p, m);
      }
    }
  }

  lemma FinishKeeps(s: Pool, t: Tid)
    requires Inv(s) && Enabled(s, FinishWork(t)) && Known(s, FinishWork(t))
    ensures Inv(DoFinish(s, t))
  {
    hide WorkersOk, QueuesHold, CountersOk, LoopsOk, NoDup;
    var r, x := DoFinish(s, t), s.workers[t].id;
    HeldAt(s, t);
    CountersAfter(s, r, t, Posted(s.workers[t].slow));
    QueuesUntouched(s, r, x);
    HolderChange(s, r, t, x);
    FinishLoops(s, t);
    assert r.workers[t].Awake();
  }

  lemma FinishLoops(s: Pool, t: Tid)
    requires Enabled(s, FinishWork(t)) && Known(s, FinishWork(t)) && LoopsOk(s) && At(s, s.workers[t].id, With(t))
    ensures LoopsOk(DoFinish(s, t))
  {
    var x := s.workers[t].id;
    var l := s.items[x].loop;
    assert LoopOk(s, l) && x !in s.loops[l].pending;
    AppendKeepsNoDup(s.loops[l].pending, x);
    LoopChange(s, DoFinish(s, t), l, x);
  }

  /** Unlinking an item leaves the other items where they are. */
  lemma CancelUnlinks(s: Pool, id: Id)
    requires Inv(s) && Enabled(s, CancelBegin(id)) && s.items[id].place.Linked() && s.items[id].fn != Null
    ensures var r := DoCancelBegin(s, id);
      QueuesHold(r) && Scheduled(r) && (s.MustWait() ==> r.MustWait())
  {
    hide CountersOk, WorkersOk, LoopsOk, ItemsOk;
    QueuesCarry(s, DoCancelBegin(s, id), id);
  }

  lemma CancelBeginKeeps(s: Pool, id: Id)
    requires Inv(s) && Enabled(s, CancelBegin(id))
    ensures Inv(DoCancelBegin(s, id))
  {
    hide CountersOk, QueuesHold, Scheduled, Remove, NoDup;
    var r, l := DoCancelBegin(s, id), s.items[id].loop;
    if s.items[id].place.Linked() && s.items[id].fn != Null {
      assert LoopOk(s, l);
      CancelUnlinks(s, id);
      CountersSame(s, r);
      HoldersCarry(s, r);
      LoopChange(s, r, l, id);
    }
  }

  lemma CancelEndKeeps(s: Pool, l: nat)
    requires Inv(s) && Enabled(s, CancelEnd(l)) && Known(s, CancelEnd(l))
    ensures Inv(DoCancelEnd(s, l))
  {
    hide QueuesHold, CountersOk, LoopsOk, WorkersOk;
    var r, x := DoCancelEnd(s, l), s.loops[l].cancelling.value;
    CancelEndLoops(s, l);
    QueuesUntouched(s, r, x);
    NotHeld(s, r, x);
    CountersSame(s, r);
  }

  /** An item that no worker holds, before or after, concerns no worker. */
  lemma NotHeld(s: Pool, r: Pool, x: Id)
    requires WorkersOk(s) && r.workers == s.workers && x in s.items && x in r.items && r.items == s.items[x := r.items[x]]
    requires !s.items[x].place.With? && !r.items[x].place.With?
    ensures WorkersOk(r)
  {
    HoldersCarry(s, r);
  }

  lemma CancelEndLoops(s: Pool, l: nat)
    requires Enabled(s, CancelEnd(l)) && Known(s, CancelEnd(l)) && LoopsOk(s)
    ensures LoopsOk(DoCancelEnd(s, l)) && AtOn(s, s.loops[l].cancelling.value, Cancelling, l)
  {
    var x := s.loops[l].cancelling.value;
    assert LoopOk(s, l) && AtOn(s, x, Cancelling, l);
    AppendKeepsNoDup(s.loops[l].pending, x);
    LoopChange(s, DoCancelEnd(s, l), l, x);
  }

  lemma FireKeeps(s: Pool, l: nat)
    requires Inv(s) && Enabled(s, FireDone(l)) && Known(s, FireDone(l))
    ensures Inv(DoFire(s, l))
  {
    hide QueuesHold, CountersOk, LoopsOk, WorkersOk;
    var r, x := DoFire(s, l), s.loops[l].batch[0];
    FireLoops(s, l);
    QueuesUntouched(s, r, x);
    NotHeld(s, r, x);
    CountersSame(s, r);
  }

  lemma FireLoops(s: Pool, l: nat)
    requires Enabled(s, FireDone(l)) && Known(s, FireDone(l)) && LoopsOk(s)
    ensures LoopsOk(DoFire(s, l)) && AtOn(s, s.loops[l].batch[0], InBatch, l)
  {
    var x := s.loops[l].batch[0];
    assert LoopOk(s, l) && AtOn(s, x, InBatch, l);
    TailKeepsNoDup(s.loops[l].batch);
    LoopChange(s, DoFire(s, l), l, x);
  }

  lemma TakeBatchKeeps(s: Pool, l: nat)
    requires Inv(s) && Enabled(s, TakeBatch(l))
    ensures Inv(DoTakeBatch(s, l))
  {
    hide LoopsOk, CountersOk;
    var r := DoTakeBatch(s, l);
    PendingAreThere(s, l);
    QueuesCarry(s, r, 0);
    HoldersCarry(s, r);
    CountersSame(s, r);
    TakeBatchLoops(s, l);
  }

  lemma PendingAreThere(s: Pool, l: nat)
    requires LoopsOk(s) && l < |s.loops|
    ensures forall id :: id in s.loops[l].pending ==> AtOn(s, id, OnLoop, l)
  {
    assert LoopOk(s, l);
  }

  lemma TakeBatchLoops(s: Pool, l: nat)
    requires LoopsOk(s) && Enabled(s, TakeBatch(l))
    ensures LoopsOk(DoTakeBatch(s, l))
  {
    var r := DoTakeBatch(s, l);
    assert LoopOk(s, l);
    var moved := s.loops[l].pending;
    forall m | 0 <= m < |r.loops|
      ensures LoopOk(r, m)
    {
      assert LoopOk(s, m);
      forall id
        ensures AtOn(r, id, InBatch, m) <==> (m == l && id in moved) || AtOn(s, id, InBatch, m)
        ensures AtOn(r, id, OnLoop, m) <==> m != l && AtOn(s, id, OnLoop, m)
        ensures AtOn(r, id, Cancelling, m) <==> AtOn(s, id, Cancelling, m)
      {
        assert id in moved <==> AtOn(s, id, OnLoop, l);
      }
    }
  }

  lemma InvKnows(s: Pool, step: Step)
    requires Inv(s) && Enabled(s, step)
    ensures Known(s, step)
  {
    if s.wq != [] && s.wq[0].Work? {
      assert At(s, s.wq[0].id, OnWq);
    }
    if s.slow != [] {
      assert At(s, s.slow[0], OnSlow);
    }
    match step
    case RunWork(t) => HeldAt(s, t);
    case FinishWork(t) => HeldAt(s, t);
    case CancelEnd(l) => assert LoopOk(s, l) && AtOn(s, s.loops[l].cancelling.value, Cancelling, l);
    case FireDone(l) => assert LoopOk(s, l) && AtOn(s, s.loops[l].batch[0], InBatch, l);
    case _ =>
  }

  lemma StepKeeps(s: Pool, step: Step)
    requires Inv(s) && Enabled(s, step)
    ensures Known(s, step) && Inv(Apply(s, step))
  {
    InvKnows(s, step);
    match step
    case Submit(id, l, kind, woken) =>
      if kind == Fast {
        SubmitFastKeeps(s, id, l, woken);
      } else {
        SubmitSlowKeeps(s, id, l, woken);
      }
    case PostExit(woken) => PostExitKeeps(s, woken);
    case WorkerTop(t, woken) => WorkerTopKeeps(s, t, woken);
    case SpuriousWake(t) => SpuriousWakeKeeps(s, t);
    case RunWork(t) => RunWorkKeeps(s, t);
    case FinishWork(t) => FinishKeeps(s, t);
    case Relock(t) => RelockKeeps(s, t);
    case CancelBegin(id) => CancelBeginKeeps(s, id);
    case CancelEnd(l) => CancelEndKeeps(s, l);
    case TakeBatch(l) => TakeBatchKeeps(s, l);
    case FireDone(l) => FireKeeps(s, l);
  }

  // ----- Runs -----

  /** init_threads: nothing queued, every worker about to take the mutex. */
  function Init(nthreads: nat, nloops: nat): Pool {
    Pool([], [], 0, 0, seq(nthreads, _ => Ready), seq(nloops, _ => Loop([], [], None)), map[])
  }

  /** A run: any interleaving of enabled steps from the initial pool. */
  ghost predicate IsRun(states: seq<Pool>, steps: seq<Step>, nthreads: nat, nloops: nat) {
    && nthreads >= 1 && |states| == |steps| + 1
    && states[0] == Init(nthreads, nloops)
    && forall i :: 0 <= i < |steps| ==>
         Enabled(states[i], steps[i]) && (Known(states[i], steps[i]) ==> states[i + 1] == Apply(states[i], steps[i]))
  }

  lemma {:induction false} InitCounts(n: nat, p: Worker -> bool)
    requires !p(Ready)
    ensures Count(seq(n, _ => Ready), p) == 0
  {
    if n > 0 {
      assert seq(n, _ => Ready)[1..] == seq(n - 1, _ => Ready);
      InitCounts(n - 1, p);
    }
  }

  lemma InitInv(nthreads: nat, nloops: nat)
    requires nthreads >= 1
    ensures Inv(Init(nthreads, nloops))
  {
    InitCounts(nthreads, (w: Worker) => w.Idle());
    InitCounts(nthreads, (w: Worker) => w.OnSlowWork());
    assert Init(nthreads, nloops).workers[0].Awake();
  }

  /** Every state of every run satisfies the invariant. */
  lemma {:induction false} RunInv(states: seq<Pool>, steps: seq<Step>, nthreads: nat, nloops: nat, i: nat)
    requires IsRun(states, steps, nthreads, nloops) && i <= |steps|
    ensures Inv(states[i])
  {
    if i == 0 {
      InitInv(nthreads, nloops);
    } else {
      RunInv(states, steps, nthreads, nloops, i - 1);
      StepKeeps(states[i - 1], steps[i - 1]);
    }
  }

  lemma StepKeepsSize(s: Pool, step: Step)
    requires Enabled(s, step) && Known(s, step)
    ensures |Apply(s, step).workers| == |s.workers|
    ensures forall id :: id in s.items ==> id in Apply(s, step).items
  {
  }

  lemma {:induction false} RunSize(states: seq<Pool>, steps: seq<Step>, nthreads: nat, nloops: nat, i: nat)
    requires IsRun(states, steps, nthreads, nloops) && i <= |steps|
    ensures |states[i].workers| == nthreads
  {
    if i > 0 {
      RunSize(states, steps, nthreads, nloops, i - 1);
      RunInv(states, steps, nthreads, nloops, i - 1);
      InvKnows(states[i - 1], steps[i - 1]);
      StepKeepsSize(states[i - 1], steps[i - 1]);
    }
  }

  /** Main theorem, first half: in every reachable state acceptable work has somebody awake to
      take it, pending slow work is scheduled, and the slow jobs running, which the counter
      counts exactly, stay within half the threads rounded up. */
  lemma PoolNeverStuck(states: seq<Pool>, steps: seq<Step>, nthreads: nat, nloops: nat, i: nat)
    requires IsRun(states, steps, nthreads, nloops) && i <= |steps|
    ensures var s := states[i];
      && (s.wq != [] && !(s.wq == [RunSlow] && s.running >= (nthreads + 1) / 2) ==> SomeoneAwake(s) || AllExited(s))
      && (s.slow != [] ==> RunSlow in s.wq)
      && s.running == Count(s.workers, (w: Worker) => w.OnSlowWork()) <= (nthreads + 1) / 2
  {
    RunInv(states, steps, nthreads, nloops, i);
    RunSize(states, steps, nthreads, nloops, i);
  }

  /** Main theorem, second half: in every reachable state no item ran twice or fired twice; one
      that fired ran exactly when it fired Success, and fired ECANCELED exactly when a cancel
      call returned 0. */
  lemma ExactlyOnce(states: seq<Pool>, steps: seq<Step>, nthreads: nat, nloops: nat, i: nat, id: Id)
    requires IsRun(states, steps, nthreads, nloops) && i <= |steps| && id in states[i].items
    ensures var item := states[i].items[id];
      && item.runs <= 1 && |item.fired| <= 1
      && (item.cancelReturned0 ==> item.runs == 0)
      && (item.fired != [] ==> item.fired[0] == if item.cancelReturned0 then ECANCELED else Success)
      && (item.fired != [] ==> item.runs == if item.cancelReturned0 then 0 else 1)
  {
    RunInv(states, steps, nthreads, nloops, i);
    assert ItemOk(states[i].items[id]);
  }

  /** Nothing is left to do but wait: every worker sleeps and the loops' queues are empty. */
  ghost predicate AtRest(s: Pool) {
    && (forall t :: 0 <= t < |s.workers| ==> s.workers[t].Waiting?)
    && (forall l :: 0 <= l < |s.loops| ==> s.loops[l] == Loop([], [], None))
  }

  lemma {:induction false} NoneCounted(ws: seq<Worker>, p: Worker -> bool)
    requires forall t :: 0 <= t < |ws| ==> !p(ws[t])
    ensures Count(ws, p) == 0
  {
    CountPositive(ws, p);
  }

  /** No item is ever lost: when the pool comes to rest, every submitted item has fired. */
  lemma RestMeansAllFired(states: seq<Pool>, steps: seq<Step>, nthreads: nat, nloops: nat, i: nat, id: Id)
    requires IsRun(states, steps, nthreads, nloops) && i <= |steps| && id in states[i].items
    requires AtRest(states[i])
    ensures |states[i].items[id].fired| == 1
  {
    var s := states[i];
    RunInv(states, steps, nthreads, nloops, i);
    RunSize(states, steps, nthreads, nloops, i);
    NoneCounted(s.workers, (w: Worker) => w.OnSlowWork());
    assert s.workers[0].Waiting?;
    assert s.wq == [] && s.slow == [];
    var item := s.items[id];
    assert ItemOk(item) && LoopOk(s, item.loop);
    assert !At(s, id, OnWq) && !At(s, id, OnSlow);
    assert forall t: Tid {:trigger With(t)} :: !At(s, id, With(t)) by {
      assert forall t: Tid :: At(s, id, With(t)) ==> Holder(s, id, t);
    }
    assert !AtOn(s, id, Cancelling, item.loop) && !AtOn(s, id, OnLoop, item.loop) && !AtOn(s, id, InBatch, item.loop);
  }

  /** A cancel call takes effect exactly on an item still queued for a worker, or already
      cancelled and not yet fired; an item being run or finished is busy. */
  lemma CancelTakesEffectIff(states: seq<Pool>, steps: seq<Step>, nthreads: nat, nloops: nat, i: nat, id: Id)
    requires IsRun(states, steps, nthreads, nloops) && i <= |steps| && Enabled(states[i], CancelBegin(id))
    ensures var item := states[i].items[id];
      DoCancelBegin(states[i], id) != states[i] <==> item.place.OnWq? || item.place.OnSlow? || item.fn == CancelledFn
  {
    RunInv(states, steps, nthreads, nloops, i);
    var s := states[i];
    assert ItemOk(s.items[id]);
    assert LoopOk(s, s.items[id].loop);
    assert At(s, id, Cancelling) ==> AtOn(s, id, Cancelling, s.items[id].loop);
    var r := DoCancelBegin(s, id);
    if s.items[id].place.Linked() && s.items[id].fn != Null {
      assert r.loops[s.items[id].loop].cancelling == Some(id);
    }
  }
}
