/** No worker sleeps beside work (uv_cond_signal and the wait in worker(), threadpool.c): while a
    worker waits, as many others are on their way to the queue as it has messages to take. */
module ThreadPoolWakes {
  import opened ThreadPool

  /** The messages a worker would take: the slow-I/O message does not count at its threshold. */
  function Acceptable(s: Pool): int {
    |s.wq| - if RunSlow in s.wq && s.running >= (|s.workers| + 1) / 2 then 1 else 0
  }

  predicate Comes(w: Worker) {
    w.Ready? || w.Signalled?
  }

  /** The workers that will test the queue before they do anything else. */
  function Coming(s: Pool): nat {
    Count(s.workers, Comes)
  }

  ghost predicate SomeoneWaits(s: Pool) {
    exists t :: 0 <= t < |s.workers| && s.workers[t].Waiting?
  }

  ghost predicate EnoughCome(s: Pool) {
    SomeoneWaits(s) ==> Acceptable(s) <= Coming(s)
  }

  // ----- One worker changes, or one is signalled -----

  lemma OneChanges(s: Pool, r: Pool, t: Tid)
    requires t < |s.workers| && |r.workers| == |s.workers| && r.workers == s.workers[t := r.workers[t]]
    ensures Coming(r) == Coming(s) - (if Comes(s.workers[t]) then 1 else 0) + (if Comes(r.workers[t]) then 1 else 0)
    ensures !r.workers[t].Waiting? && SomeoneWaits(r) ==> SomeoneWaits(s)
  {
    CountUpdate(s.workers, Comes, t, r.workers[t]);
    if !r.workers[t].Waiting? && SomeoneWaits(r) {
      var u :| 0 <= u < |r.workers| && r.workers[u].Waiting?;
      assert s.workers[u].Waiting?;
    }
  }

  lemma SignalBrings(s: Pool, woken: Tid)
    requires MayWake(s, woken)
    ensures var r := Signal(s, woken);
      r == s.(workers := r.workers) && |r.workers| == |s.workers| && (SomeoneWaits(r) ==> SomeoneWaits(s) && Coming(r) == Coming(s) + 1)
  {
    if woken < |s.workers| && s.workers[woken].Waiting? {
      OneChanges(s, Signal(s, woken), woken);
    }
  }

  /** Whoever posts a message with a worker waiting sends one to fetch it. */
  lemma PostBrings(s: Pool, m: Msg, woken: Tid)
    requires EnoughCome(s) && CountersOk(s) && MayWake(s, woken) && (m == RunSlow ==> RunSlow !in s.wq)
    ensures EnoughCome(Post(s, m, woken))
  {
    hide Count;
    var a := s.(wq := s.wq + [m]);
    assert Coming(a) == Coming(s) && Acceptable(a) <= Acceptable(s) + 1;
    SignalBrings(a, woken);
    var r := Post(s, m, woken);
    if SomeoneWaits(r) {
      assert s.idle > 0 by {
        WaiterIsIdle(s, r);
      }
      assert r == Signal(a, woken);
      assert SomeoneWaits(a) && SomeoneWaits(s);
    }
  }

  lemma WaiterIsIdle(s: Pool, r: Pool)
    requires CountersOk(s) && |r.workers| == |s.workers| && SomeoneWaits(r)
    requires forall t :: 0 <= t < |s.workers| && r.workers[t].Waiting? ==> s.workers[t].Waiting?
    ensures s.idle > 0
  {
    var t :| 0 <= t < |r.workers| && r.workers[t].Waiting?;
    var idle := (w: Worker) => w.Idle();
    CountPositive(s.workers, idle);
    assert idle(s.workers[t]);
  }

  lemma TailMessages(q: seq<Msg>)
    requires NoDup(q) && q != []
    ensures RunSlow in q[1..] <==> RunSlow in q && q[0] != RunSlow
  {
    TailKeepsNoDup(q);
  }

  lemma {:induction false} RemoveShorter(q: seq<Msg>, x: Msg)
    ensures |Remove(q, x)| <= |q|
    decreases |q|
  {
    if q != [] {
      RemoveShorter(q[1..], x);
    }
  }

  // ----- Every step keeps it -----

  lemma SubmitKeeps(s: Pool, id: Id, l: nat, kind: Kind, woken: Tid)
    requires Inv(s) && EnoughCome(s) && Enabled(s, Submit(id, l, kind, woken))
    ensures EnoughCome(DoSubmit(s, id, l, kind, woken))
  {
    hide QueuesHold, Scheduled, WorkersOk, CountersOk, LoopsOk, ItemsOk, NotStuck, Count;
    var item := Item(l, kind, Job, if kind == SlowIO then OnSlow else OnWq, 0, [], false);
    var a := s.(items := s.items[id := item]);
    if kind == SlowIO {
      var b := a.(slow := a.slow + [id]);
      CountersSame(s, b);
      if RunSlow !in b.wq {
        PostBrings(b, RunSlow, woken);
      }
    } else {
      CountersSame(s, a);
      PostBrings(a, Work(id), woken);
    }
  }

  /** The head of the queue is taken by the worker that comes. */
  lemma TakeKeeps(s: Pool, r: Pool, t: Tid)
    requires EnoughCome(s) && t < |s.workers| && s.workers[t].Ready? && s.wq != [] && NoDup(s.wq)
    requires r.wq == s.wq[1..] && |r.workers| == |s.workers| && r.workers == s.workers[t := r.workers[t]] && r.workers[t].Running?
    requires if s.wq[0] == RunSlow then s.running < s.Threshold() else r.running == s.running
    ensures EnoughCome(r)
  {
    hide Count;
    TailMessages(s.wq);
    OneChanges(s, r, t);
  }

  lemma WaitingKeeps(s: Pool, t: Tid)
    requires t < |s.workers| && s.MustWait()
    ensures EnoughCome(s.(idle := s.idle + 1, workers := s.workers[t := Waiting]))
  {
  }

  lemma ExitingKeeps(s: Pool, t: Tid, woken: Tid)
    requires EnoughCome(s) && t < |s.workers| && s.workers[t].Ready? && MayWake(s, woken)
    ensures EnoughCome(Signal(s.(workers := s.workers[t := Exited]), woken))
  {
    hide Count;
    var a := s.(workers := s.workers[t := Exited]);
    OneChanges(s, a, t);
    if u :| 0 <= u < |a.workers| && a.workers[u].Waiting? {
      assert s.workers[u].Waiting?;
    }
    SignalBrings(a, woken);
  }

  lemma MessageMoves(s: Pool, t: Tid)
    requires EnoughCome(s) && t < |s.workers| && s.wq != [] && s.wq[0] == RunSlow && NoDup(s.wq)
    ensures s.running >= s.Threshold() ==> EnoughCome(s.(wq := s.wq[1..] + [RunSlow]))
    ensures s.running < s.Threshold() ==> EnoughCome(s.(wq := s.wq[1..]))
  {
    hide Count;
    TailMessages(s.wq);
    var r, q := s.(wq := s.wq[1..] + [RunSlow]), s.(wq := s.wq[1..]);
    assert Coming(r) == Coming(s) && Coming(q) == Coming(s);
    assert SomeoneWaits(r) == SomeoneWaits(s) && SomeoneWaits(q) == SomeoneWaits(s);
  }

  lemma TakeSlowComes(s: Pool, t: Tid, woken: Tid)
    requires Inv(s) && EnoughCome(s) && t < |s.workers| && s.workers[t].Ready? && MayWake(s, woken)
    requires s.wq != [] && s.wq[0] == RunSlow && s.running < s.Threshold() && s.slow != [] && HeadsKnown(s)
    ensures var a := TakeSlow(s, t); EnoughCome(if a.slow != [] then Post(a, RunSlow, woken) else a)
  {
    hide Scheduled, WorkersOk, CountersOk, LoopsOk, ItemsOk, NotStuck, Count, EnoughCome;
    var a := TakeSlow(s, t);
    TakeSlowHalf(s, t, woken);
    TakeKeeps(s, a, t);
    if a.slow != [] {
      PostBrings(a, RunSlow, woken);
    }
  }

  lemma ReacquireComes(s: Pool, t: Tid, woken: Tid)
    requires EnoughCome(s) && t < |s.workers| && (s.workers[t].Ready? || s.workers[t].Signalled?) && MayWake(s, woken)
    ensures EnoughCome(Reacquire(s, t)) && MayWake(Reacquire(s, t), woken)
  {
    hide Count;
    var r := Reacquire(s, t);
    if s.workers[t].Signalled? {
      OneChanges(s, r, t);
    }
    if u :| 0 <= u < |r.workers| && r.workers[u].Waiting? {
      assert s.workers[u].Waiting?;
    }
  }

  lemma WorkerComes(s0: Pool, t: Tid, woken: Tid)
    requires Inv(s0) && EnoughCome(s0) && Enabled(s0, WorkerTop(t, woken)) && HeadsKnown(s0)
    ensures EnoughCome(DoWorkerTop(s0, t, woken))
  {
    hide Inv, EnoughCome, MayWake, Count;
    ReacquireKeeps(s0, t);
    ReacquireComes(s0, t, woken);
    var s := Reacquire(s0, t);
    NoDupQueue(s);
    if s.MustWait() {
      WaitingKeeps(s, t);
    } else {
      match s.wq[0]
      case Exit => ExitingKeeps(s, t, woken);
      case Work(id) => TakeKeeps(s, DoWorkerTop(s0, t, woken), t);
      case RunSlow =>
        if s.running >= s.Threshold() || s.slow == [] {
          MessageMoves(s, t);
        } else {
          TakeSlowComes(s, t, woken);
        }
    }
  }

  lemma NoDupQueue(s: Pool)
    requires Inv(s)
    ensures NoDup(s.wq)
  {
  }

  /** A worker that is done with a slow job makes room for another and comes itself. */
  lemma RelockComes(s: Pool, t: Tid)
    requires EnoughCome(s) && Enabled(s, Relock(t))
    ensures EnoughCome(Apply(s, Relock(t)))
  {
    hide Count;
    OneChanges(s, Apply(s, Relock(t)), t);
  }

  lemma CancelComes(s: Pool, id: Id)
    requires EnoughCome(s) && Enabled(s, CancelBegin(id))
    ensures EnoughCome(DoCancelBegin(s, id))
  {
    hide Count, Remove;
    RemoveShorter(s.wq, Work(id));
    var r := DoCancelBegin(s, id);
    assert r.workers == s.workers && (RunSlow in s.wq ==> RunSlow in r.wq);
  }

  lemma StepKeepsComing(s: Pool, step: Step)
    requires Inv(s) && EnoughCome(s) && Enabled(s, step) && Known(s, step)
    ensures EnoughCome(Apply(s, step))
  {
    hide Inv, Count, Remove;
    match step
    case Submit(id, l, kind, woken) => SubmitKeeps(s, id, l, kind, woken);
    case PostExit(woken) =>
      CountersKnown(s);
      PostBrings(s, Exit, woken);
    case WorkerTop(t, woken) => WorkerComes(s, t, woken);
    case SpuriousWake(t) => OneChanges(s, Apply(s, step), t);
    case RunWork(t) => OneChanges(s, Apply(s, step), t);
    case FinishWork(t) => OneChanges(s, Apply(s, step), t);
    case Relock(t) => RelockComes(s, t);
    case CancelBegin(id) => CancelComes(s, id);
    case _ => LoopStepsStay(s, step);
  }

  lemma CountersKnown(s: Pool)
    requires Inv(s)
    ensures CountersOk(s)
  {
  }

  lemma LoopStepsStay(s: Pool, step: Step)
    requires EnoughCome(s) && Enabled(s, step) && Known(s, step) && (step.CancelEnd? || step.TakeBatch? || step.FireDone?)
    ensures EnoughCome(Apply(s, step))
  {
    hide Count;
    assert Apply(s, step).workers == s.workers && Apply(s, step).wq == s.wq;
  }

  // ----- Runs -----

  lemma {:induction false} RunComes(states: seq<Pool>, steps: seq<Step>, nthreads: nat, nloops: nat, i: nat)
    requires IsRun(states, steps, nthreads, nloops) && i <= |steps|
    ensures EnoughCome(states[i])
  {
    hide Inv, Enabled, Apply, Known, Count;
    if i > 0 {
      RunComes(states, steps, nthreads, nloops, i - 1);
      RunInv(states, steps, nthreads, nloops, i - 1);
      InvKnows(states[i - 1], steps[i - 1]);
      StepKeepsComing(states[i - 1], steps[i - 1]);
    }
  }

  /** Main theorem: in every reachable state with a worker waiting, there are at least as many workers
      ready for the queue or signalled as it has messages they would take. */
  lemma NoIdleBesideWork(states: seq<Pool>, steps: seq<Step>, nthreads: nat, nloops: nat, i: nat, t: Tid)
    requires IsRun(states, steps, nthreads, nloops) && i <= |steps|
    requires t < |states[i].workers| && states[i].workers[t].Waiting?
    ensures Acceptable(states[i]) <= Coming(states[i])
  {
    RunComes(states, steps, nthreads, nloops, i);
  }
}
