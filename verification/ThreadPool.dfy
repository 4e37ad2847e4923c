/**
 The thread pool (src/plugin/core/thread/thread_pool_module.cc and .h) as a state machine over the
 interleaved steps of its workers and of the threads that use it. Queues are first in, first out for
 each producer, and promise no order between producers.
 */
module ThreadPool {
  import opened Fifo
  import opened Guids
  import opened Wrappers

  /** What a task's functors do: another user's work, or an actor's Update. */
  datatype Work = Other(data: string) | UpdateActor(actor: nat)

  /** A ThreadTask, told apart by its place among the submitted ones; `ends`: it has an end function. */
  datatype Task = Task(serial: nat, producer: nat, id: Guid, work: Work, ends: bool)

  /** A ThreadCell: its task list, and the task whose functions its thread is in. */
  datatype Worker = Worker(queue: seq<Task>, running: Option<Task>)

  /** The pool, the queue of results, and what has happened so far. */
  datatype State = State(
    workers: seq<Worker>, results: seq<Task>,
    submitted: seq<Task>, started: seq<Task>, finished: seq<Task>, ended: seq<Task>)

  datatype Step =
    | Submit(producer: nat, id: Guid, work: Work, ends: bool)
    | Start(worker: nat, at: nat)
    | Finish(worker: nat)
    | End(at: nat)

  /** DoAsyncTask's choice of a worker. */
  function Index(id: Guid, n: nat): (index: nat)
    requires n > 0
    ensures index < n
  {
    if id == NULL_GUID then 0 else Unsigned64(id.data) % n
  }

  /** TryPop may return the oldest task of any producer. */
  predicate Oldest(queue: seq<Task>, at: nat) {
    at < |queue| && forall k :: 0 <= k < at ==> queue[k].producer != queue[at].producer
  }

  /** The producer of a result is the worker that ran the task. */
  predicate OldestResult(results: seq<Task>, n: nat, at: nat)
    requires n > 0
  {
    at < |results| && forall k :: 0 <= k < at ==> Index(results[k].id, n) != Index(results[at].id, n)
  }

  predicate Enabled(s: State, e: Step) {
    && |s.workers| > 0
    && match e
      case Submit(_, _, _, _) => true
      case Start(w, at) => w < |s.workers| && s.workers[w].running.None? && Oldest(s.workers[w].queue, at)
      case Finish(w) => w < |s.workers| && s.workers[w].running.Some?
      case End(at) => OldestResult(s.results, |s.workers|, at)
  }

  function Next(s: State, e: Step): (r: State)
    requires Enabled(s, e)
    ensures |r.workers| == |s.workers|
  {
    match e
    case Submit(producer, id, work, ends) =>
      var t := Task(|s.submitted|, producer, id, work, ends);
      var w := Index(id, |s.workers|);
      s.(workers := s.workers[w := s.workers[w].(queue := s.workers[w].queue + [t])],
         submitted := s.submitted + [t])
    case Start(w, at) =>
      var t := s.workers[w].queue[at];
      s.(workers := s.workers[w := Worker(RemoveAt(s.workers[w].queue, at), Some(t))],
         started := s.started + [t])
    case Finish(w) =>
      var t := s.workers[w].running.value;
      s.(workers := s.workers[w := s.workers[w].(running := None)],
         finished := s.finished + [t],
         results := if t.ends then s.results + [t] else s.results)
    case End(at) =>
      s.(results := RemoveAt(s.results, at), ended := s.ended + [s.results[at]])
  }

  function Initial(n: nat): State {
    State(seq(n, _ => Worker([], None)), [], [], [], [], [])
  }

  /** A step that cannot be taken is skipped, so every list of steps is a run. */
  function Run(s: State, steps: seq<Step>): State
    decreases |steps|
  {
    if steps == [] then s
    else
      var before := Run(s, steps[..|steps| - 1]);
      var e := steps[|steps| - 1];
      if Enabled(before, e) then Next(before, e) else before
  }

  // ------------------------------------------------------------------------------------------
  // Where tasks are
  // ------------------------------------------------------------------------------------------

  /** How often a task stands in a worker's queue, and whether its thread is in it. */
  function Queued(w: Worker, t: Task): nat {
    multiset(w.queue)[t]
  }

  function InHand(w: Worker, t: Task): nat {
    if w.running == Some(t) then 1 else 0
  }

  function Waiting(ws: seq<Worker>, t: Task): nat {
    if ws == [] then 0 else Waiting(ws[..|ws| - 1], t) + Queued(ws[|ws| - 1], t)
  }

  function Running(ws: seq<Worker>, t: Task): nat {
    if ws == [] then 0 else Running(ws[..|ws| - 1], t) + InHand(ws[|ws| - 1], t)
  }

  lemma {:induction false} SumsUpdate(ws: seq<Worker>, w: nat, v: Worker, t: Task)
    requires w < |ws|
    ensures Waiting(ws[w := v], t) == Waiting(ws, t) - Queued(ws[w], t) + Queued(v, t)
    ensures Running(ws[w := v], t) == Running(ws, t) - InHand(ws[w], t) + InHand(v, t)
    decreases |ws|
  {
    var last := |ws| - 1;
    if w < last {
      SumsUpdate(ws[..last], w, v, t);
      assert ws[w := v][..last] == ws[..last][w := v];
    } else {
      assert ws[w := v][..last] == ws[..last];
    }
  }

  /** The worker that holds a task counts for the whole pool. */
  lemma {:induction false} PartOfSums(ws: seq<Worker>, w: nat, t: Task)
    requires w < |ws|
    ensures Queued(ws[w], t) <= Waiting(ws, t) && InHand(ws[w], t) <= Running(ws, t)
    decreases |ws|
  {
    if w < |ws| - 1 {
      PartOfSums(ws[..|ws| - 1], w, t);
    }
  }

  lemma {:induction false} NothingInIdle(ws: seq<Worker>, t: Task)
    requires forall w :: 0 <= w < |ws| ==> ws[w] == Worker([], None)
    ensures Waiting(ws, t) == 0 && Running(ws, t) == 0
    decreases |ws|
  {
    if ws != [] {
      NothingInIdle(ws[..|ws| - 1], t);
    }
  }

  // ------------------------------------------------------------------------------------------
  // The invariant
  // ------------------------------------------------------------------------------------------

  /** Every task is on the worker its id selects. */
  ghost predicate Placed(s: State) {
    && |s.workers| > 0
    && forall w :: 0 <= w < |s.workers| ==>
      && (forall k :: 0 <= k < |s.workers[w].queue| ==> Index(s.workers[w].queue[k].id, |s.workers|) == w)
      && (s.workers[w].running.Some? ==> Index(s.workers[w].running.value.id, |s.workers|) == w)
  }

  ghost predicate Numbered(s: State) {
    forall k :: 0 <= k < |s.submitted| ==> s.submitted[k].serial == k
  }

  /**
   No task is lost, made or run twice: every submitted one waits, runs or has finished, and of the
   finished ones those with an end function are due for it or had it.
   */
  predicate ConservedOf(s: State, t: Task) {
    && Count(s.submitted, t) == Waiting(s.workers, t) + Count(s.started, t)
    && Count(s.started, t) == Running(s.workers, t) + Count(s.finished, t)
    && Count(s.results, t) + Count(s.ended, t) == if t.ends then Count(s.finished, t) else 0
  }

  ghost predicate Conserved(s: State) {
    forall t: Task :: ConservedOf(s, t)
  }

  /** If `late` has the producer and the worker of `early`, it was submitted later. */
  predicate Behind(early: Task, late: Task, n: nat)
    requires n > 0
  {
    early.producer == late.producer && Index(early.id, n) == Index(late.id, n) ==> early.serial < late.serial
  }

  function Later(n: nat): (Task, Task) -> bool
    requires n > 0
  {
    (early, late) => Behind(early, late, n)
  }

  /** One producer's tasks on one worker start in the order they were submitted. */
  ghost predicate InOrder(s: State)
  {
    && |s.workers| > 0
    && Ranked(s.started, Later(|s.workers|))
    && forall w :: 0 <= w < |s.workers| ==> Ranked(s.started + s.workers[w].queue, Later(|s.workers|))
  }

  ghost predicate Inv(s: State) {
    Placed(s) && Numbered(s) && Conserved(s) && InOrder(s)
  }

  lemma InitialInv(n: nat)
    requires n > 0
    ensures Inv(Initial(n))
  {
    forall t: Task
      ensures Waiting(Initial(n).workers, t) == 0 && Running(Initial(n).workers, t) == 0
    {
      NothingInIdle(Initial(n).workers, t);
    }
  }

  lemma StepConserves(s: State, e: Step)
    requires Conserved(s) && Enabled(s, e)
    ensures Conserved(Next(s, e))
  {
    forall t: Task
      ensures ConservedOf(Next(s, e), t)
    {
      assert ConservedOf(s, t);
      StepConservesOf(s, e, t);
    }
  }

  lemma StepConservesOf(s: State, e: Step, t: Task)
    requires ConservedOf(s, t) && Enabled(s, e)
    ensures ConservedOf(Next(s, e), t)
  {
    match e
    case Submit(producer, id, work, ends) =>
      SubmitConserves(s, Index(id, |s.workers|), Task(|s.submitted|, producer, id, work, ends), t);
    case Start(w, at) => StartConserves(s, w, at, t);
    case Finish(w) => FinishConserves(s, w, t);
    case End(at) =>
      CountRemove(s.results, at, t);
      CountAppend(s.ended, s.results[at], t);
  }

  lemma SubmitConserves(s: State, w: nat, u: Task, t: Task)
    requires w < |s.workers|
    ensures var v := s.workers[w].(queue := s.workers[w].queue + [u]);
      && Count(s.submitted + [u], t) == Count(s.submitted, t) + One(u, t)
      && Waiting(s.workers[w := v], t) == Waiting(s.workers, t) + One(u, t)
      && Running(s.workers[w := v], t) == Running(s.workers, t)
  {
    var v := s.workers[w].(queue := s.workers[w].queue + [u]);
    SumsUpdate(s.workers, w, v, t);
    CountAppend(s.submitted, u, t);
    CountAppend(s.workers[w].queue, u, t);
  }

  lemma StartConserves(s: State, w: nat, at: nat, t: Task)
    requires w < |s.workers| && s.workers[w].running.None? && at < |s.workers[w].queue|
    ensures var u := s.workers[w].queue[at];
      var v := Worker(RemoveAt(s.workers[w].queue, at), Some(u));
      && Count(s.started + [u], t) == Count(s.started, t) + One(u, t)
      && Waiting(s.workers[w := v], t) == Waiting(s.workers, t) - One(u, t)
      && Running(s.workers[w := v], t) == Running(s.workers, t) + One(u, t)
  {
    var u := s.workers[w].queue[at];
    SumsUpdate(s.workers, w, Worker(RemoveAt(s.workers[w].queue, at), Some(u)), t);
    CountAppend(s.started, u, t);
    CountRemove(s.workers[w].queue, at, t);
  }

  lemma FinishConserves(s: State, w: nat, t: Task)
    requires w < |s.workers| && s.workers[w].running.Some?
    ensures var u := s.workers[w].running.value;
      var v := s.workers[w].(running := None);
      && Count(s.finished + [u], t) == Count(s.finished, t) + One(u, t)
      && Count(s.results + [u], t) == Count(s.results, t) + One(u, t)
      && Waiting(s.workers[w := v], t) == Waiting(s.workers, t)
      && Running(s.workers[w := v], t) == Running(s.workers, t) - One(u, t)
  {
    var u := s.workers[w].running.value;
    SumsUpdate(s.workers, w, s.workers[w].(running := None), t);
    CountAppend(s.finished, u, t);
    CountAppend(s.results, u, t);
  }

  lemma StepKeepsPlaced(s: State, e: Step)
    requires Placed(s) && Enabled(s, e)
    ensures Placed(Next(s, e))
  {
  }

  // ------------------------------------------------------------------------------------------
  // Order
  // ------------------------------------------------------------------------------------------

  /** Whatever the pool holds was submitted, so a new task is behind all of it. */
  lemma NewestIsBehind(s: State, ts: seq<Task>, late: Task)
    requires |s.workers| > 0 && Numbered(s) && late.serial == |s.submitted|
    requires forall i :: 0 <= i < |ts| ==> Count(s.submitted, ts[i]) > 0
    ensures forall i :: 0 <= i < |ts| ==> Behind(ts[i], late, |s.workers|)
  {
    forall i | 0 <= i < |ts|
      ensures ts[i].serial < late.serial
    {
      assert ts[i] in s.submitted;
    }
  }

  lemma HeldIsSubmitted(s: State, w: nat)
    requires Conserved(s) && w < |s.workers|
    ensures forall i :: 0 <= i < |s.started| ==> Count(s.submitted, s.started[i]) > 0
    ensures forall i :: 0 <= i < |s.workers[w].queue| ==> Count(s.submitted, s.workers[w].queue[i]) > 0
    ensures s.workers[w].running.Some? ==> Count(s.submitted, s.workers[w].running.value) > 0
  {
    forall t: Task
      ensures Queued(s.workers[w], t) + InHand(s.workers[w], t) <= Count(s.submitted, t)
    {
      assert ConservedOf(s, t);
      PartOfSums(s.workers, w, t);
    }
    forall i | 0 <= i < |s.started|
      ensures Count(s.submitted, s.started[i]) > 0
    {
      assert ConservedOf(s, s.started[i]);
    }
    forall i | 0 <= i < |s.workers[w].queue|
      ensures Count(s.submitted, s.workers[w].queue[i]) > 0
    {
      assert Queued(s.workers[w], s.workers[w].queue[i]) > 0;
    }
    if s.workers[w].running.Some? {
      assert InHand(s.workers[w], s.workers[w].running.value) == 1;
    }
  }

  lemma SubmitKeepsOrder(s: State, producer: nat, id: Guid, work: Work, ends: bool)
    requires Inv(s)
    ensures InOrder(Next(s, Submit(producer, id, work, ends)))
  {
    var t := Task(|s.submitted|, producer, id, work, ends);
    var n, w := |s.workers|, Index(id, |s.workers|);
    var queue := s.workers[w].queue;
    HeldIsSubmitted(s, w);
    NewestIsBehind(s, s.started + queue, t);
    RankedAppend(s.started + queue, t, Later(n));
    assert s.started + (queue + [t]) == s.started + queue + [t];
  }

  lemma StartKeepsOrder(s: State, w: nat, at: nat)
    requires Inv(s) && Enabled(s, Start(w, at))
    ensures InOrder(Next(s, Start(w, at)))
  {
    var r, n := Next(s, Start(w, at)), |s.workers|;
    var t := s.workers[w].queue[at];
    RankedMove(s.started, s.workers[w].queue, at, Later(n));
    RankedPrefix(s.started + [t], RemoveAt(s.workers[w].queue, at), Later(n));
    forall w' | 0 <= w' < n
      ensures Ranked(r.started + r.workers[w'].queue, Later(n))
    {
      if w' != w {
        RankedInsert(s.started, s.workers[w'].queue, t, Later(n));
      }
    }
  }

  lemma OtherStepsKeepOrder(s: State, e: Step)
    requires InOrder(s) && Enabled(s, e) && (e.Finish? || e.End?)
    ensures InOrder(Next(s, e))
  {
    var r := Next(s, e);
    assert forall w :: 0 <= w < |s.workers| ==> r.workers[w].queue == s.workers[w].queue;
  }

  lemma StepKeepsInv(s: State, e: Step)
    requires Inv(s) && Enabled(s, e)
    ensures Inv(Next(s, e))
  {
    StepConserves(s, e);
    StepKeepsPlaced(s, e);
    match e
    case Submit(producer, id, work, ends) => SubmitKeepsOrder(s, producer, id, work, ends);
    case Start(w, at) => StartKeepsOrder(s, w, at);
    case Finish(w) => OtherStepsKeepOrder(s, e);
    case End(at) => OtherStepsKeepOrder(s, e);
  }

  lemma {:induction false} RunKeepsInv(n: nat, steps: seq<Step>)
    requires n > 0
    ensures Inv(Run(Initial(n), steps)) && |Run(Initial(n), steps).workers| == n
    decreases |steps|
  {
    InitialInv(n);
    if steps != [] {
      RunKeepsInv(n, steps[..|steps| - 1]);
      var before := Run(Initial(n), steps[..|steps| - 1]);
      if Enabled(before, steps[|steps| - 1]) {
        StepKeepsInv(before, steps[|steps| - 1]);
      }
    }
  }

  // ------------------------------------------------------------------------------------------
  // What every run keeps
  // ------------------------------------------------------------------------------------------

  /** Tasks with equal ids never run at the same time. */
  lemma EqualIdsNeverTogether(n: nat, steps: seq<Step>, a: nat, b: nat)
    requires n > 0
    ensures var ws := Run(Initial(n), steps).workers;
      a < |ws| && b < |ws| && ws[a].running.Some? && ws[b].running.Some?
        && ws[a].running.value.id == ws[b].running.value.id
      ==> a == b
  {
    RunKeepsInv(n, steps);
  }

  /** A worker holds only tasks whose id selects it, by the remainder of its second half; none selects 0. */
  lemma TasksGoByTheirIds(n: nat, steps: seq<Step>, w: nat, t: Task)
    requires n > 0
    ensures var ws := Run(Initial(n), steps).workers;
      && |ws| == n
      && (w < n && (t in ws[w].queue || ws[w].running == Some(t)) ==>
        w == if t.id == Guid(0, 0) then 0 else t.id.data % 0x1_0000_0000_0000_0000 % n)
  {
    RunKeepsInv(n, steps);
  }

  /** Step `i` of the run submits the task. */
  predicate SubmittedAt(n: nat, steps: seq<Step>, i: nat, t: Task) {
    && i < |steps| && steps[i] == Submit(t.producer, t.id, t.work, t.ends)
    && t.serial == |Run(Initial(n), steps[..i]).submitted|
  }

  lemma SubmittedEarlier(n: nat, steps: seq<Step>, i: nat, t: Task)
    requires i < |steps| - 1
    ensures SubmittedAt(n, steps, i, t) == SubmittedAt(n, steps[..|steps| - 1], i, t)
  {
    assert steps[..|steps| - 1][..i] == steps[..i];
  }

  lemma SubmitIsSubmitted(s: State, e: Step, t: Task)
    requires |s.workers| > 0
    ensures t in (if Enabled(s, e) then Next(s, e) else s).submitted <==>
            t in s.submitted || (e == Submit(t.producer, t.id, t.work, t.ends) && t.serial == |s.submitted|)
  {
  }

  /** The tasks submitted are those of the calls of DoAsyncTask, none else and none missing. */
  lemma {:induction false} SubmittedIff(n: nat, steps: seq<Step>, t: Task)
    requires n > 0
    ensures t in Run(Initial(n), steps).submitted <==> exists i :: SubmittedAt(n, steps, i, t)
    decreases |steps|
  {
    if steps != [] {
      var last := |steps| - 1;
      var s := Run(Initial(n), steps[..last]);
      SubmittedIff(n, steps[..last], t);
      forall i: nat | i < last
        ensures SubmittedAt(n, steps, i, t) == SubmittedAt(n, steps[..last], i, t)
      {
        SubmittedEarlier(n, steps, i, t);
      }
      RunKeepsInv(n, steps[..last]);
      SubmitIsSubmitted(s, steps[last], t);
      assert SubmittedAt(n, steps, last, t) <==>
        steps[last] == Submit(t.producer, t.id, t.work, t.ends) && t.serial == |s.submitted|;
    }
  }

  predicate Idle(s: State) {
    forall w :: 0 <= w < |s.workers| ==> s.workers[w] == Worker([], None)
  }

  /**
   No task runs twice, and none is lost: what was submitted is waiting, running or finished, and once
   the workers are idle every submitted task has run.
   */
  lemma TasksRunOnce(n: nat, steps: seq<Step>, t: Task)
    requires n > 0
    ensures var s := Run(Initial(n), steps);
      && Count(s.finished, t) <= Count(s.started, t) <= Count(s.submitted, t) <= 1
      && (Idle(s) ==> Count(s.finished, t) == Count(s.submitted, t))
  {
    RunKeepsInv(n, steps);
    var s := Run(Initial(n), steps);
    assert ConservedOf(s, t);
    NumberedOnce(s.submitted, (u: Task) => u.serial, t);
    if Idle(s) {
      NothingInIdle(s.workers, t);
    }
  }

  /** An end function runs at most once, only for a task that has one, and after its thread function. */
  lemma EndsOnceAndAfter(n: nat, steps: seq<Step>, t: Task)
    requires n > 0
    ensures var s := Run(Initial(n), steps);
      && Count(s.ended, t) <= 1
      && (Count(s.ended, t) == 1 ==> t.ends && Count(s.finished, t) == 1)
      && (s.results == [] && t.ends ==> Count(s.ended, t) == Count(s.finished, t))
  {
    RunKeepsInv(n, steps);
    assert ConservedOf(Run(Initial(n), steps), t);
    TasksRunOnce(n, steps, t);
  }

  /** One producer's tasks with equal ids start in the order they were submitted. */
  lemma EqualIdsKeepOrder(n: nat, steps: seq<Step>, i: nat, j: nat)
    requires n > 0
    ensures var started := Run(Initial(n), steps).started;
      i < j < |started| && started[i].id == started[j].id && started[i].producer == started[j].producer
      ==> started[i].serial < started[j].serial
  {
    RunKeepsInv(n, steps);
    var started := Run(Initial(n), steps).started;
    if i < j < |started| {
      assert Behind(started[i], started[j], n);
    }
  }
}
