/**
 The procedures of Actor and ActorModule (src/plugin/core/actor/actor.cc, actor_module.cc), each proved to
 take steps of Actors. The draining loops are verified for a pass that no other thread interrupts; arbitrary
 interleavings are the runs of Actors.
 */
module ActorObjects {
  import opened Actors
  import opened Bytes
  import opened Fifo
  import opened Guids
  import opened ThreadCells
  import opened Wrappers
  import Pool = ThreadPool

  /** The messages of a queue that an actor with these handlers answers. */
  function Answered(ms: seq<Message>, handlers: set<int>): seq<Message>
    decreases |ms|
  {
    if ms == [] then []
    else Answered(ms[..|ms| - 1], handlers) + if ms[|ms| - 1].kind in handlers then [ms[|ms| - 1]] else []
  }

  /** Of one message that is the message itself when its kind has a handler, and else nothing. */
  lemma AnswerOfOne(m: Message, handlers: set<int>)
    ensures Answered([m], handlers) == if m.kind in handlers then [m] else []
  {
    assert [m][..0] == [];
  }

  /** Of one queue behind another it is what is answered of the first, then of the second. */
  lemma {:induction false} AnswersOneByOne(ms: seq<Message>, more: seq<Message>, handlers: set<int>)
    ensures Answered(ms + more, handlers) == Answered(ms, handlers) + Answered(more, handlers)
    decreases |more|
  {
    if more == [] {
      assert ms + more == ms;
    } else {
      var last := |more| - 1;
      assert (ms + more)[..|ms| + last] == ms + more[..last];
      AnswersOneByOne(ms, more[..last], handlers);
    }
  }

  /** Exactly the messages with a handler are answered, as often as they are queued. */
  lemma {:induction false} AnsweredCount(ms: seq<Message>, handlers: set<int>, m: Message)
    ensures multiset(Answered(ms, handlers))[m] == if m.kind in handlers then multiset(ms)[m] else 0
    decreases |ms|
  {
    if ms != [] {
      AnsweredCount(ms[..|ms| - 1], handlers, m);
      assert ms == ms[..|ms| - 1] + [ms[|ms| - 1]];
    }
  }

  /** The state after the first `n` messages of a mailbox: those with a handler are handled and returned. */
  function WithoutFirst(s: State, a: nat, n: nat): State
    requires a < |s.actors| && n <= |s.actors[a].mailbox|
  {
    var mailbox, handlers := s.actors[a].mailbox, s.actors[a].handlers;
    var answered := Answered(mailbox[..n], handlers);
    s.(actors := s.actors[a := s.actors[a].(mailbox := mailbox[n..])],
       received := s.received + mailbox[..n],
       handled := s.handled + answered,
       results := s.results + answered)
  }

  lemma TakeOneMore(s: State, a: nat, n: nat)
    requires a < |s.actors| && n < |s.actors[a].mailbox|
    ensures Take(WithoutFirst(s, a, n), a, 0) == WithoutFirst(s, a, n + 1)
  {
    var mailbox, handlers := s.actors[a].mailbox, s.actors[a].handlers;
    var m, earlier := mailbox[n], mailbox[..n];
    assert RemoveAt(mailbox[n..], 0) == mailbox[n + 1..] && mailbox[n..][0] == m;
    assert mailbox[..n + 1] == earlier + [m] && mailbox[..n + 1][..n] == earlier;
    AppendAssociative(s.received, earlier, [m]);
    AppendAssociative(s.handled, Answered(earlier, handlers), [m]);
    AppendAssociative(s.results, Answered(earlier, handlers), [m]);
    assert Answered(mailbox[..n + 1], handlers) == Answered(earlier, handlers) + if m.kind in handlers then [m] else [];
    var t, r := Take(WithoutFirst(s, a, n), a, 0), WithoutFirst(s, a, n + 1);
    assert t.actors == r.actors;
  }

  lemma NoneTaken(s: State, a: nat)
    requires a < |s.actors|
    ensures WithoutFirst(s, a, 0) == s
  {
    assert s.received + [] == s.received && s.handled + [] == s.handled && s.results + [] == s.results;
    assert s.actors[a := s.actors[a]] == s.actors;
  }

  // ------------------------------------------------------------------------------------------
  // What the procedures do, as steps
  // ------------------------------------------------------------------------------------------

  lemma {:induction false} RunTwice(s: State, xs: seq<Step>, ys: seq<Step>)
    ensures Run(s, xs + ys) == Run(Run(s, xs), ys)
    decreases |ys|
  {
    if ys == [] {
      assert xs + ys == xs;
    } else {
      RunTwice(s, xs, ys[..|ys| - 1]);
      assert (xs + ys)[..|xs + ys| - 1] == xs + ys[..|ys| - 1];
    }
  }

  lemma RunOne(s: State, e: Step)
    requires Enabled(s, e)
    ensures Run(s, [e]) == Next(s, e)
  {
    assert [e][..0] == [];
  }

  /** Actor::Update on worker `w`. */
  function Receives(w: nat, n: nat): seq<Step> {
    seq(n, _ => Receive(w, 0))
  }

  /** Receiving the first message as often as there are messages is draining the mailbox. */
  lemma {:induction false} ReceivesDrain(s: State, w: nat, a: nat, n: nat)
    requires Updating(s, w) == Some(a) && a < |s.actors| && n <= |s.actors[a].mailbox|
    ensures Run(s, Receives(w, n)) == WithoutFirst(s, a, n)
    decreases n
  {
    if n == 0 {
      NoneTaken(s, a);
    } else {
      assert Receives(w, n)[..n - 1] == Receives(w, n - 1);
      ReceivesDrain(s, w, a, n - 1);
      ReceiveNext(s, w, a, n - 1);
    }
  }

  lemma ReceiveNext(s: State, w: nat, a: nat, n: nat)
    requires Updating(s, w) == Some(a) && a < |s.actors| && n < |s.actors[a].mailbox|
    ensures var t := WithoutFirst(s, a, n);
      Enabled(t, Receive(w, 0)) && Next(t, Receive(w, 0)) == WithoutFirst(s, a, n + 1)
  {
    assert Updating(WithoutFirst(s, a, n), w) == Some(a);
    TakeOneMore(s, a, n);
  }

  /** UpdateEvent of the actors with these ids. */
  function Schedules(order: seq<(Guid, nat)>, main: nat): seq<Step> {
    seq(|order|, i requires 0 <= i < |order| => Schedule(order[i].0, main))
  }

  lemma {:induction false} SchedulesSubmit(s: State, order: seq<(Guid, nat)>, main: nat)
    requires |s.pool.workers| > 0
    requires forall i :: 0 <= i < |order| ==> IsRegistered(s, order[i])
    ensures Run(s, Schedules(order, main)) == s.(pool := Submitted(s.pool, main, order))
    decreases |order|
  {
    if order != [] {
      var init := order[..|order| - 1];
      SchedulesSubmit(s, init, main);
      assert Schedules(order, main)[..|order| - 1] == Schedules(init, main);
      assert IsRegistered(s, order[|order| - 1]);
    }
  }

  predicate IsRegistered(s: State, a: (Guid, nat)) {
    a.0 in s.registered && a.1 == s.registered[a.0] < |s.actors| && s.actors[a.1].id == a.0
  }

  /** UpdateResultEvent. */
  function Returns(n: nat): seq<Step> {
    seq(n, _ => Return(0))
  }

  lemma {:induction false} ReturnsGive(s: State, n: nat)
    requires n <= |s.results|
    ensures Run(s, Returns(n)) == s.(results := s.results[n..], returned := s.returned + s.results[..n])
    decreases n
  {
    if n > 0 {
      ReturnsGive(s, n - 1);
      assert Returns(n)[..n - 1] == Returns(n - 1);
      AppendAssociative(s.returned, s.results[..n - 1], [s.results[n - 1]]);
      assert s.results[..n] == s.results[..n - 1] + [s.results[n - 1]];
    }
  }

  /** The actor a task updates, if it is an actor's. */
  function UpdatedBy(s: State, work: Pool.Work): Option<nat> {
    if work.UpdateActor? && work.actor < |s.actors| then Some(work.actor) else None
  }

  /** A turn of worker `w`: its oldest task starts, the actor it is for takes its messages, the task ends. */
  function TurnSteps(s: State, w: nat): seq<Step>
    requires w < |s.pool.workers| && s.pool.workers[w].queue != []
  {
    var a := UpdatedBy(s, s.pool.workers[w].queue[0].work);
    [PoolStep(Pool.Start(w, 0))]
    + (if a.Some? then Receives(w, |s.actors[a.value].mailbox|) else [])
    + [PoolStep(Pool.Finish(w))]
  }

  /** The state with the mailbox of an actor, if there is one, emptied. */
  function Drained(s: State, a: Option<nat>): State
    requires a.Some? ==> a.value < |s.actors|
  {
    if a.Some? then WithoutFirst(s, a.value, |s.actors[a.value].mailbox|) else s
  }

  lemma TurnIsRun(s: State, w: nat)
    requires w < |s.pool.workers| && s.pool.workers[w].queue != [] && s.pool.workers[w].running.None?
    requires var work := s.pool.workers[w].queue[0].work; work.UpdateActor? ==> work.actor < |s.actors|
    ensures var started := Pool.Next(s.pool, Pool.Start(w, 0));
      Run(s, TurnSteps(s, w)) ==
        Drained(s, UpdatedBy(s, s.pool.workers[w].queue[0].work)).(pool := Pool.Next(started, Pool.Finish(w)))
  {
    var a := UpdatedBy(s, s.pool.workers[w].queue[0].work);
    var start, finish := PoolStep(Pool.Start(w, 0)), PoolStep(Pool.Finish(w));
    var middle := if a.Some? then Receives(w, |s.actors[a.value].mailbox|) else [];
    var inTask := Next(s, start);
    RunOne(s, start);
    var done := Drained(inTask, a);
    assert Run(inTask, middle) == done by {
      if a.Some? {
        ReceivesDrain(inTask, w, a.value, |s.actors[a.value].mailbox|);
      }
    }
    RunTwice(s, [start], middle);
    RunOne(done, finish);
    RunTwice(s, [start] + middle, [finish]);
  }

  /** The pool after one update task for each of the actors, in that order. */
  function Submitted(s: Pool.State, main: nat, actors: seq<(Guid, nat)>): (r: Pool.State)
    requires |s.workers| > 0
    ensures |r.workers| == |s.workers|
    decreases |actors|
  {
    if actors == [] then s
    else
      var a := actors[|actors| - 1];
      Pool.Next(Submitted(s, main, actors[..|actors| - 1]), Pool.Submit(main, a.0, Pool.UpdateActor(a.1), false))
  }

  lemma SubmittedNext(s: Pool.State, main: nat, actors: seq<(Guid, nat)>, a: (Guid, nat))
    requires |s.workers| > 0
    ensures Submitted(s, main, actors + [a])
      == Pool.Next(Submitted(s, main, actors), Pool.Submit(main, a.0, Pool.UpdateActor(a.1), false))
  {
    assert (actors + [a])[..|actors|] == actors;
  }

  function Ids(order: seq<(Guid, nat)>): set<Guid> {
    set i | 0 <= i < |order| :: order[i].0
  }

  lemma IdsGrow(order: seq<(Guid, nat)>, a: (Guid, nat))
    ensures Ids(order + [a]) == Ids(order) + {a.0}
  {
    var longer := order + [a];
    assert longer[|order|] == a;
    assert forall i :: 0 <= i < |order| ==> order[i] == longer[i];
  }

  ghost predicate IsNumbered(a: (Guid, nat), actors: map<Guid, ActorObject>) {
    a.0 in actors && a.1 == actors[a.0].number
  }

  /** As many entries as actors, for all of their ids: each actor once, with its number. */
  ghost predicate EachOnce(order: seq<(Guid, nat)>, actors: map<Guid, ActorObject>) {
    && Ids(order) == actors.Keys && |order| == |actors.Keys|
    && forall i :: 0 <= i < |order| ==> IsNumbered(order[i], actors)
  }

  /** The actors in `left` still have to be entered. */
  ghost predicate Halfway(left: set<Guid>, order: seq<(Guid, nat)>, actors: map<Guid, ActorObject>) {
    && left !! Ids(order) && left + Ids(order) == actors.Keys && |order| + |left| == |actors.Keys|
    && forall i :: 0 <= i < |order| ==> IsNumbered(order[i], actors)
  }

  lemma OneMoved(left: set<Guid>, order: seq<(Guid, nat)>, actors: map<Guid, ActorObject>, a: (Guid, nat))
    requires Halfway(left, order, actors) && a.0 in left && IsNumbered(a, actors)
    ensures Halfway(left - {a.0}, order + [a], actors)
  {
    IdsGrow(order, a);
  }

  /** An actor; `number` is its place among all actors created. */
  class ActorObject {
    const id: Guid
    const number: nat
    var messageQueue: seq<Message>
    var handlers: set<int>

    ghost predicate Shows(k: nat, a: Actor)
      reads this
    {
      number == k && id == a.id && messageQueue == a.mailbox && handlers == a.handlers
    }

    constructor (id: Guid, number: nat)
      ensures Shows(number, Actor(id, [], {}))
    {
      this.id, this.number, messageQueue, handlers := id, number, [], {};
    }

    method SendMsg(m: Message)
      modifies `messageQueue
      ensures messageQueue == old(messageQueue) + [m]
    {
      messageQueue := messageQueue + [m];
    }

    method AddMessageHandler(kind: int)
      modifies `handlers
      ensures handlers == old(handlers) + {kind}
    {
      handlers := handlers + {kind};
    }

    /** Actor::Update: every queued message is handled and returned, or dropped without a handler. */
    method Update(owner: ActorModule)
      modifies `messageQueue, owner`resultQueue
      ensures messageQueue == []
      ensures owner.resultQueue == old(owner.resultQueue) + Answered(old(messageQueue), handlers)
    {
      ghost var todo := messageQueue;
      ghost var k := 0;
      while messageQueue != []
        invariant k <= |todo| && messageQueue == todo[k..]
        invariant owner.resultQueue == old(owner.resultQueue) + Answered(todo[..k], handlers)
        decreases |messageQueue|
      {
        assert todo[..k + 1][..k] == todo[..k];
        AppendAssociative(old(owner.resultQueue), Answered(todo[..k], handlers), [todo[k]]);
        var m := messageQueue[0];
        messageQueue := messageQueue[1..];
        if m.kind in handlers {
          owner.AddResult(m);
        }
        k := k + 1;
      }
      assert todo[..k] == todo;
    }
  }

  class ActorModule {
    const pool: ThreadPoolModule
    var actorMap: map<Guid, ActorObject>
    var resultQueue: seq<Message>
    var lastTime: int
    /** Every actor made, which callers and update tasks hold by pointer. */
    var actors: seq<ActorObject>
    var sentCount: nat
    /** What the objects are in the state machine. */
    ghost var state: State

    ghost predicate Valid()
      reads this, pool, actors
    {
      && pool.Valid() && pool.state == state.pool
      && |actors| == |state.actors| && sentCount == |state.sent| && resultQueue == state.results
      && (forall k :: 0 <= k < |actors| ==> actors[k].Shows(k, state.actors[k]))
      && actorMap.Keys == state.registered.Keys
      && (forall id :: id in actorMap ==> Points(id))
    }

    /** The map leads from an id to the actor registered under it. */
    ghost predicate Points(id: Guid)
      requires id in actorMap && id in state.registered
      reads this, actors
    {
      var k := state.registered[id];
      k < |actors| && actorMap[id] == actors[k] && actors[k].number == k && actors[k].id == id
    }

    constructor (pool: ThreadPoolModule)
      requires pool.Valid() && pool.state == Pool.Initial(|pool.taskLists|)
      ensures Valid() && this.pool == pool && state == Initial(|pool.taskLists|) && lastTime == 0
    {
      this.pool, actorMap, resultQueue, lastTime := pool, map[], [], 0;
      actors, sentCount, state := [], 0, Initial(|pool.taskLists|);
    }

    method AddResult(m: Message)
      modifies `resultQueue
      ensures resultQueue == old(resultQueue) + [m]
    {
      resultQueue := resultQueue + [m];
    }

    /** CreateActor: the new actor is returned even where the map already has its id. */
    method CreateActor(now: int) returns (a: ActorObject)
      requires Valid()
      modifies `actorMap, `actors, `state
      ensures Valid() && state == Next(old(state), Create(now))
      ensures fresh(a) && actors == old(actors) + [a] && a.id == Guid(now, 0)
      ensures actorMap == if a.id in old(actorMap) then old(actorMap) else old(actorMap)[a.id := a]
    {
      a := new ActorObject(Guid(now, 0), |actors|);
      actors := actors + [a];
      if a.id !in actorMap {
        actorMap := actorMap[a.id := a];
      }
      state := Next(state, Create(now));
    }

    method ReleaseActor(id: Guid) returns (ok: bool)
      requires Valid()
      modifies `actorMap, `state
      ensures Valid() && ok == (id in old(actorMap)) && state == Next(old(state), Release(id))
    {
      ok := id in actorMap;
      actorMap := actorMap - {id};
      state := Next(state, Release(id));
    }

    /** AddMessageHandler of an actor, whether or not the map has it. */
    method AddHandler(a: ActorObject, kind: int)
      requires Valid() && a in actors
      modifies `state, a`handlers
      ensures Valid() && state == Next(old(state), Step.AddHandler(a.number, kind))
    {
      a.AddMessageHandler(kind);
      state := Next(state, Step.AddHandler(a.number, kind));
    }

    /** SendMsg of an actor, whether or not the map has it. */
    method SendMsg(a: ActorObject, sender: nat, kind: int)
      requires Valid() && a in actors
      modifies `sentCount, `state, a`messageQueue
      ensures Valid() && state == Next(old(state), Step.SendMsg(a.number, sender, kind))
    {
      a.SendMsg(Message(sentCount, sender, a.number, kind));
      sentCount := sentCount + 1;
      state := Next(state, Step.SendMsg(a.number, sender, kind));
    }

    method SendMsgToActor(id: Guid, sender: nat, kind: int) returns (ok: bool)
      requires Valid()
      modifies `sentCount, `state, actorMap.Values`messageQueue
      ensures Valid() && ok == (id in actorMap)
      ensures Enabled(old(state), Step.SendMsgToActor(id, sender, kind))
      ensures state == Next(old(state), Step.SendMsgToActor(id, sender, kind))
    {
      ok := id in actorMap;
      if ok {
        assert Points(id);
        SendMsg(actorMap[id], sender, kind);
      }
    }

    /** Update of one actor, which Receive steps of the worker that is in its task make. */
    method UpdateActor(a: ActorObject)
      requires Valid() && a in actors
      modifies `resultQueue, `state, a`messageQueue
      ensures Valid() && state == Drained(old(state), Some(a.number))
      ensures forall w :: Updating(old(state), w) == Some(a.number) ==>
        state == Run(old(state), Receives(w, |old(a.messageQueue)|))
    {
      ghost var n := |a.messageQueue|;
      a.Update(this);
      assert old(a.messageQueue)[..n] == old(a.messageQueue);
      forall w | Updating(state, w) == Some(a.number)
        ensures Run(state, Receives(w, n)) == WithoutFirst(state, a.number, n)
      {
        ReceivesDrain(state, w, a.number, n);
      }
      state := WithoutFirst(state, a.number, n);
    }

    /**
     A turn of the inner loop of ThreadCell::Update: the oldest task of worker `w` runs, whose function
     updates the actor it holds. In every run there is that actor (see QueuedIsAddressed).
     */
    method RunTask(w: nat)
      requires Valid()
      requires w < |pool.taskLists| && pool.taskLists[w] != [] && state.pool.workers[w].running.None?
      requires var work := pool.taskLists[w][0].work; work.UpdateActor? ==> work.actor < |actors|
      modifies `resultQueue, `state, pool, actors`messageQueue
      ensures Valid() && state == Run(old(state), TurnSteps(old(state), w))
    {
      TurnIsRun(state, w);
      RunWork(pool.taskLists[w][0].work);
      RunInPool(w);
    }

    /** The function of a task, which holds its actor. */
    method RunWork(work: Pool.Work)
      requires Valid() && (work.UpdateActor? ==> work.actor < |actors|)
      modifies `resultQueue, `state, actors`messageQueue
      ensures Valid() && state == Drained(old(state), UpdatedBy(old(state), work)) && state.pool == old(state.pool)
    {
      if work.UpdateActor? {
        UpdateActor(actors[work.actor]);
      }
    }

    /** What the pool does about the task. */
    method RunInPool(w: nat)
      requires Valid()
      requires w < |pool.taskLists| && pool.taskLists[w] != [] && state.pool.workers[w].running.None?
      modifies `state, pool
      ensures Valid()
      ensures state ==
        old(state).(pool := Pool.Next(Pool.Next(old(state.pool), Pool.Start(w, 0)), Pool.Finish(w)))
    {
      pool.RunTask(w);
      state := state.(pool := pool.state);
    }

    /**
     UpdateEvent: at most every ten milliseconds, one task for each registered actor. The order of the
     map is not modelled; `order` is the one taken.
     */
    method UpdateEvent(now: int, main: nat) returns (ran: bool, order: seq<(Guid, nat)>)
      requires Valid()
      modifies `lastTime, `state, pool
      ensures Valid() && ran == (now >= old(lastTime) + 10)
      ensures lastTime == if ran then now else old(lastTime)
      ensures state == Run(old(state), Schedules(order, main))
      ensures if ran then EachOnce(order, actorMap) else order == []
    {
      ran, order := false, [];
      if now >= lastTime + 10 {
        lastTime := now;
        order := ScheduleAll(main);
        ran := true;
      }
    }

    method Submit(id: Guid, main: nat) returns (a: (Guid, nat))
      requires pool.Valid() && id in actorMap
      modifies pool
      ensures pool.Valid() && a.0 == id && IsNumbered(a, actorMap)
      ensures pool.state == Pool.Next(old(pool.state), Pool.Submit(main, id, Pool.UpdateActor(a.1), false))
    {
      a := (id, actorMap[id].number);
      pool.DoAsyncTask(main, id, Pool.UpdateActor(a.1), false);
    }

    /** The loop of UpdateEvent. */
    method SubmitAll(main: nat) returns (order: seq<(Guid, nat)>)
      requires pool.Valid()
      modifies pool
      ensures pool.Valid() && pool.state == Submitted(old(pool.state), main, order)
      ensures EachOnce(order, actorMap)
    {
      order := [];
      var left := actorMap.Keys;
      while left != {}
        invariant pool.Valid() && pool.state == Submitted(old(pool.state), main, order)
        invariant Halfway(left, order, actorMap)
        decreases |left|
      {
        var id :| id in left;
        var a := Submit(id, main);
        SubmittedNext(old(pool.state), main, order, a);
        OneMoved(left, order, actorMap, a);
        left, order := left - {id}, order + [a];
      }
    }

    method ScheduleAll(main: nat) returns (order: seq<(Guid, nat)>)
      requires Valid()
      modifies `state, pool
      ensures Valid() && state == Run(old(state), Schedules(order, main))
      ensures EachOnce(order, actorMap)
    {
      AllRegistered();
      order := SubmitAll(main);
      SubmitAllSchedules(order, main);
      state := state.(pool := pool.state);
    }

    /** Every actor in the map is registered in the state machine under its id and number. */
    ghost predicate Registers()
      reads this
    {
      forall id :: id in actorMap ==> IsRegistered(state, (id, actorMap[id].number))
    }

    lemma AllRegistered()
      requires Valid()
      ensures Registers()
    {
      forall id | id in actorMap
        ensures IsRegistered(state, (id, actorMap[id].number))
      {
        assert Points(id);
      }
    }

    lemma SubmitAllSchedules(order: seq<(Guid, nat)>, main: nat)
      requires Registers() && EachOnce(order, actorMap) && |state.pool.workers| > 0
      ensures Run(state, Schedules(order, main)) == state.(pool := Submitted(state.pool, main, order))
    {
      assert forall i :: 0 <= i < |order| ==> IsNumbered(order[i], actorMap);
      SchedulesSubmit(state, order, main);
    }

    /** UpdateResultEvent: the results in the order they are given to the end functions. */
    method UpdateResultEvent() returns (given: seq<Message>)
      requires Valid()
      modifies `resultQueue, `state
      ensures Valid() && given == old(resultQueue)
      ensures resultQueue == [] && state == Run(old(state), Returns(|given|))
    {
      given := [];
      while resultQueue != []
        modifies `resultQueue
        invariant given + resultQueue == old(resultQueue)
        decreases |resultQueue|
      {
        given := given + [resultQueue[0]];
        resultQueue := resultQueue[1..];
      }
      ReturnsGive(state, |given|);
      state := Run(state, Returns(|given|));
    }
  }

  /** In every run the actor of a queued update task has been made. */
  lemma QueuedIsAddressed(n: nat, steps: seq<Step>, w: nat)
    requires n > 0
    ensures var s := Run(Initial(n), steps);
      w < |s.pool.workers| && s.pool.workers[w].queue != [] && s.pool.workers[w].queue[0].work.UpdateActor? ==>
        s.pool.workers[w].queue[0].work.actor < |s.actors|
  {
    RunKeepsInv(n, steps);
    var s := Run(Initial(n), steps);
    if w < |s.pool.workers| && s.pool.workers[w].queue != [] {
      Pool.HeldIsSubmitted(s.pool, w);
      assert s.pool.workers[w].queue[0] in s.pool.submitted;
    }
  }
}
