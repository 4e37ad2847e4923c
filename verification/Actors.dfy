/**
 The actor module (src/plugin/core/actor/actor_module.cc, actor.cc) on top of the thread pool: mailboxes,
 the tasks that drain them and the queue of results, as a state machine over all interleavings.
 */
module Actors {
  import opened Fifo
  import opened Guids
  import opened Wrappers
  import Pool = ThreadPool

  /** An ActorMessage for the actor `to`, told apart by its place among the sent ones. */
  datatype Message = Message(serial: nat, sender: nat, to: nat, kind: int)

  /** An Actor: its id, its message queue and the message kinds it has a handler for. */
  datatype Actor = Actor(id: Guid, mailbox: seq<Message>, handlers: set<int>)

  /** All actors made so far, those in mxActorMap by id, the pool, and what has happened to messages. */
  datatype State = State(
    actors: seq<Actor>, registered: map<Guid, nat>, pool: Pool.State, results: seq<Message>,
    sent: seq<Message>, received: seq<Message>, handled: seq<Message>, returned: seq<Message>)

  datatype Step =
    | Create(now: int)
    | Release(id: Guid)
    | AddHandler(actor: nat, kind: int)
    | SendMsg(actor: nat, sender: nat, kind: int)
    | SendMsgToActor(id: Guid, sender: nat, kind: int)
    | Schedule(id: Guid, main: nat)
    | PoolStep(e: Pool.Step)
    | Receive(worker: nat, at: nat)
    | Return(at: nat)

  /** The actor whose Update a worker is in. */
  function Updating(s: State, w: nat): Option<nat> {
    if w < |s.pool.workers| && s.pool.workers[w].running.Some? && s.pool.workers[w].running.value.work.UpdateActor?
    then Some(s.pool.workers[w].running.value.work.actor)
    else None
  }

  /** TryPop may return the oldest message of any sender. */
  predicate Oldest(mailbox: seq<Message>, at: nat) {
    at < |mailbox| && forall k :: 0 <= k < at ==> mailbox[k].sender != mailbox[at].sender
  }

  /**
   When a step can come. A task can end with messages in its actor's mailbox: they came behind the last
   look of Update.
   */
  predicate Enabled(s: State, e: Step) {
    match e
    case Create(_) => true
    case Release(_) => true
    case AddHandler(a, _) => a < |s.actors|
    case SendMsg(a, _, _) => a < |s.actors|
    case SendMsgToActor(id, _, _) => id in s.registered ==> s.registered[id] < |s.actors|
    case Schedule(id, _) => |s.pool.workers| > 0 && id in s.registered && s.registered[id] < |s.actors|
    case PoolStep(e) =>
      && Pool.Enabled(s.pool, e)
      && (e.Submit? ==> e.work.Other?)
    case Receive(w, at) =>
      && Updating(s, w).Some? && Updating(s, w).value < |s.actors|
      && Oldest(s.actors[Updating(s, w).value].mailbox, at)
    case Return(at) => at < |s.results|
  }

  function Push(s: State, a: nat, sender: nat, kind: int): State
    requires a < |s.actors|
  {
    var m := Message(|s.sent|, sender, a, kind);
    s.(actors := s.actors[a := s.actors[a].(mailbox := s.actors[a].mailbox + [m])], sent := s.sent + [m])
  }

  /** One turn of the loop of Actor::Update: a message without a handler is dropped. */
  function Take(s: State, a: nat, at: nat): State
    requires a < |s.actors| && at < |s.actors[a].mailbox|
  {
    var m := s.actors[a].mailbox[at];
    var known := m.kind in s.actors[a].handlers;
    s.(actors := s.actors[a := s.actors[a].(mailbox := RemoveAt(s.actors[a].mailbox, at))],
       received := s.received + [m],
       handled := if known then s.handled + [m] else s.handled,
       results := if known then s.results + [m] else s.results)
  }

  function Next(s: State, e: Step): State
    requires Enabled(s, e)
  {
    match e
    case Create(now) =>
      var id := Guid(now, 0);
      s.(actors := s.actors + [Actor(id, [], {})],
         registered := if id in s.registered then s.registered else s.registered[id := |s.actors|])
    case Release(id) => s.(registered := s.registered - {id})
    case AddHandler(a, kind) =>
      s.(actors := s.actors[a := s.actors[a].(handlers := s.actors[a].handlers + {kind})])
    case SendMsg(a, sender, kind) => Push(s, a, sender, kind)
    case SendMsgToActor(id, sender, kind) =>
      if id in s.registered then Push(s, s.registered[id], sender, kind) else s
    case Schedule(id, main) =>
      var a := s.registered[id];
      s.(pool := Pool.Next(s.pool, Pool.Submit(main, s.actors[a].id, Pool.UpdateActor(a), false)))
    case PoolStep(e) => s.(pool := Pool.Next(s.pool, e))
    case Receive(w, at) => Take(s, Updating(s, w).value, at)
    case Return(at) => s.(results := RemoveAt(s.results, at), returned := s.returned + [s.results[at]])
  }

  function Initial(n: nat): State {
    State([], map[], Pool.Initial(n), [], [], [], [], [])
  }

  function Run(s: State, steps: seq<Step>): State
    decreases |steps|
  {
    if steps == [] then s
    else
      var before := Run(s, steps[..|steps| - 1]);
      var e := steps[|steps| - 1];
      if Enabled(before, e) then Next(before, e) else before
  }

  // ------------------------------------------------------------------------------------------
  // The invariant
  // ------------------------------------------------------------------------------------------

  /** An update task carries its actor's id. */
  ghost predicate Addressed(s: State) {
    && (forall k :: 0 <= k < |s.pool.submitted| && s.pool.submitted[k].work.UpdateActor? ==>
      && s.pool.submitted[k].work.actor < |s.actors|
      && s.pool.submitted[k].id == s.actors[s.pool.submitted[k].work.actor].id)
    && (forall id :: id in s.registered ==> s.registered[id] < |s.actors| && s.actors[s.registered[id]].id == id)
    && (forall a :: 0 <= a < |s.actors| ==> s.actors[a].id.data == 0)
  }

  /** How often a message waits in a mailbox. */
  function Waiting(actors: seq<Actor>, m: Message): nat {
    if actors == [] then 0 else Waiting(actors[..|actors| - 1], m) + Count(actors[|actors| - 1].mailbox, m)
  }

  /** No message is lost, made or handled twice. */
  ghost predicate Conserved(s: State) {
    && (forall k :: 0 <= k < |s.sent| ==> s.sent[k].serial == k)
    && forall m: Message ::
      && Count(s.sent, m) == Waiting(s.actors, m) + Count(s.received, m)
      && Count(s.handled, m) <= Count(s.received, m)
      && Count(s.handled, m) == Count(s.results, m) + Count(s.returned, m)
  }

  /** `late` was sent after `early`, if one sender sent both to one actor. */
  predicate Behind(early: Message, late: Message) {
    early.sender == late.sender && early.to == late.to ==> early.serial < late.serial
  }

  /** An actor's mailbox holds its own messages, and receives each sender's in the order they were sent. */
  ghost predicate InOrder(s: State) {
    && Ranked(s.received, Behind)
    && (forall k :: 0 <= k < |s.received| ==> s.received[k].to < |s.actors|)
    && forall a :: 0 <= a < |s.actors| ==>
      && Ranked(s.received + s.actors[a].mailbox, Behind)
      && forall k :: 0 <= k < |s.actors[a].mailbox| ==> s.actors[a].mailbox[k].to == a
  }

  ghost predicate Inv(s: State) {
    Pool.Inv(s.pool) && Addressed(s) && Conserved(s) && InOrder(s)
  }

  // ------------------------------------------------------------------------------------------
  // Steps keep it
  // ------------------------------------------------------------------------------------------

  lemma {:induction false} WaitingUpdate(actors: seq<Actor>, a: nat, b: Actor, m: Message)
    requires a < |actors|
    ensures Waiting(actors[a := b], m) == Waiting(actors, m) - Count(actors[a].mailbox, m) + Count(b.mailbox, m)
    decreases |actors|
  {
    var last := |actors| - 1;
    if a < last {
      WaitingUpdate(actors[..last], a, b, m);
      assert actors[a := b][..last] == actors[..last][a := b];
    } else {
      assert actors[a := b][..last] == actors[..last];
    }
  }

  lemma {:induction false} PartOfWaiting(actors: seq<Actor>, a: nat, m: Message)
    requires a < |actors|
    ensures Count(actors[a].mailbox, m) <= Waiting(actors, m)
    decreases |actors|
  {
    if a < |actors| - 1 {
      PartOfWaiting(actors[..|actors| - 1], a, m);
    }
  }

  lemma PushKeepsInv(s: State, a: nat, sender: nat, kind: int)
    requires Inv(s) && a < |s.actors|
    ensures Inv(Push(s, a, sender, kind))
  {
    var late := Message(|s.sent|, sender, a, kind);
    var r := Push(s, a, sender, kind);
    forall m: Message
      ensures Count(r.sent, m) == Waiting(r.actors, m) + Count(r.received, m)
    {
      CountAppend(s.sent, late, m);
      CountAppend(s.actors[a].mailbox, late, m);
      WaitingUpdate(s.actors, a, r.actors[a], m);
    }
    PushKeepsOrder(s, a, late);
  }

  lemma PushKeepsOrder(s: State, a: nat, late: Message)
    requires Inv(s) && a < |s.actors| && late.serial == |s.sent| && late.to == a
    ensures Ranked(s.received + (s.actors[a].mailbox + [late]), Behind)
  {
    var mailbox := s.actors[a].mailbox;
    forall i | 0 <= i < |s.received + mailbox|
      ensures (s.received + mailbox)[i].serial < late.serial
    {
      var m := (s.received + mailbox)[i];
      PartOfWaiting(s.actors, a, m);
      assert m in s.received || m in mailbox;
      assert Count(s.sent, m) > 0;
      assert m in s.sent;
    }
    RankedAppend(s.received + mailbox, late, Behind);
    assert s.received + (mailbox + [late]) == s.received + mailbox + [late];
  }

  lemma TakeKeepsInv(s: State, a: nat, at: nat)
    requires Inv(s) && a < |s.actors| && Oldest(s.actors[a].mailbox, at)
    ensures Inv(Take(s, a, at))
  {
    TakeConserves(s, a, at);
    TakeKeepsOrder(s, a, at);
  }

  lemma TakeConserves(s: State, a: nat, at: nat)
    requires Conserved(s) && a < |s.actors| && at < |s.actors[a].mailbox|
    ensures Conserved(Take(s, a, at))
  {
    var r, m0 := Take(s, a, at), s.actors[a].mailbox[at];
    forall m: Message
      ensures Count(r.sent, m) == Waiting(r.actors, m) + Count(r.received, m)
      ensures Count(r.handled, m) <= Count(r.received, m)
      ensures Count(r.handled, m) == Count(r.results, m) + Count(r.returned, m)
    {
      CountRemove(s.actors[a].mailbox, at, m);
      CountAppend(s.received, m0, m);
      CountAppend(s.handled, m0, m);
      CountAppend(s.results, m0, m);
      WaitingUpdate(s.actors, a, r.actors[a], m);
    }
  }

  lemma TakeKeepsOrder(s: State, a: nat, at: nat)
    requires InOrder(s) && a < |s.actors| && Oldest(s.actors[a].mailbox, at)
    ensures InOrder(Take(s, a, at))
  {
    var r, m, mailbox := Take(s, a, at), s.actors[a].mailbox[at], s.actors[a].mailbox;
    RankedMove(s.received, mailbox, at, Behind);
    RankedPrefix(s.received + [m], RemoveAt(mailbox, at), Behind);
    forall b | 0 <= b < |s.actors|
      ensures Ranked(r.received + r.actors[b].mailbox, Behind)
      ensures forall k :: 0 <= k < |r.actors[b].mailbox| ==> r.actors[b].mailbox[k].to == b
    {
      if b != a {
        RankedInsert(s.received, s.actors[b].mailbox, m, Behind);
      }
    }
  }

  lemma CreateKeepsInv(s: State, now: int)
    requires Inv(s)
    ensures Inv(Next(s, Create(now)))
  {
    var r := Next(s, Create(now));
    assert r.actors[..|s.actors|] == s.actors;
    assert s.received + [] == s.received;
    forall m: Message
      ensures Waiting(r.actors, m) == Waiting(s.actors, m)
    {
    }
  }

  lemma ReturnKeepsInv(s: State, at: nat)
    requires Inv(s) && at < |s.results|
    ensures Inv(Next(s, Return(at)))
  {
    forall m: Message
      ensures Count(RemoveAt(s.results, at), m) + Count(s.returned + [s.results[at]], m)
        == Count(s.results, m) + Count(s.returned, m)
    {
      CountRemove(s.results, at, m);
      CountAppend(s.returned, s.results[at], m);
    }
  }

  lemma HandlerKeepsInv(s: State, a: nat, kind: int)
    requires Inv(s) && a < |s.actors|
    ensures Inv(Next(s, AddHandler(a, kind)))
  {
    var r := Next(s, AddHandler(a, kind));
    forall m: Message
      ensures Waiting(r.actors, m) == Waiting(s.actors, m)
    {
      WaitingUpdate(s.actors, a, r.actors[a], m);
    }
  }

  lemma PoolKeepsInv(s: State, e: Pool.Step)
    requires Inv(s) && Pool.Enabled(s.pool, e)
    requires e.Submit? && e.work.UpdateActor? ==> e.work.actor < |s.actors| && e.id == s.actors[e.work.actor].id
    ensures Inv(s.(pool := Pool.Next(s.pool, e)))
  {
    Pool.StepKeepsInv(s.pool, e);
  }

  lemma StepKeepsInv(s: State, e: Step)
    requires Inv(s) && Enabled(s, e)
    ensures Inv(Next(s, e))
  {
    match e
    case Create(now) => CreateKeepsInv(s, now);
    case Release(id) =>
    case AddHandler(a, kind) => HandlerKeepsInv(s, a, kind);
    case SendMsg(a, sender, kind) => PushKeepsInv(s, a, sender, kind);
    case SendMsgToActor(id, sender, kind) =>
      if id in s.registered {
        PushKeepsInv(s, s.registered[id], sender, kind);
      }
    case Schedule(id, main) =>
      var a := s.registered[id];
      PoolKeepsInv(s, Pool.Submit(main, s.actors[a].id, Pool.UpdateActor(a), false));
    case PoolStep(e) => PoolKeepsInv(s, e);
    case Receive(w, at) => TakeKeepsInv(s, Updating(s, w).value, at);
    case Return(at) => ReturnKeepsInv(s, at);
  }

  lemma {:induction false} RunKeepsInv(n: nat, steps: seq<Step>)
    requires n > 0
    ensures Inv(Run(Initial(n), steps))
    decreases |steps|
  {
    Pool.InitialInv(n);
    if steps != [] {
      RunKeepsInv(n, steps[..|steps| - 1]);
      var before := Run(Initial(n), steps[..|steps| - 1]);
      if Enabled(before, steps[|steps| - 1]) {
        StepKeepsInv(before, steps[|steps| - 1]);
      }
    }
  }

  // ------------------------------------------------------------------------------------------
  // What every run keeps
  // ------------------------------------------------------------------------------------------

  /** A running update task is on the worker of its actor's id. */
  lemma UpdateIsPlaced(s: State, w: nat)
    requires Inv(s) && Updating(s, w).Some?
    ensures Updating(s, w).value < |s.actors|
    ensures Pool.Index(s.actors[Updating(s, w).value].id, |s.pool.workers|) == w
  {
    Pool.HeldIsSubmitted(s.pool, w);
    assert s.pool.workers[w].running.value in s.pool.submitted;
  }

  /** No actor's Update runs on two threads. */
  lemma UpdateRunsOnOneThread(n: nat, steps: seq<Step>, v: nat, w: nat)
    requires n > 0
    ensures var s := Run(Initial(n), steps);
      Updating(s, v).Some? && Updating(s, v) == Updating(s, w) ==> v == w
  {
    RunKeepsInv(n, steps);
    var s := Run(Initial(n), steps);
    if Updating(s, v).Some? && Updating(s, v) == Updating(s, w) {
      UpdateIsPlaced(s, v);
      UpdateIsPlaced(s, w);
    }
  }

  /**
   Indeed CreateActor's ids, a time and a zero, send every actor to the first worker: no two actors ever
   update at the same time, however many workers there are.
   */
  lemma ActorsShareTheFirstWorker(n: nat, steps: seq<Step>, w: nat)
    requires n > 0
    ensures Updating(Run(Initial(n), steps), w).Some? ==> w == 0
  {
    RunKeepsInv(n, steps);
    var s := Run(Initial(n), steps);
    if Updating(s, w).Some? {
      UpdateIsPlaced(s, w);
      CreatedIndex(s.actors[Updating(s, w).value].id, |s.pool.workers|);
    }
  }

  lemma CreatedIndex(id: Guid, n: nat)
    requires n > 0 && id.data == 0
    ensures Pool.Index(id, n) == 0
  {
  }

  /** A message is taken, handled and returned to the main thread at most once each, and in that order. */
  lemma MessagesHandledOnce(n: nat, steps: seq<Step>, m: Message)
    requires n > 0
    ensures var s := Run(Initial(n), steps);
      && Count(s.returned, m) <= Count(s.handled, m) <= Count(s.received, m) <= Count(s.sent, m) <= 1
      && Waiting(s.actors, m) == Count(s.sent, m) - Count(s.received, m)
  {
    RunKeepsInv(n, steps);
    NumberedOnce(Run(Initial(n), steps).sent, (m: Message) => m.serial, m);
  }

  /** One sender's messages to one actor are taken in the order they were sent. */
  lemma MessagesTakenInOrder(n: nat, steps: seq<Step>, i: nat, j: nat)
    requires n > 0
    ensures var taken := Run(Initial(n), steps).received;
      i < j < |taken| && taken[i].sender == taken[j].sender && taken[i].to == taken[j].to
      ==> taken[i].serial < taken[j].serial
  {
    RunKeepsInv(n, steps);
    var taken := Run(Initial(n), steps).received;
    if i < j < |taken| {
      assert Behind(taken[i], taken[j]);
    }
  }

  // ------------------------------------------------------------------------------------------
  // What happens to a message, step by step of a run
  // ------------------------------------------------------------------------------------------

  /** Where a run is before its step `i`. */
  function Before(n: nat, steps: seq<Step>, i: nat): State
    requires i <= |steps|
  {
    Run(Initial(n), steps[..i])
  }

  lemma BeforeEarlier(n: nat, steps: seq<Step>)
    requires steps != []
    ensures forall i :: 0 <= i < |steps| ==> Before(n, steps[..|steps| - 1], i) == Before(n, steps, i)
  {
    forall i | 0 <= i < |steps|
      ensures Before(n, steps[..|steps| - 1], i) == Before(n, steps, i)
    {
      assert steps[..|steps| - 1][..i] == steps[..i];
    }
  }

  lemma BeforeLater(n: nat, steps: seq<Step>, i: nat)
    requires i < |steps|
    ensures Before(n, steps, i + 1) ==
      if Enabled(Before(n, steps, i), steps[i]) then Next(Before(n, steps, i), steps[i]) else Before(n, steps, i)
  {
    assert steps[..i + 1][..i] == steps[..i];
  }

  /** The step is a call that sends this message: to the actor it names, or to the one its id leads to. */
  predicate Sends(s: State, e: Step, m: Message) {
    && m.serial == |s.sent|
    && match e
      case SendMsg(a, sender, kind) => a < |s.actors| && m.to == a && m.sender == sender && m.kind == kind
      case SendMsgToActor(id, sender, kind) =>
        && id in s.registered && s.registered[id] < |s.actors|
        && m.to == s.registered[id] && m.sender == sender && m.kind == kind
      case _ => false
  }

  lemma SendIsSent(s: State, e: Step, m: Message)
    ensures m in (if Enabled(s, e) then Next(s, e) else s).sent <==> m in s.sent || Sends(s, e, m)
  {
  }

  /** Step `i` of the run sends the message. */
  predicate SentAt(n: nat, steps: seq<Step>, i: nat, m: Message) {
    i < |steps| && Sends(Before(n, steps, i), steps[i], m)
  }

  lemma SentEarlier(n: nat, steps: seq<Step>, i: nat, m: Message)
    requires i < |steps| - 1
    ensures SentAt(n, steps, i, m) == SentAt(n, steps[..|steps| - 1], i, m)
  {
    BeforeEarlier(n, steps);
  }

  /** The messages sent are those of the calls, none else and none missing. */
  lemma {:induction false} SentIff(n: nat, steps: seq<Step>, m: Message)
    requires n > 0
    ensures m in Run(Initial(n), steps).sent <==> exists i :: SentAt(n, steps, i, m)
    decreases |steps|
  {
    if steps != [] {
      var last := |steps| - 1;
      SentIff(n, steps[..last], m);
      forall i: nat | i < last
        ensures SentAt(n, steps, i, m) == SentAt(n, steps[..last], i, m)
      {
        SentEarlier(n, steps, i, m);
      }
      SendIsSent(Before(n, steps, last), steps[last], m);
      assert SentAt(n, steps, last, m) == Sends(Before(n, steps, last), steps[last], m);
    }
  }

  /** A message that is sent waits in the mailbox of its actor until it is received. */
  lemma SentWaits(n: nat, steps: seq<Step>, m: Message)
    requires n > 0 && m in Run(Initial(n), steps).sent
    ensures var s := Run(Initial(n), steps);
      m.to < |s.actors| && (m in s.actors[m.to].mailbox <==> m !in s.received)
  {
    RunKeepsInv(n, steps);
    MessagesHandledOnce(n, steps, m);
    var s := Run(Initial(n), steps);
    if m !in s.received {
      WaitsSomewhere(s.actors, m);
    } else if m.to < |s.actors| && m in s.actors[m.to].mailbox {
      PartOfWaiting(s.actors, m.to, m);
    }
  }

  lemma {:induction false} WaitsSomewhere(actors: seq<Actor>, m: Message)
    requires Waiting(actors, m) > 0
    ensures exists a :: 0 <= a < |actors| && m in actors[a].mailbox
    decreases |actors|
  {
    var last := |actors| - 1;
    if m !in actors[last].mailbox {
      WaitsSomewhere(actors[..last], m);
      var a :| 0 <= a < |actors[..last]| && m in actors[..last][a].mailbox;
      assert m in actors[a].mailbox;
    }
  }

  /** Step `i` of the run adds a handler for the kind to the actor. */
  predicate AddedAt(n: nat, steps: seq<Step>, i: nat, a: nat, kind: int) {
    i < |steps| && steps[i] == AddHandler(a, kind) && a < |Before(n, steps, i).actors|
  }

  predicate Handles(s: State, a: nat, kind: int) {
    a < |s.actors| && kind in s.actors[a].handlers
  }

  lemma AddedEarlier(n: nat, steps: seq<Step>, i: nat, a: nat, kind: int)
    requires i < |steps| - 1
    ensures AddedAt(n, steps, i, a, kind) == AddedAt(n, steps[..|steps| - 1], i, a, kind)
  {
    BeforeEarlier(n, steps);
  }

  lemma AddedHandles(s: State, e: Step, a: nat, kind: int)
    ensures Handles(if Enabled(s, e) then Next(s, e) else s, a, kind) <==>
            Handles(s, a, kind) || (e == AddHandler(a, kind) && a < |s.actors|)
  {
  }

  lemma LastAdds(n: nat, steps: seq<Step>, a: nat, kind: int)
    requires steps != []
    ensures var last := |steps| - 1;
      Handles(Run(Initial(n), steps), a, kind) <==>
      Handles(Run(Initial(n), steps[..last]), a, kind) || AddedAt(n, steps, last, a, kind)
  {
    AddedHandles(Before(n, steps, |steps| - 1), steps[|steps| - 1], a, kind);
  }

  /** An actor's handlers are those that were added to it. */
  lemma {:induction false} HandlersIff(n: nat, steps: seq<Step>, a: nat, kind: int)
    requires n > 0
    ensures Handles(Run(Initial(n), steps), a, kind) <==> exists i :: AddedAt(n, steps, i, a, kind)
    decreases |steps|
  {
    if steps != [] {
      var last := |steps| - 1;
      HandlersIff(n, steps[..last], a, kind);
      forall i: nat | i < last
        ensures AddedAt(n, steps, i, a, kind) == AddedAt(n, steps[..last], i, a, kind)
      {
        AddedEarlier(n, steps, i, a, kind);
      }
      LastAdds(n, steps, a, kind);
    }
  }

  /** A message that was received is not received again, so it stays handled or unhandled. */
  lemma ReceivedForGood(s: State, e: Step, m: Message)
    requires Inv(s) && Enabled(s, e) && m in s.received
    ensures m in Next(s, e).received && (m in Next(s, e).handled <==> m in s.handled)
  {
    if e.Receive? {
      var a := Updating(s, e.worker).value;
      PartOfWaiting(s.actors, a, s.actors[a].mailbox[e.at]);
      NumberedOnce(s.sent, (m: Message) => m.serial, m);
    }
  }

  lemma {:induction false} ReceivedForGoodInRun(n: nat, steps: seq<Step>, i: nat, m: Message)
    requires n > 0 && i <= |steps| && m in Before(n, steps, i).received
    ensures var s := Run(Initial(n), steps);
      m in s.received && (m in s.handled <==> m in Before(n, steps, i).handled)
    decreases |steps|
  {
    if i == |steps| {
      assert steps[..i] == steps;
    } else {
      var last := |steps| - 1;
      BeforeEarlier(n, steps);
      ReceivedForGoodInRun(n, steps[..last], i, m);
      RunKeepsInv(n, steps[..last]);
      if Enabled(Before(n, steps, last), steps[last]) {
        ReceivedForGood(Before(n, steps, last), steps[last], m);
      }
    }
  }

  /**
   A message that is received is handled exactly when its kind has a handler at that moment: no such
   message is passed over, none without a handler is returned, and what comes later changes neither.
   */
  lemma HandledIff(n: nat, steps: seq<Step>, i: nat)
    requires n > 0 && i < |steps| && steps[i].Receive? && Enabled(Before(n, steps, i), steps[i])
    ensures var s := Before(n, steps, i);
      var a := Updating(s, steps[i].worker).value;
      var m := s.actors[a].mailbox[steps[i].at];
      && m.to == a && m in Run(Initial(n), steps).received
      && (m in Run(Initial(n), steps).handled <==> m.kind in s.actors[a].handlers)
  {
    var s, e := Before(n, steps, i), steps[i];
    var a := Updating(s, e.worker).value;
    var m := s.actors[a].mailbox[e.at];
    RunKeepsInv(n, steps[..i]);
    PartOfWaiting(s.actors, a, m);
    NumberedOnce(s.sent, (m: Message) => m.serial, m);
    assert Count(s.handled, m) <= Count(s.received, m) == 0;
    BeforeLater(n, steps, i);
    assert Next(s, e).received == s.received + [m];
    ReceivedForGoodInRun(n, steps, i + 1, m);
  }

  lemma HandledStepHasHandler(s: State, e: Step, m: Message)
    requires Inv(s) && Enabled(s, e) && m in Next(s, e).handled
    requires m in s.handled ==> m.to < |s.actors| && m.kind in s.actors[m.to].handlers
    ensures m.to < |Next(s, e).actors| && m.kind in Next(s, e).actors[m.to].handlers
  {
    if m !in s.handled {
      assert e.Receive?;
      var a := Updating(s, e.worker).value;
      assert s.actors[a].mailbox[e.at].to == a;
    }
  }

  /** In every run the actor a handled message was sent to has a handler for its kind. */
  lemma {:induction false} HandledHasHandler(n: nat, steps: seq<Step>, m: Message)
    requires n > 0
    ensures var s := Run(Initial(n), steps);
      m in s.handled ==> m.to < |s.actors| && m.kind in s.actors[m.to].handlers
    decreases |steps|
  {
    if steps != [] {
      var last := |steps| - 1;
      HandledHasHandler(n, steps[..last], m);
      RunKeepsInv(n, steps[..last]);
      var s := Run(Initial(n), steps[..last]);
      if Enabled(s, steps[last]) && m in Next(s, steps[last]).handled {
        HandledStepHasHandler(s, steps[last], m);
      }
    }
  }

  /** The step makes the actor that is number `a` under this id. */
  predicate Makes(s: State, e: Step, id: Guid, a: nat) {
    e.Create? && id == Guid(e.now, 0) && id !in s.registered && a == |s.actors|
  }

  lemma StepRegistersIff(s: State, e: Step, id: Guid, a: nat)
    ensures var r := if Enabled(s, e) then Next(s, e) else s;
      id in r.registered && r.registered[id] == a <==>
      Makes(s, e, id, a) || (id in s.registered && s.registered[id] == a && e != Release(id))
  {
  }

  /** Step `i` of the run makes the actor, and none after it releases the id. */
  predicate MadeAt(n: nat, steps: seq<Step>, i: nat, id: Guid, a: nat) {
    && i < |steps| && Makes(Before(n, steps, i), steps[i], id, a)
    && forall j :: i < j < |steps| ==> steps[j] != Release(id)
  }

  lemma MadeEarlier(n: nat, steps: seq<Step>, i: nat, id: Guid, a: nat)
    requires i < |steps| - 1
    ensures MadeAt(n, steps, i, id, a) <==>
            MadeAt(n, steps[..|steps| - 1], i, id, a) && steps[|steps| - 1] != Release(id)
  {
    var earlier := steps[..|steps| - 1];
    BeforeEarlier(n, steps);
    assert forall j :: 0 <= j < |earlier| ==> earlier[j] == steps[j];
  }

  /**
   An id leads to an actor exactly when that was made under it while the id was free, and the id was
   not released since.
   */
  lemma {:induction false} RegisteredIff(n: nat, steps: seq<Step>, id: Guid, a: nat)
    requires n > 0
    ensures var s := Run(Initial(n), steps);
      id in s.registered && s.registered[id] == a <==> exists i :: MadeAt(n, steps, i, id, a)
    decreases |steps|
  {
    if steps != [] {
      var last := |steps| - 1;
      RegisteredIff(n, steps[..last], id, a);
      forall i: nat | i < last
        ensures MadeAt(n, steps, i, id, a) <==> MadeAt(n, steps[..last], i, id, a) && steps[last] != Release(id)
      {
        MadeEarlier(n, steps, i, id, a);
      }
      StepRegistersIff(Before(n, steps, last), steps[last], id, a);
      assert MadeAt(n, steps, last, id, a) <==> Makes(Before(n, steps, last), steps[last], id, a);
    }
  }

  /** The step queues the update task `t` for the actor its id leads to. */
  predicate Queues(s: State, e: Step, t: Pool.Task) {
    && e == Schedule(t.id, t.producer) && Enabled(s, e) && !t.ends
    && t.work == Pool.UpdateActor(s.registered[t.id]) && t.serial == |s.pool.submitted|
  }

  /** Step `i` of the run queues the update task. */
  predicate ScheduledAt(n: nat, steps: seq<Step>, i: nat, t: Pool.Task) {
    i < |steps| && Queues(Before(n, steps, i), steps[i], t)
  }

  lemma ScheduledEarlier(n: nat, steps: seq<Step>, i: nat, t: Pool.Task)
    requires i < |steps| - 1
    ensures ScheduledAt(n, steps, i, t) == ScheduledAt(n, steps[..|steps| - 1], i, t)
  {
    BeforeEarlier(n, steps);
  }

  lemma ScheduleSubmits(s: State, e: Step, t: Pool.Task)
    requires Inv(s) && t.work.UpdateActor?
    ensures t in (if Enabled(s, e) then Next(s, e) else s).pool.submitted <==>
            t in s.pool.submitted || Queues(s, e, t)
  {
  }

  lemma LastSchedules(n: nat, steps: seq<Step>, t: Pool.Task)
    requires n > 0 && steps != [] && t.work.UpdateActor?
    ensures var last := |steps| - 1;
      t in Run(Initial(n), steps).pool.submitted <==>
      t in Run(Initial(n), steps[..last]).pool.submitted || ScheduledAt(n, steps, last, t)
  {
    var last := |steps| - 1;
    RunKeepsInv(n, steps[..last]);
    ScheduleSubmits(Before(n, steps, last), steps[last], t);
  }

  /** The pool's update tasks are those UpdateEvent queued, each for the actor its id led to then. */
  lemma {:induction false} ScheduledIff(n: nat, steps: seq<Step>, t: Pool.Task)
    requires n > 0 && t.work.UpdateActor?
    ensures t in Run(Initial(n), steps).pool.submitted <==> exists i :: ScheduledAt(n, steps, i, t)
    decreases |steps|
  {
    if steps != [] {
      var last := |steps| - 1;
      ScheduledIff(n, steps[..last], t);
      forall i: nat | i < last
        ensures ScheduledAt(n, steps, i, t) == ScheduledAt(n, steps[..last], i, t)
      {
        ScheduledEarlier(n, steps, i, t);
      }
      LastSchedules(n, steps, t);
    }
  }

  /** CreateActor registers the actor it returns exactly when no registered one was made in that millisecond. */
  lemma CreateRegistersIff(n: nat, steps: seq<Step>, now: int)
    requires n > 0
    ensures var s := Run(Initial(n), steps);
      var r := Next(s, Create(now));
      (Guid(now, 0) in r.registered && r.registered[Guid(now, 0)] == |s.actors|) <==> Guid(now, 0) !in s.registered
  {
    RunKeepsInv(n, steps);
  }

  /** No task updates the actor, and no id leads to it. */
  ghost predicate Orphan(s: State, a: nat) {
    && (forall id :: id in s.registered ==> s.registered[id] != a)
    && (forall k :: 0 <= k < |s.pool.submitted| ==> s.pool.submitted[k].work != Pool.UpdateActor(a))
    && (forall k :: 0 <= k < |s.received| ==> s.received[k].to != a)
  }

  lemma CreatedOrphan(s: State, now: int)
    requires Inv(s) && Guid(now, 0) in s.registered
    ensures Orphan(Next(s, Create(now)), |s.actors|)
  {
  }

  lemma StepKeepsOrphan(s: State, e: Step, a: nat)
    requires Inv(s) && Enabled(s, e) && Orphan(s, a) && a < |s.actors|
    ensures Orphan(Next(s, e), a)
  {
    if e.Receive? {
      var b := Updating(s, e.worker).value;
      Pool.HeldIsSubmitted(s.pool, e.worker);
      assert s.pool.workers[e.worker].running.value in s.pool.submitted;
      assert b != a;
    }
  }

  lemma {:induction false} RunKeepsOrphan(s: State, steps: seq<Step>, a: nat)
    requires Inv(s) && Orphan(s, a) && a < |s.actors|
    ensures Inv(Run(s, steps)) && Orphan(Run(s, steps), a) && a < |Run(s, steps).actors|
    decreases |steps|
  {
    if steps != [] {
      RunKeepsOrphan(s, steps[..|steps| - 1], a);
      var before, e := Run(s, steps[..|steps| - 1]), steps[|steps| - 1];
      if Enabled(before, e) {
        StepKeepsOrphan(before, e, a);
        StepKeepsInv(before, e);
      }
    }
  }

  /**
   The second actor of a millisecond, while the first is registered, is never updated in any run that
   follows, and takes no message, not even those sent to it directly.
   */
  lemma SecondOfAMillisecondIsDead(n: nat, before: seq<Step>, now: int, after: seq<Step>)
    requires n > 0 && Guid(now, 0) in Run(Initial(n), before).registered
    ensures var s := Run(Initial(n), before);
      var r := Run(Next(s, Create(now)), after);
      && (forall w :: Updating(r, w) != Some(|s.actors|))
      && (forall k :: 0 <= k < |r.received| ==> r.received[k].to != |s.actors|)
  {
    RunKeepsInv(n, before);
    var s := Run(Initial(n), before);
    var a := |s.actors|;
    CreatedOrphan(s, now);
    StepKeepsInv(s, Create(now));
    RunKeepsOrphan(Next(s, Create(now)), after, a);
    var r := Run(Next(s, Create(now)), after);
    forall w: nat
      ensures Updating(r, w) != Some(a)
    {
      if w < |r.pool.workers| && r.pool.workers[w].running.Some? {
        Pool.HeldIsSubmitted(r.pool, w);
        assert r.pool.workers[w].running.value in r.pool.submitted;
      }
    }
  }

  /** Two actors made in one millisecond: a message sent to the second waits for good, whatever follows. */
  lemma SecondActorNeverAnswers(n: nat, now: int, sender: nat, kind: int, after: seq<Step>)
    requires n > 0
    ensures var s := Next(Run(Initial(n), [Create(now)]), Create(now));
      var sent := Run(s, [SendMsg(1, sender, kind)]);
      var r := Run(s, [SendMsg(1, sender, kind)] + after);
      && |s.actors| == |sent.actors| == 2 && sent.actors[1].mailbox == [Message(0, sender, 1, kind)]
      && (forall w :: Updating(r, w) != Some(1))
      && (forall k :: 0 <= k < |r.received| ==> r.received[k].to != 1)
  {
    var first: seq<Step> := [Create(now)];
    assert first[..0] == [];
    var s := Run(Initial(n), first);
    assert s == Next(Initial(n), Create(now)) && |s.actors| == 1 && Guid(now, 0) in s.registered;
    assert [SendMsg(1, sender, kind)][..0] == [];
    SecondOfAMillisecondIsDead(n, first, now, [SendMsg(1, sender, kind)] + after);
  }
}
