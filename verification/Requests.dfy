/**
 Request ids and the matching of acks to suspended requests in NetClientModule
 (src/plugin/core/net/net_client_module.cc:188-265). Requests are numbered 1, 2, ... in the order
 they are issued; the number stands for the Awaitable.
 */
module Requests {
  import opened Wrappers

  /** The largest request id, 2^48 - 1, which is also the length of the id cycle. */
  const MAX_ID := 0xffff_ffff_ffff

  /** The id of the n-th request; 0 before the first. */
  function IdOf(n: nat): (id: nat)
    ensures n > 0 ==> 1 <= id <= MAX_ID
  {
    if n == 0 then 0 else (n - 1) % MAX_ID + 1
  }

  function NextId(last: nat): nat {
    if last + 1 > MAX_ID then 1 else last + 1
  }

  lemma NextIdIs(n: nat)
    ensures NextId(IdOf(n)) == IdOf(n + 1)
  {
    if n > 0 {
      var q, r := (n - 1) / MAX_ID, (n - 1) % MAX_ID;
      assert n == q * MAX_ID + r + 1;
      if r + 1 == MAX_ID {
        assert n == (q + 1) * MAX_ID;
      }
    }
  }

  /** Two requests share an id exactly when their numbers differ by a multiple of 2^48 - 1. */
  lemma SameIdIff(n: nat, m: nat)
    requires 0 < n <= m
    ensures IdOf(n) == IdOf(m) <==> (m - n) % MAX_ID == 0
  {
    var q, r := (n - 1) / MAX_ID, (n - 1) % MAX_ID;
    var p, t := (m - 1) / MAX_ID, (m - 1) % MAX_ID;
    assert m - n == (p - q) * MAX_ID + (t - r);
    if t < r {
      assert m - n == (p - q - 1) * MAX_ID + (t - r + MAX_ID);
    }
  }

  /** Any 2^48 - 1 consecutive requests have distinct ids. */
  lemma IdsDistinctInWindow(n: nat, m: nat)
    requires 0 < n < m < n + MAX_ID
    ensures IdOf(n) != IdOf(m)
  {
    SameIdIff(n, m);
  }

  /** The ids begin as the numbers of the requests, up to 2^48 - 1, and then again with 1. */
  lemma CycleOfIds(n: nat)
    requires 0 < n <= 0x1_0000_0000_0000
    ensures IdOf(n) == if n < 0x1_0000_0000_0000 then n else 1
  {
  }

  // ------------------------------------------------------------------------------------------
  // State machine
  // ------------------------------------------------------------------------------------------

  /**
   `lastId` and `bound` are last_req_id_ and co_awaitbles_; `resumed` and `dropped` record which
   requests were resumed and which met the duplicate-id branch of CoroutineBinder.
   */
  datatype Table = Table(
    issued: nat,
    lastId: nat,
    awaited: set<nat>,
    bound: map<nat, nat>,
    resumed: seq<nat>,
    dropped: set<nat>)

  const INIT := Table(0, 0, {}, map[], [], {})

  /** What a request gives user code to suspend on: its id, and its number, which stands for the object. */
  datatype Awaitable = Awaitable(number: nat, reqId: nat)

  /** What user code does: issue a request, or suspend on one it issued. */
  datatype Call = Issue | Await(a: Awaitable)

  /** A call from outside, or an ack whose resumed coroutine makes calls before it suspends again. */
  datatype Action = Plain(call: Call) | Ack(id: nat, during: seq<Call>)

  /** Only issued requests are awaited, as Request left them, and each once. */
  predicate CanCall(t: Table, c: Call) {
    c.Await? ==> 0 < c.a.number <= t.issued && c.a.reqId == IdOf(c.a.number) && c.a.number !in t.awaited
  }

  function DoCall(t: Table, c: Call): Table
    requires CanCall(t, c)
  {
    match c
    case Issue => t.(issued := t.issued + 1, lastId := NextId(t.lastId))
    case Await(a) =>
      var awaited := t.awaited + {a.number};
      if a.reqId in t.bound then t.(awaited := awaited, dropped := t.dropped + {a.number})
      else t.(awaited := awaited, bound := t.bound[a.reqId := a.number])
  }

  /** The duplicate branch is out of reach: no bound request is a whole id cycle or more away. */
  predicate InWindow(t: Table, c: Call) {
    c.Await? ==> forall id :: id in t.bound ==> -MAX_ID < c.a.number - t.bound[id] < MAX_ID
  }

  ghost predicate CanCallAll(t: Table, calls: seq<Call>)
    decreases |calls|
  {
    calls != [] ==>
      CanCall(t, calls[0]) && InWindow(t, calls[0]) && CanCallAll(DoCall(t, calls[0]), calls[1..])
  }

  ghost function DoCalls(t: Table, calls: seq<Call>): Table
    requires CanCallAll(t, calls)
    decreases |calls|
  {
    if calls == [] then t else DoCalls(DoCall(t, calls[0]), calls[1..])
  }

  /** OnAckHandler resumes first and erases afterwards, so the coroutine's calls still see the entry. */
  ghost predicate CanStep(t: Table, a: Action) {
    match a
    case Plain(c) => CanCall(t, c) && InWindow(t, c)
    case Ack(id, during) => id in t.bound ==> CanCallAll(t.(resumed := t.resumed + [t.bound[id]]), during)
  }

  ghost function Step(t: Table, a: Action): Table
    requires CanStep(t, a)
  {
    match a
    case Plain(c) => DoCall(t, c)
    case Ack(id, during) =>
      if id == 0 || id !in t.bound then t
      else
        var u := DoCalls(t.(resumed := t.resumed + [t.bound[id]]), during);
        u.(bound := u.bound - {id})
  }

  // ------------------------------------------------------------------------------------------
  // Every run
  // ------------------------------------------------------------------------------------------

  /**
   `hot` is the request being resumed, still bound. Every awaited request is bound, was resumed, or
   was dropped, and only one of these; a request is bound under its own id; none is resumed twice.
   */
  ghost predicate Accounted(t: Table, hot: Option<nat>) {
    && t.lastId == IdOf(t.issued)
    && (forall n :: n in t.awaited ==> 0 < n <= t.issued)
    && (forall id :: id in t.bound ==> t.bound[id] in t.awaited && IdOf(t.bound[id]) == id)
    && (forall i :: 0 <= i < |t.resumed| ==> t.resumed[i] in t.awaited)
    && (forall i, j :: 0 <= i < j < |t.resumed| ==> t.resumed[i] != t.resumed[j])
    && (forall i, id :: 0 <= i < |t.resumed| && id in t.bound && hot != Some(id) ==> t.resumed[i] != t.bound[id])
    && (forall n :: n in t.awaited ==> n in t.resumed || (IdOf(n) in t.bound && t.bound[IdOf(n)] == n))
    && t.dropped == {}
  }

  lemma CallKeepsAccounted(t: Table, hot: Option<nat>, c: Call)
    requires Accounted(t, hot) && CanCall(t, c) && InWindow(t, c)
    requires hot.Some? ==> hot.value in t.bound
    ensures Accounted(DoCall(t, c), hot)
    ensures hot.Some? ==> hot.value in DoCall(t, c).bound && DoCall(t, c).bound[hot.value] == t.bound[hot.value]
  {
    match c
    case Issue => NextIdIs(t.issued);
    case Await(a) =>
      var n := a.number;
      if a.reqId in t.bound {
        var m := t.bound[a.reqId];
        assert m != n && IdOf(m) == IdOf(n);
        IdsDistinctInWindow(if m < n then m else n, if m < n then n else m);
      }
  }

  lemma {:induction false} CallsKeepAccounted(t: Table, hot: Option<nat>, calls: seq<Call>)
    requires Accounted(t, hot) && CanCallAll(t, calls)
    requires hot.Some? ==> hot.value in t.bound
    ensures Accounted(DoCalls(t, calls), hot)
    ensures hot.Some? ==> hot.value in DoCalls(t, calls).bound && DoCalls(t, calls).bound[hot.value] == t.bound[hot.value]
    decreases |calls|
  {
    if calls != [] {
      CallKeepsAccounted(t, hot, calls[0]);
      CallsKeepAccounted(DoCall(t, calls[0]), hot, calls[1..]);
    }
  }

  lemma {:induction false} ResumedGrows(t: Table, calls: seq<Call>)
    requires CanCallAll(t, calls)
    ensures DoCalls(t, calls).resumed == t.resumed
    decreases |calls|
  {
    if calls != [] {
      ResumedGrows(DoCall(t, calls[0]), calls[1..]);
    }
  }

  /** A step resumes nothing, or exactly the one bound request whose id the ack carries. */
  lemma StepKeepsAccounted(t: Table, a: Action)
    requires Accounted(t, None) && CanStep(t, a)
    ensures Accounted(Step(t, a), None)
    ensures Step(t, a).resumed ==
      if a.Ack? && a.id in t.bound then t.resumed + [t.bound[a.id]] else t.resumed
    ensures a.Ack? && a.id in t.bound ==> IdOf(t.bound[a.id]) == a.id
  {
    match a
    case Plain(c) => CallKeepsAccounted(t, None, c);
    case Ack(id, during) =>
      if id in t.bound {
        var hot := t.(resumed := t.resumed + [t.bound[id]]);
        ResumedIsAccounted(t, id);
        CallsKeepAccounted(hot, Some(id), during);
        ResumedGrows(hot, during);
        assert t.bound[id] == DoCalls(hot, during).resumed[|t.resumed|];
        ErasedIsAccounted(DoCalls(hot, during), id);
      }
  }

  lemma ResumedIsAccounted(t: Table, id: nat)
    requires Accounted(t, None) && id in t.bound
    ensures Accounted(t.(resumed := t.resumed + [t.bound[id]]), Some(id))
  {
  }

  /** The entry of a request that was resumed can go. */
  lemma ErasedIsAccounted(u: Table, id: nat)
    requires Accounted(u, Some(id)) && id in u.bound && u.bound[id] in u.resumed
    ensures Accounted(u.(bound := u.bound - {id}), None)
  {
  }

  ghost predicate CanRun(t: Table, actions: seq<Action>)
    decreases |actions|
  {
    actions != [] ==> CanStep(t, actions[0]) && CanRun(Step(t, actions[0]), actions[1..])
  }

  ghost function Run(t: Table, actions: seq<Action>): Table
    requires CanRun(t, actions)
    decreases |actions|
  {
    if actions == [] then t else Run(Step(t, actions[0]), actions[1..])
  }

  lemma {:induction false} RunKeepsAccounted(t: Table, actions: seq<Action>)
    requires Accounted(t, None) && CanRun(t, actions)
    ensures Accounted(Run(t, actions), None)
    decreases |actions|
  {
    if actions != [] {
      StepKeepsAccounted(t, actions[0]);
      RunKeepsAccounted(Step(t, actions[0]), actions[1..]);
    }
  }

  /**
   In every run in which no request outlives the id cycle, the duplicate branch is never taken, no
   request is resumed twice, and every awaited request is either still bound under its id or was
   resumed.
   */
  lemma EveryRequestResumedAtMostOnce(actions: seq<Action>)
    requires CanRun(INIT, actions)
    ensures var t := Run(INIT, actions);
      && t.dropped == {}
      && (forall i, j :: 0 <= i < j < |t.resumed| ==> t.resumed[i] != t.resumed[j])
      && (forall n :: n in t.awaited ==> (n in t.resumed <==> !(IdOf(n) in t.bound && t.bound[IdOf(n)] == n)))
  {
    RunKeepsAccounted(INIT, actions);
  }

  /** The duplicate branch is taken exactly when a bound request is a whole number of id cycles away. */
  lemma DroppedIff(t: Table, a: Awaitable)
    requires Accounted(t, None) && CanCall(t, Await(a))
    ensures var n := a.number;
      n in DoCall(t, Await(a)).dropped <==>
      exists id :: id in t.bound && (if t.bound[id] < n then n - t.bound[id] else t.bound[id] - n) % MAX_ID == 0
  {
    var n := a.number;
    forall id | id in t.bound
      ensures (if t.bound[id] < n then n - t.bound[id] else t.bound[id] - n) % MAX_ID == 0 <==> id == IdOf(n)
    {
      var m := t.bound[id];
      SameIdIff(if m < n then m else n, if m < n then n else m);
    }
  }

  // ------------------------------------------------------------------------------------------
  // The module's fields
  // ------------------------------------------------------------------------------------------

  class RequestTable {
    var lastReqId: nat
    var awaitables: map<nat, nat>
    /** The coroutines resumed so far, by request number. */
    var resumed: seq<nat>
    /** How many requests were issued, which numbers the next one. */
    var issued: nat
    ghost var awaited: set<nat>
    ghost var dropped: set<nat>

    ghost function Abs(): Table
      reads this
    {
      Table(issued, lastReqId, awaited, awaitables, resumed, dropped)
    }

    constructor ()
      ensures Abs() == INIT
    {
      lastReqId, awaitables, resumed := 0, map[], [];
      issued, awaited, dropped := 0, {}, {};
    }

    /** The next id of the cycle. */
    method GenerateRequestID() returns (id: nat)
      modifies `lastReqId
      ensures id == lastReqId == NextId(old(lastReqId))
    {
      lastReqId := lastReqId + 1;
      if lastReqId > MAX_ID {
        lastReqId := 1;
      }
      return lastReqId;
    }

    /** Request, without what it sends: what it returns can be suspended on. */
    method Request() returns (a: Awaitable)
      modifies this
      ensures Abs() == DoCall(old(Abs()), Issue) && a == Awaitable(issued, lastReqId)
      ensures Accounted(old(Abs()), None) ==> CanCall(Abs(), Await(a))
    {
      NextIdIs(issued);
      var id := GenerateRequestID();
      issued := issued + 1;
      a := Awaitable(issued, id);
    }

    /** A request suspends; the duplicate-id branch leaves it unbound. */
    method CoroutineBinder(a: Awaitable)
      requires CanCall(Abs(), Await(a))
      modifies this
      ensures Abs() == DoCall(old(Abs()), Await(a))
    {
      if a.reqId !in awaitables {
        awaitables := awaitables[a.reqId := a.number];
      } else {
        dropped := dropped + {a.number};
      }
      awaited := awaited + {a.number};
    }

    /**
     OnAckHandler, with the calls the resumed coroutine makes before it suspends again. The entry
     is erased after the resumption.
     */
    method OnAckHandler(reqId: nat, during: seq<Call>)
      requires Accounted(Abs(), None) && CanStep(Abs(), Ack(reqId, during))
      modifies this
      ensures Abs() == Step(old(Abs()), Ack(reqId, during))
    {
      if reqId == 0 {
        return;
      }
      if reqId !in awaitables {
        return;
      }
      resumed := resumed + [awaitables[reqId]];
      ghost var hot := Abs();
      for i := 0 to |during|
        invariant CanCallAll(Abs(), during[i..])
        invariant DoCalls(Abs(), during[i..]) == DoCalls(hot, during)
      {
        assert during[i..][1..] == during[i + 1..];
        match during[i]
        case Issue => var a := Request();
        case Await(a) => CoroutineBinder(a);
      }
      awaitables := awaitables - {reqId};
    }
  }
}
