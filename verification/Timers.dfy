/**
 The timer scheduler of src/plugin/core/utils/schedule_module.cc as a state machine. Callbacks are
 arbitrary: a script says which scheduler calls each fire makes.
 */
module Timers {
  import Bytes
  import opened Wrappers

  datatype Key = Key(owner: int, name: string)

  /** One TickElement of the multiset mScheduleMap. */
  datatype Tick = Tick(key: Key, at: int)

  /** One ScheduleElement: interval in ms, mnTriggerTime, mnRemainCount and its identity. */
  datatype Timer = Timer(interval: int, at: int, remain: int, serial: nat)

  /** What a timer was created with and when, by serial. */
  datatype Created = Created(key: Key, interval: int, count: int, clock: int)

  /** One DoHeartBeatEvent: the tick it came from was due at `due`, its element at `armed`. */
  datatype Fire = Fire(serial: nat, due: int, armed: int, at: int)

  /**
   `timers` and `owners` are the nested map mObjectScheduleMap, `ticks` is mScheduleMap in iteration
   order, `cursor` the iterator of a running Update and `deferred` its list of re-armed ticks.
   */
  datatype State = State(
    timers: map<Key, Timer>,
    owners: set<int>,
    ticks: seq<Tick>,
    cursor: Option<nat>,
    deferred: seq<Tick>,
    created: seq<Created>,
    fires: seq<Fire>)

  const INIT := State(map[], {}, [], None, [], [], [])

  /** A scheduler call, from outside or from a callback; Add carries the clock it reads. */
  datatype Op =
    | Add(key: Key, interval: int, count: int, clock: int)
    | Remove(key: Key)
    | RemoveAll(owner: int)

  // ------------------------------------------------------------------------------------------
  // Steps
  // ------------------------------------------------------------------------------------------

  /** Where the multiset puts a tick due at `at`: behind the ticks due no later. */
  function UpperBound(ticks: seq<Tick>, at: int): (u: nat)
    ensures u <= |ticks|
  {
    if ticks == [] || ticks[0].at > at then 0 else 1 + UpperBound(ticks[1..], at)
  }

  function Inserted(ticks: seq<Tick>, t: Tick): seq<Tick> {
    var u := UpperBound(ticks, t.at);
    ticks[..u] + [t] + ticks[u..]
  }

  /** A running Update's iterator stays on its element. */
  function InsertTick(s: State, t: Tick): State {
    s.(ticks := Inserted(s.ticks, t),
    cursor := if s.cursor.Some? && UpperBound(s.ticks, t.at) <= s.cursor.value then Some(s.cursor.value + 1) else s.cursor)
  }

  function DoOp(s: State, op: Op): State {
    match op
    case Add(key, interval, count, clock) =>
      var t := s.(owners := s.owners + {key.owner});
      if key in s.timers then t
      else
        InsertTick(t.(timers := t.timers[key := Timer(interval, clock + interval, count, |t.created|)],
                      created := t.created + [Created(key, interval, count, clock)]),
                   Tick(key, clock + interval))
    case Remove(key) => s.(timers := s.timers - {key})
    case RemoveAll(owner) =>
      s.(owners := s.owners - {owner}, timers := map key | key in s.timers && key.owner != owner :: s.timers[key])
  }

  function DoOps(s: State, ops: seq<Op>): State
    decreases |ops|
  {
    if ops == [] then s else DoOp(DoOps(s, ops[..|ops| - 1]), ops[|ops| - 1])
  }

  /** The iterator is on a tick. */
  predicate OnTick(s: State) {
    s.cursor.Some? && s.cursor.value < |s.ticks|
  }

  /** A call from a callback leaves the iterator on the tick it was on. */
  lemma OpKeepsCursor(s: State, op: Op)
    requires OnTick(s)
    ensures var t := DoOp(s, op);
      && OnTick(t) && t.ticks[t.cursor.value] == s.ticks[s.cursor.value]
      && |t.ticks| - t.cursor.value <= |s.ticks| - s.cursor.value + 1
      && (!op.Add? ==> t.ticks == s.ticks && t.cursor == s.cursor)
  {
  }

  lemma {:induction false} OpsKeepCursor(s: State, ops: seq<Op>)
    requires OnTick(s)
    ensures var t := DoOps(s, ops);
      && OnTick(t) && t.ticks[t.cursor.value] == s.ticks[s.cursor.value]
      && |t.ticks| - t.cursor.value <= |s.ticks| - s.cursor.value + |ops|
    decreases |ops|
  {
    if ops != [] {
      OpsKeepCursor(s, ops[..|ops| - 1]);
      OpKeepsCursor(DoOps(s, ops[..|ops| - 1]), ops[|ops| - 1]);
    }
  }

  /** erase(it): the iterator moves on to the element behind. */
  function EraseTick(s: State): State
    requires OnTick(s)
  {
    s.(ticks := s.ticks[..s.cursor.value] + s.ticks[s.cursor.value + 1..])
  }

  /** DoHeartBeatEvent before the callbacks. */
  function Beat(t: Timer, now: int): Timer {
    t.(remain := if t.remain > 0 then t.remain - 1 else t.remain, at := now + t.interval)
  }

  /** The tick under the iterator up to the callbacks: a last fire leaves the map first. */
  function BeforeCallbacks(s: State, now: int): State
    requires OnTick(s) && s.ticks[s.cursor.value].key in s.timers
  {
    var tick := s.ticks[s.cursor.value];
    var timer := s.timers[tick.key];
    s.(timers := if timer.remain == 1 then s.timers - {tick.key} else s.timers[tick.key := Beat(timer, now)],
    fires := s.fires + [Fire(timer.serial, tick.at, timer.at, now)])
  }

  /** A timer that has fired gets its next tick, if there is to be one; it waits for the end of Update. */
  function Rearm(s: State, key: Key, beaten: Timer): State {
    if beaten.remain != 0 then s.(deferred := s.deferred + [Tick(key, beaten.at)]) else s
  }

  /** The tick under the iterator, with the calls its callbacks make and its element re-armed. */
  function Called(s: State, now: int, ops: seq<Op>): (r: State)
    requires OnTick(s) && s.ticks[s.cursor.value].key in s.timers
    ensures OnTick(r)
  {
    var tick := s.ticks[s.cursor.value];
    var beaten := Beat(s.timers[tick.key], now);
    OpsKeepCursor(BeforeCallbacks(s, now), ops);
    Rearm(DoOps(BeforeCallbacks(s, now), ops), tick.key, beaten)
  }

  function FireTick(s: State, now: int, ops: seq<Op>): State
    requires OnTick(s) && s.ticks[s.cursor.value].key in s.timers
  {
    EraseTick(Called(s, now, ops))
  }

  function TotalOps(script: seq<seq<Op>>): nat {
    if script == [] then 0 else |script[0]| + TotalOps(script[1..])
  }

  /** The tick under the iterator is due. */
  predicate Due(s: State, now: int) {
    OnTick(s) && now >= s.ticks[s.cursor.value].at
  }

  /** The loop of Update: the k-th fire makes the calls script[k], none when the script is used up. */
  function Loop(s: State, now: int, script: seq<seq<Op>>): State
    requires s.cursor.Some?
    decreases |s.ticks| - s.cursor.value + TotalOps(script)
  {
    if !Due(s, now) then s
    else if s.ticks[s.cursor.value].key !in s.timers then Loop(EraseTick(s), now, script)
    else
      var ops := if script == [] then [] else script[0];
      OpsKeepCursor(BeforeCallbacks(s, now), ops);
      Loop(FireTick(s, now, ops), now, if script == [] then [] else script[1..])
  }

  function InsertAll(ticks: seq<Tick>, more: seq<Tick>): seq<Tick>
    decreases |more|
  {
    if more == [] then ticks else Inserted(InsertAll(ticks, more[..|more| - 1]), more[|more| - 1])
  }

  /** The end of Update: the re-armed ticks go into the multiset. */
  function Flush(s: State): State {
    s.(ticks := InsertAll(s.ticks, s.deferred), cursor := None, deferred := [])
  }

  function Update(s: State, now: int, script: seq<seq<Op>>): State {
    Flush(Loop(s.(cursor := Some(0), deferred := []), now, script))
  }

  // ------------------------------------------------------------------------------------------
  // Ticks as a multiset
  // ------------------------------------------------------------------------------------------

  function Waiting(s: State): multiset<Tick> {
    multiset(s.ticks) + multiset(s.deferred)
  }

  lemma InsertedMultiset(ticks: seq<Tick>, t: Tick)
    ensures multiset(Inserted(ticks, t)) == multiset(ticks) + multiset{t}
  {
    var u := UpperBound(ticks, t.at);
    assert ticks == ticks[..u] + ticks[u..];
  }

  lemma {:induction false} InsertAllMultiset(ticks: seq<Tick>, more: seq<Tick>)
    ensures multiset(InsertAll(ticks, more)) == multiset(ticks) + multiset(more)
    decreases |more|
  {
    if more != [] {
      var last := |more| - 1;
      InsertAllMultiset(ticks, more[..last]);
      InsertedMultiset(InsertAll(ticks, more[..last]), more[last]);
      LastOfMultiset(multiset(ticks), more);
    }
  }

  lemma LastOfMultiset(w: multiset<Tick>, more: seq<Tick>)
    requires more != []
    ensures w + multiset(more[..|more| - 1]) + multiset{more[|more| - 1]} == w + multiset(more)
  {
    assert more == more[..|more| - 1] + [more[|more| - 1]];
  }

  lemma ErasedMultiset(s: State)
    requires OnTick(s)
    ensures Waiting(EraseTick(s)) == Waiting(s) - multiset{s.ticks[s.cursor.value]}
    ensures s.ticks[s.cursor.value] in Waiting(s)
  {
    var c := s.cursor.value;
    assert s.ticks == s.ticks[..c] + [s.ticks[c]] + s.ticks[c + 1..];
  }

  /** The ticks a scheduler call adds. */
  function Added(s: State, op: Op): multiset<Tick> {
    if op.Add? && op.key !in s.timers then multiset{Tick(op.key, op.clock + op.interval)} else multiset{}
  }

  lemma OpWaiting(s: State, op: Op)
    ensures Waiting(DoOp(s, op)) == Waiting(s) + Added(s, op)
  {
    var t := DoOp(s, op);
    if op.Add? && op.key !in s.timers {
      var tick := Tick(op.key, op.clock + op.interval);
      InsertedMultiset(s.ticks, tick);
      assert t.ticks == Inserted(s.ticks, tick) && t.deferred == s.deferred;
      SumSwap(multiset(s.ticks), multiset{tick}, multiset(s.deferred));
    } else {
      assert t.ticks == s.ticks && t.deferred == s.deferred;
    }
  }

  lemma SumSwap(a: multiset<Tick>, b: multiset<Tick>, c: multiset<Tick>)
    ensures a + b + c == a + c + b
  {
  }

  // ------------------------------------------------------------------------------------------
  // Fires are counted, live timers stay armed
  // ------------------------------------------------------------------------------------------

  function Count(fires: seq<Fire>, serial: nat): nat {
    if fires == [] then 0
    else Count(fires[..|fires| - 1], serial) + (if fires[|fires| - 1].serial == serial then 1 else 0)
  }

  lemma CountGrows(fires: seq<Fire>, f: Fire)
    ensures forall serial :: Count(fires + [f], serial) == Count(fires, serial) + (if f.serial == serial then 1 else 0)
  {
    assert (fires + [f])[..|fires|] == fires;
  }

  /** A live timer created with count n > 0 has fires + remaining = n, with something remaining. */
  predicate InStep(created: Created, fired: nat, remain: int) {
    if created.count > 0 then remain >= 1 && fired + remain == created.count else remain == created.count
  }

  ghost predicate Counted(s: State) {
    && (forall key :: key in s.timers ==>
          var t := s.timers[key];
          && t.serial < |s.created| && s.created[t.serial].key == key && s.created[t.serial].interval == t.interval
          && InStep(s.created[t.serial], Count(s.fires, t.serial), t.remain))
    && (forall serial :: |s.created| <= serial ==> Count(s.fires, serial) == 0)
    && (forall serial :: 0 <= serial < |s.created| && s.created[serial].count > 0 ==>
          Count(s.fires, serial) <= s.created[serial].count)
  }

  /** Every live timer with something remaining, but the one being fired, has a tick in `w`. */
  ghost predicate Armed(s: State, w: multiset<Tick>, hot: Option<nat>) {
    forall key :: key in s.timers && s.timers[key].remain != 0 && hot != Some(s.timers[key].serial) ==>
      exists at :: Tick(key, at) in w
  }

  ghost predicate Inv(s: State) {
    Counted(s) && Armed(s, Waiting(s), None)
  }

  lemma OpKeepsCounted(s: State, op: Op)
    requires Counted(s)
    ensures Counted(DoOp(s, op)) && DoOp(s, op).fires == s.fires
  {
  }

  lemma OpKeepsArmed(s: State, w: multiset<Tick>, hot: Option<nat>, op: Op)
    requires Armed(s, w, hot)
    ensures Armed(DoOp(s, op), w + Added(s, op), hot)
  {
    if op.Add? && op.key !in s.timers {
      assert Tick(op.key, op.clock + op.interval) in w + Added(s, op);
    }
  }

  /** Calls from callbacks, while the tick `cur` of the fired timer `hot` is still in the multiset. */
  lemma {:induction false} OpsKeepInv(s: State, cur: Tick, hot: nat, ops: seq<Op>)
    requires Counted(s) && cur in Waiting(s) && Armed(s, Waiting(s) - multiset{cur}, Some(hot))
    ensures var t := DoOps(s, ops);
      && Counted(t) && cur in Waiting(t) && Armed(t, Waiting(t) - multiset{cur}, Some(hot))
      && t.fires == s.fires && t.deferred == s.deferred && s.created <= t.created
    decreases |ops|
  {
    if ops != [] {
      var before, op := DoOps(s, ops[..|ops| - 1]), ops[|ops| - 1];
      OpsKeepInv(s, cur, hot, ops[..|ops| - 1]);
      OpKeepsCounted(before, op);
      OpKeepsArmed(before, Waiting(before) - multiset{cur}, Some(hot), op);
      OpWaitingBut(before, cur, op);
    }
  }

  lemma BeatKeepsCounted(s: State, now: int)
    requires Counted(s) && OnTick(s) && s.ticks[s.cursor.value].key in s.timers
    ensures Counted(BeforeCallbacks(s, now))
  {
    var cur := s.ticks[s.cursor.value];
    CountGrows(s.fires, Fire(s.timers[cur.key].serial, cur.at, s.timers[cur.key].at, now));
  }

  lemma BeatKeepsInv(s: State, now: int)
    requires Inv(s) && OnTick(s) && s.ticks[s.cursor.value].key in s.timers
    ensures var cur := s.ticks[s.cursor.value]; var t := BeforeCallbacks(s, now);
      && Counted(t) && Waiting(t) == Waiting(s) && cur in Waiting(t)
      && Armed(t, Waiting(t) - multiset{cur}, Some(s.timers[cur.key].serial))
  {
    var cur := s.ticks[s.cursor.value];
    BeatKeepsCounted(s, now);
    var t := BeforeCallbacks(s, now);
    forall key | key in t.timers && key != cur.key && t.timers[key].remain != 0
      ensures exists at :: Tick(key, at) in Waiting(t) - multiset{cur}
    {
      var at :| Tick(key, at) in Waiting(s);
      assert Tick(key, at) in Waiting(t) - multiset{cur};
    }
  }

  /** What remains of a timer depends on its serial and its fires alone. */
  lemma RemainIs(s: State, serial: nat, key: Key)
    requires Counted(s) && key in s.timers && s.timers[key].serial == serial
    ensures serial < |s.created| && s.created[serial].key == key
    ensures s.timers[key].remain ==
      if s.created[serial].count > 0 then s.created[serial].count - Count(s.fires, serial) else s.created[serial].count
    ensures s.created[serial].count > 0 ==> Count(s.fires, serial) < s.created[serial].count
  {
  }

  /** The fired tick goes, and its timer's next one comes, if there is to be one. */
  lemma RearmWaiting(t: State, key: Key, beaten: Timer)
    requires OnTick(t)
    ensures Waiting(EraseTick(Rearm(t, key, beaten))) ==
      Waiting(t) - multiset{t.ticks[t.cursor.value]} +
      if beaten.remain != 0 then multiset{Tick(key, beaten.at)} else multiset{}
  {
    var u := Rearm(t, key, beaten);
    ErasedMultiset(u);
    if beaten.remain != 0 {
      assert Waiting(u) == Waiting(t) + multiset{Tick(key, beaten.at)};
    }
  }

  lemma RearmKeepsArmed(t: State, cur: Tick, beaten: Timer, hot: nat)
    requires OnTick(t) && t.ticks[t.cursor.value] == cur && Armed(t, Waiting(t) - multiset{cur}, Some(hot))
    requires forall key :: key in t.timers && t.timers[key].serial == hot && t.timers[key].remain != 0 ==>
      key == cur.key && beaten.remain != 0
    ensures var u := EraseTick(Rearm(t, cur.key, beaten));
      Armed(u, Waiting(u), None)
  {
    var u := EraseTick(Rearm(t, cur.key, beaten));
    RearmWaiting(t, cur.key, beaten);
    forall key | key in t.timers && t.timers[key].remain != 0
      ensures exists at :: Tick(key, at) in Waiting(u)
    {
      if t.timers[key].serial == hot {
        assert Tick(key, beaten.at) in Waiting(u);
      } else {
        var at :| Tick(key, at) in Waiting(t) - multiset{cur};
        assert Tick(key, at) in Waiting(u);
      }
    }
  }

  lemma FireKeepsInv(s: State, now: int, ops: seq<Op>)
    requires Inv(s) && OnTick(s) && s.ticks[s.cursor.value].key in s.timers
    ensures Inv(FireTick(s, now, ops))
  {
    var cur := s.ticks[s.cursor.value];
    var hot, beaten := s.timers[cur.key].serial, Beat(s.timers[cur.key], now);
    var a := BeforeCallbacks(s, now);
    BeatKeepsInv(s, now);
    OpsKeepInv(a, cur, hot, ops);
    OpsKeepCursor(a, ops);
    var t := DoOps(a, ops);
    forall key | key in t.timers && t.timers[key].serial == hot && t.timers[key].remain != 0
      ensures key == cur.key && beaten.remain != 0
    {
      RemainIs(t, hot, key);
      RemainIs(s, hot, cur.key);
      CountGrows(s.fires, Fire(hot, cur.at, s.timers[cur.key].at, now));
    }
    RearmKeepsArmed(t, cur, beaten, hot);
  }

  lemma {:induction false} LoopKeepsInv(s: State, now: int, script: seq<seq<Op>>)
    requires Inv(s) && s.cursor.Some?
    ensures Inv(Loop(s, now, script))
    decreases |s.ticks| - s.cursor.value + TotalOps(script)
  {
    if Due(s, now) {
      if s.ticks[s.cursor.value].key !in s.timers {
        StaleKeepsInv(s);
        LoopKeepsInv(EraseTick(s), now, script);
      } else {
        var ops := if script == [] then [] else script[0];
        OpsKeepCursor(BeforeCallbacks(s, now), ops);
        FireKeepsInv(s, now, ops);
        LoopKeepsInv(FireTick(s, now, ops), now, if script == [] then [] else script[1..]);
      }
    }
  }

  /** A tick whose timer is gone arms nobody. */
  lemma StaleKeepsInv(s: State)
    requires Inv(s) && OnTick(s) && s.ticks[s.cursor.value].key !in s.timers
    ensures Inv(EraseTick(s))
  {
    ErasedMultiset(s);
    var t := EraseTick(s);
    forall key | key in t.timers && t.timers[key].remain != 0
      ensures exists at :: Tick(key, at) in Waiting(t)
    {
      var at :| Tick(key, at) in Waiting(s);
      assert Tick(key, at) in Waiting(t);
    }
  }

  lemma UpdateKeepsInv(s: State, now: int, script: seq<seq<Op>>)
    requires Inv(s) && s.cursor.None? && s.deferred == []
    ensures Inv(Update(s, now, script))
  {
    var start := s.(cursor := Some(0), deferred := []);
    assert Waiting(start) == Waiting(s);
    LoopKeepsInv(start, now, script);
    var t := Loop(start, now, script);
    InsertAllMultiset(t.ticks, t.deferred);
    assert Waiting(Flush(t)) == Waiting(t);
  }

  // ------------------------------------------------------------------------------------------
  // Every run
  // ------------------------------------------------------------------------------------------

  /** A scheduler call from outside, or an Update whose fires make the calls of the script. */
  datatype Action = Call(op: Op) | Frame(now: int, script: seq<seq<Op>>)

  function Step(s: State, a: Action): State {
    match a
    case Call(op) => DoOp(s, op)
    case Frame(now, script) => Update(s, now, script)
  }

  function Run(actions: seq<Action>): (s: State)
    ensures s.cursor.None? && s.deferred == []
    decreases |actions|
  {
    if actions == [] then INIT else Step(Run(actions[..|actions| - 1]), actions[|actions| - 1])
  }

  lemma {:induction false} RunKeepsInv(actions: seq<Action>)
    ensures Inv(Run(actions))
    decreases |actions|
  {
    if actions != [] {
      var before, a := Run(actions[..|actions| - 1]), actions[|actions| - 1];
      RunKeepsInv(actions[..|actions| - 1]);
      match a
      case Call(op) =>
        OpKeepsCounted(before, op);
        OpKeepsArmed(before, Waiting(before), None, op);
        OpWaiting(before, op);
      case Frame(now, script) => UpdateKeepsInv(before, now, script);
    }
  }

  /**
   In every run, whatever the callbacks do: a live timer created with count n > 0 has fired exactly
   n - remaining times and something remains; a timer never fires more than n times and at its n-th
   fire it is out of the map; a live timer that has something remaining has a pending tick.
   */
  lemma FiresAreCounted(actions: seq<Action>, serial: nat)
    requires serial < |Run(actions).created|
    ensures var s := Run(actions); var n := s.created[serial].count;
      && (n > 0 ==> Count(s.fires, serial) <= n)
      && (forall key :: key in s.timers && s.timers[key].serial == serial && n > 0 ==>
            s.timers[key].remain > 0 && Count(s.fires, serial) + s.timers[key].remain == n)
      && (n > 0 && Count(s.fires, serial) == n ==>
            forall key :: key in s.timers ==> s.timers[key].serial != serial)
  {
    RunKeepsInv(actions);
  }

  lemma LiveTimersAreArmed(actions: seq<Action>, key: Key)
    requires key in Run(actions).timers && Run(actions).timers[key].remain != 0
    ensures exists at :: Tick(key, at) in Run(actions).ticks
  {
    RunKeepsInv(actions);
    var s := Run(actions);
    var at :| Tick(key, at) in Waiting(s);
    assert Tick(key, at) in multiset(s.ticks);
  }

  // ------------------------------------------------------------------------------------------
  // One Update whose callbacks add nothing
  // ------------------------------------------------------------------------------------------

  predicate Sorted(ticks: seq<Tick>) {
    forall i, j :: 0 <= i < j < |ticks| ==> ticks[i].at <= ticks[j].at
  }

  predicate AddsNothing(script: seq<seq<Op>>) {
    forall i, j :: 0 <= i < |script| && 0 <= j < |script[i]| ==> !script[i][j].Add?
  }

  /** The first list arises from the second by leaving elements out. */
  predicate Subsequence(a: seq<int>, b: seq<int>)
    decreases |b|
  {
    if a == [] then true
    else if b == [] then false
    else if a[0] == b[0] && Subsequence(a[1..], b[1..]) then true
    else Subsequence(a, b[1..])
  }

  function Dues(fires: seq<Fire>): seq<int> {
    seq(|fires|, i requires 0 <= i < |fires| => fires[i].due)
  }

  function Ats(ticks: seq<Tick>): seq<int> {
    seq(|ticks|, i requires 0 <= i < |ticks| => ticks[i].at)
  }

  lemma {:induction false} QuietOps(s: State, ops: seq<Op>)
    requires OnTick(s) && forall j :: 0 <= j < |ops| ==> !ops[j].Add?
    ensures var t := DoOps(s, ops);
      && t.ticks == s.ticks && t.cursor == s.cursor && t.fires == s.fires && t.deferred == s.deferred
      && t.created == s.created && t.timers.Keys <= s.timers.Keys
      && forall key :: key in t.timers ==> t.timers[key] == s.timers[key]
    decreases |ops|
  {
    if ops != [] {
      QuietOps(s, ops[..|ops| - 1]);
    }
  }

  /**
   The loop under such callbacks takes exactly the due ticks, in order, each at most once; what it
   re-arms is due one interval after now.
   */
  lemma {:induction false} QuietLoop(s: State, now: int, script: seq<seq<Op>>) returns (f: seq<Fire>, d: seq<Tick>)
    requires s.cursor == Some(0) && AddsNothing(script)
    ensures var t := Loop(s, now, script); var u := UpperBound(s.ticks, now);
      && t.ticks == s.ticks[u..] && t.fires == s.fires + f && t.deferred == s.deferred + d
      && Subsequence(Dues(f), Ats(s.ticks[..u]))
    ensures forall i :: 0 <= i < |d| ==> d[i].key in s.timers && d[i].at == now + s.timers[d[i].key].interval
    decreases |s.ticks| + TotalOps(script)
  {
    f, d := [], [];
    if !Due(s, now) {
      assert UpperBound(s.ticks, now) == 0 && s.ticks[0..] == s.ticks;
    } else {
      var rest, more := s.ticks[1..], if script == [] then [] else script[1..];
      if s.ticks[0].key !in s.timers {
        assert EraseTick(s).ticks == rest;
        f, d := QuietLoop(EraseTick(s), now, script);
        QuietStep(s.ticks, now, f);
      } else {
        var ops := if script == [] then [] else script[0];
        QuietFire(s, now, ops);
        f, d := QuietLoop(FireTick(s, now, ops), now, more);
        QuietStep(s.ticks, now, f);
        f, d := QuietMore(s, now, ops, more, f, d);
      }
    }
  }

  /** The first tick's fire and what it re-arms, in front of those of the rest of the loop. */
  lemma QuietMore(s: State, now: int, ops: seq<Op>, more: seq<seq<Op>>, f: seq<Fire>, d: seq<Tick>)
    returns (f': seq<Fire>, d': seq<Tick>)
    requires s.cursor == Some(0) && Due(s, now) && s.ticks[0].key in s.timers
    requires forall j :: 0 <= j < |ops| ==> !ops[j].Add?
    requires FireTick(s, now, ops).cursor.Some?
    requires var r := Loop(FireTick(s, now, ops), now, more);
      r.fires == FireTick(s, now, ops).fires + f && r.deferred == FireTick(s, now, ops).deferred + d
    requires forall i :: 0 <= i < |d| ==> d[i].key in s.timers && d[i].at == now + s.timers[d[i].key].interval
    ensures var r := Loop(FireTick(s, now, ops), now, more);
      r.fires == s.fires + f' && r.deferred == s.deferred + d'
    ensures Dues(f') == [s.ticks[0].at] + Dues(f)
    ensures forall i :: 0 <= i < |d'| ==> d'[i].key in s.timers && d'[i].at == now + s.timers[d'[i].key].interval
  {
    var fire := Fire(s.timers[s.ticks[0].key].serial, s.ticks[0].at, s.timers[s.ticks[0].key].at, now);
    QuietFire(s, now, ops);
    Bytes.AppendAssociative(s.fires, [fire], f);
    Bytes.AppendAssociative(s.deferred, Rearmed(s, now), d);
    Appended(fire, f);
    f', d' := [fire] + f, Rearmed(s, now) + d;
  }

  /** The due ticks are the first one and the due ones behind it. */
  lemma QuietStep(ticks: seq<Tick>, now: int, f: seq<Fire>)
    requires ticks != [] && ticks[0].at <= now
    requires Subsequence(Dues(f), Ats(ticks[1..][..UpperBound(ticks[1..], now)]))
    ensures var u := UpperBound(ticks, now);
      && ticks[1..][UpperBound(ticks[1..], now)..] == ticks[u..]
      && Subsequence(Dues(f), Ats(ticks[..u]))
      && Subsequence([ticks[0].at] + Dues(f), Ats(ticks[..u]))
  {
    DueTicks(ticks, now);
    LongerSubsequence(ticks[0].at, Dues(f), Ats(ticks[1..][..UpperBound(ticks[1..], now)]));
  }

  lemma DueTicks(ticks: seq<Tick>, now: int)
    requires ticks != [] && ticks[0].at <= now
    ensures var u := UpperBound(ticks, now);
      && u == 1 + UpperBound(ticks[1..], now)
      && Ats(ticks[..u]) == [ticks[0].at] + Ats(ticks[1..][..u - 1])
      && ticks[1..][u - 1..] == ticks[u..]
  {
    FirstOfTicks(ticks, UpperBound(ticks, now));
  }

  lemma FirstOfTicks(ticks: seq<Tick>, u: nat)
    requires 0 < u <= |ticks|
    ensures Ats(ticks[..u]) == [ticks[0].at] + Ats(ticks[1..][..u - 1])
    ensures ticks[1..][u - 1..] == ticks[u..]
  {
    assert ticks[..u] == [ticks[0]] + ticks[1..][..u - 1];
    AtsOfFirst(ticks[0], ticks[1..][..u - 1]);
  }

  lemma AtsOfFirst(t: Tick, more: seq<Tick>)
    ensures Ats([t] + more) == [t.at] + Ats(more)
  {
  }

  lemma LongerSubsequence(x: int, a: seq<int>, b: seq<int>)
    requires Subsequence(a, b)
    ensures Subsequence(a, [x] + b) && Subsequence([x] + a, [x] + b)
  {
    assert ([x] + b)[1..] == b && ([x] + a)[1..] == a;
  }

  /** The tick a fire of the first timer re-arms. */
  function Rearmed(s: State, now: int): seq<Tick>
    requires s.ticks != [] && s.ticks[0].key in s.timers
  {
    var beaten := Beat(s.timers[s.ticks[0].key], now);
    if beaten.remain != 0 then [Tick(s.ticks[0].key, beaten.at)] else []
  }

  lemma QuietFire(s: State, now: int, ops: seq<Op>)
    requires s.cursor == Some(0) && Due(s, now) && s.ticks[0].key in s.timers
    requires forall j :: 0 <= j < |ops| ==> !ops[j].Add?
    ensures var t := FireTick(s, now, ops);
      && t.cursor == Some(0) && t.ticks == s.ticks[1..] && t.deferred == s.deferred + Rearmed(s, now)
      && t.fires == s.fires + [Fire(s.timers[s.ticks[0].key].serial, s.ticks[0].at, s.timers[s.ticks[0].key].at, now)]
      && t.timers.Keys <= s.timers.Keys
      && forall key :: key in t.timers ==> t.timers[key].interval == s.timers[key].interval
  {
    QuietOps(BeforeCallbacks(s, now), ops);
    assert s.deferred + [] == s.deferred;
  }

  lemma Appended(fire: Fire, more: seq<Fire>)
    ensures Dues([fire] + more) == [fire.due] + Dues(more)
  {
  }

  lemma {:induction false} SubsequenceOfAscending(a: seq<int>, b: seq<int>)
    requires Subsequence(a, b) && forall i, j :: 0 <= i < j < |b| ==> b[i] <= b[j]
    ensures |a| <= |b|
    ensures forall i :: 0 <= i < |a| ==> a[i] in b
    ensures forall i, j :: 0 <= i < j < |a| ==> a[i] <= a[j]
    decreases |b|
  {
    if a != [] {
      if a[0] == b[0] && Subsequence(a[1..], b[1..]) {
        SubsequenceOfAscending(a[1..], b[1..]);
        forall i | 0 < i < |a|
          ensures a[i] in b && a[0] <= a[i]
        {
          assert a[i] == a[1..][i - 1] && a[i] in b[1..];
          var k :| 0 <= k < |b[1..]| && b[1..][k] == a[i];
          assert b[k + 1] == a[i];
        }
      } else {
        SubsequenceOfAscending(a, b[1..]);
        assert forall i :: 0 <= i < |b[1..]| ==> b[1..][i] == b[i + 1];
      }
    }
  }

  lemma {:induction false} InsertAllMembers(ticks: seq<Tick>, more: seq<Tick>, t: Tick)
    requires t in InsertAll(ticks, more)
    ensures t in ticks || t in more
  {
    InsertAllMultiset(ticks, more);
    assert t in multiset(InsertAll(ticks, more));
  }

  lemma {:induction false} UpperBoundSplits(ticks: seq<Tick>, at: int)
    requires Sorted(ticks)
    ensures var u := UpperBound(ticks, at);
      && (forall i :: 0 <= i < u ==> ticks[i].at <= at)
      && (forall i :: u <= i < |ticks| ==> ticks[i].at > at)
    decreases |ticks|
  {
    if ticks != [] && ticks[0].at <= at {
      UpperBoundSplits(ticks[1..], at);
      assert forall i :: 1 <= i < |ticks| ==> ticks[i] == ticks[1..][i - 1];
    }
  }

  /**
   An Update whose callbacks add no timers fires at most once for each tick due when it starts, in
   non-decreasing order of their due times, even at interval zero; with intervals of at least 1 ms
   it leaves no tick due.
   */
  lemma QuietUpdate(actions: seq<Action>, now: int, script: seq<seq<Op>>) returns (f: seq<Fire>)
    requires AddsNothing(script)
    ensures var s := Run(actions); var t := Update(s, now, script);
      && t.fires == s.fires + f
      && |f| <= UpperBound(s.ticks, now)
      && Subsequence(Dues(f), Ats(s.ticks[..UpperBound(s.ticks, now)]))
      && (forall i :: 0 <= i < |f| ==> f[i].due <= now)
      && (forall i, j :: 0 <= i < j < |f| ==> f[i].due <= f[j].due)
      && ((forall key :: key in s.timers ==> s.timers[key].interval >= 1) ==>
            forall i :: 0 <= i < |t.ticks| ==> t.ticks[i].at > now)
  {
    var s := Run(actions);
    var u := UpperBound(s.ticks, now);
    RunSorted(actions);
    UpperBoundSplits(s.ticks, now);
    var start := s.(cursor := Some(0), deferred := []);
    var d: seq<Tick>;
    f, d := QuietLoop(start, now, script);
    DuesInOrder(f, s.ticks[..u], now);
    assert Loop(start, now, script).deferred == d;
    if forall key :: key in s.timers ==> s.timers[key].interval >= 1 {
      NoneDue(s.ticks[u..], d, now);
    }
  }

  lemma DuesInOrder(f: seq<Fire>, due: seq<Tick>, now: int)
    requires Sorted(due) && Subsequence(Dues(f), Ats(due))
    requires forall i :: 0 <= i < |due| ==> due[i].at <= now
    ensures |f| <= |due|
    ensures forall i :: 0 <= i < |f| ==> f[i].due <= now
    ensures forall i, j :: 0 <= i < j < |f| ==> f[i].due <= f[j].due
  {
    SubsequenceOfAscending(Dues(f), Ats(due));
    forall i | 0 <= i < |f|
      ensures f[i].due <= now
    {
      assert Dues(f)[i] in Ats(due);
    }
    assert forall i :: 0 <= i < |f| ==> Dues(f)[i] == f[i].due;
  }

  lemma NoneDue(ticks: seq<Tick>, more: seq<Tick>, now: int)
    requires forall i :: 0 <= i < |ticks| ==> ticks[i].at > now
    requires forall i :: 0 <= i < |more| ==> more[i].at > now
    ensures forall i :: 0 <= i < |InsertAll(ticks, more)| ==> InsertAll(ticks, more)[i].at > now
  {
    forall i | 0 <= i < |InsertAll(ticks, more)|
      ensures InsertAll(ticks, more)[i].at > now
    {
      InsertAllMembers(ticks, more, InsertAll(ticks, more)[i]);
    }
  }

  // ------------------------------------------------------------------------------------------
  // Iteration order
  // ------------------------------------------------------------------------------------------

  lemma InsertedSorted(ticks: seq<Tick>, t: Tick)
    requires Sorted(ticks)
    ensures Sorted(Inserted(ticks, t))
  {
    UpperBoundSplits(ticks, t.at);
  }

  lemma OpKeepsSorted(s: State, op: Op)
    requires Sorted(s.ticks)
    ensures Sorted(DoOp(s, op).ticks)
  {
    if op.Add? {
      InsertedSorted(s.ticks, Tick(op.key, op.clock + op.interval));
    }
  }

  lemma {:induction false} OpsKeepSorted(s: State, ops: seq<Op>)
    requires Sorted(s.ticks)
    ensures Sorted(DoOps(s, ops).ticks)
    decreases |ops|
  {
    if ops != [] {
      OpsKeepSorted(s, ops[..|ops| - 1]);
      OpKeepsSorted(DoOps(s, ops[..|ops| - 1]), ops[|ops| - 1]);
    }
  }

  lemma EraseKeepsSorted(s: State)
    requires Sorted(s.ticks) && OnTick(s)
    ensures Sorted(EraseTick(s).ticks)
  {
  }

  lemma FireKeepsSorted(s: State, now: int, ops: seq<Op>)
    requires Sorted(s.ticks) && OnTick(s) && s.ticks[s.cursor.value].key in s.timers
    ensures Sorted(FireTick(s, now, ops).ticks)
  {
    OpsKeepSorted(BeforeCallbacks(s, now), ops);
    EraseKeepsSorted(Called(s, now, ops));
  }

  lemma {:induction false} LoopKeepsSorted(s: State, now: int, script: seq<seq<Op>>)
    requires Sorted(s.ticks) && s.cursor.Some?
    ensures Sorted(Loop(s, now, script).ticks)
    decreases |s.ticks| - s.cursor.value + TotalOps(script)
  {
    if Due(s, now) {
      if s.ticks[s.cursor.value].key !in s.timers {
        EraseKeepsSorted(s);
        LoopKeepsSorted(EraseTick(s), now, script);
      } else {
        var ops := if script == [] then [] else script[0];
        OpsKeepCursor(BeforeCallbacks(s, now), ops);
        FireKeepsSorted(s, now, ops);
        LoopKeepsSorted(FireTick(s, now, ops), now, if script == [] then [] else script[1..]);
      }
    }
  }

  lemma {:induction false} InsertAllSorted(ticks: seq<Tick>, more: seq<Tick>)
    requires Sorted(ticks)
    ensures Sorted(InsertAll(ticks, more))
    decreases |more|
  {
    if more != [] {
      InsertAllSorted(ticks, more[..|more| - 1]);
      InsertedSorted(InsertAll(ticks, more[..|more| - 1]), more[|more| - 1]);
    }
  }

  lemma {:induction false} RunSorted(actions: seq<Action>)
    ensures Sorted(Run(actions).ticks)
    decreases |actions|
  {
    if actions != [] {
      var before, a := Run(actions[..|actions| - 1]), actions[|actions| - 1];
      RunSorted(actions[..|actions| - 1]);
      match a
      case Call(op) => OpKeepsSorted(before, op);
      case Frame(now, script) =>
        var start := before.(cursor := Some(0), deferred := []);
        LoopKeepsSorted(start, now, script);
        InsertAllSorted(Loop(start, now, script).ticks, Loop(start, now, script).deferred);
    }
  }

  // ------------------------------------------------------------------------------------------
  // Spacing, when nothing is removed
  // ------------------------------------------------------------------------------------------

  predicate RemovesNothing(script: seq<seq<Op>>) {
    forall i, j :: 0 <= i < |script| && 0 <= j < |script[i]| ==> script[i][j].Add?
  }

  function LastFire(fires: seq<Fire>, serial: nat): Option<Fire> {
    if fires == [] then None
    else if fires[|fires| - 1].serial == serial then Some(fires[|fires| - 1])
    else LastFire(fires[..|fires| - 1], serial)
  }

  /** The clock of the timer's latest fire, or of the call that added it. */
  function Since(created: seq<Created>, fires: seq<Fire>, serial: nat): int
    requires serial < |created|
  {
    var last := LastFire(fires, serial);
    if last.Some? then last.value.at else created[serial].clock
  }

  /** Each fire comes at least the timer's interval after its previous one, or after the timer was added. */
  predicate Spaced(created: seq<Created>, fires: seq<Fire>) {
    forall i :: 0 <= i < |fires| ==>
      var f := fires[i];
      f.serial < |created| && f.at >= Since(created, fires[..i], f.serial) + created[f.serial].interval
  }

  /** Every tick in `w` is the only one of its timer and due when the timer says. */
  ghost predicate OneTickEach(s: State, w: multiset<Tick>) {
    forall t :: t in w ==> w[t] == 1 && t.key in s.timers && t.at == s.timers[t.key].at
  }

  /** A live timer is due one interval after its last fire, or after it was added. */
  ghost predicate DueFromLast(s: State) {
    forall key :: key in s.timers ==>
      var t := s.timers[key];
      t.serial < |s.created| && t.at == Since(s.created, s.fires, t.serial) + t.interval
  }

  ghost predicate Exact(s: State, w: multiset<Tick>) {
    Counted(s) && OneTickEach(s, w) && DueFromLast(s) && Spaced(s.created, s.fires)
  }

  lemma LastFireGrows(fires: seq<Fire>, f: Fire)
    ensures forall serial :: LastFire(fires + [f], serial) == if f.serial == serial then Some(f) else LastFire(fires, serial)
  {
    assert (fires + [f])[..|fires|] == fires;
  }

  lemma {:induction false} NoLastFire(fires: seq<Fire>, serial: nat)
    requires Count(fires, serial) == 0
    ensures LastFire(fires, serial).None?
    decreases |fires|
  {
    if fires != [] {
      NoLastFire(fires[..|fires| - 1], serial);
    }
  }

  lemma SpacedGrows(created: seq<Created>, fires: seq<Fire>, f: Fire)
    requires Spaced(created, fires) && f.serial < |created|
    requires f.at >= Since(created, fires, f.serial) + created[f.serial].interval
    ensures Spaced(created, fires + [f])
  {
    var longer := fires + [f];
    forall i | 0 <= i < |longer|
      ensures longer[..i] == fires[..i]
    {
    }
  }

  lemma OpKeepsDueFromLast(s: State, op: Op)
    requires Counted(s) && DueFromLast(s)
    ensures DueFromLast(DoOp(s, op))
  {
    NoLastFire(s.fires, |s.created|);
  }

  lemma AddKeepsOneTick(s: State, w: multiset<Tick>, op: Op)
    requires OneTickEach(s, w) && op.Add?
    ensures OneTickEach(DoOp(s, op), w + Added(s, op))
  {
    if op.key !in s.timers {
      assert forall at :: Tick(op.key, at) !in w;
    }
  }

  /** Adding a timer in `w` unless it is a new timer's. */
  lemma AddKeepsExact(s: State, w: multiset<Tick>, op: Op)
    requires Exact(s, w) && op.Add?
    ensures Exact(DoOp(s, op), w + Added(s, op))
  {
    OpKeepsCounted(s, op);
    OpKeepsDueFromLast(s, op);
    AddKeepsOneTick(s, w, op);
    assert Spaced(DoOp(s, op).created, s.fires);
  }

  /** No tick in `w` belongs to a live timer `key`. */
  ghost predicate Idle(s: State, w: multiset<Tick>, key: Key) {
    key in s.timers ==> forall at :: Tick(key, at) !in w
  }

  lemma {:induction false} AddsKeepTimer(s: State, key: Key, ops: seq<Op>)
    requires key in s.timers && forall j :: 0 <= j < |ops| ==> ops[j].Add?
    ensures key in DoOps(s, ops).timers && DoOps(s, ops).timers[key] == s.timers[key]
    decreases |ops|
  {
    if ops != [] {
      AddsKeepTimer(s, key, ops[..|ops| - 1]);
    }
  }

  /** Callbacks that only add, while the tick `cur` is still in the multiset. */
  lemma {:induction false} AddsKeepExact(s: State, cur: Tick, ops: seq<Op>)
    requires cur in Waiting(s) && Exact(s, Waiting(s) - multiset{cur})
    requires forall j :: 0 <= j < |ops| ==> ops[j].Add?
    ensures var t := DoOps(s, ops);
      cur in Waiting(t) && Exact(t, Waiting(t) - multiset{cur}) && t.deferred == s.deferred
    decreases |ops|
  {
    if ops != [] {
      var before, op := DoOps(s, ops[..|ops| - 1]), ops[|ops| - 1];
      AddsKeepExact(s, cur, ops[..|ops| - 1]);
      AddKeepsExact(before, Waiting(before) - multiset{cur}, op);
      OpWaitingBut(before, cur, op);
    }
  }

  lemma {:induction false} AddsKeepIdle(s: State, cur: Tick, key: Key, ops: seq<Op>)
    requires cur in Waiting(s) && key in s.timers && Idle(s, Waiting(s) - multiset{cur}, key)
    requires forall j :: 0 <= j < |ops| ==> ops[j].Add?
    ensures var t := DoOps(s, ops);
      cur in Waiting(t) && Idle(t, Waiting(t) - multiset{cur}, key)
    decreases |ops|
  {
    if ops != [] {
      var before, op := DoOps(s, ops[..|ops| - 1]), ops[|ops| - 1];
      AddsKeepIdle(s, cur, key, ops[..|ops| - 1]);
      AddsKeepTimer(s, key, ops[..|ops| - 1]);
      OpWaitingBut(before, cur, op);
    }
  }

  lemma OpWaitingBut(s: State, cur: Tick, op: Op)
    requires cur in Waiting(s)
    ensures cur in Waiting(DoOp(s, op))
    ensures Waiting(DoOp(s, op)) - multiset{cur} == Waiting(s) - multiset{cur} + Added(s, op)
  {
    OpWaiting(s, op);
    SumMinus(Waiting(s), cur, Added(s, op));
  }

  lemma SumMinus(a: multiset<Tick>, cur: Tick, b: multiset<Tick>)
    requires cur in a
    ensures a + b - multiset{cur} == a - multiset{cur} + b
  {
  }

  lemma BeatKeepsExact(s: State, now: int)
    requires Exact(s, Waiting(s)) && Due(s, now) && s.ticks[s.cursor.value].key in s.timers
    ensures var cur := s.ticks[s.cursor.value]; var t := BeforeCallbacks(s, now);
      && Waiting(t) == Waiting(s) && cur in Waiting(t)
      && Exact(t, Waiting(t) - multiset{cur}) && Idle(t, Waiting(t) - multiset{cur}, cur.key)
  {
    var cur := s.ticks[s.cursor.value];
    var t := BeforeCallbacks(s, now);
    assert cur in Waiting(s);
    BeatKeepsSpaced(s, now);
    BeatKeepsCounted(s, now);
    assert forall at :: Tick(cur.key, at) in Waiting(s) ==> at == cur.at;
    assert (Waiting(t) - multiset{cur})[cur] == 0;
  }

  /** A fire sets its timer due one interval later. */
  lemma BeatKeepsDueFromLast(s: State, now: int)
    requires Counted(s) && DueFromLast(s) && OnTick(s) && s.ticks[s.cursor.value].key in s.timers
    ensures DueFromLast(BeforeCallbacks(s, now))
  {
    var cur := s.ticks[s.cursor.value];
    LastFireGrows(s.fires, Fire(s.timers[cur.key].serial, cur.at, s.timers[cur.key].at, now));
  }

  lemma BeatKeepsSpaced(s: State, now: int)
    requires Exact(s, Waiting(s)) && Due(s, now) && s.ticks[s.cursor.value].key in s.timers
    ensures var t := BeforeCallbacks(s, now);
      DueFromLast(t) && Spaced(t.created, t.fires)
  {
    var cur := s.ticks[s.cursor.value];
    var fire := Fire(s.timers[cur.key].serial, cur.at, s.timers[cur.key].at, now);
    assert cur in Waiting(s);
    BeatKeepsDueFromLast(s, now);
    SpacedGrows(s.created, s.fires, fire);
  }

  lemma FireKeepsExact(s: State, now: int, ops: seq<Op>)
    requires Exact(s, Waiting(s)) && Due(s, now) && s.ticks[s.cursor.value].key in s.timers
    requires forall j :: 0 <= j < |ops| ==> ops[j].Add?
    ensures Exact(FireTick(s, now, ops), Waiting(FireTick(s, now, ops)))
  {
    var cur := s.ticks[s.cursor.value];
    var beaten := Beat(s.timers[cur.key], now);
    var a := BeforeCallbacks(s, now);
    BeatKeepsExact(s, now);
    AddsKeepExact(a, cur, ops);
    if cur.key in a.timers {
      AddsKeepTimer(a, cur.key, ops);
      AddsKeepIdle(a, cur, cur.key, ops);
    }
    OpsKeepCursor(a, ops);
    RearmKeepsExact(DoOps(a, ops), cur, beaten);
  }

  lemma RearmKeepsExact(t: State, cur: Tick, beaten: Timer)
    requires OnTick(t) && t.ticks[t.cursor.value] == cur && Exact(t, Waiting(t) - multiset{cur})
    requires beaten.remain != 0 ==>
      cur.key in t.timers && t.timers[cur.key].at == beaten.at && Idle(t, Waiting(t) - multiset{cur}, cur.key)
    ensures var u := EraseTick(Rearm(t, cur.key, beaten));
      Exact(u, Waiting(u))
  {
    RearmWaiting(t, cur.key, beaten);
  }

  lemma ExactTick(s: State)
    requires OneTickEach(s, Waiting(s)) && OnTick(s)
    ensures s.ticks[s.cursor.value].key in s.timers
  {
    ErasedMultiset(s);
  }

  lemma {:induction false} LoopKeepsExact(s: State, now: int, script: seq<seq<Op>>)
    requires Exact(s, Waiting(s)) && s.cursor.Some? && RemovesNothing(script)
    ensures Exact(Loop(s, now, script), Waiting(Loop(s, now, script)))
    decreases |s.ticks| - s.cursor.value + TotalOps(script)
  {
    if Due(s, now) {
      ExactTick(s);
      var ops := if script == [] then [] else script[0];
      OpsKeepCursor(BeforeCallbacks(s, now), ops);
      FireKeepsExact(s, now, ops);
      LoopKeepsExact(FireTick(s, now, ops), now, if script == [] then [] else script[1..]);
    }
  }

  predicate RunRemovesNothing(actions: seq<Action>) {
    forall i :: 0 <= i < |actions| ==>
      match actions[i]
      case Call(op) => op.Add?
      case Frame(now, script) => RemovesNothing(script)
  }

  lemma {:induction false} RunKeepsExact(actions: seq<Action>)
    requires RunRemovesNothing(actions)
    ensures Exact(Run(actions), Waiting(Run(actions)))
    decreases |actions|
  {
    if actions != [] {
      var before, a := Run(actions[..|actions| - 1]), actions[|actions| - 1];
      RunKeepsExact(actions[..|actions| - 1]);
      match a
      case Call(op) =>
        AddKeepsExact(before, Waiting(before), op);
        OpWaiting(before, op);
      case Frame(now, script) =>
        var start := before.(cursor := Some(0), deferred := []);
        assert Waiting(start) == Waiting(before);
        LoopKeepsExact(start, now, script);
        var t := Loop(start, now, script);
        InsertAllMultiset(t.ticks, t.deferred);
        assert Waiting(Flush(t)) == Waiting(t);
    }
  }

  /**
   In a run that removes nothing, callbacks included, a timer's first fire comes at least its interval
   after it was added, consecutive fires are at least its interval apart, and no live timer has two ticks.
   */
  lemma FiresAreSpaced(actions: seq<Action>, i: nat)
    requires RunRemovesNothing(actions) && i < |Run(actions).fires|
    ensures var s := Run(actions); var f := s.fires[i];
      && f.serial < |s.created|
      && f.at >= Since(s.created, s.fires[..i], f.serial) + s.created[f.serial].interval
    ensures forall t :: t in Run(actions).ticks ==> multiset(Run(actions).ticks)[t] == 1
  {
    RunKeepsExact(actions);
    var s := Run(actions);
    assert forall t :: t in s.ticks ==> t in Waiting(s);
  }

  // ------------------------------------------------------------------------------------------
  // One Update whose callbacks make no calls
  // ------------------------------------------------------------------------------------------

  predicate MakesNoCalls(script: seq<seq<Op>>) {
    forall i :: 0 <= i < |script| ==> script[i] == []
  }

  /** How many of the first `n` ticks are of the timer `key`. */
  function TicksOf(ticks: seq<Tick>, key: Key, n: nat): nat
    requires n <= |ticks|
  {
    if n == 0 then 0 else TicksOf(ticks, key, n - 1) + if ticks[n - 1].key == key then 1 else 0
  }

  /** When its turn comes the tick's timer is there: it was, and its fires have not been used up before. */
  predicate Fires(s: State, i: nat)
    requires i < |s.ticks|
  {
    var key := s.ticks[i].key;
    key in s.timers && (s.timers[key].remain <= 0 || TicksOf(s.ticks, key, i) < s.timers[key].remain)
  }

  /** The timer that the tick fires, if it does, with the due time of the tick. */
  function Mark(s: State, i: nat): seq<(nat, int)>
    requires i < |s.ticks|
  {
    if Fires(s, i) then [(s.timers[s.ticks[i].key].serial, s.ticks[i].at)] else []
  }

  /** The same for the first `n` ticks. */
  function Firing(s: State, n: nat): seq<(nat, int)>
    requires n <= |s.ticks|
  {
    if n == 0 then [] else Firing(s, n - 1) + Mark(s, n - 1)
  }

  function Marks(fires: seq<Fire>): seq<(nat, int)> {
    seq(|fires|, i requires 0 <= i < |fires| => (fires[i].serial, fires[i].due))
  }

  lemma {:induction false} TicksOfRest(ticks: seq<Tick>, key: Key, n: nat)
    requires 0 < n <= |ticks|
    ensures TicksOf(ticks, key, n) == TicksOf(ticks[1..], key, n - 1) + if ticks[0].key == key then 1 else 0
    decreases n
  {
    if n > 1 {
      TicksOfRest(ticks, key, n - 1);
    }
  }

  /** The state behind the first tick, which is gone and has fired if its timer was there. */
  predicate Behind(s: State, t: State, now: int) {
    && s.ticks != [] && t.ticks == s.ticks[1..]
    && var key := s.ticks[0].key;
      if key !in s.timers then t.timers == s.timers
      else if s.timers[key].remain == 1 then t.timers == s.timers - {key}
      else t.timers == s.timers[key := Beat(s.timers[key], now)]
  }

  lemma MarkBehind(s: State, t: State, now: int, i: nat)
    requires Behind(s, t, now) && 0 < i < |s.ticks|
    ensures Mark(t, i - 1) == Mark(s, i)
  {
    TicksOfRest(s.ticks, s.ticks[i].key, i);
  }

  lemma {:induction false} FiringBehind(s: State, t: State, now: int, n: nat)
    requires Behind(s, t, now) && 0 < n <= |s.ticks|
    ensures Firing(s, n) == Mark(s, 0) + Firing(t, n - 1)
    decreases n
  {
    if n == 1 {
      assert [] + Mark(s, 0) == Mark(s, 0) == Mark(s, 0) + [];
    } else {
      FiringBehind(s, t, now, n - 1);
      MarkBehind(s, t, now, n - 1);
      var first, middle, last := Mark(s, 0), Firing(t, n - 2), Mark(s, n - 1);
      assert Firing(s, n) == first + middle + last && Firing(t, n - 1) == middle + last;
      Bytes.AppendAssociative(first, middle, last);
    }
  }

  lemma SilentFire(s: State, now: int)
    requires s.cursor == Some(0) && Due(s, now) && s.ticks[0].key in s.timers
    ensures var t := FireTick(s, now, []);
      && t.cursor == Some(0) && Behind(s, t, now)
      && t.fires == s.fires + [Fire(s.timers[s.ticks[0].key].serial, s.ticks[0].at, s.timers[s.ticks[0].key].at, now)]
  {
  }

  lemma MarksOfFirst(fire: Fire, more: seq<Fire>)
    ensures Marks([fire] + more) == [(fire.serial, fire.due)] + Marks(more)
  {
  }

  lemma SilentStale(s: State, now: int)
    requires s.cursor == Some(0) && Due(s, now) && s.ticks[0].key !in s.timers
    ensures Behind(s, EraseTick(s), now) && EraseTick(s).cursor == Some(0)
    ensures Firing(s, UpperBound(s.ticks, now)) == Firing(EraseTick(s), UpperBound(EraseTick(s).ticks, now))
  {
    var t := EraseTick(s);
    assert t.ticks == s.ticks[1..];
    DueTicks(s.ticks, now);
    FiringBehind(s, t, now, UpperBound(s.ticks, now));
    var firing := Firing(t, UpperBound(t.ticks, now));
    assert [] + firing == firing;
  }

  lemma SilentMore(s: State, now: int, f: seq<Fire>)
    requires s.cursor == Some(0) && Due(s, now) && s.ticks[0].key in s.timers
    requires Marks(f) == Firing(FireTick(s, now, []), UpperBound(FireTick(s, now, []).ticks, now))
    ensures var fire := Fire(s.timers[s.ticks[0].key].serial, s.ticks[0].at, s.timers[s.ticks[0].key].at, now);
      && FireTick(s, now, []).fires + f == s.fires + ([fire] + f)
      && Marks([fire] + f) == Firing(s, UpperBound(s.ticks, now))
  {
    var fire := Fire(s.timers[s.ticks[0].key].serial, s.ticks[0].at, s.timers[s.ticks[0].key].at, now);
    SilentFire(s, now);
    DueTicks(s.ticks, now);
    FiringBehind(s, FireTick(s, now, []), now, UpperBound(s.ticks, now));
    MarksOfFirst(fire, f);
    Bytes.AppendAssociative(s.fires, [fire], f);
  }

  lemma {:induction false} SilentLoop(s: State, now: int, script: seq<seq<Op>>) returns (f: seq<Fire>)
    requires s.cursor == Some(0) && MakesNoCalls(script)
    ensures Loop(s, now, script).fires == s.fires + f && Marks(f) == Firing(s, UpperBound(s.ticks, now))
    decreases |s.ticks| + TotalOps(script)
  {
    f := [];
    if Due(s, now) {
      if s.ticks[0].key !in s.timers {
        SilentStale(s, now);
        f := SilentLoop(EraseTick(s), now, script);
      } else {
        SilentFire(s, now);
        assert (if script == [] then [] else script[0]) == [];
        f := SilentLoop(FireTick(s, now, []), now, if script == [] then [] else script[1..]);
        SilentMore(s, now, f);
        f := [Fire(s.timers[s.ticks[0].key].serial, s.ticks[0].at, s.timers[s.ticks[0].key].at, now)] + f;
      }
    }
  }

  /**
   In any run, removals included, an Update whose callbacks make no calls fires exactly the due ticks whose
   timers are in the map and are not used up by the ticks before, in order, each on behalf of the timer
   that now has its key.
   */
  lemma SilentUpdate(actions: seq<Action>, now: int, script: seq<seq<Op>>) returns (f: seq<Fire>)
    requires MakesNoCalls(script)
    ensures var s := Run(actions); var t := Update(s, now, script);
      t.fires == s.fires + f && Marks(f) == Firing(s, UpperBound(s.ticks, now))
  {
    var s := Run(actions);
    var start := s.(cursor := Some(0), deferred := []);
    f := SilentLoop(start, now, script);
    SameFiring(s, start, UpperBound(s.ticks, now));
  }

  lemma {:induction false} SameFiring(s: State, t: State, n: nat)
    requires s.ticks == t.ticks && s.timers == t.timers && n <= |s.ticks|
    ensures Firing(s, n) == Firing(t, n)
    decreases n
  {
    if n > 0 {
      SameFiring(s, t, n - 1);
    }
  }

  lemma {:induction false} NoTicksOf(ticks: seq<Tick>, key: Key, n: nat)
    requires n <= |ticks| && forall j :: 0 <= j < n ==> ticks[j].key != key
    ensures TicksOf(ticks, key, n) == 0
    decreases n
  {
    if n > 0 {
      NoTicksOf(ticks, key, n - 1);
    }
  }

  lemma TwiceInTicks(ticks: seq<Tick>, i: nat, j: nat)
    requires i < j < |ticks| && ticks[i] == ticks[j]
    ensures multiset(ticks)[ticks[i]] >= 2
  {
    assert ticks == ticks[..j] + ticks[j..];
    assert ticks[i] in ticks[..j] && ticks[j] in ticks[j..];
  }

  /** In a run that removes nothing every tick fires its timer. */
  lemma ExactFires(s: State, i: nat)
    requires Exact(s, Waiting(s)) && s.deferred == [] && i < |s.ticks|
    ensures Fires(s, i) && s.ticks[i].at == s.timers[s.ticks[i].key].at
  {
    assert forall j :: 0 <= j < |s.ticks| ==> s.ticks[j] in Waiting(s);
    forall j | 0 <= j < i
      ensures s.ticks[j].key != s.ticks[i].key
    {
      if s.ticks[j].key == s.ticks[i].key {
        TwiceInTicks(s.ticks, j, i);
      }
    }
    NoTicksOf(s.ticks, s.ticks[i].key, i);
  }

  /** The fire is the tick's own timer's, at the time that timer was due. */
  predicate OwnFire(s: State, i: nat, fire: (nat, int))
    requires i < |s.ticks|
  {
    var tick := s.ticks[i];
    tick.key in s.timers && fire == (s.timers[tick.key].serial, s.timers[tick.key].at) && tick.at == fire.1
  }

  lemma {:induction false} AllFiring(s: State, n: nat)
    requires n <= |s.ticks|
    requires forall i :: 0 <= i < n ==> Fires(s, i) && s.ticks[i].at == s.timers[s.ticks[i].key].at
    ensures |Firing(s, n)| == n && forall i :: 0 <= i < n ==> OwnFire(s, i, Firing(s, n)[i])
    decreases n
  {
    if n > 0 {
      AllFiring(s, n - 1);
    }
  }

  lemma ExactFiring(s: State, n: nat)
    requires Exact(s, Waiting(s)) && s.deferred == [] && n <= |s.ticks|
    ensures |Firing(s, n)| == n && forall i :: 0 <= i < n ==> OwnFire(s, i, Firing(s, n)[i])
  {
    forall i | 0 <= i < n
      ensures Fires(s, i) && s.ticks[i].at == s.timers[s.ticks[i].key].at
    {
      ExactFires(s, i);
    }
    AllFiring(s, n);
  }

  /**
   In a run that removes nothing an Update whose callbacks make no calls fires every due tick once, in
   order: its own timer, at the time that timer was due.
   */
  lemma EveryDueTickFires(actions: seq<Action>, now: int, script: seq<seq<Op>>) returns (f: seq<Fire>)
    requires MakesNoCalls(script) && RunRemovesNothing(actions)
    ensures var s := Run(actions);
      && Update(s, now, script).fires == s.fires + f && |f| == UpperBound(s.ticks, now)
      && forall i :: 0 <= i < |f| ==> OwnFire(s, i, (f[i].serial, f[i].due))
  {
    var s := Run(actions);
    var u := UpperBound(s.ticks, now);
    RunKeepsExact(actions);
    f := SilentUpdate(actions, now, script);
    ExactFiring(s, u);
    assert |Marks(f)| == u;
    assert forall i :: 0 <= i < |f| ==> Marks(f)[i] == (f[i].serial, f[i].due);
  }

  /** So every live timer that is due and has something remaining fires. */
  lemma DueTimersFire(actions: seq<Action>, now: int, script: seq<seq<Op>>, key: Key) returns (f: seq<Fire>, i: nat)
    requires MakesNoCalls(script) && RunRemovesNothing(actions)
    requires key in Run(actions).timers && Run(actions).timers[key].remain != 0 && Run(actions).timers[key].at <= now
    ensures var s := Run(actions);
      && Update(s, now, script).fires == s.fires + f && i < |f|
      && f[i].serial == s.timers[key].serial && f[i].due == s.timers[key].at
  {
    var s := Run(actions);
    f := EveryDueTickFires(actions, now, script);
    LiveTimersAreArmed(actions, key);
    var at :| Tick(key, at) in s.ticks;
    i :| 0 <= i < |s.ticks| && s.ticks[i] == Tick(key, at);
    RunKeepsExact(actions);
    ExactFires(s, i);
    RunSorted(actions);
    UpperBoundSplits(s.ticks, now);
    assert OwnFire(s, i, (f[i].serial, f[i].due));
  }

  // ------------------------------------------------------------------------------------------
  // Spacing in general
  // ------------------------------------------------------------------------------------------

  /** At each fire its element was due one interval after the timer's previous fire, or after it was added. */
  ghost predicate Matched(created: seq<Created>, fires: seq<Fire>) {
    forall i :: 0 <= i < |fires| ==>
      var f := fires[i];
      f.serial < |created| && f.armed == Since(created, fires[..i], f.serial) + created[f.serial].interval
  }

  ghost predicate Traced(s: State) {
    Counted(s) && DueFromLast(s) && Matched(s.created, s.fires)
  }

  lemma MatchedGrows(created: seq<Created>, fires: seq<Fire>, f: Fire)
    requires Matched(created, fires) && f.serial < |created|
    requires f.armed == Since(created, fires, f.serial) + created[f.serial].interval
    ensures Matched(created, fires + [f])
  {
    var longer := fires + [f];
    forall i | 0 <= i < |longer|
      ensures longer[..i] == fires[..i]
    {
    }
  }

  lemma OpKeepsTraced(s: State, op: Op)
    requires Traced(s)
    ensures Traced(DoOp(s, op))
  {
    OpKeepsCounted(s, op);
    OpKeepsDueFromLast(s, op);
  }

  lemma {:induction false} OpsKeepTraced(s: State, ops: seq<Op>)
    requires Traced(s)
    ensures Traced(DoOps(s, ops))
    decreases |ops|
  {
    if ops != [] {
      OpsKeepTraced(s, ops[..|ops| - 1]);
      OpKeepsTraced(DoOps(s, ops[..|ops| - 1]), ops[|ops| - 1]);
    }
  }

  lemma BeatKeepsTraced(s: State, now: int)
    requires Traced(s) && OnTick(s) && s.ticks[s.cursor.value].key in s.timers
    ensures Traced(BeforeCallbacks(s, now))
  {
    var cur := s.ticks[s.cursor.value];
    BeatKeepsCounted(s, now);
    BeatKeepsDueFromLast(s, now);
    MatchedGrows(s.created, s.fires, Fire(s.timers[cur.key].serial, cur.at, s.timers[cur.key].at, now));
  }

  lemma {:induction false} LoopKeepsTraced(s: State, now: int, script: seq<seq<Op>>)
    requires Traced(s) && s.cursor.Some?
    ensures Traced(Loop(s, now, script))
    decreases |s.ticks| - s.cursor.value + TotalOps(script)
  {
    if Due(s, now) {
      if s.ticks[s.cursor.value].key !in s.timers {
        LoopKeepsTraced(EraseTick(s), now, script);
      } else {
        var ops := if script == [] then [] else script[0];
        OpsKeepCursor(BeforeCallbacks(s, now), ops);
        BeatKeepsTraced(s, now);
        OpsKeepTraced(BeforeCallbacks(s, now), ops);
        LoopKeepsTraced(FireTick(s, now, ops), now, if script == [] then [] else script[1..]);
      }
    }
  }

  lemma {:induction false} RunKeepsTraced(actions: seq<Action>)
    ensures Traced(Run(actions))
    decreases |actions|
  {
    if actions != [] {
      var before, a := Run(actions[..|actions| - 1]), actions[|actions| - 1];
      RunKeepsTraced(actions[..|actions| - 1]);
      match a
      case Call(op) => OpKeepsTraced(before, op);
      case Frame(now, script) => LoopKeepsTraced(before.(cursor := Some(0), deferred := []), now, script);
    }
  }

  /**
   In any run, removals included, a fire comes at least an interval after its timer's previous fire, or
   after the timer was added, if and only if the clock has reached the element's own trigger time, which
   Update does not compare.
   */
  lemma FireIsSpacedIff(actions: seq<Action>, i: nat)
    requires i < |Run(actions).fires|
    ensures var s := Run(actions); var f := s.fires[i];
      && f.serial < |s.created|
      && (f.at >= Since(s.created, s.fires[..i], f.serial) + s.created[f.serial].interval <==> f.at >= f.armed)
  {
    RunKeepsTraced(actions);
  }

  lemma RunOneMore(actions: seq<Action>, a: Action)
    ensures Run(actions + [a]) == Step(Run(actions), a)
  {
    assert (actions + [a])[..|actions|] == actions;
  }

  /**
   With removals it can be false: a timer of interval 100 that is removed and added again at once
   inherits the old tick, and fires at 100 and again at 150.
   */
  lemma RemovalLeavesStaleTick(k: Key)
    ensures
      var calls := [Call(Add(k, 100, -1, 0)), Call(Remove(k)), Call(Add(k, 100, -1, 50))];
      var s := Run(calls + [Frame(100, []), Frame(150, [])]);
      s.fires == [Fire(1, 100, 150, 100), Fire(1, 150, 200, 150)] && |s.created| == 2 && s.created[1].interval == 100
  {
    var a0, a1, a2 := Call(Add(k, 100, -1, 0)), Call(Remove(k)), Call(Add(k, 100, -1, 50));
    var f0, f1 := Frame(100, []), Frame(150, []);
    RunOneMore([a0, a1, a2], f0);
    RunOneMore([a0, a1, a2, f0], f1);
    assert [a0, a1, a2] + [f0] == [a0, a1, a2, f0] && [a0, a1, a2, f0] + [f1] == [a0, a1, a2] + [f0, f1];
    StaleCalls(k);
    StaleSetup(k);
    StaleFirst(Run([a0, a1, a2]), k);
  }

  lemma StaleCalls(k: Key)
    ensures Run([Call(Add(k, 100, -1, 0)), Call(Remove(k)), Call(Add(k, 100, -1, 50))]) ==
      DoOp(DoOp(DoOp(INIT, Add(k, 100, -1, 0)), Remove(k)), Add(k, 100, -1, 50))
  {
    var a0, a1, a2 := Call(Add(k, 100, -1, 0)), Call(Remove(k)), Call(Add(k, 100, -1, 50));
    RunOneMore([], a0);
    RunOneMore([a0], a1);
    RunOneMore([a0, a1], a2);
    assert [] + [a0] == [a0] && [a0] + [a1] == [a0, a1] && [a0, a1] + [a2] == [a0, a1, a2];
  }

  lemma StaleSetup(k: Key)
    ensures var a := DoOp(DoOp(DoOp(INIT, Add(k, 100, -1, 0)), Remove(k)), Add(k, 100, -1, 50));
      && a.timers == map[k := Timer(100, 150, -1, 1)] && a.ticks == [Tick(k, 100), Tick(k, 150)]
      && a.fires == [] && a.deferred == [] && a.created == [Created(k, 100, -1, 0), Created(k, 100, -1, 50)]
  {
    var b := DoOp(INIT, Add(k, 100, -1, 0));
    assert Inserted([], Tick(k, 100)) == [Tick(k, 100)];
    assert b.ticks == [Tick(k, 100)] && b.timers == map[k := Timer(100, 100, -1, 0)];
    var c := DoOp(b, Remove(k));
    assert c.timers == map[] && c.ticks == [Tick(k, 100)];
    assert UpperBound([Tick(k, 100)], 150) == 1;
    assert Inserted([Tick(k, 100)], Tick(k, 150)) == [Tick(k, 100), Tick(k, 150)];
  }

  lemma StaleFirst(a: State, k: Key)
    requires a.timers == map[k := Timer(100, 150, -1, 1)] && a.ticks == [Tick(k, 100), Tick(k, 150)]
    requires a.fires == [] && a.deferred == []
    ensures var c := Update(Update(a, 100, []), 150, []);
      c.fires == [Fire(1, 100, 150, 100), Fire(1, 150, 200, 150)] && c.created == a.created
  {
    var s := a.(cursor := Some(0));
    var t := FireTick(s, 100, []);
    assert t == s.(timers := map[k := Timer(100, 200, -1, 1)], ticks := [Tick(k, 150)],
                   deferred := [Tick(k, 200)], fires := [Fire(1, 100, 150, 100)]);
    assert !Due(t, 100) && Loop(s, 100, []) == t;
    var b := Update(a, 100, []);
    assert InsertAll([Tick(k, 150)], [Tick(k, 200)]) == [Tick(k, 150), Tick(k, 200)] by {
      assert InsertAll([Tick(k, 150)], []) == [Tick(k, 150)];
    }
    assert b == t.(ticks := [Tick(k, 150), Tick(k, 200)], cursor := None, deferred := []);
    var u := b.(cursor := Some(0));
    var v := FireTick(u, 150, []);
    assert v.ticks == [Tick(k, 200)] && v.fires == [Fire(1, 100, 150, 100), Fire(1, 150, 200, 150)] && v.cursor == Some(0);
    assert !Due(v, 150) && Loop(u, 150, []) == v;
  }
}
