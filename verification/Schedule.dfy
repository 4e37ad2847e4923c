/**
 ScheduleModule and ScheduleElement (src/plugin/core/utils/schedule_module.cc) updated in place. The
 nested map from owner to name to element is one map keyed by both, beside the owners it knows.
 */
module Schedule {
  import opened Timers
  import opened Wrappers

  class ScheduleElement {
    const key: Key
    const interval: int
    const serial: nat
    var triggerTime: int
    var remainCount: int

    constructor (key: Key, interval: int, serial: nat, triggerTime: int, remainCount: int)
      ensures this.key == key && View() == Timer(interval, triggerTime, remainCount, serial)
    {
      this.key, this.interval, this.serial := key, interval, serial;
      this.triggerTime, this.remainCount := triggerTime, remainCount;
    }

    function View(): Timer
      reads this
    {
      Timer(interval, triggerTime, remainCount, serial)
    }

    /** DoHeartBeatEvent up to the callbacks. */
    method DoHeartBeatEvent(now: int)
      modifies this
      ensures View() == Beat(old(View()), now)
    {
      if remainCount > 0 {
        remainCount := remainCount - 1;
      }
      triggerTime := now + interval;
    }
  }

  class ScheduleModule {
    var elements: map<Key, ScheduleElement>
    var owners: set<int>
    var ticks: seq<Tick>
    /** The iterator of a running Update. */
    var cursor: Option<nat>
    var deferred: seq<Tick>
    /** What timers were created with and what fired, in order. */
    var created: seq<Created>
    var fires: seq<Fire>

    /** Every element is filed under its own key, so none is filed twice. */
    ghost predicate Valid()
      reads this
    {
      forall key :: key in elements ==> elements[key].key == key
    }

    ghost function LiveTimers(): map<Key, Timer>
      reads `elements, elements.Values
    {
      map key | key in elements :: elements[key].View()
    }

    ghost function Abs(): State
      reads this, elements.Values
    {
      State(LiveTimers(), owners, ticks, cursor, deferred, created, fires)
    }

    constructor ()
      ensures Valid() && elements == map[] && Abs() == INIT
    {
      elements, owners, ticks, cursor, deferred, created, fires := map[], {}, [], None, [], [], [];
    }

    method InsertInOrder(t: Tick)
      modifies `ticks, `cursor
      ensures Abs() == InsertTick(old(Abs()), t)
    {
      var u := 0;
      while u < |ticks| && ticks[u].at <= t.at
        invariant u <= |ticks| && UpperBound(ticks, t.at) == u + UpperBound(ticks[u..], t.at)
      {
        assert ticks[u..][1..] == ticks[u + 1..];
        u := u + 1;
      }
      assert UpperBound(ticks[u..], t.at) == 0;
      ticks := ticks[..u] + [t] + ticks[u..];
      if cursor.Some? && u <= cursor.value {
        cursor := Some(cursor.value + 1);
      }
    }

    method NewElement(key: Key, interval: int, count: int, clock: int)
      requires Valid() && key !in elements
      modifies `elements, `created
      ensures Valid() && fresh(elements.Values - old(elements.Values))
      ensures var timer := Timer(interval, clock + interval, count, |old(created)|);
        Abs() == old(Abs()).(timers := old(Abs()).timers[key := timer],
                             created := old(created) + [Created(key, interval, count, clock)])
    {
      ghost var before := LiveTimers();
      var element := new ScheduleElement(key, interval, |created|, clock + interval, count);
      elements := elements[key := element];
      assert LiveTimers() == before[key := element.View()];
      created := created + [Created(key, interval, count, clock)];
    }

    method AddSchedule(key: Key, interval: int, count: int, clock: int)
      requires Valid()
      modifies this
      ensures Valid() && fresh(elements.Values - old(elements.Values))
      ensures Abs() == DoOp(old(Abs()), Add(key, interval, count, clock))
    {
      owners := owners + {key.owner};
      if key !in elements {
        NewElement(key, interval, count, clock);
        InsertInOrder(Tick(key, clock + interval));
      }
    }

    method RemoveSchedule(key: Key) returns (removed: bool)
      requires Valid()
      modifies `elements
      ensures Valid() && elements == old(elements) - {key}
      ensures removed == (key in old(elements))
      ensures Abs() == DoOp(old(Abs()), Remove(key))
    {
      removed := key in elements;
      ghost var before := LiveTimers();
      elements := elements - {key};
      assert LiveTimers() == before - {key};
    }

    method RemoveOwner(owner: int) returns (removed: bool)
      requires Valid()
      modifies `elements, `owners
      ensures Valid() && removed == (owner in old(owners))
      ensures elements.Values <= old(elements.Values)
      ensures Abs() == DoOp(old(Abs()), RemoveAll(owner))
    {
      removed := owner in owners;
      owners := owners - {owner};
      elements := map key | key in elements && key.owner != owner :: elements[key];
    }

    /** The scheduler calls one round of callbacks makes. */
    method MakeCalls(ops: seq<Op>)
      requires Valid()
      modifies this
      ensures Valid() && fresh(elements.Values - old(elements.Values))
      ensures Abs() == DoOps(old(Abs()), ops)
    {
      ghost var s := Abs();
      for i := 0 to |ops|
        invariant Valid() && fresh(elements.Values - old(elements.Values))
        invariant Abs() == DoOps(s, ops[..i])
      {
        assert ops[..i + 1][..i] == ops[..i];
        match ops[i]
        case Add(key, interval, count, clock) => AddSchedule(key, interval, count, clock);
        case Remove(key) => var removed := RemoveSchedule(key);
        case RemoveAll(owner) => var removed := RemoveOwner(owner);
      }
      assert ops[..|ops|] == ops;
    }

    /** The tick under the iterator reaches its live element; a last fire takes it out of the map. */
    method StartFire(element: ScheduleElement, now: int)
      requires Valid() && OnTick(Abs()) && ticks[cursor.value].key in elements
      requires element == elements[ticks[cursor.value].key]
      modifies this, element
      ensures Valid() && elements.Values <= old(elements.Values)
      ensures Abs() == BeforeCallbacks(old(Abs()), now) && element.View() == Beat(old(element.View()), now)
    {
      ghost var s := Abs();
      var tick := ticks[cursor.value];
      assert s.timers[tick.key] == element.View();
      if element.remainCount == 1 {
        elements := elements - {tick.key};
      }
      fires := fires + [Fire(element.serial, tick.at, element.triggerTime, now)];
      element.DoHeartBeatEvent(now);
    }

    /** A live element fires: its callbacks run, and unless that was its last fire it is re-armed. */
    method FireElement(now: int, ops: seq<Op>)
      requires Valid() && OnTick(Abs()) && ticks[cursor.value].key in elements
      modifies this, elements.Values
      ensures Valid() && fresh(elements.Values - old(elements.Values))
      ensures Abs() == Called(old(Abs()), now, ops)
    {
      ghost var s := Abs();
      var tick := ticks[cursor.value];
      var element := elements[tick.key];
      assert s.timers[tick.key] == element.View();
      StartFire(element, now);
      ghost var beaten := element.View();
      MakeCalls(ops);
      assert element.View() == beaten;
      Rearm(tick.key, element);
    }

    /** Unless that was its last fire the element gets its next tick, behind the loop. */
    method Rearm(key: Key, element: ScheduleElement)
      modifies `deferred
      ensures Abs() == Timers.Rearm(old(Abs()), key, element.View())
    {
      if element.remainCount != 0 {
        deferred := deferred + [Tick(key, element.triggerTime)];
      }
    }

    /** One due tick: fire its element, if it is alive, and step over the tick. */
    method TakeTick(now: int, ops: seq<Op>) returns (fired: bool)
      requires Valid() && OnTick(Abs())
      modifies this, elements.Values
      ensures Valid() && fresh(elements.Values - old(elements.Values))
      ensures fired == (old(ticks[cursor.value].key) in old(elements))
      ensures Abs() == if fired then FireTick(old(Abs()), now, ops) else EraseTick(old(Abs()))
    {
      fired := ticks[cursor.value].key in elements;
      if fired {
        FireElement(now, ops);
      }
      assert OnTick(Abs());
      ticks := ticks[..cursor.value] + ticks[cursor.value + 1..];
    }

    /** One turn of the loop of Update, with the calls of the fires to come. */
    method Turn(now: int, left: seq<seq<Op>>) returns (rest: seq<seq<Op>>)
      requires Valid() && Due(Abs(), now)
      modifies this, elements.Values
      ensures Valid() && cursor.Some? && fresh(elements.Values - old(elements.Values))
      ensures Loop(Abs(), now, rest) == Loop(old(Abs()), now, left)
      ensures |ticks| - cursor.value + TotalOps(rest) < old(|ticks| - cursor.value) + TotalOps(left)
    {
      ghost var s := Abs();
      var ops := if left == [] then [] else left[0];
      if s.ticks[s.cursor.value].key in s.timers {
        OpsKeepCursor(BeforeCallbacks(s, now), ops);
      }
      var fired := TakeTick(now, ops);
      rest := if fired && left != [] then left[1..] else left;
    }

    /** Update at a clock; the callbacks of its k-th fire make the calls script[k]. */
    method Update(now: int, script: seq<seq<Op>>)
      requires Valid() && cursor.None? && deferred == []
      modifies this, elements.Values
      ensures Valid() && fresh(elements.Values - old(elements.Values))
      ensures Abs() == Timers.Update(old(Abs()), now, script)
    {
      ghost var start := Abs().(cursor := Some(0), deferred := []);
      deferred := [];
      cursor := Some(0);
      var left := script;
      while cursor.value < |ticks| && now >= ticks[cursor.value].at
        invariant Valid() && cursor.Some? && fresh(elements.Values - old(elements.Values))
        invariant Loop(Abs(), now, left) == Loop(start, now, script)
        decreases |ticks| - cursor.value + TotalOps(left)
      {
        left := Turn(now, left);
      }
      FlushDeferred();
    }

    /** The re-armed ticks go into the multiset. */
    method FlushDeferred()
      modifies `ticks, `cursor, `deferred
      ensures Abs() == Flush(old(Abs()))
    {
      ghost var s := Abs();
      cursor := None;
      for i := 0 to |deferred|
        invariant Abs() == s.(cursor := None, ticks := InsertAll(s.ticks, s.deferred[..i]))
      {
        assert deferred[..i + 1][..i] == deferred[..i];
        InsertInOrder(deferred[i]);
      }
      assert deferred[..|deferred|] == deferred;
      deferred := [];
    }
  }
}
