/**
 What the calls of callbacks do: an Update of Timers replayed on the bare map of timers, with no ticks,
 no iterator and no list of re-armed ones, only its fires and the calls each of them makes.
 */
module TimerCalls {
  import opened Timers
  import opened Wrappers

  /** The live timers by serial, the owners known, and what all timers were created with. */
  datatype Book = Book(live: map<Key, nat>, owners: set<int>, created: seq<Created>)

  function BookOf(s: State): Book {
    Book(map key | key in s.timers :: s.timers[key].serial, s.owners, s.created)
  }

  /** AddSchedule of a key that is not live makes a timer; the removals take timers away. */
  function WithCall(b: Book, op: Op): Book {
    match op
    case Add(key, interval, count, clock) =>
      if key in b.live then b.(owners := b.owners + {key.owner})
      else Book(b.live[key := |b.created|], b.owners + {key.owner}, b.created + [Created(key, interval, count, clock)])
    case Remove(key) => b.(live := b.live - {key})
    case RemoveAll(owner) =>
      b.(live := map key | key in b.live && key.owner != owner :: b.live[key], owners := b.owners - {owner})
  }

  function WithCalls(b: Book, ops: seq<Op>): Book
    decreases |ops|
  {
    if ops == [] then b else WithCall(WithCalls(b, ops[..|ops| - 1]), ops[|ops| - 1])
  }

  /** The fire, after those before it, is the last that its timer was created for. */
  predicate IsLast(created: seq<Created>, before: seq<Fire>, fire: Fire)
    requires fire.serial < |created|
  {
    created[fire.serial].count > 0 && Count(before + [fire], fire.serial) == created[fire.serial].count
  }

  /** A timer fires when it is live, and its last fire takes it away. */
  predicate CanFire(b: Book, fire: Fire) {
    fire.serial < |b.created| &&
    var key := b.created[fire.serial].key;
    key in b.live && b.live[key] == fire.serial
  }

  function WithFire(b: Book, before: seq<Fire>, fire: Fire): Book
    requires fire.serial < |b.created|
  {
    if IsLast(b.created, before, fire) then b.(live := b.live - {b.created[fire.serial].key}) else b
  }

  function Head(script: seq<seq<Op>>): seq<Op> {
    if script == [] then [] else script[0]
  }

  function Tail(script: seq<seq<Op>>): seq<seq<Op>> {
    if script == [] then [] else script[1..]
  }

  /**
   The fires `f`, after those before, lead from `b` to `c`: each is of a live timer, which it takes away
   if it is its last, and then the calls of its callbacks are made.
   */
  ghost predicate Plays(b: Book, before: seq<Fire>, f: seq<Fire>, script: seq<seq<Op>>, c: Book)
    decreases |f|
  {
    if f == [] then b == c
    else
      && CanFire(b, f[0])
      && Plays(WithCalls(WithFire(b, before, f[0]), Head(script)), before + [f[0]], f[1..], Tail(script), c)
  }

  // ------------------------------------------------------------------------------------------
  // Every Update is such a play
  // ------------------------------------------------------------------------------------------

  lemma OpInBook(s: State, op: Op)
    ensures BookOf(DoOp(s, op)) == WithCall(BookOf(s), op)
  {
  }

  lemma {:induction false} OpsInBook(s: State, ops: seq<Op>)
    ensures BookOf(DoOps(s, ops)) == WithCalls(BookOf(s), ops)
    decreases |ops|
  {
    if ops != [] {
      OpsInBook(s, ops[..|ops| - 1]);
      OpInBook(DoOps(s, ops[..|ops| - 1]), ops[|ops| - 1]);
    }
  }

  function FireOf(s: State, now: int): Fire
    requires OnTick(s) && s.ticks[s.cursor.value].key in s.timers
  {
    var tick := s.ticks[s.cursor.value];
    Fire(s.timers[tick.key].serial, tick.at, s.timers[tick.key].at, now)
  }

  lemma BeatInBook(s: State, now: int)
    requires Counted(s) && OnTick(s) && s.ticks[s.cursor.value].key in s.timers
    ensures CanFire(BookOf(s), FireOf(s, now))
    ensures BookOf(BeforeCallbacks(s, now)) == WithFire(BookOf(s), s.fires, FireOf(s, now))
  {
    var fire := FireOf(s, now);
    CountGrows(s.fires, fire);
    assert IsLast(s.created, s.fires, fire) <==> s.timers[s.ticks[s.cursor.value].key].remain == 1;
  }

  lemma FireInBook(s: State, now: int, ops: seq<Op>)
    requires Inv(s) && OnTick(s) && s.ticks[s.cursor.value].key in s.timers
    ensures CanFire(BookOf(s), FireOf(s, now)) && Inv(FireTick(s, now, ops))
    ensures BookOf(FireTick(s, now, ops)) == WithCalls(WithFire(BookOf(s), s.fires, FireOf(s, now)), ops)
    ensures FireTick(s, now, ops).fires == s.fires + [FireOf(s, now)]
  {
    var a := BeforeCallbacks(s, now);
    BeatInBook(s, now);
    OpsInBook(a, ops);
    FireKeepsInv(s, now, ops);
    OpsKeepFires(a, ops);
  }

  lemma {:induction false} OpsKeepFires(s: State, ops: seq<Op>)
    ensures DoOps(s, ops).fires == s.fires
    decreases |ops|
  {
    if ops != [] {
      OpsKeepFires(s, ops[..|ops| - 1]);
    }
  }

  lemma PlaysOn(b: Book, before: seq<Fire>, fire: Fire, f: seq<Fire>, script: seq<seq<Op>>, c: Book)
    requires CanFire(b, fire)
    requires Plays(WithCalls(WithFire(b, before, fire), Head(script)), before + [fire], f, Tail(script), c)
    ensures Plays(b, before, [fire] + f, script, c) && before + [fire] + f == before + ([fire] + f)
  {
    assert ([fire] + f)[1..] == f;
  }

  lemma {:induction false} LoopPlays(s: State, now: int, script: seq<seq<Op>>) returns (f: seq<Fire>)
    requires Inv(s) && s.cursor.Some?
    ensures Loop(s, now, script).fires == s.fires + f
    ensures Plays(BookOf(s), s.fires, f, script, BookOf(Loop(s, now, script)))
    decreases |s.ticks| - s.cursor.value + TotalOps(script)
  {
    f := [];
    if Due(s, now) {
      if s.ticks[s.cursor.value].key !in s.timers {
        StaleKeepsInv(s);
        f := LoopPlays(EraseTick(s), now, script);
      } else {
        OpsKeepCursor(BeforeCallbacks(s, now), Head(script));
        FireInBook(s, now, Head(script));
        f := LoopPlays(FireTick(s, now, Head(script)), now, Tail(script));
        PlaysOn(BookOf(s), s.fires, FireOf(s, now), f, script, BookOf(Loop(s, now, script)));
        f := [FireOf(s, now)] + f;
      }
    }
  }

  lemma UpdateIsLoop(s: State, now: int, script: seq<seq<Op>>) returns (f: seq<Fire>)
    requires Inv(s) && s.deferred == []
    ensures Update(s, now, script).fires == s.fires + f
    ensures Plays(BookOf(s), s.fires, f, script, BookOf(Update(s, now, script)))
  {
    var start := s.(cursor := Some(0), deferred := []);
    assert BookOf(start) == BookOf(s) && Waiting(start) == Waiting(s);
    f := LoopPlays(start, now, script);
    assert BookOf(Update(s, now, script)) == BookOf(Loop(start, now, script));
  }

  /** The fires of an Update, those before it cut off. */
  function NewFires(s: State, now: int, script: seq<seq<Op>>): seq<Fire> {
    var fires := Update(s, now, script).fires;
    if |s.fires| <= |fires| then fires[|s.fires|..] else []
  }

  /**
   In every run, whatever the callbacks call, an Update leaves in the map, and creates, exactly what its
   fires and the calls of their callbacks do when they are played one after the other.
   */
  lemma UpdatePlays(actions: seq<Action>, now: int, script: seq<seq<Op>>)
    ensures var s := Run(actions); var t := Update(s, now, script);
      && t.fires == s.fires + NewFires(s, now, script)
      && Plays(BookOf(s), s.fires, NewFires(s, now, script), script, BookOf(t))
  {
    RunKeepsInv(actions);
    var f := UpdateIsLoop(Run(actions), now, script);
    assert (Run(actions).fires + f)[|Run(actions).fires|..] == f;
  }

  lemma {:induction false} LoopFiresNow(s: State, now: int, script: seq<seq<Op>>)
    requires s.cursor.Some?
    ensures var fires := Loop(s, now, script).fires;
      && |s.fires| <= |fires|
      && forall m :: |s.fires| <= m < |fires| ==> fires[m].due <= now == fires[m].at
    decreases |s.ticks| - s.cursor.value + TotalOps(script)
  {
    if Due(s, now) {
      if s.ticks[s.cursor.value].key !in s.timers {
        LoopFiresNow(EraseTick(s), now, script);
      } else {
        OpsKeepCursor(BeforeCallbacks(s, now), Head(script));
        OpsKeepFires(BeforeCallbacks(s, now), Head(script));
        assert FireTick(s, now, Head(script)).fires == s.fires + [FireOf(s, now)];
        LoopFiresNow(FireTick(s, now, Head(script)), now, Tail(script));
        LoopKeepsFires(FireTick(s, now, Head(script)), now, Tail(script));
      }
    }
  }

  lemma {:induction false} LoopKeepsFires(s: State, now: int, script: seq<seq<Op>>)
    requires s.cursor.Some?
    ensures s.fires <= Loop(s, now, script).fires
    decreases |s.ticks| - s.cursor.value + TotalOps(script)
  {
    if Due(s, now) {
      if s.ticks[s.cursor.value].key !in s.timers {
        LoopKeepsFires(EraseTick(s), now, script);
      } else {
        OpsKeepCursor(BeforeCallbacks(s, now), Head(script));
        OpsKeepFires(BeforeCallbacks(s, now), Head(script));
        LoopKeepsFires(FireTick(s, now, Head(script)), now, Tail(script));
      }
    }
  }

  /** All fires of an Update are of due ticks, at its clock. */
  lemma FiresAreNow(s: State, now: int, script: seq<seq<Op>>)
    ensures forall f :: f in NewFires(s, now, script) ==> f.due <= now == f.at
  {
    LoopFiresNow(s.(cursor := Some(0), deferred := []), now, script);
  }

  // ------------------------------------------------------------------------------------------
  // What that means for one call
  // ------------------------------------------------------------------------------------------

  predicate Adds(op: Op, key: Key) {
    op.Add? && op.key == key
  }

  predicate Removes(op: Op, key: Key) {
    op == Remove(key) || op == RemoveAll(key.owner)
  }

  /** A call adds or removes the timers of the keys it names and leaves all others alone. */
  lemma CallTakesEffect(s: State, op: Op, key: Key)
    ensures var t := DoOp(s, op);
      if Adds(op, key) && key !in s.timers then
        key in t.timers && t.timers[key] == Timer(op.interval, op.clock + op.interval, op.count, |s.created|)
      else if Removes(op, key) then key !in t.timers
      else (key in t.timers <==> key in s.timers) && (key in s.timers ==> t.timers[key] == s.timers[key])
  {
  }

  ghost predicate NoneAdds(ops: seq<Op>, key: Key) {
    forall i :: 0 <= i < |ops| ==> !Adds(ops[i], key)
  }

  ghost predicate NoneRemoves(ops: seq<Op>, key: Key) {
    forall i :: 0 <= i < |ops| ==> !Removes(ops[i], key)
  }

  /** No call of the script from its list `k` on, and from the call `i` on in that list, is of the kind. */
  ghost predicate NoneAddsFrom(script: seq<seq<Op>>, k: nat, i: nat, key: Key) {
    && (k < |script| && i <= |script[k]| ==> NoneAdds(script[k][i..], key))
    && forall m :: k < m < |script| ==> NoneAdds(script[m], key)
  }

  ghost predicate NoneRemovesFrom(script: seq<seq<Op>>, k: nat, i: nat, key: Key) {
    && (k < |script| && i <= |script[k]| ==> NoneRemoves(script[k][i..], key))
    && forall m :: k < m < |script| ==> NoneRemoves(script[m], key)
  }

  lemma {:induction false} CallsCreateMore(b: Book, ops: seq<Op>)
    ensures b.created <= WithCalls(b, ops).created
    decreases |ops|
  {
    if ops != [] {
      CallsCreateMore(b, ops[..|ops| - 1]);
    }
  }

  lemma {:induction false} PlaysCreateMore(b: Book, before: seq<Fire>, f: seq<Fire>, script: seq<seq<Op>>, c: Book)
    requires Plays(b, before, f, script, c)
    ensures b.created <= c.created
    decreases |f|
  {
    if f != [] {
      var d := WithCalls(WithFire(b, before, f[0]), Head(script));
      CallsCreateMore(WithFire(b, before, f[0]), Head(script));
      PlaysCreateMore(d, before + [f[0]], f[1..], Tail(script), c);
    }
  }

  /** A call of this list takes effect, and what comes behind it in the list keeps that. */
  lemma {:induction false} RemovedByCalls(b: Book, ops: seq<Op>, i: nat, key: Key)
    requires i <= |ops| && NoneAdds(ops[i..], key)
    requires i == 0 ==> key !in b.live
    requires i > 0 ==> Removes(ops[i - 1], key)
    ensures key !in WithCalls(b, ops).live
    decreases |ops|
  {
    if i < |ops| {
      var last := |ops| - 1;
      assert ops[..last][i..] == ops[i..][..last - i] && ops[last] == ops[i..][last - i];
      RemovedByCalls(b, ops[..last], i, key);
    }
  }

  lemma {:induction false} OutForThePlay(
      b: Book, before: seq<Fire>, f: seq<Fire>, script: seq<seq<Op>>, c: Book, key: Key)
    requires Plays(b, before, f, script, c) && key !in b.live
    requires forall m :: 0 <= m < |script| ==> NoneAdds(script[m], key)
    ensures key !in c.live
    ensures forall m :: 0 <= m < |f| ==> f[m].serial < |c.created| && c.created[f[m].serial].key != key
    decreases |f|
  {
    if f != [] {
      var d := WithCalls(WithFire(b, before, f[0]), Head(script));
      assert Head(script)[0..] == Head(script);
      RemovedByCalls(WithFire(b, before, f[0]), Head(script), 0, key);
      OutForThePlay(d, before + [f[0]], f[1..], Tail(script), c, key);
      PlaysCreateMore(b, before, f, script, c);
      assert forall m :: 1 <= m < |f| ==> f[m] == f[1..][m - 1];
    }
  }

  lemma {:induction false} RemovedInPlay(
      b: Book, before: seq<Fire>, f: seq<Fire>, script: seq<seq<Op>>, c: Book, k: nat, i: nat, key: Key)
    requires Plays(b, before, f, script, c) && k < |f| && k < |script| && i < |script[k]|
    requires Removes(script[k][i], key) && NoneAddsFrom(script, k, i + 1, key)
    ensures key !in c.live
    ensures forall m :: k < m < |f| ==> f[m].serial < |c.created| && c.created[f[m].serial].key != key
    decreases k
  {
    var d := WithCalls(WithFire(b, before, f[0]), Head(script));
    if k == 0 {
      RemovedByCalls(WithFire(b, before, f[0]), Head(script), i + 1, key);
      OutForThePlay(d, before + [f[0]], f[1..], Tail(script), c, key);
    } else {
      assert Tail(script)[k - 1] == script[k];
      assert forall m :: k < m < |script| ==> script[m] == Tail(script)[m - 1];
      RemovedInPlay(d, before + [f[0]], f[1..], Tail(script), c, k - 1, i, key);
    }
    assert forall m :: k < m < |f| ==> f[m] == f[1..][m - 1];
  }

  /**
   What the calls of the k-th fire remove, and no later call adds, is out of the map after the Update,
   and none of the later fires is of that key, whatever ticks it still had.
   */
  lemma RemovedStaysOut(actions: seq<Action>, now: int, script: seq<seq<Op>>, k: nat, i: nat, key: Key)
    requires k < |script| && i < |script[k]| && Removes(script[k][i], key) && NoneAddsFrom(script, k, i + 1, key)
    ensures var s := Run(actions); var t := Update(s, now, script); var f := NewFires(s, now, script);
      k < |f| ==>
      && key !in t.timers
      && forall m :: k < m < |f| ==> f[m].serial < |t.created| && t.created[f[m].serial].key != key
  {
    var s := Run(actions);
    var t, f := Update(s, now, script), NewFires(s, now, script);
    UpdatePlays(actions, now, script);
    if k < |f| {
      RemovedInPlay(BookOf(s), s.fires, f, script, BookOf(t), k, i, key);
    }
  }

  /** A call that adds leaves the key in the map, and so do the calls behind it that do not remove it. */
  lemma {:induction false} AddedByCalls(b: Book, ops: seq<Op>, i: nat, key: Key)
    requires i <= |ops| && NoneRemoves(ops[i..], key)
    requires i == 0 ==> key in b.live
    requires i > 0 ==> Adds(ops[i - 1], key)
    ensures key in WithCalls(b, ops).live
    decreases |ops|
  {
    if i < |ops| {
      var last := |ops| - 1;
      assert ops[..last][i..] == ops[i..][..last - i] && ops[last] == ops[i..][last - i];
      AddedByCalls(b, ops[..last], i, key);
    }
  }

  /** The fire is the last of a timer of this key. */
  predicate UsesUp(created: seq<Created>, before: seq<Fire>, fire: Fire, key: Key) {
    fire.serial < |created| && created[fire.serial].key == key && IsLast(created, before, fire)
  }

  /** None of the fires from the k-th on uses the key up. */
  ghost predicate NoneUsesUp(created: seq<Created>, before: seq<Fire>, f: seq<Fire>, k: nat, key: Key) {
    forall m :: k <= m < |f| ==> !UsesUp(created, before + f[..m], f[m], key)
  }

  lemma NoneUsesUpLater(created: seq<Created>, before: seq<Fire>, f: seq<Fire>, k: nat, key: Key)
    requires f != [] && NoneUsesUp(created, before, f, k, key)
    ensures NoneUsesUp(created, before + [f[0]], f[1..], if k == 0 then 0 else k - 1, key)
  {
    forall m | (if k == 0 then 0 else k - 1) <= m < |f| - 1
      ensures !UsesUp(created, before + [f[0]] + f[1..][..m], f[1..][m], key)
    {
      assert before + [f[0]] + f[1..][..m] == before + f[..m + 1];
      assert !UsesUp(created, before + f[..m + 1], f[m + 1], key);
    }
  }

  lemma {:induction false} InForThePlay(
      b: Book, before: seq<Fire>, f: seq<Fire>, script: seq<seq<Op>>, c: Book, key: Key)
    requires Plays(b, before, f, script, c) && key in b.live && NoneUsesUp(c.created, before, f, 0, key)
    requires forall m :: 0 <= m < |script| ==> NoneRemoves(script[m], key)
    ensures key in c.live
    decreases |f|
  {
    if f != [] {
      var d := WithCalls(WithFire(b, before, f[0]), Head(script));
      PlaysCreateMore(b, before, f, script, c);
      assert before + f[..0] == before && !UsesUp(c.created, before + f[..0], f[0], key);
      assert Head(script)[0..] == Head(script);
      AddedByCalls(WithFire(b, before, f[0]), Head(script), 0, key);
      NoneUsesUpLater(c.created, before, f, 0, key);
      InForThePlay(d, before + [f[0]], f[1..], Tail(script), c, key);
    }
  }

  lemma {:induction false} AddedInPlay(
      b: Book, before: seq<Fire>, f: seq<Fire>, script: seq<seq<Op>>, c: Book, k: nat, i: nat, key: Key)
    requires Plays(b, before, f, script, c) && k < |f| && k < |script| && i < |script[k]|
    requires Adds(script[k][i], key) && NoneRemovesFrom(script, k, i + 1, key)
    requires NoneUsesUp(c.created, before, f, k + 1, key)
    ensures key in c.live
    decreases k
  {
    var d := WithCalls(WithFire(b, before, f[0]), Head(script));
    NoneUsesUpLater(c.created, before, f, k + 1, key);
    if k == 0 {
      AddedByCalls(WithFire(b, before, f[0]), Head(script), i + 1, key);
      InForThePlay(d, before + [f[0]], f[1..], Tail(script), c, key);
    } else {
      assert Tail(script)[k - 1] == script[k];
      assert forall m :: k < m < |script| ==> script[m] == Tail(script)[m - 1];
      AddedInPlay(d, before + [f[0]], f[1..], Tail(script), c, k - 1, i, key);
    }
  }

  /**
   What the calls of the k-th fire add, and no later call removes and no later fire uses up, is in the
   map after the Update.
   */
  lemma AddedStaysIn(actions: seq<Action>, now: int, script: seq<seq<Op>>, k: nat, i: nat, key: Key)
    requires k < |script| && i < |script[k]| && Adds(script[k][i], key) && NoneRemovesFrom(script, k, i + 1, key)
    ensures var s := Run(actions); var t := Update(s, now, script); var f := NewFires(s, now, script);
      k < |f| && NoneUsesUp(t.created, s.fires, f, k + 1, key) ==> key in t.timers
  {
    var s := Run(actions);
    var t, f := Update(s, now, script), NewFires(s, now, script);
    UpdatePlays(actions, now, script);
    if k < |f| && NoneUsesUp(t.created, s.fires, f, k + 1, key) {
      AddedInPlay(BookOf(s), s.fires, f, script, BookOf(t), k, i, key);
    }
  }

  /** What a call that adds a timer creates it with. */
  function CreatedBy(op: Op): Created
    requires op.Add?
  {
    Created(op.key, op.interval, op.count, op.clock)
  }

  lemma InLaterPart<T>(x: T, a: seq<T>, b: seq<T>, c: seq<T>)
    requires a <= b <= c && (x in b[|a|..] || x in c[|b|..])
    ensures x in c[|a|..]
  {
    assert b[|a|..] <= c[|a|..];
    assert c[|b|..] == c[|a|..][|b| - |a|..];
  }

  lemma {:induction false} CreatedByCalls(b: Book, ops: seq<Op>, i: nat)
    requires i < |ops| && ops[i].Add? && ops[i].key !in b.live && NoneAdds(ops[..i], ops[i].key)
    ensures b.created <= WithCalls(b, ops).created && CreatedBy(ops[i]) in WithCalls(b, ops).created[|b.created|..]
    decreases |ops|
  {
    var last := |ops| - 1;
    CallsCreateMore(b, ops[..last]);
    var before, after := WithCalls(b, ops[..last]).created, WithCalls(b, ops).created;
    if i == last {
      assert ops[..last][0..] == ops[..i];
      RemovedByCalls(b, ops[..last], 0, ops[i].key);
      assert after[|before|] == CreatedBy(ops[i]);
    } else {
      assert ops[..last][..i] == ops[..i];
      CreatedByCalls(b, ops[..last], i);
      assert before[|b.created|..] <= after[|b.created|..];
    }
  }

  lemma {:induction false} CreatedInPlay(
      b: Book, before: seq<Fire>, f: seq<Fire>, script: seq<seq<Op>>, c: Book, k: nat, i: nat)
    requires Plays(b, before, f, script, c) && k < |f| && k < |script| && i < |script[k]|
    requires script[k][i].Add? && script[k][i].key !in b.live
    requires NoneAdds(script[k][..i], script[k][i].key)
    requires forall m :: 0 <= m < k ==> NoneAdds(script[m], script[k][i].key)
    ensures b.created <= c.created && CreatedBy(script[k][i]) in c.created[|b.created|..]
    decreases k
  {
    var a := WithFire(b, before, f[0]);
    var d := WithCalls(a, Head(script));
    CallsCreateMore(a, Head(script));
    PlaysCreateMore(d, before + [f[0]], f[1..], Tail(script), c);
    if k == 0 {
      CreatedByCalls(a, Head(script), i);
    } else {
      assert Head(script)[0..] == Head(script);
      RemovedByCalls(a, Head(script), 0, script[k][i].key);
      assert Tail(script)[k - 1] == script[k];
      assert forall m :: 0 <= m < k - 1 ==> Tail(script)[m] == script[m + 1];
      CreatedInPlay(d, before + [f[0]], f[1..], Tail(script), c, k - 1, i);
    }
    InLaterPart(CreatedBy(script[k][i]), b.created, d.created, c.created);
  }

  /** What the calls of the k-th fire add is created, if the map had not the key and no earlier call added it. */
  lemma AddedIsCreated(actions: seq<Action>, now: int, script: seq<seq<Op>>, k: nat, i: nat)
    requires k < |script| && i < |script[k]| && script[k][i].Add?
    requires script[k][i].key !in Run(actions).timers && NoneAdds(script[k][..i], script[k][i].key)
    requires forall m :: 0 <= m < k ==> NoneAdds(script[m], script[k][i].key)
    ensures var s := Run(actions); var t := Update(s, now, script);
      k < |NewFires(s, now, script)| ==>
      s.created <= t.created && CreatedBy(script[k][i]) in t.created[|s.created|..]
  {
    var s := Run(actions);
    var t, f := Update(s, now, script), NewFires(s, now, script);
    UpdatePlays(actions, now, script);
    if k < |f| {
      CreatedInPlay(BookOf(s), s.fires, f, script, BookOf(t), k, i);
    }
  }

  /** The list holds a call that creates a timer with this. */
  predicate Creates(ops: seq<Op>, i: nat, c: Created) {
    i < |ops| && ops[i].Add? && CreatedBy(ops[i]) == c
  }

  lemma {:induction false} CallsCreateOnly(b: Book, ops: seq<Op>, j: nat)
    requires |b.created| <= j < |WithCalls(b, ops).created|
    ensures exists i :: Creates(ops, i, WithCalls(b, ops).created[j])
    decreases |ops|
  {
    if ops != [] {
      var last := |ops| - 1;
      var before := WithCalls(b, ops[..last]);
      if j < |before.created| {
        CallsCreateOnly(b, ops[..last], j);
        var i :| Creates(ops[..last], i, before.created[j]);
        assert Creates(ops, i, WithCalls(b, ops).created[j]);
      } else {
        assert Creates(ops, last, WithCalls(b, ops).created[j]);
      }
    }
  }

  lemma {:induction false} PlaysCreateOnly(
      b: Book, before: seq<Fire>, f: seq<Fire>, script: seq<seq<Op>>, c: Book, j: nat) returns (k: nat, i: nat)
    requires Plays(b, before, f, script, c) && |b.created| <= j < |c.created|
    ensures k < |f| && k < |script| && Creates(script[k], i, c.created[j])
    decreases |f|
  {
    var a := WithFire(b, before, f[0]);
    var d := WithCalls(a, Head(script));
    PlaysCreateMore(d, before + [f[0]], f[1..], Tail(script), c);
    if j < |d.created| {
      CallsCreateOnly(a, Head(script), j);
      k := 0;
      i :| Creates(Head(script), i, d.created[j]);
    } else {
      k, i := PlaysCreateOnly(d, before + [f[0]], f[1..], Tail(script), c, j);
      k := k + 1;
    }
  }

  /** An Update creates no timer but those its fires' calls add. */
  lemma CreatedWasAdded(actions: seq<Action>, now: int, script: seq<seq<Op>>, j: nat) returns (k: nat, i: nat)
    requires |Run(actions).created| <= j < |Update(Run(actions), now, script).created|
    ensures k < |NewFires(Run(actions), now, script)| && k < |script|
    ensures Creates(script[k], i, Update(Run(actions), now, script).created[j])
  {
    var s := Run(actions);
    UpdatePlays(actions, now, script);
    k, i := PlaysCreateOnly(
      BookOf(s), s.fires, NewFires(s, now, script), script, BookOf(Update(s, now, script)), j);
  }

  // ------------------------------------------------------------------------------------------
  // A due timer fires, whatever other callbacks call
  // ------------------------------------------------------------------------------------------

  ghost predicate NeverRemoves(script: seq<seq<Op>>, key: Key) {
    forall m :: 0 <= m < |script| ==> NoneRemoves(script[m], key)
  }

  /** A due tick of the live timer is under the iterator or behind it. */
  predicate Ahead(s: State, key: Key, serial: nat, p: nat, now: int) {
    && s.cursor.Some? && s.cursor.value <= p < |s.ticks|
    && s.ticks[p].key == key && s.ticks[p].at <= now
    && key in s.timers && s.timers[key].serial == serial
  }

  lemma OpKeepsAhead(s: State, op: Op, key: Key, serial: nat, p: nat, now: int) returns (q: nat)
    requires Ahead(s, key, serial, p, now) && !Removes(op, key)
    ensures Ahead(DoOp(s, op), key, serial, q, now) && (p == s.cursor.value <==> q == DoOp(s, op).cursor.value)
  {
    var tick := if op.Add? then Tick(op.key, op.clock + op.interval) else s.ticks[p];
    var u := UpperBound(s.ticks, tick.at);
    q := if op.Add? && op.key !in s.timers && u <= p then p + 1 else p;
    InsertedAt(s.ticks, tick, p);
  }

  lemma InsertedAt(ticks: seq<Tick>, t: Tick, p: nat)
    requires p < |ticks|
    ensures |Inserted(ticks, t)| == |ticks| + 1
    ensures Inserted(ticks, t)[if UpperBound(ticks, t.at) <= p then p + 1 else p] == ticks[p]
  {
  }

  lemma {:induction false} OpsKeepAhead(s: State, ops: seq<Op>, key: Key, serial: nat, p: nat, now: int)
      returns (q: nat)
    requires Ahead(s, key, serial, p, now) && NoneRemoves(ops, key)
    ensures Ahead(DoOps(s, ops), key, serial, q, now) && (p == s.cursor.value <==> q == DoOps(s, ops).cursor.value)
    decreases |ops|
  {
    q := p;
    if ops != [] {
      var last := |ops| - 1;
      assert !Removes(ops[last], key);
      q := OpsKeepAhead(s, ops[..last], key, serial, p, now);
      q := OpKeepsAhead(DoOps(s, ops[..last]), ops[last], key, serial, q, now);
    }
  }

  /** The fire of another timer leaves the tick there. */
  lemma OtherFireKeepsAhead(s: State, now: int, ops: seq<Op>, key: Key, serial: nat, p: nat) returns (q: nat)
    requires Ahead(s, key, serial, p, now) && NoneRemoves(ops, key)
    requires s.ticks[s.cursor.value].key in s.timers && s.ticks[s.cursor.value].key != key
    ensures Ahead(FireTick(s, now, ops), key, serial, q, now)
  {
    var a := BeforeCallbacks(s, now);
    q := OpsKeepAhead(a, ops, key, serial, p, now);
    OpsKeepCursor(a, ops);
    q := ErasedBefore(Called(s, now, ops), key, serial, q, now);
  }

  lemma ErasedBefore(s: State, key: Key, serial: nat, p: nat, now: int) returns (q: nat)
    requires Ahead(s, key, serial, p, now) && p != s.cursor.value
    ensures Ahead(EraseTick(s), key, serial, q, now)
  {
    q := p - 1;
  }

  lemma {:induction false} AheadFires(s: State, now: int, script: seq<seq<Op>>, key: Key, serial: nat, p: nat)
      returns (m: nat)
    requires Sorted(s.ticks) && Ahead(s, key, serial, p, now) && NeverRemoves(script, key)
    ensures |s.fires| <= m < |Loop(s, now, script).fires| && Loop(s, now, script).fires[m].serial == serial
    decreases |s.ticks| - s.cursor.value + TotalOps(script)
  {
    var ops := Head(script);
    if s.ticks[s.cursor.value].key !in s.timers {
      var q := ErasedBefore(s, key, serial, p, now);
      EraseKeepsSorted(s);
      m := AheadFires(EraseTick(s), now, script, key, serial, q);
    } else {
      var t := FireTick(s, now, ops);
      OpsKeepCursor(BeforeCallbacks(s, now), ops);
      OpsKeepFires(BeforeCallbacks(s, now), ops);
      assert t.fires == s.fires + [FireOf(s, now)];
      if s.ticks[s.cursor.value].key == key {
        LoopKeepsFires(t, now, Tail(script));
        m := |s.fires|;
      } else {
        var q := OtherFireKeepsAhead(s, now, ops, key, serial, p);
        FireKeepsSorted(s, now, ops);
        m := AheadFires(t, now, Tail(script), key, serial, q);
      }
    }
  }

  /**
   In any run, whatever the callbacks of other timers call, a live timer of which a tick is due fires in
   the Update, unless a call removes it.
   */
  lemma DueTickFires(actions: seq<Action>, now: int, script: seq<seq<Op>>, key: Key, at: int)
    requires key in Run(actions).timers && Tick(key, at) in Run(actions).ticks && at <= now
    requires NeverRemoves(script, key)
    ensures exists f :: f in NewFires(Run(actions), now, script) && f.serial == Run(actions).timers[key].serial
  {
    var s := Run(actions);
    var start := s.(cursor := Some(0), deferred := []);
    RunSorted(actions);
    var p :| 0 <= p < |s.ticks| && s.ticks[p] == Tick(key, at);
    var m := AheadFires(start, now, script, key, s.timers[key].serial, p);
    var fires := Update(s, now, script).fires;
    assert NewFires(s, now, script)[m - |s.fires|] == fires[m];
  }
}
