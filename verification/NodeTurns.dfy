/**
 What one Update of NodeLinks makes of each server: its record after its turn, whatever events its net
 module raises, and the servers that are new.
 */
module NodeTurns {
  import Bytes
  import opened HashRing
  import opened NodeLinks
  import opened SetOrder
  import opened Wrappers

  // ------------------------------------------------------------------------------------------
  // The record of one server
  // ------------------------------------------------------------------------------------------

  /** The last socket event of a list: a connection or a disconnection. */
  function LastSocket(events: seq<Event>): Option<Event> {
    if events == [] then None
    else
      var last := events[|events| - 1];
      if last.Connected? || last.Disconnected? then Some(last) else LastSocket(events[..|events| - 1])
  }

  /** The last socket event decides the state; any loss sets the clock. */
  function AfterEvents(server: Server, now: int, events: seq<Event>): Server {
    var last := LastSocket(events);
    server.(state := if last.None? then server.state else if last.value.Connected? then NORMAL else DISCONNECT,
            lastTime := if Disconnected in events then now else server.lastTime)
  }

  /** What its turn makes of a server's record; None: it is dialled. */
  function AfterTurn(server: Server, now: int, events: seq<Event>): Option<Server> {
    if Polled(server) then
      var polled := AfterEvents(server, now, events);
      Some(if server.state.NORMAL? && polled.lastTime + 10 <= now then polled.(lastTime := now) else polled)
    else if server.state.DISCONNECT? && server.net.Some? then Some(server.(state := RECONNECT, net := None))
    else if server.state.RECONNECT? && server.lastTime + 10 < now then None
    else Some(server)
  }

  /** From `s` to `t` the server under `id` had a turn with these events, or None, it had none. */
  predicate Treated(s: State, t: State, id: int, now: int, turn: Option<seq<Event>>)
    requires id in s.servers
  {
    && id in t.servers && t.nextNet >= s.nextNet
    && var server := s.servers[id];
      var expected := if turn.Some? then AfterTurn(server, now, turn.value) else Some(server);
      if expected.None? then
        && t.servers[id].state.CONNECTING? && t.servers[id].info == server.info
        && t.servers[id].net.Some? && t.servers[id].net.value >= s.nextNet
        && LastAbout(t.log, id) == Some(Dialled(id, now))
      else
        && t.servers[id] == expected.value
        && LastAbout(t.log, id) ==
          if turn.Some? && Polled(server) && Disconnected in turn.value then Some(Lost(id, now))
          else LastAbout(s.log, id)
  }

  lemma LastAboutOther(log: seq<LogEntry>, entry: LogEntry, id: int)
    ensures LastAbout(log + [entry], id) == if entry.id == id then Some(entry) else LastAbout(log, id)
  {
    assert (log + [entry])[..|log|] == log;
  }

  lemma EventTreats(h: Hasher, s: State, id: int, now: int, e: Event)
    requires id in s.servers
    ensures var t := Raise(h, s, id, now, e);
      && t.servers[id] == AfterEvents(s.servers[id], now, [e]) && t.nextNet == s.nextNet
      && LastAbout(t.log, id) == if e.Disconnected? then Some(Lost(id, now)) else LastAbout(s.log, id)
  {
    LastAboutOther(s.log, Lost(id, now), id);
    assert LastSocket([e][..0]) == None;
  }

  lemma {:induction false} EventsTreat(h: Hasher, s: State, id: int, now: int, events: seq<Event>)
    requires id in s.servers
    ensures var t := RaiseAll(h, s, id, now, events);
      && t.servers[id] == AfterEvents(s.servers[id], now, events) && t.nextNet == s.nextNet
      && LastAbout(t.log, id) == if Disconnected in events then Some(Lost(id, now)) else LastAbout(s.log, id)
    decreases |events|
  {
    if events != [] {
      var last := |events| - 1;
      var earlier := RaiseAll(h, s, id, now, events[..last]);
      EventsTreat(h, s, id, now, events[..last]);
      assert events == events[..last] + [events[last]];
      assert Disconnected in events <==> Disconnected in events[..last] || events[last].Disconnected?;
      EventTreats(h, earlier, id, now, events[last]);
    }
  }

  lemma {:induction false} EventsKeepOthers(h: Hasher, s: State, id: int, now: int, events: seq<Event>, other: int)
    requires id in s.servers && other in s.servers && other != id
    ensures Treated(s, RaiseAll(h, s, id, now, events), other, now, None)
    decreases |events|
  {
    if events != [] {
      var earlier := RaiseAll(h, s, id, now, events[..|events| - 1]);
      EventsKeepOthers(h, s, id, now, events[..|events| - 1], other);
      LastAboutOther(earlier.log, Lost(id, now), other);
    }
  }

  lemma TurnTreatsOther(h: Hasher, s: State, id: int, now: int, events: seq<Event>, other: int)
    requires Filed(s) && id in s.servers && other in s.servers && other != id
    ensures Treated(s, Turn(h, s, id, now, events), other, now, None)
  {
    match s.servers[id].state
    case DISCONNECT =>
    case CONNECTING => EventsKeepOthers(h, s, id, now, events, other);
    case NORMAL => EventsKeepOthers(h, s, id, now, events, other);
    case RECONNECT => LastAboutOther(s.log, Dialled(id, now), other);
  }

  lemma TurnTreats(h: Hasher, s: State, id: int, now: int, events: seq<Event>)
    requires Filed(s) && id in s.servers
    ensures Treated(s, Turn(h, s, id, now, events), id, now, Some(events))
  {
    match s.servers[id].state
    case DISCONNECT =>
    case CONNECTING => EventsTreat(h, s, id, now, events);
    case NORMAL => EventsTreat(h, s, id, now, events);
    case RECONNECT => LastAboutOther(s.log, Dialled(id, now), id);
  }

  /** The events of a turn, if the server is among those handled. */
  function TurnIn(handled: seq<int>, id: int, script: Script): Option<seq<Event>> {
    if id in handled then Some(script(id)) else None
  }

  /** Another step leaves the server alone before, or behind, what is done about it. */
  lemma TreatedLater(s: State, after: State, t: State, id: int, now: int, turn: Option<seq<Event>>)
    requires id in s.servers && Treated(s, after, id, now, None) && Treated(after, t, id, now, turn)
    ensures Treated(s, t, id, now, turn)
  {
  }

  lemma TreatedBefore(s: State, after: State, t: State, id: int, now: int, turn: Option<seq<Event>>)
    requires id in s.servers && Treated(s, after, id, now, turn) && Treated(after, t, id, now, None)
    ensures Treated(s, t, id, now, turn)
  {
  }

  /** A pass treats a server if and only if it is among those handled. */
  lemma {:induction false} PassTreats(h: Hasher, s: State, cur: Option<int>, now: int, script: Script, id: int)
    requires Filed(s) && (cur.Some? ==> cur.value in s.servers) && id in s.servers
    ensures var p := PassFrom(h, s, cur, now, script);
      Treated(s, p.state, id, now, TurnIn(p.handled, id, script))
    decreases if cur.None? then 0 else 1 + |Above(s.servers.Keys, cur.value)|
  {
    if cur.Some? {
      var turn := cur.value;
      var after, next := Turn(h, s, turn, now, script(turn)), NextTurn(s, turn, script);
      PassFromTurn(h, s, turn, now, script);
      if next.Some? {
        FewerAbove(s.servers.Keys, turn, next.value);
      }
      var rest := PassFrom(h, after, next, now, script);
      if turn != id {
        TurnTreatsOther(h, s, turn, now, script(turn), id);
        PassTreats(h, after, next, now, script, id);
        assert id in [turn] + rest.handled <==> id in rest.handled;
        TreatedLater(s, after, rest.state, id, now, TurnIn(rest.handled, id, script));
      } else {
        TurnTreats(h, s, id, now, script(id));
        PassLeavesBehind(h, after, next, now, script, id);
        assert id in [turn] + rest.handled;
        TreatedBefore(s, after, rest.state, id, now, Some(script(id)));
      }
    }
  }

  /** The rest of a pass does nothing about a server it is already past. */
  lemma {:induction false} PassLeavesBehind(
      h: Hasher, s: State, cur: Option<int>, now: int, script: Script, id: int)
    requires Filed(s) && (cur.Some? ==> cur.value in s.servers && cur.value > id) && id in s.servers
    ensures var p := PassFrom(h, s, cur, now, script);
      Treated(s, p.state, id, now, None) && id !in p.handled
    decreases if cur.None? then 0 else 1 + |Above(s.servers.Keys, cur.value)|
  {
    if cur.Some? {
      var turn := cur.value;
      var after, next := Turn(h, s, turn, now, script(turn)), NextTurn(s, turn, script);
      PassFromTurn(h, s, turn, now, script);
      TurnTreatsOther(h, s, turn, now, script(turn), id);
      if next.Some? {
        FewerAbove(s.servers.Keys, turn, next.value);
      }
      PassLeavesBehind(h, after, next, now, script, id);
    }
  }

  lemma {:induction false} AdmitAllTreats(s: State, infos: seq<NodeInfo>, now: int, id: int)
    requires Filed(s) && id in s.servers
    ensures Treated(s, AdmitAll(s, infos, now), id, now, None)
    decreases |infos|
  {
    if infos != [] {
      var before, info := AdmitAll(s, infos[..|infos| - 1], now), infos[|infos| - 1];
      AdmitAllTreats(s, infos[..|infos| - 1], now, id);
      LastAboutOther(before.log, Dialled(info.id, now), id);
    }
  }

  /**
   In every run, what an Update makes of a server, whatever its state and the events of its net module:
   its turn, if it has one, and nothing else. A server polled while it is still connecting is lost, too,
   when the last socket event is a disconnection; it is on its kind's ring map exactly when it is connected.
   */
  lemma UpdateTreats(h: Hasher, actions: seq<Action>, now: int, script: Script, id: int)
    requires id in Run(h, actions).servers
    ensures var s := Run(h, actions); var t := Step(h, s, Update(now, script));
      && Treated(s, t, id, now, TurnIn(Pass(h, s, now, script).handled, id, script))
      && (id in RingOf(t, t.servers[id].info.kind).members <==> t.servers[id].state.NORMAL?)
  {
    RunKeepsInv(h, actions);
    var s := Run(h, actions);
    var passed := Pass(h, s, now, script);
    PassTreats(h, s, First(s.servers.Keys), now, script, id);
    AdmitAllTreats(passed.state, passed.state.pending, now, id);
    TreatedBefore(s, passed.state, AdmitAll(passed.state, passed.state.pending, now), id, now,
                  TurnIn(passed.handled, id, script));
    StepKeepsInv(h, s, Update(now, script));
  }

  /** A server whose polled net module reports a disconnection last is lost, also if it never connected. */
  lemma PolledIsLostIff(h: Hasher, actions: seq<Action>, now: int, script: Script, id: int)
    requires var s := Run(h, actions);
      id in s.servers && Polled(s.servers[id]) && id in Pass(h, s, now, script).handled
    ensures var t := Step(h, Run(h, actions), Update(now, script));
      && (t.servers[id].state.DISCONNECT? <==> LastSocket(script(id)) == Some(Disconnected))
      && (LastSocket(script(id)) == Some(Disconnected) ==>
        && t.servers[id].lastTime == now && LastAbout(t.log, id) == Some(Lost(id, now))
        && forall kind :: id !in RingOf(t, kind).members)
  {
    var s := Run(h, actions);
    var t := Step(h, s, Update(now, script));
    UpdateTreats(h, actions, now, script, id);
    RunKeepsInv(h, actions);
    StepKeepsInv(h, s, Update(now, script));
    LastSocketIsOne(script(id));
  }

  lemma {:induction false} LastSocketIsOne(events: seq<Event>)
    ensures var last := LastSocket(events);
      last.Some? ==> last.value in events && (last.value.Connected? || last.value.Disconnected?)
    decreases |events|
  {
    if events != [] {
      LastSocketIsOne(events[..|events| - 1]);
    }
  }

  /**
   In every run a server whose connection was lost at a clock drops its Net on its first turn after that,
   and is dialled with a new one on the first later turn at a clock more than 10 past the loss. Nothing
   else is done about it.
   */
  lemma LostServerIsDialled(h: Hasher, actions: seq<Action>, now: int, script: Script, id: int)
    requires id in Run(h, actions).servers
    requires var state := Run(h, actions).servers[id].state; state.DISCONNECT? || state.RECONNECT?
    ensures var s := Run(h, actions); var server := s.servers[id];
      LastAbout(s.log, id) == Some(Lost(id, server.lastTime)) && (server.state.DISCONNECT? ==> server.net.Some?)
    ensures var s := Run(h, actions); var t := Step(h, s, Update(now, script)); var server := s.servers[id];
      if id !in Pass(h, s, now, script).handled || (server.state.RECONNECT? && server.lastTime + 10 >= now) then
        t.servers[id] == server
      else if server.state.DISCONNECT? then t.servers[id] == server.(state := RECONNECT, net := None)
      else
        && t.servers[id].state.CONNECTING? && t.servers[id].net.Some? && t.servers[id].net.value >= s.nextNet
        && LastAbout(t.log, id) == Some(Dialled(id, now))
  {
    RunKeepsInv(h, actions);
    UpdateTreats(h, actions, now, script, id);
  }

  // ------------------------------------------------------------------------------------------
  // New servers
  // ------------------------------------------------------------------------------------------

  /** The nodes a list of events announces, in order. */
  function Announced(events: seq<Event>): seq<NodeInfo>
    decreases |events|
  {
    if events == [] then []
    else
      var last := events[|events| - 1];
      Announced(events[..|events| - 1]) + if last.Announce? then [last.info] else []
  }

  /** The nodes announced in the turns of these servers: only those that are polled raise events. */
  function AnnouncedIn(s: State, handled: seq<int>, script: Script): seq<NodeInfo>
    decreases |handled|
  {
    if handled == [] then [] else AnnouncedBy(s, handled[0], script) + AnnouncedIn(s, handled[1..], script)
  }

  function AnnouncedBy(s: State, id: int, script: Script): seq<NodeInfo> {
    if id in s.servers && Polled(s.servers[id]) then Announced(script(id)) else []
  }

  lemma {:induction false} EventsAnnounce(h: Hasher, s: State, id: int, now: int, events: seq<Event>)
    requires id in s.servers
    ensures RaiseAll(h, s, id, now, events).pending == s.pending + Announced(events)
    decreases |events|
  {
    if events == [] {
      assert s.pending + [] == s.pending;
    } else {
      EventsAnnounce(h, s, id, now, events[..|events| - 1]);
    }
  }

  lemma TurnAnnounces(h: Hasher, s: State, id: int, now: int, script: Script)
    requires Filed(s) && id in s.servers
    ensures Turn(h, s, id, now, script(id)).pending == s.pending + AnnouncedBy(s, id, script)
  {
    EventsAnnounce(h, s, id, now, script(id));
    assert s.pending + [] == s.pending;
  }

  /** Only the records of the servers handled matter. */
  lemma {:induction false} SameAnnounced(s: State, t: State, handled: seq<int>, script: Script)
    requires forall i :: 0 <= i < |handled| ==>
      handled[i] in s.servers && handled[i] in t.servers && s.servers[handled[i]] == t.servers[handled[i]]
    ensures AnnouncedIn(s, handled, script) == AnnouncedIn(t, handled, script)
    decreases |handled|
  {
    if handled != [] {
      SameAnnounced(s, t, handled[1..], script);
    }
  }

  /** What a turn and the rest of the pass announce. */
  lemma RestAnnounces(h: Hasher, s: State, id: int, now: int, script: Script, next: int)
    requires Filed(s) && id in s.servers && next in s.servers && next > id
    requires Filed(Turn(h, s, id, now, script(id)))
    ensures var after := Turn(h, s, id, now, script(id));
      var rest := PassFrom(h, after, Some(next), now, script).handled;
      AnnouncedIn(s, [id] + rest, script) == AnnouncedBy(s, id, script) + AnnouncedIn(after, rest, script)
  {
    var after := Turn(h, s, id, now, script(id));
    var rest := PassFrom(h, after, Some(next), now, script).handled;
    PassFromCoversIff(h, after, next, now, script);
    TurnTouchesOneServer(h, s, id, now, script(id));
    forall i | 0 <= i < |rest|
      ensures rest[i] in s.servers && after.servers[rest[i]] == s.servers[rest[i]]
    {
      assert rest[i] in rest;
    }
    SameAnnounced(s, after, rest, script);
    assert ([id] + rest)[1..] == rest;
  }

  lemma {:induction false} PassAnnounces(h: Hasher, s: State, cur: Option<int>, now: int, script: Script)
    requires Filed(s) && (cur.Some? ==> cur.value in s.servers)
    ensures var p := PassFrom(h, s, cur, now, script);
      p.state.pending == s.pending + AnnouncedIn(s, p.handled, script)
    decreases if cur.None? then 0 else 1 + |Above(s.servers.Keys, cur.value)|
  {
    if cur.None? {
      assert s.pending + [] == s.pending;
    } else {
      var id := cur.value;
      var after, next := Turn(h, s, id, now, script(id)), NextTurn(s, id, script);
      PassFromTurn(h, s, id, now, script);
      TurnAnnounces(h, s, id, now, script);
      if next.None? {
        assert PassFrom(h, after, next, now, script) == Passed(after, []) && [id] + [] == [id];
        assert AnnouncedIn(s, [id], script) == AnnouncedBy(s, id, script) + [];
      } else {
        FewerAbove(s.servers.Keys, id, next.value);
        PassAnnounces(h, after, next, now, script);
        RestAnnounces(h, s, id, now, script, next.value);
        var rest := PassFrom(h, after, next, now, script).handled;
        Bytes.AppendAssociative(s.pending, AnnouncedBy(s, id, script), AnnouncedIn(after, rest, script));
      }
    }
  }

  /** The first announcement of the id in a list. */
  predicate FirstOf(infos: seq<NodeInfo>, i: nat, id: int) {
    i < |infos| && infos[i].id == id && forall j :: 0 <= j < i ==> infos[j].id != id
  }

  /** A new server: as announced, connecting with a Net of its own, and dialled now. */
  predicate NewServer(s: State, t: State, info: NodeInfo, now: int) {
    && info.id in t.servers
    && var server := t.servers[info.id];
      && server.info == info && server.state.CONNECTING? && server.lastTime == now
      && server.net.Some? && server.net.value >= s.nextNet
      && LastAbout(t.log, info.id) == Some(Dialled(info.id, now))
  }

  lemma AdmitOneIs(s: State, t: State, info: NodeInfo, now: int)
    requires t.nextNet >= s.nextNet && info.id !in t.servers
    ensures NewServer(s, AdmitOne(t, info, now), info, now)
  {
    LastAboutOther(t.log, Dialled(info.id, now), info.id);
  }

  lemma AdmitOneKeeps(s: State, t: State, info: NodeInfo, now: int, other: NodeInfo)
    requires NewServer(s, t, other, now)
    ensures NewServer(s, AdmitOne(t, info, now), other, now)
  {
    LastAboutOther(t.log, Dialled(info.id, now), other.id);
  }

  /** The announced nodes are known afterwards, and no others are added. */
  lemma {:induction false} AdmitAllKnown(s: State, infos: seq<NodeInfo>, now: int, id: int)
    requires Filed(s)
    ensures var t := AdmitAll(s, infos, now);
      t.nextNet >= s.nextNet && (id in t.servers <==> id in s.servers || exists i :: FirstOf(infos, i, id))
    decreases |infos|
  {
    if infos != [] {
      var last := |infos| - 1;
      AdmitAllKnown(s, infos[..last], now, id);
      forall i: nat | i < last
        ensures FirstOf(infos[..last], i, id) == FirstOf(infos, i, id)
      {
        assert forall j :: 0 <= j <= i ==> infos[..last][j] == infos[j];
      }
      assert id in AdmitAll(s, infos, now).servers <==>
        id in AdmitAll(s, infos[..last], now).servers || infos[last].id == id;
      if infos[last].id == id && forall i: nat :: i < last ==> !FirstOf(infos, i, id) {
        NoneBefore(infos, last, id);
        assert FirstOf(infos, last, id);
      }
    }
  }

  /** Where there is no first one there is none. */
  lemma {:induction false} NoneBefore(infos: seq<NodeInfo>, n: nat, id: int)
    requires n <= |infos| && forall i: nat :: i < n ==> !FirstOf(infos, i, id)
    ensures forall j :: 0 <= j < n ==> infos[j].id != id
    decreases n
  {
    if n > 0 {
      NoneBefore(infos, n - 1, id);
      assert !FirstOf(infos, n - 1, id);
    }
  }

  /** The first announcement of an unknown node makes its record. */
  lemma {:induction false} AdmitAllIs(s: State, infos: seq<NodeInfo>, now: int, i: nat)
    requires Filed(s) && i < |infos| && infos[i].id !in s.servers && FirstOf(infos, i, infos[i].id)
    ensures NewServer(s, AdmitAll(s, infos, now), infos[i], now)
    decreases |infos|
  {
    var last := |infos| - 1;
    var t := AdmitAll(s, infos[..last], now);
    AdmitAllKnown(s, infos[..last], now, infos[i].id);
    if i == last {
      assert forall j: nat :: j < last ==> !FirstOf(infos[..last], j, infos[i].id);
      AdmitOneIs(s, t, infos[last], now);
    } else {
      assert FirstOf(infos[..last], i, infos[i].id);
      AdmitAllIs(s, infos[..last], now, i);
      AdmitOneKeeps(s, t, infos[last], now, infos[i]);
    }
  }

  /**
   In every run, the servers an Update adds are the nodes announced before it and in its turns that
   were not known: each as it was first announced, connecting, dialled with a Net of its own. None waits.
   */
  lemma AnnouncedAreDialled(h: Hasher, actions: seq<Action>, now: int, script: Script)
    ensures var s := Run(h, actions); var t := Step(h, s, Update(now, script));
      var infos := s.pending + AnnouncedIn(s, Pass(h, s, now, script).handled, script);
      && t.pending == []
      && (forall id :: id in t.servers <==> id in s.servers || exists i :: FirstOf(infos, i, id))
      && (forall i :: 0 <= i < |infos| && infos[i].id !in s.servers && FirstOf(infos, i, infos[i].id) ==>
            NewServer(s, t, infos[i], now))
  {
    var s := Run(h, actions);
    var passed := Pass(h, s, now, script).state;
    var infos := passed.pending;
    PassAnnounces(h, s, First(s.servers.Keys), now, script);
    PassKeepsKeys(h, s, First(s.servers.Keys), now, script);
    forall id
      ensures id in AdmitAll(passed, infos, now).servers <==> id in s.servers || exists i :: FirstOf(infos, i, id)
    {
      AdmitAllKnown(passed, infos, now, id);
    }
    forall i | 0 <= i < |infos| && infos[i].id !in s.servers && FirstOf(infos, i, infos[i].id)
      ensures NewServer(s, Admit(passed, now), infos[i], now)
    {
      AdmitAllIs(passed, infos, now, i);
    }
  }

  lemma {:induction false} PassKeepsKeys(h: Hasher, s: State, cur: Option<int>, now: int, script: Script)
    requires Filed(s) && (cur.Some? ==> cur.value in s.servers)
    ensures var t := PassFrom(h, s, cur, now, script).state;
      t.servers.Keys == s.servers.Keys && t.nextNet >= s.nextNet
    decreases if cur.None? then 0 else 1 + |Above(s.servers.Keys, cur.value)|
  {
    if cur.Some? {
      var id := cur.value;
      var after, next := Turn(h, s, id, now, script(id)), NextTurn(s, id, script);
      PassFromTurn(h, s, id, now, script);
      TurnTreats(h, s, id, now, script(id));
      if next.Some? {
        FewerAbove(s.servers.Keys, id, next.value);
      }
      PassKeepsKeys(h, after, next, now, script);
    }
  }
}
