/**
 NetClientModule (src/plugin/core/net/net_client_module.cc) over its shared-cursor server map:
 ConnectData records are shared between the server map and the ring maps and updated in place, and
 socket callbacks raised inside a poll search the same map with the same cursor.
 */
module NetClient {
  import Bytes
  import opened HashRing
  import opened Maps
  import opened NodeLinks
  import opened SetOrder
  import opened Wrappers

  /** Where an event leaves the shared cursor. */
  function CursorAfter(cursor: Cursor, id: int, e: Event): Cursor {
    match e
    case Connected => At(id)
    case Disconnected => At(id)
    case Broadcast => End
    case Announce(_) => cursor
  }

  lemma OneMoreEvent(h: Hasher, s: State, id: int, now: int, events: seq<Event>, i: nat)
    requires i < |events| && id in s.servers
    ensures RaiseAll(h, s, id, now, events[..i + 1]) ==
            Raise(h, RaiseAll(h, s, id, now, events[..i]), id, now, events[i])
    ensures forall cursor :: cursor == (if EndsOnBroadcast(events[..i]) then End else At(id)) ==>
      CursorAfter(cursor, id, events[i]) == if EndsOnBroadcast(events[..i + 1]) then End else At(id)
  {
    assert events[..i + 1][..i] == events[..i];
  }

  class ConnectData {
    const info: NodeInfo
    var state: LinkState
    var lastTime: int
    var net: Option<nat>

    constructor (info: NodeInfo, state: LinkState, lastTime: int, net: Option<nat>)
      ensures this.info == info && View() == Server(info, state, lastTime, net)
    {
      this.info, this.state, this.lastTime, this.net := info, state, lastTime, net;
    }

    function View(): Server
      reads this
    {
      Server(info, state, lastTime, net)
    }
  }

  class NetClientModule {
    const hasher: Hasher
    const serverMap: MapEx<ConnectData>
    var rings: map<int, RingView>
    var pending: seq<NodeInfo>
    var nextNet: nat
    var log: seq<LogEntry>

    /** Every record is filed under its own id, so no record is filed twice. */
    ghost predicate Valid()
      reads serverMap`elements
    {
      forall id :: id in serverMap.elements ==> serverMap.elements[id].info.id == id
    }

    ghost function Servers(): map<int, Server>
      reads serverMap`elements, serverMap.elements.Values
    {
      map id | id in serverMap.elements :: serverMap.elements[id].View()
    }

    ghost function Abs(): State
      reads this, serverMap`elements, serverMap.elements.Values
    {
      State(Servers(), rings, pending, nextNet, log)
    }

    constructor (hasher: Hasher)
      ensures Valid() && fresh(serverMap) && serverMap.elements == map[] && this.hasher == hasher
      ensures Abs() == INIT
    {
      this.hasher := hasher;
      serverMap := new MapEx<ConnectData>();
      rings, pending, nextNet, log := map[], [], 0, [];
    }

    method AddNode(info: NodeInfo)
      modifies `pending
      ensures Abs() == old(Abs()).(pending := old(pending) + [info])
    {
      pending := pending + [info];
    }

    /** The search over the shared cursor: it stops on the record whose module has this Net. */
    method GetServerNetInfo(net: nat) returns (data: Option<ConnectData>)
      requires Valid()
      modifies serverMap`cursor
      ensures data.Some? ==> data.value.net == Some(net)
      ensures data.Some? ==> data.value.info.id in serverMap.elements
      ensures data.Some? ==> serverMap.elements[data.value.info.id] == data.value
      ensures data.Some? ==> serverMap.cursor == At(data.value.info.id)
      ensures data.None? ==> forall id :: id in serverMap.elements ==> serverMap.elements[id].net != Some(net)
      ensures data.None? ==> serverMap.cursor == if serverMap.elements == map[] then old(serverMap.cursor) else End
    {
      data := serverMap.First();
      while data.Some?
        invariant data.Some? ==> serverMap.cursor.At? && serverMap.cursor.key in serverMap.elements
        invariant data.Some? ==> data.value == serverMap.elements[serverMap.cursor.key]
        invariant data.None? ==> serverMap.cursor == if serverMap.elements == map[] then old(serverMap.cursor) else End
        invariant forall id :: id in serverMap.elements && (data.Some? ==> id < serverMap.cursor.key) ==>
          serverMap.elements[id].net != Some(net)
        decreases if data.None? then 0 else 1 + |Above(serverMap.elements.Keys, serverMap.cursor.key)|
      {
        if data.value.net == Some(net) {
          return;
        }
        ghost var before := serverMap.cursor.key;
        data := serverMap.Next();
        if data.Some? {
          FewerAbove(serverMap.elements.Keys, before, serverMap.cursor.key);
        }
      }
    }

    /** The search for a Net that a record has finds that record: no two records share a Net. */
    method FindByNet(net: nat, ghost id: int) returns (data: ConnectData)
      requires Valid() && NetsDistinct(Abs()) && id in serverMap.elements && serverMap.elements[id].net == Some(net)
      modifies serverMap`cursor
      ensures data == serverMap.elements[id] && serverMap.cursor == At(id)
    {
      ghost var servers := Servers();
      var found := GetServerNetInfo(net);
      assert servers == Servers();
      assert servers[id].net == Some(net);
      data := found.value;
      assert data.info.id in servers && servers[data.info.id].net == Some(net);
    }

    /** Only the record filed under `id` was written. */
    twostate lemma OneRecordChanged(id: int)
      requires Valid() && id in serverMap.elements && serverMap.elements == old(serverMap.elements)
      requires forall k :: k in serverMap.elements && k != id ==>
        serverMap.elements[k].View() == old(serverMap.elements[k].View())
      ensures Servers() == old(Servers())[id := serverMap.elements[id].View()]
    {
      ghost var before, after := old(Servers()), Servers();
      ghost var expected := before[id := serverMap.elements[id].View()];
      assert after.Keys == serverMap.elements.Keys == expected.Keys;
      forall k | k in after.Keys
        ensures after[k] == expected[k]
      {
        assert after[k] == serverMap.elements[k].View();
        assert before[k] == old(serverMap.elements[k].View());
      }
    }

    /** OnConnected: the server with this Net becomes NORMAL and joins the ring map of its kind. */
    method OnConnected(net: nat, ghost id: int)
      requires Valid() && NetsDistinct(Abs()) && id in serverMap.elements && serverMap.elements[id].net == Some(net)
      modifies `rings, serverMap`cursor, serverMap.elements.Values
      ensures Valid() && serverMap.cursor == At(id)
      ensures Abs() == Connect(hasher, old(Abs()), id)
    {
      ghost var connected := Connect(hasher, Abs(), id);
      assert Servers()[id] == serverMap.elements[id].View();
      var server := FindByNet(net, id);
      MarkConnected(server, id);
      assert Servers() == connected.servers;
      JoinRing(server.info.kind, server.info.id);
      assert rings == connected.rings;
    }

    /** The ring map of the kind, made if need be, gets the server. */
    method JoinRing(kind: int, id: int)
      modifies `rings
      ensures rings == old(rings)[kind := Joined(hasher, RingIn(old(rings), kind), id)]
    {
      if kind !in rings {
        rings := rings[kind := RingView({}, map[])];
      }
      rings := rings[kind := Joined(hasher, rings[kind], id)];
    }

    /** OnDisConnected: the server with this Net is marked lost at the clock and leaves its ring map. */
    method OnDisConnected(net: nat, now: int, ghost id: int)
      requires Valid() && NetsDistinct(Abs()) && id in serverMap.elements && serverMap.elements[id].net == Some(net)
      modifies `rings, `log, serverMap`cursor, serverMap.elements.Values
      ensures Valid() && serverMap.cursor == At(id)
      ensures Abs() == Lose(hasher, old(Abs()), id, now)
    {
      var server := FindByNet(net, id);
      Disconnect(server, now, id);
    }

    /** What OnDisConnected does with the record it has found. */
    method Disconnect(server: ConnectData, now: int, ghost id: int)
      requires Valid() && id in serverMap.elements && serverMap.elements[id] == server
      modifies `rings, `log, server`state, server`lastTime
      ensures Abs() == Lose(hasher, old(Abs()), id, now)
    {
      ghost var lost := Lose(hasher, Abs(), id, now);
      assert Servers()[id] == server.View();
      MarkLost(server, now, id);
      assert Servers() == lost.servers && log == lost.log;
      LeaveRing(server.info.kind, server.info.id);
      assert rings == lost.rings;
    }

    method MarkLost(server: ConnectData, now: int, ghost id: int)
      requires Valid() && id in serverMap.elements && serverMap.elements[id] == server
      modifies `log, server`state, server`lastTime
      ensures log == old(log) + [Lost(server.info.id, now)]
      ensures Servers() == old(Servers())[id := old(Servers())[id].(state := DISCONNECT, lastTime := now)]
    {
      assert Servers()[id] == server.View();
      server.state, server.lastTime := DISCONNECT, now;
      OneRecordChanged(id);
      log := log + [Lost(server.info.id, now)];
    }

    method MarkConnected(server: ConnectData, ghost id: int)
      requires Valid() && id in serverMap.elements && serverMap.elements[id] == server
      modifies server`state
      ensures Servers() == old(Servers())[id := old(Servers())[id].(state := NORMAL)]
    {
      assert Servers()[id] == server.View();
      server.state := NORMAL;
      OneRecordChanged(id);
    }

    /** The ring map of the kind, if there is one, loses the server. */
    method LeaveRing(kind: int, id: int)
      modifies `rings
      ensures rings ==
        if kind in old(rings) then old(rings)[kind := Parted(hasher, old(rings)[kind], id)] else old(rings)
    {
      if kind in rings {
        rings := rings[kind := Parted(hasher, rings[kind], id)];
      }
    }

    /** SendToAllNode: every server with a net module, in key order, with the shared cursor. */
    method SendToAllNode() returns (sent: seq<int>)
      requires Valid()
      modifies serverMap`cursor
      ensures Ascending(sent)
      ensures forall id :: id in sent <==> id in serverMap.elements && serverMap.elements[id].net.Some?
      ensures serverMap.cursor == if serverMap.elements == map[] then old(serverMap.cursor) else End
    {
      sent := [];
      var data := serverMap.First();
      while data.Some?
        invariant data.Some? ==> serverMap.cursor.At? && serverMap.cursor.key in serverMap.elements
        invariant data.Some? ==> data.value == serverMap.elements[serverMap.cursor.key]
        invariant data.None? ==> serverMap.cursor == if serverMap.elements == map[] then old(serverMap.cursor) else End
        invariant Ascending(sent)
        invariant forall i :: 0 <= i < |sent| ==> data.Some? ==> sent[i] < serverMap.cursor.key
        invariant forall id :: id in sent <==>
          id in serverMap.elements && serverMap.elements[id].net.Some? && (data.Some? ==> id < serverMap.cursor.key)
        decreases if data.None? then 0 else 1 + |Above(serverMap.elements.Keys, serverMap.cursor.key)|
      {
        if data.value.net.Some? {
          sent := sent + [data.value.info.id];
        }
        ghost var before := serverMap.cursor.key;
        data := serverMap.Next();
        if data.Some? {
          FewerAbove(serverMap.elements.Keys, before, serverMap.cursor.key);
        }
      }
    }

    /** One callback of a net module that is polled. */
    method Call(net: nat, now: int, e: Event, ghost id: int)
      requires Valid() && NetsDistinct(Abs()) && id in serverMap.elements && serverMap.elements[id].net == Some(net)
      modifies `rings, `log, `pending, serverMap`cursor, serverMap.elements.Values
      ensures Valid() && Abs() == Raise(hasher, old(Abs()), id, now, e)
      ensures serverMap.cursor == CursorAfter(old(serverMap.cursor), id, e)
    {
      match e
      case Connected => OnConnected(net, id);
      case Disconnected => OnDisConnected(net, now, id);
      case Broadcast => var sent := SendToAllNode();
      case Announce(info) => AddNode(info);
    }

    /** net_module->Update(): the callbacks it makes, in order. */
    method Poll(net: nat, now: int, events: seq<Event>, ghost id: int)
      requires Valid() && NetsDistinct(Abs()) && id in serverMap.elements && serverMap.elements[id].net == Some(net)
      requires Polled(serverMap.elements[id].View()) && serverMap.cursor == At(id)
      modifies `rings, `log, `pending, serverMap`cursor, serverMap.elements.Values
      ensures Valid()
      ensures Abs() == RaiseAll(hasher, old(Abs()), id, now, events)
      ensures serverMap.cursor == if EndsOnBroadcast(events) then End else At(id)
    {
      ghost var s := Abs();
      for i := 0 to |events|
        invariant Valid() && Abs() == RaiseAll(hasher, s, id, now, events[..i])
        invariant serverMap.cursor == if EndsOnBroadcast(events[..i]) then End else At(id)
      {
        PolledKeepsNet(s, events[..i], id, now);
        OneMoreEvent(hasher, s, id, now, events, i);
        Call(net, now, events[i], id);
      }
      assert events[..|events|] == events;
    }

    /** After any events the record that is polled has its Net, and no other one has. */
    lemma PolledKeepsNet(s: State, events: seq<Event>, id: int, now: int)
      requires NetsDistinct(s) && id in s.servers && Polled(s.servers[id])
      requires id in serverMap.elements && Abs() == RaiseAll(hasher, s, id, now, events)
      ensures NetsDistinct(Abs()) && serverMap.elements[id].net == s.servers[id].net
    {
      EventsKeepNets(hasher, s, id, now, events);
      assert Abs().servers[id] == serverMap.elements[id].View();
    }

    method KeepState(data: ConnectData, now: int)
      modifies data`lastTime
      ensures data.lastTime == if old(data.lastTime) + 10 > now then old(data.lastTime) else now
    {
      if data.lastTime + 10 > now {
        return;
      }
      data.lastTime := now;
    }

    /** The body of the ProcessUpdate loop for the record under the cursor. */
    method TakeTurn(data: ConnectData, now: int, events: seq<Event>, ghost id: int)
      requires Valid() && NetsDistinct(Abs()) && Filed(Abs())
      requires id in serverMap.elements && serverMap.elements[id] == data && serverMap.cursor == At(id)
      modifies this, serverMap`cursor, serverMap.elements.Values
      ensures Valid() && id in old(Abs()).servers
      ensures Abs() == Turn(hasher, old(Abs()), id, now, events)
      ensures serverMap.cursor ==
        if Polled(old(Abs()).servers[id]) && EndsOnBroadcast(events) then End else At(id)
    {
      ghost var s := Abs();
      assert s.servers[id] == data.View();
      match data.state
      case DISCONNECT =>
        if data.net.Some? {
          data.net := None;
          data.state := RECONNECT;
          OneRecordChanged(id);
        }
      case CONNECTING =>
        if data.net.Some? {
          Poll(data.net.value, now, events, id);
        }
      case NORMAL =>
        if data.net.Some? {
          Poll(data.net.value, now, events, id);
          KeepPolled(data, now, id);
        }
      case RECONNECT =>
        if data.lastTime + 10 >= now {
          return;
        }
        // a server waiting to reconnect has no module left to drop
        data.state := CONNECTING;
        data.net := Some(nextNet);
        nextNet := nextNet + 1;
        log := log + [Dialled(data.info.id, now)];
        OneRecordChanged(id);
    }

    /** KeepState on the record that was just polled. */
    method KeepPolled(data: ConnectData, now: int, ghost id: int)
      requires Valid() && id in serverMap.elements && serverMap.elements[id] == data
      modifies data`lastTime
      ensures Abs() == NodeLinks.KeepState(old(Abs()), id, now)
    {
      ghost var s := Abs();
      assert s.servers[id] == data.View();
      KeepState(data, now);
      OneRecordChanged(id);
      assert Servers() == NodeLinks.KeepState(s, id, now).servers;
    }

    /** The key under the cursor when a loop step returned a record. */
    ghost function Current(data: Option<ConnectData>): Option<int>
      reads serverMap
    {
      if data.Some? && serverMap.cursor.At? then Some(serverMap.cursor.key) else None
    }

    /** A record a loop step returned is the one under the cursor. */
    ghost predicate OnCursor(data: Option<ConnectData>)
      reads serverMap
    {
      data.Some? ==> serverMap.cursor.At? && serverMap.cursor.key in serverMap.elements
                     && data.value == serverMap.elements[serverMap.cursor.key]
    }

    /** Next, from the record that had its turn or from the end. */
    method NextRecord(ghost id: int) returns (next: Option<ConnectData>)
      requires Valid() && id in serverMap.elements && (serverMap.cursor == End || serverMap.cursor == At(id))
      modifies serverMap`cursor
      ensures OnCursor(next)
      ensures Current(next) == if old(serverMap.cursor) == End then None else After(serverMap.elements.Keys, id)
    {
      next := serverMap.Next();
    }

    /** One round of the ProcessUpdate loop: the turn of the current record, then Next. */
    method TurnAndNext(data: ConnectData, now: int, script: Script, ghost id: int) returns (next: Option<ConnectData>)
      requires Valid() && NetsDistinct(Abs()) && Filed(Abs())
      requires id in serverMap.elements && serverMap.elements[id] == data && serverMap.cursor == At(id)
      modifies this, serverMap`cursor, serverMap.elements.Values
      ensures Valid() && OnCursor(next)
      ensures id in old(Abs()).servers && Abs() == Turn(hasher, old(Abs()), id, now, script(id))
      ensures Current(next) == NextTurn(old(Abs()), id, script)
    {
      ghost var keys := Abs().servers.Keys;
      assert keys == serverMap.elements.Keys;
      TakeTurn(data, now, script(data.info.id), id);
      next := NextRecord(id);
    }

    /** How many records a loop over the cursor still has in front of it. */
    ghost function Left(data: Option<ConnectData>): nat
      reads serverMap
    {
      var cur := Current(data);
      if cur.None? then 0 else 1 + |Above(serverMap.elements.Keys, cur.value)|
    }

    /** A round takes a pass one server further. */
    method Round(data: ConnectData, now: int, script: Script, ghost s: State, ghost handled: seq<int>)
      returns (next: Option<ConnectData>)
      requires Valid() && OnCursor(Some(data)) && Filed(s)
      requires PassedUpTo(hasher, s, now, script, Abs(), Current(Some(data)), handled)
      modifies this, serverMap`cursor, serverMap.elements.Values
      ensures Valid() && OnCursor(next) && Left(next) < old(Left(Some(data)))
      ensures PassedUpTo(hasher, s, now, script, Abs(), Current(next), handled + [data.info.id])
    {
      ghost var id, before := data.info.id, Abs();
      assert before.servers.Keys == serverMap.elements.Keys;
      PassGoesOn(hasher, s, now, script, before, id, handled);
      next := TurnAndNext(data, now, script, id);
    }

    /** First, where a pass begins. */
    method FirstRecord(now: int, script: Script) returns (data: Option<ConnectData>)
      requires Valid() && NetsDistinct(Abs()) && Filed(Abs())
      modifies serverMap`cursor
      ensures Abs() == old(Abs()) && OnCursor(data)
      ensures PassedUpTo(hasher, Abs(), now, script, Abs(), Current(data), [])
    {
      assert Abs().servers.Keys == serverMap.elements.Keys;
      PassBegins(hasher, Abs(), now, script);
      data := serverMap.First();
    }

    /** ProcessUpdate; returns the ids that got a turn, in order. */
    method ProcessUpdate(now: int, script: Script) returns (handled: seq<int>)
      requires Valid() && NetsDistinct(Abs()) && Filed(Abs())
      modifies this, serverMap`cursor, serverMap.elements.Values
      ensures Valid() && Passed(Abs(), handled) == Pass(hasher, old(Abs()), now, script)
    {
      handled := [];
      ghost var s := Abs();
      var data := FirstRecord(now, script);
      while data.Some?
        invariant Valid() && OnCursor(data)
        invariant PassedUpTo(hasher, s, now, script, Abs(), Current(data), handled)
        decreases Left(data)
      {
        ghost var earlier := handled;
        handled := handled + [data.value.info.id];
        data := Round(data.value, now, script, s, earlier);
      }
      PassEnds(hasher, s, now, script, Abs(), handled);
    }

    /** One announced node: a new record that is connecting, or nothing for a known id. */
    method AdmitNode(info: NodeInfo, now: int)
      requires Valid()
      modifies `nextNet, `log, serverMap`elements
      ensures Valid() && Abs() == AdmitOne(old(Abs()), info, now)
      ensures fresh(serverMap.elements.Values - old(serverMap.elements.Values))
    {
      ghost var s := Abs();
      var known := serverMap.GetElement(info.id);
      if known.None? {
        var data := new ConnectData(info, CONNECTING, now, Some(nextNet));
        nextNet := nextNet + 1;
        log := log + [Dialled(info.id, now)];
        var added := serverMap.AddElement(info.id, data);
        assert Servers() == s.servers[info.id := data.View()];
      }
    }

    method ProcessNetConnect(now: int)
      requires Valid() && Filed(Abs())
      modifies `pending, `nextNet, `log, serverMap`elements
      ensures Valid() && Abs() == Admit(old(Abs()), now)
      ensures fresh(serverMap.elements.Values - old(serverMap.elements.Values))
    {
      ghost var s := Abs();
      for i := 0 to |pending|
        invariant Valid() && pending == s.pending
        invariant fresh(serverMap.elements.Values - old(serverMap.elements.Values))
        invariant Abs() == AdmitAll(s, pending[..i], now)
      {
        assert pending[..i + 1][..i] == pending[..i];
        AdmitNode(pending[i], now);
      }
      assert pending[..|pending|] == pending;
      pending := [];
    }

    /** One frame. */
    method Update(now: int, script: Script) returns (handled: seq<int>)
      requires Valid() && Inv(hasher, Abs())
      modifies this, serverMap, serverMap.elements.Values
      ensures Valid() && Inv(hasher, Abs())
      ensures fresh(serverMap.elements.Values - old(serverMap.elements.Values))
      ensures Abs() == Step(hasher, old(Abs()), NodeLinks.Update(now, script))
      ensures handled == Pass(hasher, old(Abs()), now, script).handled
    {
      StepKeepsInv(hasher, Abs(), NodeLinks.Update(now, script));
      handled := ProcessUpdate(now, script);
      ProcessNetConnect(now);
    }

    /** Every run of a module is a run of the state machine NodeLinks proves things about. */
    static method RunAll(hasher: Hasher, actions: seq<Action>) returns (m: NetClientModule)
      ensures fresh(m) && fresh(m.serverMap) && fresh(m.serverMap.elements.Values)
      ensures m.Valid() && m.hasher == hasher && m.Abs() == Run(hasher, actions)
    {
      m := new NetClientModule(hasher);
      for i := 0 to |actions|
        invariant fresh(m) && fresh(m.serverMap) && fresh(m.serverMap.elements.Values)
        invariant m.Valid() && m.hasher == hasher && m.Abs() == Run(hasher, actions[..i])
      {
        assert actions[..i + 1][..i] == actions[..i];
        RunKeepsInv(hasher, actions[..i]);
        match actions[i]
        case AddNode(info) => m.AddNode(info);
        case Update(now, script) => var handled := m.Update(now, script);
      }
      assert actions[..|actions|] == actions;
    }

    /** GetRandomNodeID for a clock that hashes to `value`; None is the null dereference. */
    method GetRandomNodeID(kind: int, value: Bytes.UInt32) returns (id: Option<int>)
      ensures id == RandomNodeID(Abs(), kind, value)
    {
      if kind !in rings {
        return Some(0);
      }
      if rings[kind].nodes.Keys == {} {
        return None;
      }
      var nodes := rings[kind].nodes;
      SuitExists(nodes.Keys, value);
      var key :| key in nodes && IsSuit(nodes.Keys, value, key);
      SuitIsUnique(nodes.Keys, value, key, SuitKey(nodes, value));
      return Some(nodes[key].data);
    }
  }
}
