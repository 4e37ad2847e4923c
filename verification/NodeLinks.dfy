/**
 The connection state machine of NetClientModule (src/plugin/core/net/net_client_module.cc) as a
 function of the clock and of the events each net module raises while it is polled.
 */
module NodeLinks {
  import Bytes
  import opened HashRing
  import opened SetOrder
  import opened Wrappers

  datatype LinkState = DISCONNECT | CONNECTING | NORMAL | RECONNECT

  datatype NodeInfo = NodeInfo(id: int, kind: int, ip: string, port: int, name: string, bufferSize: nat)

  /** ConnectData: `net` names the Net of the server's net module, if it has one. */
  datatype Server = Server(info: NodeInfo, state: LinkState, lastTime: int, net: Option<nat>)

  /** Connection attempts and losses, with the clock. */
  datatype LogEntry = Dialled(id: int, at: int) | Lost(id: int, at: int)

  datatype State = State(
    servers: map<int, Server>,
    /** mxServerTypeMap: one ConsistentHashMapEx for each kind that ever connected. */
    rings: map<int, RingView>,
    pending: seq<NodeInfo>,
    nextNet: nat,
    log: seq<LogEntry>)

  const INIT := State(map[], map[], [], 0, [])

  /**
   What the callbacks of a polled net module do: a socket event of that module, a broadcast to all
   nodes (which runs the shared cursor to its end), or the announcement of a node.
   */
  datatype Event = Connected | Disconnected | Broadcast | Announce(info: NodeInfo)

  type Script = int -> seq<Event>

  // ------------------------------------------------------------------------------------------
  // Steps
  // ------------------------------------------------------------------------------------------

  function RingIn(rings: map<int, RingView>, kind: int): RingView {
    if kind in rings then rings[kind] else RingView({}, map[])
  }

  function RingOf(s: State, kind: int): RingView {
    RingIn(s.rings, kind)
  }

  /** OnConnected for the server the search found. */
  function Connect(h: Hasher, s: State, id: int): State
    requires id in s.servers
  {
    var server := s.servers[id].(state := NORMAL);
    var ring := RingOf(s, server.info.kind);
    s.(servers := s.servers[id := server],
    rings := s.rings[server.info.kind := Joined(h, ring, server.info.id)])
  }

  /** OnDisConnected for the server the search found. */
  function Lose(h: Hasher, s: State, id: int, now: int): State
    requires id in s.servers
  {
    var server := s.servers[id].(state := DISCONNECT, lastTime := now);
    var ring := RingOf(s, server.info.kind);
    s.(servers := s.servers[id := server],
    rings := if server.info.kind in s.rings then s.rings[server.info.kind := Parted(h, ring, server.info.id)] else s.rings,
    log := s.log + [Lost(id, now)])
  }

  function Raise(h: Hasher, s: State, id: int, now: int, e: Event): State
    requires id in s.servers
  {
    match e
    case Connected => Connect(h, s, id)
    case Disconnected => Lose(h, s, id, now)
    case Broadcast => s
    case Announce(info) => s.(pending := s.pending + [info])
  }

  function RaiseAll(h: Hasher, s: State, id: int, now: int, events: seq<Event>): (r: State)
    requires id in s.servers
    ensures r.servers.Keys == s.servers.Keys
    decreases |events|
  {
    if events == [] then s
    else
      var last := |events| - 1;
      Raise(h, RaiseAll(h, s, id, now, events[..last]), id, now, events[last])
  }

  function KeepState(s: State, id: int, now: int): State
    requires id in s.servers
  {
    if s.servers[id].lastTime + 10 > now then s
    else s.(servers := s.servers[id := s.servers[id].(lastTime := now)])
  }

  /** A new net module for the server, and Connect on it. */
  function Dial(s: State, server: Server, now: int): State {
    var id := server.info.id;
    s.(servers := s.servers[id := server.(state := CONNECTING, net := Some(s.nextNet))],
    nextNet := s.nextNet + 1,
    log := s.log + [Dialled(id, now)])
  }

  /** The net module of the server is polled when its turn comes. */
  predicate Polled(server: Server) {
    (server.state.CONNECTING? || server.state.NORMAL?) && server.net.Some?
  }

  /** One server's turn in ProcessUpdate. */
  function Turn(h: Hasher, s: State, id: int, now: int, events: seq<Event>): (r: State)
    requires id in s.servers && s.servers[id].info.id == id
    ensures r.servers.Keys == s.servers.Keys
  {
    var server := s.servers[id];
    match server.state
    case DISCONNECT =>
      if server.net.Some? then s.(servers := s.servers[id := server.(state := RECONNECT, net := None)]) else s
    case CONNECTING => if server.net.Some? then RaiseAll(h, s, id, now, events) else s
    case NORMAL => if server.net.Some? then KeepState(RaiseAll(h, s, id, now, events), id, now) else s
    case RECONNECT => if server.lastTime + 10 >= now then s else Dial(s, server, now)
  }

  /** The events leave the shared cursor at its end: the last one to move it was a broadcast. */
  predicate EndsOnBroadcast(events: seq<Event>) {
    events != [] &&
    var last := events[|events| - 1];
    last.Broadcast? || (last.Announce? && EndsOnBroadcast(events[..|events| - 1]))
  }

  /** Every server is filed under its own id. */
  predicate Filed(s: State) {
    forall id :: id in s.servers ==> s.servers[id].info.id == id
  }

  datatype Passed = Passed(state: State, handled: seq<int>)

  lemma FewerAbove(keys: set<int>, x: int, y: int)
    requires y in keys && x < y
    ensures |Above(keys, y)| < |Above(keys, x)|
  {
    SubsetSize(Above(keys, y), Above(keys, x) - {y});
  }

  lemma {:induction false} SubsetSize(a: set<int>, b: set<int>)
    requires a <= b
    ensures |a| <= |b|
    decreases |a|
  {
    EmptyOrInhabited(a);
    if a != {} {
      var x :| x in a;
      SubsetSize(a - {x}, b - {x});
    }
  }

  /** ProcessUpdate from a cursor position on: the new state and the ids handled. */
  ghost function PassFrom(h: Hasher, s: State, cur: Option<int>, now: int, script: Script): (p: Passed)
    requires Filed(s) && (cur.Some? ==> cur.value in s.servers)
    ensures Filed(p.state) && SameInfo(s, p.state)
    decreases if cur.None? then 0 else 1 + |Above(s.servers.Keys, cur.value)|
  {
    if cur.None? then Passed(s, [])
    else
      var id := cur.value;
      var after := Turn(h, s, id, now, script(id));
      TurnKeepsInfo(h, s, id, now, script(id));
      if Polled(s.servers[id]) && EndsOnBroadcast(script(id)) then Passed(after, [id])
      else
        var next := After(after.servers.Keys, id);
        assert next.Some? ==> |Above(s.servers.Keys, next.value)| < |Above(s.servers.Keys, id)| by {
          if next.Some? {
            FewerAbove(s.servers.Keys, id, next.value);
          }
        }
        var p := PassFrom(h, after, next, now, script);
        Passed(p.state, [id] + p.handled)
  }

  /** Where the shared cursor goes from a server that had its turn. */
  ghost function NextTurn(s: State, id: int, script: Script): Option<int>
    requires id in s.servers
  {
    if Polled(s.servers[id]) && EndsOnBroadcast(script(id)) then None else After(s.servers.Keys, id)
  }

  /** A pass from a server on is its turn and the pass from where that leaves the shared cursor. */
  lemma PassFromTurn(h: Hasher, s: State, id: int, now: int, script: Script)
    requires Filed(s) && id in s.servers
    ensures Filed(Turn(h, s, id, now, script(id)))
    ensures var next := NextTurn(s, id, script);
      next.Some? ==> next.value in Turn(h, s, id, now, script(id)).servers
    ensures var q := PassFrom(h, Turn(h, s, id, now, script(id)), NextTurn(s, id, script), now, script);
      PassFrom(h, s, Some(id), now, script) == Passed(q.state, [id] + q.handled)
  {
    TurnKeepsInfo(h, s, id, now, script(id));
    if Polled(s.servers[id]) && EndsOnBroadcast(script(id)) {
      var after := Turn(h, s, id, now, script(id));
      assert PassFrom(h, after, None, now, script) == Passed(after, []);
      assert [id] + [] == [id];
    }
  }

  /** ProcessUpdate. */
  ghost function Pass(h: Hasher, s: State, now: int, script: Script): (p: Passed)
    requires Filed(s)
    ensures Filed(p.state) && SameInfo(s, p.state)
  {
    PassFrom(h, s, First(s.servers.Keys), now, script)
  }

  /** A pass over `s` that has come to the state `t` and the cursor `cur`, with these ids handled. */
  ghost predicate PassedUpTo(
      h: Hasher, s: State, now: int, script: Script, t: State, cur: Option<int>, handled: seq<int>)
    requires Filed(s)
  {
    && Filed(t) && NetsDistinct(t) && (cur.Some? ==> cur.value in t.servers)
    && var rest := PassFrom(h, t, cur, now, script);
      Pass(h, s, now, script) == Passed(rest.state, handled + rest.handled)
  }

  lemma PassBegins(h: Hasher, s: State, now: int, script: Script)
    requires Filed(s) && NetsDistinct(s)
    ensures PassedUpTo(h, s, now, script, s, First(s.servers.Keys), [])
  {
    var handled := Pass(h, s, now, script).handled;
    assert [] + handled == handled;
  }

  lemma PassGoesOn(h: Hasher, s: State, now: int, script: Script, t: State, id: int, handled: seq<int>)
    requires Filed(s) && PassedUpTo(h, s, now, script, t, Some(id), handled)
    ensures PassedUpTo(
        h, s, now, script, Turn(h, t, id, now, script(id)), NextTurn(t, id, script), handled + [id])
    ensures var next := NextTurn(t, id, script);
      next.Some? ==> |Above(t.servers.Keys, next.value)| < |Above(t.servers.Keys, id)|
  {
    PassFromTurn(h, t, id, now, script);
    TurnKeepsNets(h, t, id, now, script(id));
    var next := NextTurn(t, id, script);
    var q := PassFrom(h, Turn(h, t, id, now, script(id)), next, now, script);
    Bytes.AppendAssociative(handled, [id], q.handled);
    if next.Some? {
      FewerAbove(t.servers.Keys, id, next.value);
    }
  }

  lemma PassEnds(h: Hasher, s: State, now: int, script: Script, t: State, handled: seq<int>)
    requires Filed(s) && PassedUpTo(h, s, now, script, t, None, handled)
    ensures Pass(h, s, now, script) == Passed(t, handled)
  {
    assert handled + [] == handled;
  }

  /** ProcessNetConnect for the first of the announced nodes. */
  function AdmitOne(s: State, info: NodeInfo, now: int): State {
    if info.id in s.servers then s
    else Dial(s, Server(info, CONNECTING, now, None), now)
  }

  function AdmitAll(s: State, infos: seq<NodeInfo>, now: int): (t: State)
    requires Filed(s)
    ensures Filed(t) && SameInfo(s, t)
  {
    if infos == [] then s
    else AdmitOne(AdmitAll(s, infos[..|infos| - 1], now), infos[|infos| - 1], now)
  }

  /** ProcessNetConnect. */
  function Admit(s: State, now: int): (t: State)
    requires Filed(s)
    ensures Filed(t) && SameInfo(s, t)
  {
    AdmitAll(s, s.pending, now).(pending := [])
  }

  // ------------------------------------------------------------------------------------------
  // Identity: a node keeps its address and kind
  // ------------------------------------------------------------------------------------------

  /** Every known server is still known, with the same address and kind. */
  predicate SameInfo(s: State, t: State) {
    forall id :: id in s.servers ==> id in t.servers && t.servers[id].info == s.servers[id].info
  }

  lemma {:induction false} RaiseAllKeepsInfo(h: Hasher, s: State, id: int, now: int, events: seq<Event>)
    requires id in s.servers
    ensures SameInfo(s, RaiseAll(h, s, id, now, events))
    decreases |events|
  {
    if events != [] {
      RaiseAllKeepsInfo(h, s, id, now, events[..|events| - 1]);
    }
  }

  lemma TurnKeepsInfo(h: Hasher, s: State, id: int, now: int, events: seq<Event>)
    requires Filed(s) && id in s.servers
    ensures SameInfo(s, Turn(h, s, id, now, events)) && Filed(Turn(h, s, id, now, events))
  {
    RaiseAllKeepsInfo(h, s, id, now, events);
  }

  // ------------------------------------------------------------------------------------------
  // Invariant
  // ------------------------------------------------------------------------------------------

  /** A server has a net module unless it waits to reconnect, and no two servers share one. */
  predicate NetsDistinct(s: State) {
    && (forall id :: id in s.servers ==> (s.servers[id].state.RECONNECT? <==> s.servers[id].net.None?))
    && (forall id :: id in s.servers && s.servers[id].net.Some? ==> s.servers[id].net.value < s.nextNet)
    && (forall a, b :: a in s.servers && b in s.servers && a != b && s.servers[a].net.Some? ==>
          s.servers[a].net != s.servers[b].net)
  }

  /** A server is in the ring map of its kind exactly when it is connected. */
  predicate RingsMatch(s: State) {
    && (forall id :: id in s.servers ==>
          (s.servers[id].state.NORMAL? <==> id in RingOf(s, s.servers[id].info.kind).members))
    && (forall kind, id :: kind in s.rings && id in s.rings[kind].members ==>
          id in s.servers && s.servers[id].info.kind == kind)
  }

  /** Every virtual node on a ring belongs to a member of its map, collisions included. */
  predicate RingsHonest(h: Hasher, s: State) {
    forall kind :: kind in s.rings ==> Honest(h, s.rings[kind].nodes, s.rings[kind].members)
  }

  /** The latest log entry about a server. */
  function LastAbout(log: seq<LogEntry>, id: int): Option<LogEntry> {
    if log == [] then None
    else if log[|log| - 1].id == id then Some(log[|log| - 1])
    else LastAbout(log[..|log| - 1], id)
  }

  /** An attempt is the server's first, or comes more than 10 after its latest loss. */
  predicate Justified(before: seq<LogEntry>, entry: LogEntry) {
    entry.Dialled? ==>
      var last := LastAbout(before, entry.id);
      last.None? || (last.value.Lost? && entry.at > last.value.at + 10)
  }

  predicate GoodLog(log: seq<LogEntry>) {
    forall i :: 0 <= i < |log| ==> Justified(log[..i], log[i])
  }

  /** The log so far is good, and last_time of a lost server is the clock of its latest loss. */
  ghost predicate LogMatches(s: State) {
    && GoodLog(s.log)
    && (forall id :: id in s.servers && (s.servers[id].state.DISCONNECT? || s.servers[id].state.RECONNECT?) ==>
          LastAbout(s.log, id) == Some(Lost(id, s.servers[id].lastTime)))
    && (forall id :: LastAbout(s.log, id).Some? ==> id in s.servers)
  }

  ghost predicate Inv(h: Hasher, s: State) {
    Filed(s) && NetsDistinct(s) && RingsMatch(s) && RingsHonest(h, s) && LogMatches(s)
  }

  lemma LogGrows(log: seq<LogEntry>, entry: LogEntry)
    requires GoodLog(log) && Justified(log, entry)
    ensures GoodLog(log + [entry])
    ensures forall id :: LastAbout(log + [entry], id) == if id == entry.id then Some(entry) else LastAbout(log, id)
  {
    var longer := log + [entry];
    assert longer[..|log|] == log;
    forall i | 0 <= i < |longer|
      ensures Justified(longer[..i], longer[i])
    {
      assert longer[..i] == log[..i];
    }
  }

  lemma ConnectKeepsRings(h: Hasher, s: State, id: int)
    requires Filed(s) && RingsMatch(s) && RingsHonest(h, s) && id in s.servers
    ensures RingsMatch(Connect(h, s, id)) && RingsHonest(h, Connect(h, s, id))
  {
    var ring := RingOf(s, s.servers[id].info.kind);
    InsertKeepsHonest(h, ring.nodes, ring.members, id);
  }

  lemma LoseKeepsRings(h: Hasher, s: State, id: int, now: int)
    requires Filed(s) && RingsMatch(s) && RingsHonest(h, s) && id in s.servers
    ensures RingsMatch(Lose(h, s, id, now)) && RingsHonest(h, Lose(h, s, id, now))
  {
    var ring := RingOf(s, s.servers[id].info.kind);
    EraseKeepsHonest(h, ring.nodes, ring.members, id);
  }

  lemma ConnectKeepsInv(h: Hasher, s: State, id: int)
    requires Inv(h, s) && id in s.servers && !s.servers[id].state.RECONNECT?
    ensures Inv(h, Connect(h, s, id))
  {
    ConnectKeepsRings(h, s, id);
    RaiseKeepsNets(h, s, id, 0, Connected);
  }

  lemma LoseKeepsInv(h: Hasher, s: State, id: int, now: int)
    requires Inv(h, s) && id in s.servers && !s.servers[id].state.RECONNECT?
    ensures Inv(h, Lose(h, s, id, now))
  {
    LoseKeepsRings(h, s, id, now);
    RaiseKeepsNets(h, s, id, now, Disconnected);
    LogGrows(s.log, Lost(id, now));
  }

  lemma PendingKeepsInv(h: Hasher, s: State, pending: seq<NodeInfo>)
    requires Inv(h, s)
    ensures Inv(h, s.(pending := pending))
  {
  }

  lemma RaiseKeepsInv(h: Hasher, s: State, id: int, now: int, e: Event)
    requires Inv(h, s) && id in s.servers && !s.servers[id].state.RECONNECT?
    ensures Inv(h, Raise(h, s, id, now, e))
  {
    match e
    case Connected => ConnectKeepsInv(h, s, id);
    case Disconnected => LoseKeepsInv(h, s, id, now);
    case Broadcast =>
    case Announce(info) => PendingKeepsInv(h, s, s.pending + [info]);
  }

  /** A server that events leave disconnected was lost at the present clock. */
  lemma {:induction false} StateAfterEvents(h: Hasher, s: State, id: int, now: int, events: seq<Event>)
    requires id in s.servers && Polled(s.servers[id])
    ensures var server := RaiseAll(h, s, id, now, events).servers[id];
      !server.state.RECONNECT? && (server.state.DISCONNECT? ==> server.lastTime == now)
    decreases |events|
  {
    if events != [] {
      StateAfterEvents(h, s, id, now, events[..|events| - 1]);
    }
  }

  lemma {:induction false} RaiseAllKeepsInv(h: Hasher, s: State, id: int, now: int, events: seq<Event>)
    requires Inv(h, s) && id in s.servers && Polled(s.servers[id])
    ensures Inv(h, RaiseAll(h, s, id, now, events))
    decreases |events|
  {
    if events != [] {
      var earlier := events[..|events| - 1];
      RaiseAllKeepsInv(h, s, id, now, earlier);
      StateAfterEvents(h, s, id, now, earlier);
      RaiseKeepsInv(h, RaiseAll(h, s, id, now, earlier), id, now, events[|events| - 1]);
    }
  }

  lemma RaiseKeepsNets(h: Hasher, s: State, id: int, now: int, e: Event)
    requires NetsDistinct(s) && id in s.servers && !s.servers[id].state.RECONNECT?
    ensures var t := Raise(h, s, id, now, e);
      NetsDistinct(t) && t.servers[id].net == s.servers[id].net && t.nextNet == s.nextNet
  {
  }

  /** Events leave every server's net module where it was. */
  lemma {:induction false} EventsKeepNets(h: Hasher, s: State, id: int, now: int, events: seq<Event>)
    requires NetsDistinct(s) && id in s.servers && Polled(s.servers[id])
    ensures var t := RaiseAll(h, s, id, now, events);
      NetsDistinct(t) && t.servers[id].net == s.servers[id].net && t.nextNet == s.nextNet
    decreases |events|
  {
    if events != [] {
      var earlier := events[..|events| - 1];
      EventsKeepNets(h, s, id, now, earlier);
      StateAfterEvents(h, s, id, now, earlier);
      RaiseKeepsNets(h, RaiseAll(h, s, id, now, earlier), id, now, events[|events| - 1]);
    }
  }

  lemma DialKeepsNets(s: State, server: Server, now: int)
    requires NetsDistinct(s)
    ensures NetsDistinct(Dial(s, server, now))
  {
  }

  lemma RetireKeepsNets(s: State, id: int)
    requires NetsDistinct(s) && id in s.servers
    ensures NetsDistinct(s.(servers := s.servers[id := s.servers[id].(state := RECONNECT, net := None)]))
  {
  }

  lemma KeepStateKeepsNets(s: State, id: int, now: int)
    requires NetsDistinct(s) && id in s.servers
    ensures NetsDistinct(KeepState(s, id, now))
  {
  }

  lemma TurnKeepsNets(h: Hasher, s: State, id: int, now: int, events: seq<Event>)
    requires Filed(s) && NetsDistinct(s) && id in s.servers
    ensures NetsDistinct(Turn(h, s, id, now, events))
  {
    match s.servers[id].state
    case DISCONNECT => RetireKeepsNets(s, id);
    case CONNECTING => EventsKeepNets(h, s, id, now, events);
    case NORMAL =>
      EventsKeepNets(h, s, id, now, events);
      KeepStateKeepsNets(RaiseAll(h, s, id, now, events), id, now);
    case RECONNECT => DialKeepsNets(s, s.servers[id], now);
  }

  lemma DialKeepsRings(h: Hasher, s: State, server: Server, now: int)
    requires RingsMatch(s) && RingsHonest(h, s)
    requires server.info.id in s.servers ==> s.servers[server.info.id] == server && server.state.RECONNECT?
    ensures RingsMatch(Dial(s, server, now)) && RingsHonest(h, Dial(s, server, now))
  {
  }

  lemma DialKeepsLog(s: State, server: Server, now: int)
    requires LogMatches(s)
    requires server.info.id in s.servers ==> s.servers[server.info.id] == server && server.state.RECONNECT?
    requires server.info.id in s.servers ==> now > server.lastTime + 10
    ensures LogMatches(Dial(s, server, now))
  {
    LogGrows(s.log, Dialled(server.info.id, now));
  }

  lemma DialKeepsInv(h: Hasher, s: State, server: Server, now: int)
    requires Inv(h, s)
    requires server.info.id in s.servers ==> s.servers[server.info.id] == server && server.state.RECONNECT?
    requires server.info.id in s.servers ==> now > server.lastTime + 10
    ensures Inv(h, Dial(s, server, now))
  {
    DialKeepsNets(s, server, now);
    DialKeepsRings(h, s, server, now);
    DialKeepsLog(s, server, now);
  }

  lemma KeepStateKeepsInv(h: Hasher, s: State, id: int, now: int)
    requires Inv(h, s) && id in s.servers && !s.servers[id].state.RECONNECT?
    requires s.servers[id].state.DISCONNECT? ==> s.servers[id].lastTime == now
    ensures Inv(h, KeepState(s, id, now))
  {
    assert KeepState(s, id, now).rings == s.rings;
  }

  lemma RetireKeepsInv(h: Hasher, s: State, id: int)
    requires Inv(h, s) && id in s.servers && s.servers[id].state.DISCONNECT?
    ensures Inv(h, s.(servers := s.servers[id := s.servers[id].(state := RECONNECT, net := None)]))
  {
  }

  lemma TurnKeepsInv(h: Hasher, s: State, id: int, now: int, events: seq<Event>)
    requires Inv(h, s) && id in s.servers
    ensures Inv(h, Turn(h, s, id, now, events))
  {
    match s.servers[id].state
    case DISCONNECT => RetireKeepsInv(h, s, id);
    case CONNECTING => RaiseAllKeepsInv(h, s, id, now, events);
    case NORMAL =>
      RaiseAllKeepsInv(h, s, id, now, events);
      StateAfterEvents(h, s, id, now, events);
      KeepStateKeepsInv(h, RaiseAll(h, s, id, now, events), id, now);
    case RECONNECT =>
      if s.servers[id].lastTime + 10 < now {
        DialKeepsInv(h, s, s.servers[id], now);
      }
  }

  lemma {:induction false} PassKeepsInv(h: Hasher, s: State, cur: Option<int>, now: int, script: Script)
    requires Inv(h, s) && (cur.Some? ==> cur.value in s.servers)
    ensures var t := PassFrom(h, s, cur, now, script).state;
      Inv(h, t)
    decreases if cur.None? then 0 else 1 + |Above(s.servers.Keys, cur.value)|
  {
    if cur.Some? {
      var id := cur.value;
      var after := Turn(h, s, id, now, script(id));
      TurnKeepsInv(h, s, id, now, script(id));
      TurnKeepsInfo(h, s, id, now, script(id));
      var next := After(after.servers.Keys, id);
      if next.Some? {
        FewerAbove(s.servers.Keys, id, next.value);
      }
      PassKeepsInv(h, after, next, now, script);
    }
  }

  lemma {:induction false} AdmitAllKeepsInv(h: Hasher, s: State, infos: seq<NodeInfo>, now: int)
    requires Inv(h, s)
    ensures Inv(h, AdmitAll(s, infos, now))
    decreases |infos|
  {
    if infos != [] {
      var before, info := AdmitAll(s, infos[..|infos| - 1], now), infos[|infos| - 1];
      AdmitAllKeepsInv(h, s, infos[..|infos| - 1], now);
      if info.id !in before.servers {
        DialKeepsInv(h, before, Server(info, CONNECTING, now, None), now);
      }
    }
  }

  // ------------------------------------------------------------------------------------------
  // Whole runs
  // ------------------------------------------------------------------------------------------

  /** What drives the module: a call of AddNode, or one Update at a clock. */
  datatype Action = AddNode(info: NodeInfo) | Update(now: int, script: Script)

  ghost function Step(h: Hasher, s: State, a: Action): (t: State)
    requires Filed(s)
    ensures Filed(t) && SameInfo(s, t)
  {
    match a
    case AddNode(info) => s.(pending := s.pending + [info])
    case Update(now, script) => Admit(Pass(h, s, now, script).state, now)
  }

  lemma StepKeepsInv(h: Hasher, s: State, a: Action)
    requires Inv(h, s)
    ensures Inv(h, Step(h, s, a))
  {
    match a
    case AddNode(info) => PendingKeepsInv(h, s, s.pending + [info]);
    case Update(now, script) =>
      PassKeepsInv(h, s, First(s.servers.Keys), now, script);
      var passed := Pass(h, s, now, script).state;
      AdmitAllKeepsInv(h, passed, passed.pending, now);
      PendingKeepsInv(h, AdmitAll(passed, passed.pending, now), []);
  }

  /** The state after a run from the start, whatever the clocks and the events. */
  ghost function Run(h: Hasher, actions: seq<Action>): (s: State)
    ensures Filed(s)
    decreases |actions|
  {
    if actions == [] then INIT
    else Step(h, Run(h, actions[..|actions| - 1]), actions[|actions| - 1])
  }

  lemma {:induction false} RunKeepsInv(h: Hasher, actions: seq<Action>)
    ensures Inv(h, Run(h, actions))
    decreases |actions|
  {
    if actions != [] {
      RunKeepsInv(h, actions[..|actions| - 1]);
      StepKeepsInv(h, Run(h, actions[..|actions| - 1]), actions[|actions| - 1]);
    }
  }

  /** A known node never changes its address or kind, however often it is announced again. */
  lemma {:induction false} NodesKeepTheirInfo(h: Hasher, earlier: seq<Action>, later: seq<Action>)
    ensures SameInfo(Run(h, earlier), Run(h, earlier + later))
    decreases |later|
  {
    if later == [] {
      assert earlier + later == earlier;
    } else {
      var before := later[..|later| - 1];
      NodesKeepTheirInfo(h, earlier, before);
      assert (earlier + later)[..|earlier + later| - 1] == earlier + before;
    }
  }

  /**
   In every run a server is on the ring map of its kind exactly when it is connected, on no other
   ring map ever, and no two servers share a Net.
   */
  lemma OnRingIffConnected(h: Hasher, actions: seq<Action>, id: int, kind: int)
    requires id in Run(h, actions).servers
    ensures var s := Run(h, actions);
      && (id in RingOf(s, kind).members <==>
          s.servers[id].state.NORMAL? && s.servers[id].info.kind == kind)
      && forall other :: other in s.servers && other != id && s.servers[id].net.Some? ==>
           s.servers[other].net != s.servers[id].net
  {
    RunKeepsInv(h, actions);
  }

  /**
   GetRandomNodeID with a clock that hashes to `value`: 0 for a kind that never connected, None
   where the source dereferences the null pointer an empty ring gives.
   */
  ghost function RandomNodeID(s: State, kind: int, value: Bytes.UInt32): Option<int> {
    if kind !in s.rings then Some(0)
    else if s.rings[kind].nodes.Keys == {} then None
    else Some(Owner(s.rings[kind].nodes, value))
  }

  /**
   Whatever the hash and its collisions, a node picked from a ring is a connected node of that kind: the
   one on the nearest position from the value on. A kind that never connected has 0.
   */
  lemma RandomNodeIsConnected(h: Hasher, actions: seq<Action>, kind: int, value: Bytes.UInt32)
    ensures var s := Run(h, actions); var picked := RandomNodeID(s, kind, value);
      if kind !in s.rings then picked == Some(0)
      else picked.Some? ==>
        && picked.value in s.servers
        && s.servers[picked.value].state.NORMAL?
        && s.servers[picked.value].info.kind == kind
        && var nodes := s.rings[kind].nodes;
          exists key :: key in nodes && nodes[key].data == picked.value
            && forall k :: k in nodes ==> Distance(value, key) <= Distance(value, k)
  {
    var s := Run(h, actions);
    RunKeepsInv(h, actions);
    if kind in s.rings && s.rings[kind].nodes.Keys != {} {
      var nodes := s.rings[kind].nodes;
      var key := SuitKey(nodes, value);
      assert nodes[key].data in s.rings[kind].members;
      SuitIsNearestIff(nodes.Keys, value, key);
    }
  }

  /**
   Every connection attempt of a run but a server's first comes after a loss of that server, with no
   attempt between, and more than 10 after the clock of that loss.
   */
  lemma ReconnectsAreSpaced(h: Hasher, actions: seq<Action>, i: nat)
    requires i < |Run(h, actions).log| && Run(h, actions).log[i].Dialled?
    ensures var log := Run(h, actions).log; var last := LastAbout(log[..i], log[i].id);
      last.Some? ==> last.value.Lost? && log[i].at > last.value.at + 10
  {
    RunKeepsInv(h, actions);
    assert Justified(Run(h, actions).log[..i], Run(h, actions).log[i]);
  }

  // ------------------------------------------------------------------------------------------
  // Who gets a turn
  // ------------------------------------------------------------------------------------------

  /** The server's poll, if it is its turn, leaves the shared cursor at the end of the map. */
  predicate Cuts(s: State, id: int, script: Script)
    requires id in s.servers
  {
    Polled(s.servers[id]) && EndsOnBroadcast(script(id))
  }

  lemma {:induction false} EventsTouchOneServer(h: Hasher, s: State, id: int, now: int, events: seq<Event>)
    requires id in s.servers
    ensures forall other :: other in s.servers && other != id ==>
      RaiseAll(h, s, id, now, events).servers[other] == s.servers[other]
    decreases |events|
  {
    if events != [] {
      EventsTouchOneServer(h, s, id, now, events[..|events| - 1]);
    }
  }

  lemma TurnTouchesOneServer(h: Hasher, s: State, id: int, now: int, events: seq<Event>)
    requires Filed(s) && id in s.servers
    ensures forall other :: other in s.servers && other != id ==>
      Turn(h, s, id, now, events).servers[other] == s.servers[other]
  {
    EventsTouchOneServer(h, s, id, now, events);
  }

  predicate Ascending(ids: seq<int>) {
    forall i, j :: 0 <= i < j < |ids| ==> ids[i] < ids[j]
  }

  /** No server at or after `from` but the last one ends the pass. */
  predicate NoneCuts(s: State, from: int, script: Script) {
    forall id, later :: id in s.servers && later in s.servers && from <= id < later ==> !Cuts(s, id, script)
  }

  lemma {:induction false} PassFromCoversIff(h: Hasher, s: State, cur: int, now: int, script: Script)
    requires Filed(s) && cur in s.servers
    ensures var handled := PassFrom(h, s, Some(cur), now, script).handled;
      && Ascending(handled)
      && (forall id :: id in handled ==> id in s.servers && cur <= id)
      && ((forall id :: id in s.servers && cur <= id ==> id in handled) <==> NoneCuts(s, cur, script))
    decreases |Above(s.servers.Keys, cur)|
  {
    var after := Turn(h, s, cur, now, script(cur));
    var next := After(after.servers.Keys, cur);
    var handled := PassFrom(h, s, Some(cur), now, script).handled;
    TurnKeepsInfo(h, s, cur, now, script(cur));
    TurnTouchesOneServer(h, s, cur, now, script(cur));
    if Cuts(s, cur, script) || next.None? {
      assert next.None? ==> PassFrom(h, after, next, now, script) == Passed(after, []);
      assert handled == [cur];
      if next.Some? {
        assert next.value in s.servers && next.value !in handled;
      }
    } else {
      FewerAbove(s.servers.Keys, cur, next.value);
      PassFromCoversIff(h, after, next.value, now, script);
      var rest := PassFrom(h, after, next, now, script).handled;
      assert handled == [cur] + rest;
      NextIsHandled(s.servers.Keys, cur, next.value, rest);
      CutsLater(s, after, cur, next.value, script);
    }
  }

  lemma NextIsHandled(keys: set<int>, cur: int, next: int, rest: seq<int>)
    requires cur in keys && IsAfter(keys, cur, next)
    requires Ascending(rest) && forall id :: id in rest ==> id in keys && next <= id
    ensures Ascending([cur] + rest) && forall id :: id in [cur] + rest ==> id in keys && cur <= id
    ensures (forall id :: id in keys && cur <= id ==> id in [cur] + rest) <==>
            (forall id :: id in keys && next <= id ==> id in rest)
  {
    assert forall i :: 0 <= i < |rest| ==> rest[i] in rest;
    assert forall id :: id in [cur] + rest <==> id == cur || id in rest;
    assert forall id :: id in keys && cur <= id <==> id == cur || (id in keys && next <= id);
  }

  lemma CutsLater(s: State, after: State, cur: int, next: int, script: Script)
    requires cur in s.servers && !Cuts(s, cur, script) && IsAfter(s.servers.Keys, cur, next)
    requires after.servers.Keys == s.servers.Keys
    requires forall id :: id in s.servers && id != cur ==> after.servers[id] == s.servers[id]
    ensures NoneCuts(after, next, script) <==> NoneCuts(s, cur, script)
  {
    assert forall id :: id in s.servers && cur < id ==> next <= id && Cuts(after, id, script) == Cuts(s, id, script);
  }

  /**
   One ProcessUpdate pass gives turns in ascending order of id, none twice, and gives every server
   its turn exactly when no polled server but the last leaves the shared cursor at the end. Socket
   events never do: the search they run puts the cursor back on the server being polled.
   */
  lemma PassCoversAllIff(h: Hasher, s: State, now: int, script: Script)
    requires Filed(s)
    ensures var handled := Pass(h, s, now, script).handled;
      && Ascending(handled)
      && (forall id :: id in handled ==> id in s.servers)
      && ((forall id :: id in s.servers ==> id in handled) <==>
          forall id, later :: id in s.servers && later in s.servers && id < later ==> !Cuts(s, id, script))
  {
    var first := First(s.servers.Keys);
    if first.Some? {
      PassFromCoversIff(h, s, first.value, now, script);
      assert NoneCuts(s, first.value, script) <==>
             forall id, later :: id in s.servers && later in s.servers && id < later ==> !Cuts(s, id, script);
    }
  }

  /** The server a first announcement of `info` makes, dialled at `now` with Net number `net`. */
  function Fresh(info: NodeInfo, now: int, net: nat): Server {
    Server(info, CONNECTING, now, Some(net))
  }

  lemma AnnouncedOne(h: Hasher, info: NodeInfo, now: int, script: Script)
    ensures var s := Run(h, [AddNode(info), Update(now, script)]);
      s.servers == map[info.id := Fresh(info, now, 0)] && s.rings == map[] && s.pending == []
  {
    var actions := [AddNode(info), Update(now, script)];
    assert actions[..1] == [AddNode(info)] && actions[..1][..0] == [];
    var s := INIT.(pending := [info]);
    assert [] + [info] == [info] && [info][..0] == [];
    assert Run(h, actions[..1]) == s;
    assert Pass(h, s, now, script).state == s;
    assert AdmitAll(s, [info], now) == AdmitOne(s, info, now);
  }

  lemma PairIsPending(h: Hasher, a: NodeInfo, b: NodeInfo)
    ensures Run(h, [AddNode(a), AddNode(b)]) == INIT.(pending := [a, b])
  {
    var actions := [AddNode(a), AddNode(b)];
    assert actions[..1] == [AddNode(a)] && actions[..1][..0] == [];
    assert [] + [a] == [a] && [a] + [b] == [a, b];
    assert Run(h, actions[..1]) == INIT.(pending := [a]);
  }

  lemma AnnouncedPair(h: Hasher, a: NodeInfo, b: NodeInfo, now: int, script: Script)
    requires a.id != b.id
    ensures var s := Run(h, [AddNode(a), AddNode(b), Update(now, script)]);
      && s.servers == map[a.id := Fresh(a, now, 0), b.id := Fresh(b, now, 1)]
      && s.rings == map[] && s.pending == []
  {
    var actions := [AddNode(a), AddNode(b), Update(now, script)];
    assert actions[..2] == [AddNode(a), AddNode(b)];
    var s := INIT.(pending := [a, b]);
    PairIsPending(h, a, b);
    assert Pass(h, s, now, script).state == s;
    assert [a, b][..1] == [a] && [a][..0] == [];
    assert AdmitAll(s, [a], now) == AdmitOne(s, a, now);
  }

  /**
   Two servers are announced; while the first is polled in the next update its callback broadcasts, and
   the second gets no turn.
   */
  lemma BroadcastEndsThePass(h: Hasher, a: NodeInfo, b: NodeInfo, quiet: Script)
    requires a.id < b.id
    ensures var s := Run(h, [AddNode(a), AddNode(b), Update(0, quiet)]);
      s.servers.Keys == {a.id, b.id} && Pass(h, s, 1, id => [Broadcast]).handled == [a.id]
  {
    AnnouncedPair(h, a, b, 0, quiet);
    var s := Run(h, [AddNode(a), AddNode(b), Update(0, quiet)]);
    FirstIs(s.servers.Keys, a.id);
    assert EndsOnBroadcast([Broadcast]);
  }

  // ------------------------------------------------------------------------------------------
  // Rings without collisions
  // ------------------------------------------------------------------------------------------

  /** All servers are among `names`, and every ring is exactly its members' virtual nodes. */
  ghost predicate RingsExact(h: Hasher, s: State, names: set<int>) {
    && s.servers.Keys <= names
    && (forall i :: 0 <= i < |s.pending| ==> s.pending[i].id in names)
    && (forall kind :: kind in s.rings ==>
          s.rings[kind].members <= names && IsRingOf(h, s.rings[kind].nodes, s.rings[kind].members))
  }

  ghost predicate EventsAmong(events: seq<Event>, names: set<int>) {
    forall i :: 0 <= i < |events| && events[i].Announce? ==> events[i].info.id in names
  }

  ghost predicate Among(a: Action, names: set<int>) {
    match a
    case AddNode(info) => info.id in names
    case Update(now, script) => forall id :: EventsAmong(script(id), names)
  }

  lemma FewerNames(h: Hasher, some: set<int>, names: set<int>)
    requires some <= names && CollisionFree(h, names)
    ensures CollisionFree(h, some)
  {
  }

  lemma RaiseKeepsExact(h: Hasher, s: State, names: set<int>, id: int, now: int, e: Event)
    requires CollisionFree(h, names) && RingsExact(h, s, names)
    requires id in s.servers && s.servers[id].info.id == id
    requires e.Announce? ==> e.info.id in names
    ensures RingsExact(h, Raise(h, s, id, now, e), names)
  {
    var ring := RingOf(s, s.servers[id].info.kind);
    FewerNames(h, ring.members + {id}, names);
    match e
    case Connected => InsertKeepsRingOf(h, ring.nodes, ring.members, id);
    case Disconnected => EraseKeepsRingOf(h, ring.nodes, ring.members, id);
    case Broadcast =>
    case Announce(info) =>
  }

  lemma {:induction false} RaiseAllKeepsExact(
      h: Hasher, s: State, names: set<int>, id: int, now: int, events: seq<Event>)
    requires CollisionFree(h, names) && RingsExact(h, s, names) && EventsAmong(events, names)
    requires id in s.servers && s.servers[id].info.id == id
    ensures RingsExact(h, RaiseAll(h, s, id, now, events), names)
    decreases |events|
  {
    if events != [] {
      var earlier := events[..|events| - 1];
      RaiseAllKeepsExact(h, s, names, id, now, earlier);
      RaiseAllKeepsInfo(h, s, id, now, earlier);
      RaiseKeepsExact(h, RaiseAll(h, s, id, now, earlier), names, id, now, events[|events| - 1]);
    }
  }

  lemma {:induction false} PassKeepsExact(
      h: Hasher, s: State, names: set<int>, cur: Option<int>, now: int, script: Script)
    requires CollisionFree(h, names) && RingsExact(h, s, names) && Filed(s)
    requires (forall id :: EventsAmong(script(id), names)) && (cur.Some? ==> cur.value in s.servers)
    ensures RingsExact(h, PassFrom(h, s, cur, now, script).state, names)
    decreases if cur.None? then 0 else 1 + |Above(s.servers.Keys, cur.value)|
  {
    if cur.Some? {
      var id := cur.value;
      var after := Turn(h, s, id, now, script(id));
      if Polled(s.servers[id]) {
        RaiseAllKeepsExact(h, s, names, id, now, script(id));
      }
      TurnKeepsInfo(h, s, id, now, script(id));
      var next := After(after.servers.Keys, id);
      if next.Some? {
        FewerAbove(s.servers.Keys, id, next.value);
      }
      PassKeepsExact(h, after, names, next, now, script);
    }
  }

  lemma {:induction false} AdmitAllKeepsExact(h: Hasher, s: State, names: set<int>, infos: seq<NodeInfo>, now: int)
    requires RingsExact(h, s, names) && Filed(s)
    requires forall i :: 0 <= i < |infos| ==> infos[i].id in names
    ensures RingsExact(h, AdmitAll(s, infos, now), names)
    decreases |infos|
  {
    if infos != [] {
      AdmitAllKeepsExact(h, s, names, infos[..|infos| - 1], now);
    }
  }

  lemma {:induction false} RunKeepsExact(h: Hasher, names: set<int>, actions: seq<Action>)
    requires CollisionFree(h, names)
    requires forall i :: 0 <= i < |actions| ==> Among(actions[i], names)
    ensures RingsExact(h, Run(h, actions), names)
    decreases |actions|
  {
    if actions != [] {
      var earlier, a := actions[..|actions| - 1], actions[|actions| - 1];
      var s := Run(h, earlier);
      RunKeepsExact(h, names, earlier);
      match a
      case AddNode(info) =>
      case Update(now, script) =>
        PassKeepsExact(h, s, names, First(s.servers.Keys), now, script);
        var passed := Pass(h, s, now, script).state;
        AdmitAllKeepsExact(h, passed, names, passed.pending, now);
    }
  }

  lemma RingEmptyIff(h: Hasher, ring: RingView)
    requires IsRingOf(h, ring.nodes, ring.members)
    ensures ring.nodes.Keys == {} <==> ring.members == {}
  {
    EmptyOrInhabited(ring.members);
    if ring.members != {} {
      var id :| id in ring.members;
      assert h(VirtualNode(id, 0)) in ring.nodes;
    } else {
      assert forall k :: k !in ring.nodes;
    }
  }

  /** No server of the kind is connected. */
  predicate NoneConnected(s: State, kind: int) {
    forall id :: id in s.servers && s.servers[id].info.kind == kind ==> !s.servers[id].state.NORMAL?
  }

  lemma NoMembersIff(s: State, kind: int)
    requires RingsMatch(s) && kind in s.rings
    ensures s.rings[kind].members == {} <==> NoneConnected(s, kind)
  {
    var members := s.rings[kind].members;
    EmptyOrInhabited(members);
    if members != {} {
      var id :| id in members;
      assert id in RingOf(s, s.servers[id].info.kind).members;
    }
  }

  /**
   When the virtual nodes of the announced ids do not collide, GetRandomNodeID dereferences a null
   pointer exactly when nodes of that kind have connected and none is connected now.
   */
  lemma RandomNodeFaultsIff(h: Hasher, names: set<int>, actions: seq<Action>, kind: int, value: Bytes.UInt32)
    requires CollisionFree(h, names)
    requires forall i :: 0 <= i < |actions| ==> Among(actions[i], names)
    ensures var s := Run(h, actions);
      RandomNodeID(s, kind, value).None? <==> kind in s.rings && NoneConnected(s, kind)
  {
    var s := Run(h, actions);
    if kind in s.rings {
      assert IsRingOf(h, s.rings[kind].nodes, s.rings[kind].members) by {
        RunKeepsExact(h, names, actions);
      }
      RingEmptyIff(h, s.rings[kind]);
      assert s.rings[kind].members == {} <==> NoneConnected(s, kind) by {
        RunKeepsInv(h, actions);
        NoMembersIff(s, kind);
      }
    }
  }

  /** A connected server of the kind has a position on the kind's ring. */
  predicate SomeoneOnRing(s: State, kind: int)
    requires kind in s.rings
  {
    exists id :: id in s.servers && s.servers[id].info.kind == kind && s.servers[id].state.NORMAL?
      && HasPosition(s.rings[kind].nodes, id)
  }

  /**
   Whatever the hash and its collisions, GetRandomNodeID dereferences a null pointer exactly when nodes
   of that kind have connected and no connected one has a position on their ring.
   */
  lemma RandomNodeFaultsForAnyHashIff(h: Hasher, actions: seq<Action>, kind: int, value: Bytes.UInt32)
    ensures var s := Run(h, actions);
      RandomNodeID(s, kind, value).None? <==> kind in s.rings && !SomeoneOnRing(s, kind)
  {
    var s := Run(h, actions);
    RunKeepsInv(h, actions);
    if kind in s.rings {
      var nodes := s.rings[kind].nodes;
      assert nodes.Keys == {} || exists key :: key in nodes;
      if key :| key in nodes {
        var id := nodes[key].data;
        assert id in s.rings[kind].members;
        assert s.servers[id].info.kind == kind && id in RingOf(s, s.servers[id].info.kind).members;
        assert HasPosition(nodes, id);
      }
    }
  }

  /** A node is announced, connects and is lost again: a pick of its kind then faults, whatever the hash. */
  lemma RandomNodeFaultsAfterLoss(h: Hasher, info: NodeInfo, quiet: Script, value: Bytes.UInt32)
    ensures var dropped := Update(1, id => [Connected, Disconnected]);
      RandomNodeID(Run(h, [AddNode(info), Update(0, quiet), dropped]), info.kind, value) == None
  {
    var dropped: Script := id => [Connected, Disconnected];
    var actions := [AddNode(info), Update(0, quiet), Update(1, dropped)];
    assert actions[..2] == [AddNode(info), Update(0, quiet)];
    var s := Run(h, actions[..2]);
    AnnouncedOne(h, info, 0, quiet);
    ConnectedAndLost(h, s, info.id, 1);
    var t := RaiseAll(h, s, info.id, 1, dropped(info.id));
    FirstIs(s.servers.Keys, info.id);
    assert !EndsOnBroadcast(dropped(info.id)) && After(t.servers.Keys, info.id) == None;
    PassFromTurn(h, s, info.id, 1, dropped);
    assert Turn(h, s, info.id, 1, dropped(info.id)) == t && NextTurn(s, info.id, dropped) == None;
    assert PassFrom(h, t, None, 1, dropped) == Passed(t, []);
    assert Pass(h, s, 1, dropped).state == t;
  }

  lemma ConnectedAndLost(h: Hasher, s: State, id: int, now: int)
    requires id in s.servers && s.servers[id].info.id == id && s.rings == map[]
    ensures var t := RaiseAll(h, s, id, now, [Connected, Disconnected]); var kind := s.servers[id].info.kind;
      kind in t.rings && t.rings[kind].nodes == map[] && t.pending == s.pending
  {
    var events := [Connected, Disconnected];
    assert events[..1] == [Connected] && events[..1][..0] == [];
    assert RaiseAll(h, s, id, now, events[..1]) == Connect(h, s, id);
    InsertEraseRestoresIff(h, map[], id);
  }
}
