/**
 The consistent-hash ring of src/core/consistent_hash.h, over an arbitrary hash of virtual nodes
 (the source hashes "<name>-<index>" with CRC32). Nodes are the int names it is instantiated with.
 */
module HashRing {
  import opened Bytes
  import opened SetOrder
  import opened Wrappers

  const NODE_COUNT := 500

  datatype VirtualNode = VirtualNode(data: int, index: nat)

  type Hasher = VirtualNode -> UInt32

  type Ring = map<UInt32, VirtualNode>

  // ------------------------------------------------------------------------------------------
  // Insert and Erase
  // ------------------------------------------------------------------------------------------

  function InsertVirtual(h: Hasher, ring: Ring, v: VirtualNode): Ring {
    if h(v) in ring then ring else ring[h(v) := v]
  }

  /** The first `n` virtual nodes of `name` inserted in turn. */
  function InsertSome(h: Hasher, ring: Ring, name: int, n: nat): Ring {
    if n == 0 then ring else InsertVirtual(h, InsertSome(h, ring, name, n - 1), VirtualNode(name, n - 1))
  }

  function Insert(h: Hasher, ring: Ring, name: int): Ring {
    InsertSome(h, ring, name, NODE_COUNT)
  }

  /** The first `n` positions of `name` on the ring. */
  function Positions(h: Hasher, name: int, n: nat): set<UInt32> {
    set i: nat | i < n :: h(VirtualNode(name, i))
  }

  /** Erasing removes whatever sits on a position, whoever owns it. */
  function Erase(h: Hasher, ring: Ring, name: int): Ring {
    ring - Positions(h, name, NODE_COUNT)
  }

  lemma {:induction false} InsertedRing(h: Hasher, ring: Ring, name: int, n: nat)
    ensures var after := InsertSome(h, ring, name, n);
      && after.Keys == ring.Keys + Positions(h, name, n)
      && (forall k :: k in ring ==> after[k] == ring[k])
      && (forall k :: k in after && k !in ring ==>
            after[k].data == name && after[k].index < n && h(after[k]) == k)
    decreases n
  {
    if n > 0 {
      InsertedRing(h, ring, name, n - 1);
      var v := VirtualNode(name, n - 1);
      assert Positions(h, name, n) == Positions(h, name, n - 1) + {h(v)} by {
        forall k | k in Positions(h, name, n)
          ensures k in Positions(h, name, n - 1) + {h(v)}
        {
          var i: nat :| i < n && k == h(VirtualNode(name, i));
          if i != n - 1 {
            assert k in Positions(h, name, n - 1);
          }
        }
      }
    }
  }

  /** A node has five hundred positions: inserting takes those that are free, erasing clears all of them. */
  lemma FiveHundredPositions(h: Hasher, ring: Ring, name: int, k: UInt32)
    ensures k in Insert(h, ring, name) <==> k in ring || exists i: nat :: i < 500 && h(VirtualNode(name, i)) == k
    ensures k in Erase(h, ring, name) <==> k in ring && forall i: nat :: i < 500 ==> h(VirtualNode(name, i)) != k
    ensures k in ring && k in Erase(h, ring, name) ==> Erase(h, ring, name)[k] == ring[k]
  {
    InsertedRing(h, ring, name, NODE_COUNT);
  }

  /** Insert then Erase gives the old ring back exactly when the node's positions were all free. */
  lemma InsertEraseRestoresIff(h: Hasher, ring: Ring, name: int)
    ensures Erase(h, Insert(h, ring, name), name) == ring <==> ring.Keys !! Positions(h, name, NODE_COUNT)
  {
    InsertedRing(h, ring, name, NODE_COUNT);
    var taken := Positions(h, name, NODE_COUNT);
    var back := Erase(h, Insert(h, ring, name), name);
    assert back.Keys == ring.Keys - taken;
    if ring.Keys !! taken {
      assert back.Keys == ring.Keys;
    } else {
      var k :| k in ring.Keys && k in taken;
      assert k !in back;
    }
  }

  // ------------------------------------------------------------------------------------------
  // Lookup
  // ------------------------------------------------------------------------------------------

  /** `key` is the position std::map::lower_bound(hash) finds, wrapping to the first one. */
  predicate IsSuit(keys: set<UInt32>, hash: UInt32, key: UInt32) {
    && key in keys
    && if key >= hash then forall k :: k in keys && k >= hash ==> key <= k
       else forall k :: k in keys ==> k < hash && key <= k
  }

  lemma SuitExists(keys: set<UInt32>, hash: UInt32)
    requires keys != {}
    ensures exists key :: IsSuit(keys, hash, key)
  {
    var above := set k | k in keys && k >= hash;
    assert forall k :: k in keys && k >= hash ==> k in above;
    var w: UInt32 :| w in if above != {} then above else keys;
    var key: UInt32 := LeastExists(if above != {} then above else keys, w);
    assert IsSuit(keys, hash, key);
  }

  lemma SuitIsUnique(keys: set<UInt32>, hash: UInt32, x: UInt32, y: UInt32)
    requires IsSuit(keys, hash, x) && IsSuit(keys, hash, y)
    ensures x == y
  {
  }

  /** How far it is from a hash to a position, going up and around the end. */
  function Distance(hash: UInt32, key: UInt32): int {
    (key - hash) % 0x1_0000_0000
  }

  /** So it is the nearest position from the hash on, around the end if need be. */
  lemma SuitIsNearestIff(keys: set<UInt32>, hash: UInt32, key: UInt32)
    ensures IsSuit(keys, hash, key) <==>
      key in keys && forall k :: k in keys ==> Distance(hash, key) <= Distance(hash, k)
  {
    assert forall k: UInt32 :: Distance(hash, k) == if k >= hash then k - hash else k - hash + 0x1_0000_0000;
  }

  ghost function SuitKey(ring: Ring, hash: UInt32): (key: UInt32)
    requires ring.Keys != {}
    ensures IsSuit(ring.Keys, hash, key)
  {
    SuitExists(ring.Keys, hash);
    var key :| IsSuit(ring.Keys, hash, key);
    key
  }

  /** The node a key is assigned to. */
  ghost function Owner(ring: Ring, hash: UInt32): int
    requires ring.Keys != {}
  {
    ring[SuitKey(ring, hash)].data
  }

  /** Whatever the hash, inserting a node moves a key only to that node. */
  lemma InsertMovesOnlyToNewNode(h: Hasher, ring: Ring, name: int, hash: UInt32)
    requires ring.Keys != {}
    ensures Insert(h, ring, name).Keys != {}
    ensures Owner(Insert(h, ring, name), hash) in {Owner(ring, hash), name}
  {
    InsertedRing(h, ring, name, NODE_COUNT);
    var after := Insert(h, ring, name);
    var old_ :| old_ in ring.Keys;
    assert old_ in after.Keys;
    var key := SuitKey(after, hash);
    if key in ring {
      assert IsSuit(ring.Keys, hash, key);
      SuitIsUnique(ring.Keys, hash, key, SuitKey(ring, hash));
    }
  }

  /** No other node sits on one of the node's positions. */
  predicate OwnPositions(h: Hasher, ring: Ring, name: int) {
    forall k :: k in ring && k in Positions(h, name, NODE_COUNT) ==> ring[k].data == name
  }

  /** No key's position changes, unless it was one of the node's own, when `name` is erased. */
  ghost predicate EraseMovesOnlyOwnPositions(h: Hasher, ring: Ring, name: int) {
    forall hash: UInt32 :: ring.Keys != {} && Owner(ring, hash) != name ==>
      Erase(h, ring, name).Keys != {} && SuitKey(Erase(h, ring, name), hash) == SuitKey(ring, hash)
  }

  /** Erasing a node leaves the positions of all other keys alone exactly when it shares none of its own. */
  lemma EraseMovesOnlyOwnPositionsIff(h: Hasher, ring: Ring, name: int)
    ensures EraseMovesOnlyOwnPositions(h, ring, name) <==> OwnPositions(h, ring, name)
  {
    var after := Erase(h, ring, name);
    if OwnPositions(h, ring, name) {
      forall hash: UInt32 | ring.Keys != {} && Owner(ring, hash) != name
        ensures after.Keys != {} && SuitKey(after, hash) == SuitKey(ring, hash)
      {
        SurvivingPosition(h, ring, name, hash);
      }
    } else {
      var k :| k in ring && k in Positions(h, name, NODE_COUNT) && ring[k].data != name;
      SuitIsUnique(ring.Keys, k, k, SuitKey(ring, k));
      assert Owner(ring, k) != name;
      assert k !in after;
    }
  }

  /** A key whose position survives the erasure stays on it. */
  lemma SurvivingPosition(h: Hasher, ring: Ring, name: int, hash: UInt32)
    requires ring.Keys != {} && SuitKey(ring, hash) in Erase(h, ring, name)
    ensures Erase(h, ring, name).Keys != {} && SuitKey(Erase(h, ring, name), hash) == SuitKey(ring, hash)
  {
    var after, key := Erase(h, ring, name), SuitKey(ring, hash);
    assert key in after.Keys;
    assert IsSuit(after.Keys, hash, key);
    SuitIsUnique(after.Keys, hash, key, SuitKey(after, hash));
  }

  /** A key whose position is erased goes where that position's own hash goes. */
  lemma ErasedPosition(h: Hasher, ring: Ring, name: int, hash: UInt32)
    requires ring.Keys != {} && Erase(h, ring, name).Keys != {}
    ensures SuitKey(Erase(h, ring, name), hash) == SuitKey(Erase(h, ring, name), SuitKey(ring, hash))
  {
    var after, key := Erase(h, ring, name), SuitKey(ring, hash);
    var next := SuitKey(after, key);
    assert forall k :: k in after.Keys ==> k in ring.Keys;
    assert IsSuit(after.Keys, hash, next);
    SuitIsUnique(after.Keys, hash, next, SuitKey(after, hash));
  }

  /** No key owned by another node changes its node when `name` is erased. */
  ghost predicate EraseMovesOnlyOwnKeys(h: Hasher, ring: Ring, name: int) {
    forall hash: UInt32 :: ring.Keys != {} && Owner(ring, hash) != name ==>
      Erase(h, ring, name).Keys != {} && Owner(Erase(h, ring, name), hash) == Owner(ring, hash)
  }

  /** Behind every position of the node that another node sits on, that other node comes again. */
  ghost predicate SharedPositionsBacked(h: Hasher, ring: Ring, name: int) {
    forall k :: k in ring && k in Positions(h, name, NODE_COUNT) && ring[k].data != name ==>
      Erase(h, ring, name).Keys != {} && Owner(Erase(h, ring, name), k) == ring[k].data
  }

  /**
   Erasing a node leaves all other nodes' keys with their nodes exactly when each position it shares is
   backed: the next one to survive belongs to the node that loses it.
   */
  lemma EraseMovesOnlyOwnKeysIff(h: Hasher, ring: Ring, name: int)
    ensures EraseMovesOnlyOwnKeys(h, ring, name) <==> SharedPositionsBacked(h, ring, name)
  {
    var after := Erase(h, ring, name);
    if SharedPositionsBacked(h, ring, name) {
      forall hash: UInt32 | ring.Keys != {} && Owner(ring, hash) != name
        ensures after.Keys != {} && Owner(after, hash) == Owner(ring, hash)
      {
        var key := SuitKey(ring, hash);
        if key in after {
          SurvivingPosition(h, ring, name, hash);
        } else {
          ErasedPosition(h, ring, name, hash);
        }
      }
    } else {
      var k :| k in ring && k in Positions(h, name, NODE_COUNT) && ring[k].data != name
        && !(after.Keys != {} && Owner(after, k) == ring[k].data);
      SuitIsUnique(ring.Keys, k, k, SuitKey(ring, k));
      assert Owner(ring, k) == ring[k].data;
    }
  }

  /** Sharing positions need not move a key: erase the node inserted second among a superset of its positions. */
  lemma SharingCanBeHarmless(h: Hasher, a: int, b: int)
    requires a != b && Positions(h, a, NODE_COUNT) <= Positions(h, b, NODE_COUNT)
    requires exists k :: k in Positions(h, b, NODE_COUNT) && k !in Positions(h, a, NODE_COUNT)
    ensures var ring := Insert(h, Insert(h, map[], b), a);
      !OwnPositions(h, ring, a) && EraseMovesOnlyOwnKeys(h, ring, a)
  {
    var first := Insert(h, map[], b);
    InsertedRing(h, map[], b, NODE_COUNT);
    InsertedRing(h, first, a, NODE_COUNT);
    var ring := Insert(h, first, a);
    assert forall k :: k in ring ==> ring[k].data == b;
    assert h(VirtualNode(a, 0)) in Positions(h, a, NODE_COUNT);
    var k :| k in Positions(h, b, NODE_COUNT) && k !in Positions(h, a, NODE_COUNT);
    assert k in Erase(h, ring, a).Keys;
  }

  /** The node sits somewhere on the ring. */
  predicate HasPosition(ring: Ring, name: int) {
    exists k :: k in ring && ring[k].data == name
  }

  /** Erasing a node leaves another one a position exactly when that one has a position not shared with it. */
  lemma EraseLeavesPositionIff(h: Hasher, ring: Ring, name: int, other: int)
    ensures HasPosition(Erase(h, ring, name), other) <==>
      exists k :: k in ring && ring[k].data == other && k !in Positions(h, name, NODE_COUNT)
  {
    var after := Erase(h, ring, name);
    forall k | k in ring && ring[k].data == other && k !in Positions(h, name, NODE_COUNT)
      ensures k in after && after[k].data == other
    {
    }
  }

  /** Inserting a node gives it a position exactly when it had one or one of its positions is free. */
  lemma InsertGivesPositionIff(h: Hasher, ring: Ring, name: int)
    ensures HasPosition(Insert(h, ring, name), name) <==>
      HasPosition(ring, name) || exists k :: k in Positions(h, name, NODE_COUNT) && k !in ring
  {
    InsertedRing(h, ring, name, NODE_COUNT);
    var after := Insert(h, ring, name);
    if k :| k in ring && ring[k].data == name {
      assert k in after && after[k].data == name;
    }
    if k :| k in Positions(h, name, NODE_COUNT) && k !in ring {
      assert k in after && after[k].data == name;
    }
  }

  // ------------------------------------------------------------------------------------------
  // Whole runs
  // ------------------------------------------------------------------------------------------

  datatype Op = Add(name: int) | Remove(name: int)

  /** The nodes present after a run, latest operation first in the list. */
  function Members(run: seq<Op>): set<int> {
    if run == [] then {}
    else match run[|run| - 1]
      case Add(n) => Members(run[..|run| - 1]) + {n}
      case Remove(n) => Members(run[..|run| - 1]) - {n}
  }

  /** The ring after a run. */
  function RunRing(h: Hasher, run: seq<Op>): Ring {
    if run == [] then map[]
    else match run[|run| - 1]
      case Add(n) => Insert(h, RunRing(h, run[..|run| - 1]), n)
      case Remove(n) => Erase(h, RunRing(h, run[..|run| - 1]), n)
  }

  /** Every entry is a virtual node of a member, at that node's own position. */
  predicate Honest(h: Hasher, ring: Ring, members: set<int>) {
    forall k :: k in ring ==> ring[k].data in members && ring[k].index < NODE_COUNT && h(ring[k]) == k
  }

  lemma InsertKeepsHonest(h: Hasher, ring: Ring, members: set<int>, name: int)
    requires Honest(h, ring, members)
    ensures Honest(h, Insert(h, ring, name), members + {name})
  {
    InsertedRing(h, ring, name, NODE_COUNT);
  }

  /** Erasing a node leaves no entry of it, whatever else collides with it. */
  lemma EraseKeepsHonest(h: Hasher, ring: Ring, members: set<int>, name: int)
    requires Honest(h, ring, members)
    ensures Honest(h, Erase(h, ring, name), members - {name})
  {
    var after := Erase(h, ring, name);
    forall k | k in ring && ring[k].data == name
      ensures k in Positions(h, name, NODE_COUNT)
    {
      assert ring[k] == VirtualNode(name, ring[k].index);
    }
  }

  /** For any hash, collisions included, every owner on the ring is a live member. */
  lemma {:induction false} OwnersAreMembers(h: Hasher, run: seq<Op>)
    ensures Honest(h, RunRing(h, run), Members(run))
    decreases |run|
  {
    if run != [] {
      var before := run[..|run| - 1];
      OwnersAreMembers(h, before);
      match run[|run| - 1]
      case Add(n) => InsertKeepsHonest(h, RunRing(h, before), Members(before), n);
      case Remove(n) => EraseKeepsHonest(h, RunRing(h, before), Members(before), n);
    }
  }

  /** The virtual nodes of `names` hash without collision. */
  ghost predicate CollisionFree(h: Hasher, names: set<int>) {
    forall v: VirtualNode, w: VirtualNode ::
      v.data in names && w.data in names && v.index < NODE_COUNT && w.index < NODE_COUNT && h(v) == h(w) ==> v == w
  }

  /** The ring is exactly the virtual nodes of the members, each at its position. */
  ghost predicate IsRingOf(h: Hasher, ring: Ring, members: set<int>) {
    && Honest(h, ring, members)
    && forall v: VirtualNode :: v.data in members && v.index < NODE_COUNT ==> h(v) in ring && ring[h(v)] == v
  }

  lemma InsertKeepsRingOf(h: Hasher, ring: Ring, members: set<int>, name: int)
    requires IsRingOf(h, ring, members) && CollisionFree(h, members + {name})
    ensures IsRingOf(h, Insert(h, ring, name), members + {name})
  {
    InsertedRing(h, ring, name, NODE_COUNT);
    InsertKeepsHonest(h, ring, members, name);
    var after := Insert(h, ring, name);
    forall v: VirtualNode | v.data in members + {name} && v.index < NODE_COUNT
      ensures h(v) in after && after[h(v)] == v
    {
      if v.data == name {
        assert VirtualNode(name, v.index) == v;
        assert h(v) in Positions(h, name, NODE_COUNT);
      }
    }
  }

  lemma EraseKeepsRingOf(h: Hasher, ring: Ring, members: set<int>, name: int)
    requires IsRingOf(h, ring, members) && CollisionFree(h, members + {name})
    ensures IsRingOf(h, Erase(h, ring, name), members - {name})
  {
    EraseKeepsHonest(h, ring, members, name);
    var after := Erase(h, ring, name);
    forall v: VirtualNode | v.data in members - {name} && v.index < NODE_COUNT
      ensures h(v) in after && after[h(v)] == v
    {
      forall i: nat | i < NODE_COUNT
        ensures h(VirtualNode(name, i)) != h(v)
      {
        assert VirtualNode(name, i) != v;
      }
    }
  }

  function Names(run: seq<Op>): set<int> {
    set op | op in run :: op.name
  }

  lemma {:induction false} RunIsRingOf(h: Hasher, run: seq<Op>)
    requires CollisionFree(h, Names(run))
    ensures Members(run) <= Names(run)
    ensures IsRingOf(h, RunRing(h, run), Members(run))
    decreases |run|
  {
    if run != [] {
      var before, op := run[..|run| - 1], run[|run| - 1];
      assert forall o :: o in before ==> o in run;
      assert op in run && op.name in Names(run);
      assert Names(before) <= Names(run);
      RunIsRingOf(h, before);
      assert Members(before) + {op.name} <= Names(run);
      match op
      case Add(n) => InsertKeepsRingOf(h, RunRing(h, before), Members(before), n);
      case Remove(n) => EraseKeepsRingOf(h, RunRing(h, before), Members(before), n);
    }
  }

  /**
   Without collisions the ring depends on the present nodes alone: two runs that end with the same
   nodes end with the same ring, whatever was inserted and erased in whatever order.
   */
  lemma RingForgetsHistory(h: Hasher, run: seq<Op>, other: seq<Op>)
    requires CollisionFree(h, Names(run)) && CollisionFree(h, Names(other))
    requires Members(run) == Members(other)
    ensures RunRing(h, run) == RunRing(h, other)
  {
    RunIsRingOf(h, run);
    RunIsRingOf(h, other);
    var a, b := RunRing(h, run), RunRing(h, other);
    assert forall k :: k in a ==> k in b && a[k] == b[k];
    assert forall k :: k in b ==> k in a;
  }

  /**
   Inserting two nodes and erasing the first leaves the second exactly the positions it does not share,
   so the ring of a live node is empty if and only if all its positions are the erased one's too.
   */
  lemma CollisionsEmptyTheRingIff(h: Hasher, a: int, b: int)
    requires a != b
    ensures Members([Add(a), Add(b), Remove(a)]) == {b}
    ensures RunRing(h, [Add(a), Add(b), Remove(a)]).Keys == Positions(h, b, NODE_COUNT) - Positions(h, a, NODE_COUNT)
    ensures RunRing(h, [Add(a), Add(b), Remove(a)]) == map[]
      <==> Positions(h, b, NODE_COUNT) <= Positions(h, a, NODE_COUNT)
  {
    LastOp(h, [Add(a), Add(b)], Remove(a));
    LastOp(h, [Add(a)], Add(b));
    LastOp(h, [], Add(a));
    assert [] + [Add(a)] == [Add(a)] && [Add(a)] + [Add(b)] == [Add(a), Add(b)];
    assert [Add(a), Add(b)] + [Remove(a)] == [Add(a), Add(b), Remove(a)];
    InsertedRing(h, map[], a, NODE_COUNT);
    InsertedRing(h, Insert(h, map[], a), b, NODE_COUNT);
    var left := RunRing(h, [Add(a), Add(b), Remove(a)]);
    assert left.Keys == Positions(h, b, NODE_COUNT) - Positions(h, a, NODE_COUNT);
    assert left == map[] <==> left.Keys == {};
  }

  lemma LastOp(h: Hasher, run: seq<Op>, op: Op)
    ensures Members(run + [op]) == if op.Add? then Members(run) + {op.name} else Members(run) - {op.name}
    ensures RunRing(h, run + [op]) ==
      if op.Add? then Insert(h, RunRing(h, run), op.name) else Erase(h, RunRing(h, run), op.name)
  {
    assert (run + [op])[..|run|] == run;
  }

  // ------------------------------------------------------------------------------------------
  // A ring beside the map of its members
  // ------------------------------------------------------------------------------------------

  /** The keys and the ring of a ConsistentHashMapEx (src/core/map_ex.h). */
  datatype RingView = RingView(members: set<int>, nodes: Ring)

  /** ConsistentHashMapEx::AddElement. */
  function Joined(h: Hasher, ring: RingView, name: int): RingView {
    if name in ring.members then ring else RingView(ring.members + {name}, Insert(h, ring.nodes, name))
  }

  /** ConsistentHashMapEx::RemoveElement. */
  function Parted(h: Hasher, ring: RingView, name: int): RingView {
    if name in ring.members then RingView(ring.members - {name}, Erase(h, ring.nodes, name)) else ring
  }

  // ------------------------------------------------------------------------------------------
  // The mutable ring
  // ------------------------------------------------------------------------------------------

  class ConsistentHash {
    const hasher: Hasher
    var nodes: Ring

    constructor (hasher: Hasher)
      ensures this.hasher == hasher && nodes == map[]
    {
      this.hasher := hasher;
      nodes := map[];
    }

    method ClearAll()
      modifies this
      ensures nodes == map[]
    {
      nodes := map[];
    }

    method InsertNode(name: int)
      modifies this
      ensures nodes == Insert(hasher, old(nodes), name)
    {
      for i := 0 to NODE_COUNT
        invariant nodes == InsertSome(hasher, old(nodes), name, i)
      {
        var v := VirtualNode(name, i);
        var hash := hasher(v);
        if hash !in nodes {
          nodes := nodes[hash := v];
        }
      }
    }

    method EraseNode(name: int)
      modifies this
      ensures nodes == Erase(hasher, old(nodes), name)
    {
      for i := 0 to NODE_COUNT
        invariant nodes == old(nodes) - Positions(hasher, name, i)
      {
        var hash := hasher(VirtualNode(name, i));
        nodes := nodes - {hash};
        assert Positions(hasher, name, i + 1) == Positions(hasher, name, i) + {hash} by {
          forall k | k in Positions(hasher, name, i + 1)
            ensures k in Positions(hasher, name, i) + {hash}
          {
            var j: nat :| j < i + 1 && k == hasher(VirtualNode(name, j));
            if j != i {
              assert k in Positions(hasher, name, i);
            }
          }
        }
      }
    }

    /** The first node at or after the hash, wrapping around; None on an empty ring. */
    method GetSuitNode(hash: UInt32) returns (node: Option<VirtualNode>)
      ensures node.None? <==> nodes == map[]
      ensures node.Some? ==> node.value == nodes[SuitKey(nodes, hash)]
    {
      if nodes == map[] {
        return None;
      }
      assert nodes.Keys != {};
      SuitExists(nodes.Keys, hash);
      var key :| key in nodes.Keys && IsSuit(nodes.Keys, hash, key);
      SuitIsUnique(nodes.Keys, hash, key, SuitKey(nodes, hash));
      return Some(nodes[key]);
    }
  }
}
