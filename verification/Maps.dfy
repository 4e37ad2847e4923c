/**
 The shared-cursor map and the map with an embedded hash ring of src/core/map_ex.h, keyed by int.
 `cursor` is mObjectCurIter: unset until the first First on a non-empty map, then a position in key
 order.
 */
module Maps {
  import opened Bytes
  import opened HashRing
  import opened SetOrder
  import opened Wrappers

  datatype Cursor = Unset | At(key: int) | End

  /** The cursor on a position found in key order. */
  function CursorOn(k: Option<int>): Cursor {
    if k.None? then End else At(k.value)
  }

  /** The element at a position. */
  function ElementOn<TD>(elements: map<int, TD>, k: Option<int>): Option<TD>
    requires k.Some? ==> k.value in elements
  {
    if k.None? then None else Some(elements[k.value])
  }

  class MapEx<TD> {
    var elements: map<int, TD>
    var cursor: Cursor

    constructor ()
      ensures elements == map[] && cursor == Unset
    {
      elements, cursor := map[], Unset;
    }

    /** A set iterator still points into the map; Next on any other iterator has no meaning. */
    predicate CursorUsable()
      reads this
    {
      cursor.End? || (cursor.At? && cursor.key in elements)
    }

    function GetElement(name: int): Option<TD>
      reads this
    {
      if name in elements then Some(elements[name]) else None
    }

    method AddElement(name: int, data: TD) returns (added: bool)
      modifies `elements
      ensures added == (name !in old(elements))
      ensures elements == if added then old(elements)[name := data] else old(elements)
    {
      added := name !in elements;
      if added {
        elements := elements[name := data];
      }
    }

    method RemoveElement(name: int) returns (removed: bool)
      modifies `elements
      ensures removed == (name in old(elements))
      ensures elements == old(elements) - {name}
    {
      removed := name in elements;
      elements := elements - {name};
    }

    /** Puts the cursor on the first key; an empty map leaves it where it was. */
    method First() returns (data: Option<TD>)
      modifies `cursor
      ensures cursor == if elements == map[] then old(cursor) else CursorOn(SetOrder.First(elements.Keys))
      ensures data == ElementOn(elements, SetOrder.First(elements.Keys))
    {
      if |elements| == 0 {
        return None;
      }
      assert IsLeast(elements.Keys, SetOrder.First(elements.Keys).value);
      var k :| k in elements && IsLeast(elements.Keys, k);
      FirstIs(elements.Keys, k);
      cursor := At(k);
      data := Some(elements[k]);
    }

    /** Moves the cursor to the next key, or to the end. */
    method Next() returns (data: Option<TD>)
      requires CursorUsable()
      modifies `cursor
      ensures old(cursor).End? ==> cursor.End? && data.None?
      ensures old(cursor).At? ==> cursor == CursorOn(After(elements.Keys, old(cursor).key))
      ensures old(cursor).At? ==> data == ElementOn(elements, After(elements.Keys, old(cursor).key))
    {
      if cursor.End? {
        return None;
      }
      var current := cursor.key;
      if k :| k in elements && IsAfter(elements.Keys, current, k) {
        AfterIs(elements.Keys, current, k);
        cursor := At(k);
        data := Some(elements[k]);
      } else {
        cursor := End;
        data := None;
      }
    }

    method ClearAll()
      modifies `elements
      ensures elements == map[]
    {
      elements := map[];
    }
  }

  class ConsistentHashMapEx<TD> {
    const base: MapEx<TD>
    const hash: ConsistentHash

    ghost predicate Valid()
      reads base, hash
    {
      Honest(hash.hasher, hash.nodes, base.elements.Keys)
    }

    ghost function View(): RingView
      reads base, hash
    {
      RingView(base.elements.Keys, hash.nodes)
    }

    constructor (hasher: Hasher)
      ensures Valid() && fresh(base) && fresh(hash)
      ensures hash.hasher == hasher && base.elements == map[] && hash.nodes == map[]
    {
      base := new MapEx<TD>();
      hash := new ConsistentHash(hasher);
    }

    method AddElement(name: int, data: TD) returns (added: bool)
      requires Valid()
      modifies base, hash
      ensures Valid()
      ensures added == (name !in old(base.elements))
      ensures base.elements == if added then old(base.elements)[name := data] else old(base.elements)
      ensures View() == Joined(hash.hasher, old(View()), name)
    {
      added := base.AddElement(name, data);
      if added {
        InsertKeepsHonest(hash.hasher, hash.nodes, old(base.elements.Keys), name);
        hash.InsertNode(name);
        assert base.elements.Keys == old(base.elements.Keys) + {name};
      }
    }

    method RemoveElement(name: int) returns (removed: bool)
      requires Valid()
      modifies base, hash
      ensures Valid()
      ensures removed == (name in old(base.elements)) && base.elements == old(base.elements) - {name}
      ensures View() == Parted(hash.hasher, old(View()), name)
    {
      removed := base.RemoveElement(name);
      if removed {
        EraseKeepsHonest(hash.hasher, hash.nodes, old(base.elements.Keys), name);
        hash.EraseNode(name);
        assert base.elements.Keys == old(base.elements.Keys) - {name};
      }
    }

    method ClearAll()
      requires Valid()
      modifies base, hash
      ensures Valid() && base.elements == map[] && hash.nodes == map[]
    {
      base.ClearAll();
      hash.ClearAll();
    }

    /**
     The element a hash value is assigned to: the ring never names a node the map has lost, so the
     only way to get nothing is an empty ring.
     */
    method GetElementBySuit(value: UInt32) returns (data: Option<TD>)
      requires Valid()
      ensures data.None? <==> hash.nodes == map[]
      ensures data.Some? ==> Owner(hash.nodes, value) in base.elements
      ensures data.Some? ==> data.value == base.elements[Owner(hash.nodes, value)]
    {
      var node := hash.GetSuitNode(value);
      if node.Some? {
        if node.value.data in base.elements {
          return Some(base.elements[node.value.data]);
        }
      }
      return None;
    }
  }
}
