/** Least elements and successors in finite sets of integers: the iteration order of std::map. */
module SetOrder {
  import opened Wrappers

  predicate IsLeast(s: set<int>, x: int) {
    x in s && forall k :: k in s ==> x <= k
  }

  lemma EmptyOrInhabited(s: set<int>)
    ensures s == {} || exists x :: x in s
  {
    if forall x :: x !in s {
      assert s == {};
    }
  }

  lemma {:induction false} LeastExists(s: set<int>, w: int) returns (x: int)
    requires w in s
    ensures IsLeast(s, x)
    decreases |s|
  {
    x := w;
    var others := s - {w};
    EmptyOrInhabited(others);
    assert forall k :: k in s ==> k == w || k in others;
    if others != {} {
      var y :| y in others;
      y := LeastExists(others, y);
      if y < x {
        x := y;
      }
    }
  }

  /** The first element, if any. */
  ghost function First(s: set<int>): (r: Option<int>)
    ensures r.None? <==> s == {}
    ensures r.Some? ==> IsLeast(s, r.value)
  {
    if s == {} then None
    else
      assert exists x :: IsLeast(s, x) by {
        EmptyOrInhabited(s);
        var w :| w in s;
        var x := LeastExists(s, w);
      }
      var x :| IsLeast(s, x);
      Some(x)
  }

  function Above(s: set<int>, x: int): set<int> {
    set k | k in s && k > x
  }

  predicate IsAfter(s: set<int>, x: int, y: int) {
    y in s && y > x && forall k :: k in s && k > x ==> y <= k
  }

  /** The element after `x`, if any. */
  ghost function After(s: set<int>, x: int): (r: Option<int>)
    ensures r.None? <==> forall k :: k in s ==> k <= x
    ensures r.Some? ==> IsAfter(s, x, r.value)
  {
    var r := First(Above(s, x));
    assert r.None? ==> forall k :: k in s && k > x ==> k in Above(s, x);
    assert r.Some? ==> forall k :: k in s && k > x ==> k in Above(s, x);
    r
  }

  lemma AfterIs(s: set<int>, x: int, y: int)
    requires IsAfter(s, x, y)
    ensures After(s, x) == Some(y)
  {
  }

  lemma FirstIs(s: set<int>, x: int)
    requires IsLeast(s, x)
    ensures First(s) == Some(x)
  {
  }
}
