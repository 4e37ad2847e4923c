/**
 Concurrent queues (src/core/queue.h over moodycamel::ConcurrentQueue): first in, first out for each
 producer only. A queue is a sequence; what one producer put in later is `behind` what it put in before.
 */
module Fifo {

  function RemoveAt<T>(s: seq<T>, at: nat): seq<T>
    requires at < |s|
  {
    s[..at] + s[at + 1..]
  }

  /** How often an element is in a sequence. */
  function Count<T(==)>(ts: seq<T>, t: T): nat {
    multiset(ts)[t]
  }

  function One<T(==)>(t: T, u: T): nat {
    if t == u then 1 else 0
  }

  lemma CountAppend<T>(ts: seq<T>, u: T, t: T)
    ensures Count(ts + [u], t) == Count(ts, t) + One(u, t)
  {
  }

  lemma CountRemove<T>(ts: seq<T>, at: nat, t: T)
    requires at < |ts|
    ensures Count(RemoveAt(ts, at), t) == Count(ts, t) - One(ts[at], t)
  {
    assert ts == ts[..at] + [ts[at]] + ts[at + 1..];
  }

  /** Elements numbered by their places occur at most once. */
  lemma {:induction false} NumberedOnce<T>(ts: seq<T>, serial: T -> nat, t: T)
    requires forall k :: 0 <= k < |ts| ==> serial(ts[k]) == k
    ensures Count(ts, t) <= if serial(t) < |ts| then 1 else 0
    decreases |ts|
  {
    if ts != [] {
      var last := |ts| - 1;
      NumberedOnce(ts[..last], serial, t);
      CountAppend(ts[..last], ts[last], t);
      assert ts == ts[..last] + [ts[last]];
    }
  }

  /** Each element is behind those before it. */
  predicate Ranked<T>(ts: seq<T>, behind: (T, T) -> bool) {
    forall i, j :: 0 <= i < j < |ts| ==> behind(ts[i], ts[j])
  }

  lemma RankedAppend<T>(ts: seq<T>, late: T, behind: (T, T) -> bool)
    requires Ranked(ts, behind) && forall i :: 0 <= i < |ts| ==> behind(ts[i], late)
    ensures Ranked(ts + [late], behind)
  {
  }

  lemma RankedPrefix<T>(ts: seq<T>, us: seq<T>, behind: (T, T) -> bool)
    requires Ranked(ts + us, behind)
    ensures Ranked(ts, behind)
  {
    var all := ts + us;
    assert forall i :: 0 <= i < |ts| ==> ts[i] == all[i];
  }

  /** The element that is taken moves in front of those before it, which must not mind. */
  lemma RankedMove<T>(ts: seq<T>, queue: seq<T>, at: nat, behind: (T, T) -> bool)
    requires Ranked(ts + queue, behind) && at < |queue|
    requires forall k :: 0 <= k < at ==> behind(queue[at], queue[k])
    ensures Ranked(ts + [queue[at]] + RemoveAt(queue, at), behind)
  {
    var was, now := ts + queue, ts + [queue[at]] + RemoveAt(queue, at);
    var place := |ts| + at;
    forall i, j | 0 <= i < j < |now|
      ensures behind(now[i], now[j])
    {
      var a, b := WasAt(i, |ts|, place), WasAt(j, |ts|, place);
      assert now[i] == was[a] && now[j] == was[b];
      if a >= b {
        assert now[j] == queue[b - |ts|] && now[i] == queue[at];
      } else {
        assert behind(was[a], was[b]);
      }
    }
  }

  /** Where an element stood before the one at `place` was moved to `to`. */
  function WasAt(i: nat, to: nat, place: nat): nat {
    if i < to || place < i then i else if i == to then place else i - 1
  }

  /** An element that nothing in the queue minds can go in front of it. */
  lemma RankedInsert<T>(ts: seq<T>, queue: seq<T>, t: T, behind: (T, T) -> bool)
    requires Ranked(ts + queue, behind) && Ranked(ts + [t], behind)
    requires forall k :: 0 <= k < |queue| ==> behind(t, queue[k])
    ensures Ranked(ts + [t] + queue, behind)
  {
    var was, now := ts + queue, ts + [t] + queue;
    forall i, j | 0 <= i < j < |now|
      ensures behind(now[i], now[j])
    {
      assert i < |ts| ==> now[i] == was[i] == (ts + [t])[i];
      assert i > |ts| ==> now[i] == was[i - 1];
      assert j > |ts| ==> now[j] == was[j - 1] == queue[j - 1 - |ts|];
    }
  }
}
