/**
 A greedy receiver whose callback, for one kind of frame, runs the receiver again on the buffer that
 still holds the frame. For any frame format: it returns unless it meets such a frame.
 */
module Reentry {
  import opened Bytes
  import opened Framing
  import opened Wrappers

  /** A buffer as a callback or a caller finds it after a frame was looked at but not removed. */
  type Leaver = seq<Byte> -> seq<Byte>

  /** RemoveBuff of the first `n` bytes, which is refused when there are fewer. */
  function WithoutFront(buf: seq<Byte>, n: nat): seq<Byte> {
    if n <= |buf| then buf[n..] else buf
  }

  /** Re-entering on the frame `stuck` stands for meets it again. */
  ghost predicate MeetsAgain<M(!new), E(!new)>(next: Cutter<M, E>, left: Leaver, stuck: E) {
    forall a :: next(a) == Stop(stuck) ==> next(left(a)) == Stop(stuck)
  }

  /** A frame is taken for what it is without what follows it. */
  ghost predicate Closed<M(!new), E(!new)>(next: Cutter<M, E>) {
    forall a :: next(a).Take? && next(a).len <= |a| ==> next(a[..next(a).len]) == next(a)
  }

  /**
   The receiver with the callbacks it makes, cut off at `n` nested activations: the buffer when it
   returns, None when it has not. On a `stuck` frame it runs again on the buffer as it then is, and
   afterwards removes as many bytes as `front` says.
   */
  ghost function Returned<M, E>(
      next: Cutter<M, E>, left: Leaver, front: seq<Byte> -> nat, stuck: E, buf: seq<Byte>, n: nat): Option<seq<Byte>>
    requires Progress(next)
    decreases n
  {
    if n == 0 then None
    else match next(buf)
      case Wait => Some(buf)
      case Take(len, _) => Returned(next, left, front, stuck, buf[len..], n - 1)
      case Stop(e) =>
        if e != stuck then Some(left(buf))
        else match Returned(next, left, front, stuck, left(buf), n - 1)
          case None => None
          case Some(kept) => Returned(next, left, front, stuck, WithoutFront(kept, front(buf)), n - 1)
  }

  ghost predicate Returns<M, E>(
      next: Cutter<M, E>, left: Leaver, front: seq<Byte> -> nat, stuck: E, buf: seq<Byte>)
    requires Progress(next)
  {
    exists n :: Returned(next, left, front, stuck, buf, n).Some?
  }

  /** The buffer when it returns: what draining leaves, as a refusal leaves it. */
  ghost function LeftBy<M, E>(next: Cutter<M, E>, left: Leaver, buf: seq<Byte>): seq<Byte>
    requires Progress(next)
  {
    var d := Drain(next, buf);
    if d.stopped.Some? then left(d.rest) else d.rest
  }

  lemma {:induction false} StuckNeverReturns<M(!new), E(!new)>(
      next: Cutter<M, E>, left: Leaver, front: seq<Byte> -> nat, stuck: E, buf: seq<Byte>, n: nat)
    requires Progress(next) && MeetsAgain(next, left, stuck) && Drain(next, buf).stopped == Some(stuck)
    ensures Returned(next, left, front, stuck, buf, n) == None
    decreases n
  {
    if n > 0 {
      if next(buf).Take? {
        StuckNeverReturns(next, left, front, stuck, buf[next(buf).len..], n - 1);
      } else {
        assert next(buf) == Stop(stuck) && next(left(buf)) == Stop(stuck);
        StuckNeverReturns(next, left, front, stuck, left(buf), n - 1);
      }
    }
  }

  lemma {:induction false} OthersReturn<M(!new), E(!new)>(
      next: Cutter<M, E>, left: Leaver, front: seq<Byte> -> nat, stuck: E, buf: seq<Byte>, n: nat)
    requires Progress(next) && Drain(next, buf).stopped != Some(stuck) && n > |buf|
    ensures Returned(next, left, front, stuck, buf, n) == Some(LeftBy(next, left, buf))
    decreases |buf|
  {
    if next(buf).Take? {
      OthersReturn(next, left, front, stuck, buf[next(buf).len..], n - 1);
    }
  }

  /** The buffer the n-th re-entry finds. */
  function Again(left: Leaver, buf: seq<Byte>, n: nat): seq<Byte> {
    if n == 0 then buf else left(Again(left, buf, n - 1))
  }

  /** Every re-entry meets the frame; if leaving twice changes nothing, in one of two shapes. */
  lemma {:induction false} AgainAndAgain<M(!new), E(!new)>(
      next: Cutter<M, E>, left: Leaver, stuck: E, buf: seq<Byte>, n: nat)
    requires MeetsAgain(next, left, stuck) && next(buf) == Stop(stuck)
    ensures next(Again(left, buf, n)) == Stop(stuck)
    ensures left(left(buf)) == buf ==> Again(left, buf, n) == if n % 2 == 0 then buf else left(buf)
    decreases n
  {
    if n > 0 {
      AgainAndAgain(next, left, stuck, buf, n - 1);
    }
  }

  /** It returns at some depth if and only if no `stuck` frame comes behind frames that are taken. */
  lemma ReturnsIff<M(!new), E(!new)>(
      next: Cutter<M, E>, left: Leaver, front: seq<Byte> -> nat, stuck: E, buf: seq<Byte>)
    requires Progress(next) && MeetsAgain(next, left, stuck) && Closed(next) && Stable(next, |buf| + 1)
    ensures Returns(next, left, front, stuck, buf) <==> !Reaches(next, stuck, buf)
    ensures !Reaches(next, stuck, buf) ==>
      Returned(next, left, front, stuck, buf, |buf| + 1) == Some(LeftBy(next, left, buf))
  {
    ReachesIff(next, stuck, buf);
    if Drain(next, buf).stopped == Some(stuck) {
      forall n: nat
        ensures Returned(next, left, front, stuck, buf, n) == None
      {
        StuckNeverReturns(next, left, front, stuck, buf, n);
      }
    } else {
      OthersReturn(next, left, front, stuck, buf, |buf| + 1);
      assert Returned(next, left, front, stuck, buf, |buf| + 1).Some?;
    }
  }

  /** Whole frames that are taken. */
  ghost predicate AllTaken<M, E>(next: Cutter<M, E>, frames: seq<seq<Byte>>) {
    forall i :: 0 <= i < |frames| ==> next(frames[i]).Take? && next(frames[i]).len == |frames[i]|
  }

  /** Draining stops on what stands behind frames that are taken. */
  lemma {:induction false} DrainFrames<M(!new), E(!new)>(
      next: Cutter<M, E>, frames: seq<seq<Byte>>, rest: seq<Byte>, e: E)
    requires Progress(next) && Stable(next, |Concat(frames)| + |rest| + 1)
    requires AllTaken(next, frames) && next(rest) == Stop(e)
    ensures Drain(next, Concat(frames) + rest).stopped == Some(e)
    decreases |frames|
  {
    if frames == [] {
      assert Concat(frames) + rest == rest;
    } else {
      var frame, others := frames[0], Concat(frames[1..]) + rest;
      assert Concat(frames) + rest == frame + others;
      assert next(frame + others) == next(frame);
      assert (frame + others)[|frame|..] == others;
      DrainFrames(next, frames[1..], rest, e);
    }
  }

  /** Conversely a buffer that stops draining is frames that are taken and what it stops on. */
  lemma {:induction false} DrainedFrames<M(!new), E(!new)>(next: Cutter<M, E>, buf: seq<Byte>, e: E)
    returns (frames: seq<seq<Byte>>, rest: seq<Byte>)
    requires Progress(next) && Closed(next) && Drain(next, buf).stopped == Some(e)
    ensures AllTaken(next, frames) && next(rest) == Stop(e) && buf == Concat(frames) + rest
    decreases |buf|
  {
    if next(buf).Take? {
      var n := next(buf).len;
      var others: seq<seq<Byte>>;
      others, rest := DrainedFrames(next, buf[n..], e);
      frames := [buf[..n]] + others;
      assert frames[1..] == others;
      assert buf == buf[..n] + buf[n..];
      AppendAssociative(buf[..n], Concat(others), rest);
    } else {
      frames, rest := [], buf;
      assert Concat(frames) + rest == rest;
    }
  }

  /** The buffer is whole frames that are taken, and then one that `stuck` stands for. */
  ghost predicate Leads<M, E>(
      next: Cutter<M, E>, stuck: E, buf: seq<Byte>, frames: seq<seq<Byte>>, rest: seq<Byte>) {
    AllTaken(next, frames) && next(rest) == Stop(stuck) && buf == Concat(frames) + rest
  }

  ghost predicate Reaches<M(!new), E>(next: Cutter<M, E>, stuck: E, buf: seq<Byte>) {
    exists frames, rest :: Leads(next, stuck, buf, frames, rest)
  }

  lemma LeadsToStop<M(!new), E(!new)>(
      next: Cutter<M, E>, stuck: E, buf: seq<Byte>, frames: seq<seq<Byte>>, rest: seq<Byte>)
    requires Progress(next) && Stable(next, |buf| + 1) && Leads(next, stuck, buf, frames, rest)
    ensures Drain(next, buf).stopped == Some(stuck)
  {
    assert |buf| + 1 == |Concat(frames)| + |rest| + 1;
    DrainFrames(next, frames, rest, stuck);
  }

  lemma ReachesIff<M(!new), E(!new)>(next: Cutter<M, E>, stuck: E, buf: seq<Byte>)
    requires Progress(next) && Closed(next) && Stable(next, |buf| + 1)
    ensures Drain(next, buf).stopped == Some(stuck) <==> Reaches(next, stuck, buf)
  {
    if Drain(next, buf).stopped == Some(stuck) {
      var frames, rest := DrainedFrames(next, buf, stuck);
      assert Leads(next, stuck, buf, frames, rest);
    } else if Reaches(next, stuck, buf) {
      var frames, rest :| Leads(next, stuck, buf, frames, rest);
      LeadsToStop(next, stuck, buf, frames, rest);
    }
  }
}
