/**
 The greedy cutting of frames out of a growing byte buffer, for any frame format. Both receivers
 of the framework (Net::conn_readcb and WSModule::DecodeFrame) are this loop over their own cutter.
 */
module Framing {
  import opened Bytes
  import opened Wrappers

  /** What a receiver does with the front of its buffer. */
  datatype Cut<+M, +E> = Wait | Stop(error: E) | Take(len: nat, out: seq<M>)

  datatype Outcome<+M, +E> = Outcome(out: seq<M>, rest: seq<Byte>, stopped: Option<E>)

  type Cutter<M, E> = seq<Byte> -> Cut<M, E>

  /** A frame that is taken lies inside the buffer and is not empty. */
  ghost predicate Progress<M, E>(next: Cutter<M, E>) {
    forall a :: next(a).Take? ==> 0 < next(a).len <= |a|
  }

  /** A verdict about the front of a buffer does not change when more bytes arrive. */
  ghost predicate Stable<M(!new), E(!new)>(next: Cutter<M, E>, limit: nat) {
    forall a, b {:trigger next(a + b)} :: |a| + |b| < limit && !next(a).Wait? ==> next(a + b) == next(a)
  }

  /** Cut until the front frame is incomplete or refused. */
  ghost function Drain<M, E>(next: Cutter<M, E>, buf: seq<Byte>): Outcome<M, E>
    requires Progress(next)
    decreases |buf|
  {
    match next(buf)
    case Wait => Outcome([], buf, None)
    case Stop(e) => Outcome([], buf, Some(e))
    case Take(n, out) => Prepend(out, Drain(next, buf[n..]))
  }

  function Prepend<M, E>(out: seq<M>, o: Outcome<M, E>): Outcome<M, E> {
    Outcome(out + o.out, o.rest, o.stopped)
  }

  /** Same deliveries and same verdict; the same buffer too unless the connection is being closed. */
  predicate Agree<M(==), E(==)>(x: Outcome<M, E>, y: Outcome<M, E>) {
    x.out == y.out && x.stopped == y.stopped && (x.stopped.None? ==> x.rest == y.rest)
  }

  lemma PrependTwice<M, E>(a: seq<M>, b: seq<M>, o: Outcome<M, E>)
    ensures Prepend(a, Prepend(b, o)) == Prepend(a + b, o)
    ensures Prepend([], o) == o
  {
    assert a + (b + o.out) == a + b + o.out;
    assert [] + o.out == o.out;
  }

  /** One more chunk reaches a receiver; a stopped one is marked for removal and ignores it. */
  ghost function Resume<M, E>(next: Cutter<M, E>, o: Outcome<M, E>, chunk: seq<Byte>): Outcome<M, E>
    requires Progress(next)
  {
    if o.stopped.Some? then o
    else Prepend(o.out, Drain(next, o.rest + chunk))
  }

  /** A receiver whose buffer holds `o.rest` takes the chunks one by one. */
  ghost function FeedAll<M, E>(next: Cutter<M, E>, o: Outcome<M, E>, chunks: seq<seq<Byte>>): Outcome<M, E>
    requires Progress(next)
    decreases |chunks|
  {
    if chunks == [] then o else FeedAll(next, Resume(next, o, chunks[0]), chunks[1..])
  }

  lemma {:induction false} DrainRest<M(!new), E(!new)>(next: Cutter<M, E>, buf: seq<Byte>)
    requires Progress(next)
    ensures var d := Drain(next, buf);
      && |d.rest| <= |buf|
      && (d.stopped.None? ==> next(d.rest).Wait?)
      && (d.stopped.Some? ==> next(d.rest) == Stop(d.stopped.value))
    decreases |buf|
  {
    if next(buf).Take? {
      DrainRest(next, buf[next(buf).len..]);
    }
  }

  lemma ResumePrepended<M(!new), E(!new)>(next: Cutter<M, E>, out: seq<M>, o: Outcome<M, E>, b: seq<Byte>)
    requires Progress(next)
    ensures Resume(next, Prepend(out, o), b) == Prepend(out, Resume(next, o, b))
  {
    var more := Drain(next, o.rest + b).out;
    assert out + (o.out + more) == (out + o.out) + more;
  }

  /** Draining early and resuming later is draining once. */
  lemma {:induction false} DrainAppend<M(!new), E(!new)>(next: Cutter<M, E>, limit: nat, a: seq<Byte>, b: seq<Byte>)
    requires Progress(next) && Stable(next, limit)
    requires |a| + |b| < limit
    ensures Agree(Drain(next, a + b), Resume(next, Drain(next, a), b))
    decreases |a|
  {
    match next(a)
    case Wait =>
      assert [] + Drain(next, a + b).out == Drain(next, a + b).out;
    case Stop(e) =>
      assert next(a + b) == Stop(e);
    case Take(n, out) =>
      assert next(a + b) == Take(n, out);
      assert (a + b)[n..] == a[n..] + b;
      DrainAppend(next, limit, a[n..], b);
      ResumePrepended(next, out, Drain(next, a[n..]), b);
      assert Drain(next, a + b) == Prepend(out, Drain(next, a[n..] + b));
  }

  lemma {:induction false} StoppedStays<M(!new), E(!new)>(next: Cutter<M, E>, o: Outcome<M, E>, chunks: seq<seq<Byte>>)
    requires Progress(next) && o.stopped.Some?
    ensures FeedAll(next, o, chunks) == o
    decreases |chunks|
  {
    if chunks != [] {
      StoppedStays(next, o, chunks[1..]);
    }
  }

  /** Any chunking delivers the same frames, verdict and remaining buffer as one piece. */
  lemma {:induction false} ChunkIndependence<M(!new), E(!new)>(
      next: Cutter<M, E>, limit: nat, buf: seq<Byte>, chunks: seq<seq<Byte>>)
    requires Progress(next) && Stable(next, limit)
    requires |buf| + |Concat(chunks)| < limit
    ensures Agree(FeedAll(next, Drain(next, buf), chunks), Drain(next, buf + Concat(chunks)))
    decreases |chunks|
  {
    if chunks == [] {
      assert buf + Concat(chunks) == buf;
    } else {
      assert buf + Concat(chunks) == (buf + chunks[0]) + Concat(chunks[1..]);
      DrainAppend(next, limit, buf, chunks[0]);
      ChunkIndependence(next, limit, buf + chunks[0], chunks[1..]);
      var whole, resumed := Drain(next, buf + chunks[0]), Resume(next, Drain(next, buf), chunks[0]);
      if whole.stopped.Some? {
        StoppedStays(next, whole, chunks[1..]);
        StoppedStays(next, resumed, chunks[1..]);
      } else {
        assert whole == resumed;
      }
    }
  }

  /** The chunks so far, then one more. */
  lemma {:induction false} FeedOneMore<M(!new), E(!new)>(
      next: Cutter<M, E>, o: Outcome<M, E>, chunks: seq<seq<Byte>>, chunk: seq<Byte>)
    requires Progress(next)
    ensures FeedAll(next, o, chunks + [chunk]) == Resume(next, FeedAll(next, o, chunks), chunk)
    decreases |chunks|
  {
    var all := chunks + [chunk];
    if chunks == [] {
      assert all[0] == chunk && all[1..] == [];
    } else {
      assert all[0] == chunks[0] && all[1..] == chunks[1..] + [chunk];
      FeedOneMore(next, Resume(next, o, chunks[0]), chunks[1..], chunk);
    }
  }
}
