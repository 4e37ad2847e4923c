/**
 conn_readcb in stream mode (src/plugin/core/net/net.cc:139-148) around a greedy receiver, for any frame
 format: after the callback it asks for the length from before the callback to be removed, which is
 refused as soon as the callback removed a frame, and obeyed otherwise.
 */
module StreamMode {
  import opened Bytes
  import opened Framing
  import opened Wrappers

  /** What is left of a buffer after the callback and the removal. */
  ghost function Kept<M, E>(next: Cutter<M, E>, buf: seq<Byte>): seq<Byte>
    requires Progress(next)
  {
    var rest := Drain(next, buf).rest;
    if |rest| < |buf| then rest else []
  }

  /** The unfinished bytes survive a read exactly when the read also completed a frame. */
  lemma KeepsTailIff<M(!new), E(!new)>(next: Cutter<M, E>, buf: seq<Byte>)
    requires Progress(next) && Drain(next, buf).stopped.None? && buf != []
    ensures Kept(next, buf) == Drain(next, buf).rest <==> next(buf).Take?
    ensures !next(buf).Take? ==> Kept(next, buf) == []
  {
    if next(buf).Take? {
      DrainRest(next, buf[next(buf).len..]);
    }
  }

  /** One more read. */
  ghost function Read<M, E>(next: Cutter<M, E>, o: Outcome<M, E>, chunk: seq<Byte>): Outcome<M, E>
    requires Progress(next)
  {
    if o.stopped.Some? then o
    else
      var d := Drain(next, o.rest + chunk);
      Prepend(o.out, if d.stopped.Some? then d else d.(rest := Kept(next, o.rest + chunk)))
  }

  ghost function Reads<M, E>(next: Cutter<M, E>, chunks: seq<seq<Byte>>): Outcome<M, E>
    requires Progress(next)
    decreases |chunks|
  {
    if chunks == [] then Outcome([], [], None)
    else Read(next, Reads(next, chunks[..|chunks| - 1]), chunks[|chunks| - 1])
  }

  /** What the reads give when nothing is removed but frames. */
  ghost function Plain<M, E>(next: Cutter<M, E>, chunks: seq<seq<Byte>>): Outcome<M, E>
    requires Progress(next)
  {
    FeedAll(next, Outcome([], [], None), chunks)
  }

  /** Read `i` finds bytes in the buffer, and no whole frame at its front. */
  ghost predicate Stranded<M, E>(next: Cutter<M, E>, chunks: seq<seq<Byte>>, i: nat)
    requires Progress(next) && i < |chunks|
  {
    var o := Plain(next, chunks[..i]);
    o.stopped.None? && o.rest + chunks[i] != [] && next(o.rest + chunks[i]).Wait?
  }

  /** One read with the removal is one without, unless it finds bytes and no whole frame. */
  lemma ReadIff<M(!new), E(!new)>(next: Cutter<M, E>, o: Outcome<M, E>, chunk: seq<Byte>)
    requires Progress(next)
    ensures Read(next, o, chunk) == Resume(next, o, chunk)
      <==> !(o.stopped.None? && o.rest + chunk != [] && next(o.rest + chunk).Wait?)
  {
    var buf := o.rest + chunk;
    if o.stopped.None? && Drain(next, buf).stopped.None? && buf != [] {
      KeepsTailIff(next, buf);
    }
  }

  lemma ReadOneMore<M(!new), E(!new)>(next: Cutter<M, E>, chunks: seq<seq<Byte>>, i: nat)
    requires Progress(next) && i < |chunks|
    ensures Reads(next, chunks[..i + 1]) == Read(next, Reads(next, chunks[..i]), chunks[i])
    ensures Plain(next, chunks[..i + 1]) == Resume(next, Plain(next, chunks[..i]), chunks[i])
  {
    var longer := chunks[..i + 1];
    assert longer == chunks[..i] + [chunks[i]] && longer[..i] == chunks[..i];
    FeedOneMore(next, Outcome([], [], None), chunks[..i], chunks[i]);
  }

  /** After `i` reads all is as without the removal. */
  ghost predicate SameAfter<M(!new), E(!new)>(next: Cutter<M, E>, chunks: seq<seq<Byte>>, i: nat)
    requires Progress(next) && i <= |chunks|
  {
    Reads(next, chunks[..i]) == Plain(next, chunks[..i])
  }

  lemma ReadsAgree<M(!new), E(!new)>(next: Cutter<M, E>, chunks: seq<seq<Byte>>, i: nat)
    requires Progress(next) && i < |chunks| && SameAfter(next, chunks, i)
    ensures SameAfter(next, chunks, i + 1) <==> !Stranded(next, chunks, i)
  {
    ReadOneMore(next, chunks, i);
    ReadIff(next, Plain(next, chunks[..i]), chunks[i]);
  }

  ghost predicate AlwaysSame<M(!new), E(!new)>(next: Cutter<M, E>, chunks: seq<seq<Byte>>)
    requires Progress(next)
  {
    forall i :: 0 <= i <= |chunks| ==> SameAfter(next, chunks, i)
  }

  ghost predicate NeverStranded<M, E>(next: Cutter<M, E>, chunks: seq<seq<Byte>>)
    requires Progress(next)
  {
    forall i :: 0 <= i < |chunks| ==> !Stranded(next, chunks, i)
  }

  /**
   Over any chunks stream mode delivers, keeps and answers after every read what it would without its
   removal if and only if every read that finds something in the buffer completes a frame or is refused.
   */
  lemma LosesNothingIff<M(!new), E(!new)>(next: Cutter<M, E>, chunks: seq<seq<Byte>>)
    requires Progress(next)
    ensures AlwaysSame(next, chunks) <==> NeverStranded(next, chunks)
  {
    if NeverStranded(next, chunks) {
      for i := 0 to |chunks|
        invariant forall k :: 0 <= k <= i ==> SameAfter(next, chunks, k)
      {
        ReadsAgree(next, chunks, i);
      }
    } else {
      var i :| 0 <= i < |chunks| && Stranded(next, chunks, i);
      if SameAfter(next, chunks, i) {
        ReadsAgree(next, chunks, i);
      }
    }
  }

  /** And then it ends as with everything in one piece. */
  lemma EndsAsOnePiece<M(!new), E(!new)>(next: Cutter<M, E>, chunks: seq<seq<Byte>>)
    requires Progress(next) && Stable(next, |Concat(chunks)| + 1) && next([]).Wait?
    requires NeverStranded(next, chunks)
    ensures Agree(Reads(next, chunks), Drain(next, Concat(chunks)))
  {
    LosesNothingIff(next, chunks);
    assert SameAfter(next, chunks, |chunks|) && chunks[..|chunks|] == chunks;
    ChunkIndependence(next, |Concat(chunks)| + 1, [], chunks);
    assert [] + Concat(chunks) == Concat(chunks);
  }
}
