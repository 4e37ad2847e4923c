/**
 StringRingBuffer (src/core/string_ring_buffer.h): a circular byte buffer that doubles when it would
 become full, refining a plain byte queue.
 */
module RingBuffer {
  import opened Bytes

  // ------------------------------------------------------------------------------------------
  // The queue it refines
  // ------------------------------------------------------------------------------------------

  type Int32 = i: int | -0x8000_0000 <= i < 0x8000_0000

  /** What a buffer is asked to do; `Take` is Pop, Erase or ZeroCopyPop when they succeed. */
  datatype Request = Push(bytes: seq<Byte>) | Take(size: Int32) | Clear

  /** A take is refused unless that many bytes are queued. */
  predicate Served(queue: seq<Byte>, size: int) {
    0 < size <= |queue|
  }

  function After(queue: seq<Byte>, r: Request): seq<Byte> {
    match r
    case Push(bytes) => queue + bytes
    case Take(size) => if Served(queue, size) then queue[size..] else queue
    case Clear => []
  }

  function Out(queue: seq<Byte>, r: Request): seq<Byte> {
    if r.Take? && Served(queue, r.size) then queue[..r.size] else []
  }

  function AfterAll(queue: seq<Byte>, rs: seq<Request>): seq<Byte>
    decreases |rs|
  {
    if rs == [] then queue else After(AfterAll(queue, rs[..|rs| - 1]), rs[|rs| - 1])
  }

  function OutAll(queue: seq<Byte>, rs: seq<Request>): seq<Byte>
    decreases |rs|
  {
    if rs == [] then []
    else OutAll(queue, rs[..|rs| - 1]) + Out(AfterAll(queue, rs[..|rs| - 1]), rs[|rs| - 1])
  }

  function InAll(rs: seq<Request>): seq<Byte>
    decreases |rs|
  {
    if rs == [] then []
    else InAll(rs[..|rs| - 1]) + if rs[|rs| - 1].Push? then rs[|rs| - 1].bytes else []
  }

  predicate NeverClears(rs: seq<Request>) {
    forall i :: 0 <= i < |rs| ==> !rs[i].Clear?
  }

  /** Over any run without Clear, what came out followed by what is queued is what went in, in order. */
  lemma {:induction false} FirstInFirstOut(queue: seq<Byte>, rs: seq<Request>)
    requires NeverClears(rs)
    ensures OutAll(queue, rs) + AfterAll(queue, rs) == queue + InAll(rs)
    decreases |rs|
  {
    if rs != [] {
      var init, r := rs[..|rs| - 1], rs[|rs| - 1];
      FirstInFirstOut(queue, init);
      var q, ins := AfterAll(queue, init), if r.Push? then r.bytes else [];
      OutThenAfter(q, r);
      AppendAssociative(OutAll(queue, init), Out(q, r), After(q, r));
      AppendAssociative(OutAll(queue, init), q, ins);
      AppendAssociative(queue, InAll(init), ins);
    }
  }

  lemma OutThenAfter(q: seq<Byte>, r: Request)
    requires !r.Clear?
    ensures Out(q, r) + After(q, r) == q + if r.Push? then r.bytes else []
  {
  }

  /**
   After any run without Clear a take gives the bytes of the stream that come next, if there are as many
   as it asks for, and otherwise none; Clear drops what is queued.
   */
  lemma NextTakeGives(queue: seq<Byte>, rs: seq<Request>, size: Int32)
    requires NeverClears(rs)
    ensures var sent, n := queue + InAll(rs), |OutAll(queue, rs)|;
      && n <= |sent| && OutAll(queue, rs) == sent[..n]
      && OutAll(queue, rs + [Take(size)]) == sent[..if 0 < size <= |sent| - n then n + size else n]
      && OutAll(queue, rs + [Clear]) == sent[..n] && AfterAll(queue, rs + [Clear]) == []
  {
    FirstInFirstOut(queue, rs);
    OneMoreRequest(queue, rs, Take(size));
    OneMoreRequest(queue, rs, Clear);
    var out, left := OutAll(queue, rs), AfterAll(queue, rs);
    assert |out + left| == |out| + |left|;
    FrontOfStream(out, left, 0);
    if Served(left, size) {
      FrontOfStream(out, left, size);
    }
  }

  lemma OneMoreRequest(queue: seq<Byte>, rs: seq<Request>, r: Request)
    ensures OutAll(queue, rs + [r]) == OutAll(queue, rs) + Out(AfterAll(queue, rs), r)
    ensures AfterAll(queue, rs + [r]) == After(AfterAll(queue, rs), r)
  {
    assert (rs + [r])[..|rs|] == rs;
  }

  lemma FrontOfStream(out: seq<Byte>, left: seq<Byte>, n: nat)
    requires n <= |left|
    ensures (out + left)[..|out| + n] == out + left[..n]
    ensures out + [] == out
  {
  }

  // ------------------------------------------------------------------------------------------
  // The marks
  // ------------------------------------------------------------------------------------------

  function Used(front: nat, rear: nat, capacity: nat): int {
    if front <= rear then rear - front else rear + capacity - front
  }

  /** The marks without the bytes. */
  datatype Marks = Marks(front: nat, rear: nat, capacity: nat) {
    predicate Proper() {
      front < capacity && rear < capacity
    }

    function Queued(): int {
      Used(front, rear, capacity)
    }

    function Resized(): (r: Marks)
      requires Proper()
      ensures r.Proper() && r.Queued() == Queued()
    {
      if rear < front then Marks(0, Queued(), 2 * capacity) else Marks(front, rear, 2 * capacity)
    }

    /** Resized until `n` more bytes leave one free. */
    function Fitted(n: nat): (r: Marks)
      requires Proper()
      ensures r.Proper() && r.Queued() == Queued() && r.Queued() + n < r.capacity
      decreases n + Queued() - capacity
    {
      if Queued() + n >= capacity then Resized().Fitted(n) else this
    }

    function Pushed(n: nat): Marks
      requires Proper()
    {
      var m := Fitted(n);
      Marks(m.front, (m.rear + n) % m.capacity, m.capacity)
    }

    function Taken(n: nat): Marks
      requires Proper()
    {
      Marks((front + n) % capacity, rear, capacity)
    }

    /** The copies Pop makes: one for contiguous data, else one up to the end and one of what remains. */
    function Copies(size: Int32): seq<Copying>
      requires Proper() && 0 < size
    {
      if rear > front then [Copying(0, size)]
      else [Copying(0, capacity - front), Copying(capacity - front, AsSize(size - (capacity - front)))]
    }

    /** The data is contiguous, or the read reaches the wrap. */
    predicate Copyable(size: int) {
      front < rear || capacity - front <= size
    }

    function After(r: Request): (m: Marks)
      requires Proper()
      ensures m.Proper()
    {
      match r
      case Push(bytes) => Pushed(|bytes|)
      case Take(size) => if 0 < size <= Queued() then Taken(size) else this
      case Clear => Marks(0, 0, capacity)
    }

    function AfterAll(rs: seq<Request>): (m: Marks)
      requires Proper()
      ensures m.Proper()
      decreases |rs|
    {
      if rs == [] then this else AfterAll(rs[..|rs| - 1]).After(rs[|rs| - 1])
    }

    /** A Pop that is not refused, and one of whose copies leaves the `size` bytes it was given. */
    predicate Overruns(r: Request)
      requires Proper()
    {
      r.Take? && 0 < r.size <= Queued() && exists c :: c in Copies(r.size) && !c.Inside(r.size)
    }

    /** No Pop of the run overruns. */
    predicate Sound(rs: seq<Request>)
      requires Proper()
      decreases |rs|
    {
      rs == [] || (Sound(rs[..|rs| - 1]) && !AfterAll(rs[..|rs| - 1]).Overruns(rs[|rs| - 1]))
    }
  }

  /** A memcpy of `length` bytes to position `at` of the destination. */
  datatype Copying = Copying(at: nat, length: nat) {
    predicate Inside(size: int) {
      at + length <= size
    }
  }

  /** An int as a size_t. */
  function AsSize(n: int): nat {
    n % 0x1_0000_0000_0000_0000
  }

  lemma SecondCopy(size: Int32, offset: nat)
    requires 0 < size
    ensures offset + AsSize(size - offset) <= size <==> offset <= size
    ensures offset <= size ==> AsSize(size - offset) == size - offset
  {
  }

  /** Pop's copies stay inside `size` bytes exactly when the data is contiguous or the read reaches the wrap. */
  lemma OverrunsIff(m: Marks, size: Int32)
    requires m.Proper() && 0 < size <= m.Queued()
    ensures m.Overruns(Take(size)) <==> !m.Copyable(size)
  {
    var first := m.capacity - m.front;
    assert m.rear <= m.front ==> Copying(0, first) in m.Copies(size);
  }

  /** Where it overruns, so does the second copy, and of any destination there is. */
  lemma OverrunIsBoundless(m: Marks, size: Int32)
    requires m.Proper() && m.capacity < 0x8000_0000 && m.Overruns(Take(size))
    ensures |m.Copies(size)| == 2 && m.Copies(size)[1].length > 0x7FFF_FFFF_FFFF_FFFF
  {
    OverrunsIff(m, size);
  }

  /** A buffer can be emptied by one Pop whatever its marks. */
  lemma DrainNeverOverruns(m: Marks)
    requires m.Proper() && 0 < m.Queued() < 0x8000_0000
    ensures !m.Overruns(Take(m.Queued()))
  {
    OverrunsIff(m, m.Queued());
  }

  /** No Pop of any size overruns exactly when at most one queued byte lies before the wrap. */
  lemma NoPopOverrunsIff(m: Marks)
    requires m.Proper()
    ensures (forall size: Int32 :: !m.Overruns(Take(size))) <==> m.front <= m.rear || m.front == m.capacity - 1
  {
    if m.front > m.rear && m.front < m.capacity - 1 {
      OverrunsIff(m, 1);
    } else {
      forall size: Int32 | 0 < size <= m.Queued()
        ensures !m.Overruns(Take(size))
      {
        OverrunsIff(m, size);
      }
    }
  }

  /** A short run gets there: the first copy of the last Pop is of two bytes, for a size of one. */
  lemma OverrunIsReached(a: Byte)
    ensures var m := Marks(0, 0, 4).AfterAll([Push([a, a, a]), Take(2), Push([a, a])]);
      m == Marks(2, 1, 4) && m.Copies(1)[0] == Copying(0, 2) && m.Overruns(Take(1))
  {
    var rs: seq<Request> := [Push([a, a, a]), Take(2), Push([a, a])];
    var start := Marks(0, 0, 4);
    assert rs[..2][..1][..0] == [] && rs[..2][..1] == [Push([a, a, a])] && rs[..2] == rs[..1] + [Take(2)];
    assert start.AfterAll(rs[..1]) == Marks(0, 3, 4);
    assert start.AfterAll(rs[..2]) == Marks(2, 3, 4);
    OverrunsIff(Marks(2, 1, 4), 1);
  }

  /** The bytes between the marks, read around the end. */
  function Between(d: seq<Byte>, front: nat, rear: nat): (queue: seq<Byte>)
    requires front < |d| && rear < |d|
    ensures |queue| == Used(front, rear, |d|) < |d|
  {
    if front <= rear then d[front..rear] else d[front..] + d[..rear]
  }

  /** `d` with `src` copied to position `at`. */
  function Put(d: seq<Byte>, at: nat, src: seq<Byte>): (r: seq<Byte>)
    requires at + |src| <= |d|
    ensures |r| == |d|
    ensures forall i :: 0 <= i < |d| ==> r[i] == if at <= i < at + |src| then src[i - at] else d[i]
  {
    d[..at] + src + d[at + |src|..]
  }

  /** memcpy of `src` to position `at`. */
  method Copy(dst: array<Byte>, at: nat, src: seq<Byte>)
    requires at + |src| <= dst.Length
    modifies dst
    ensures dst[..] == Put(old(dst[..]), at, src)
  {
    forall i | 0 <= i < |src| {
      dst[at + i] := src[i];
    }
  }

  /** Push's copy of bytes that end before the end of the buffer, or before the unread ones. */
  lemma PutAppends(d: seq<Byte>, front: nat, rear: nat, src: seq<Byte>)
    requires front < |d| && rear < |d| && rear + |src| < if rear >= front then |d| else front
    ensures Between(Put(d, rear, src), front, rear + |src|) == Between(d, front, rear) + src
  {
  }

  /** Push's two copies of bytes that reach the end of the buffer. */
  lemma PutWraps(d: seq<Byte>, front: nat, rear: nat, src: seq<Byte>)
    requires front <= rear < |d| <= rear + |src| && rear - front + |src| < |d|
    ensures var offset := |d| - rear;
      Between(Put(Put(d, rear, src[..offset]), 0, src[offset..]), front, |src| - offset)
        == Between(d, front, rear) + src
  {
    var offset := |d| - rear;
    var once := Put(d, rear, src[..offset]);
    var twice := Put(once, 0, src[offset..]);
    assert twice[front..] == d[front..rear] + src[..offset];
    assert twice[..|src| - offset] == src[offset..];
    assert src == src[..offset] + src[offset..];
    AppendAssociative(d[front..rear], src[..offset], src[offset..]);
  }

  /** A resize of wrapped data straightens it. */
  lemma ResizeStraightens(d: seq<Byte>, front: nat, rear: nat, tmp: seq<Byte>)
    requires rear < front < |d| && |tmp| == 2 * |d|
    ensures var twice := Put(Put(tmp, 0, d[front..]), |d| - front, d[..rear]);
      Between(twice, 0, |d| - front + rear) == Between(d, front, rear)
  {
  }

  lemma ResizeCopies(d: seq<Byte>, front: nat, rear: nat, tmp: seq<Byte>)
    requires front <= rear < |d| && |tmp| == 2 * |d|
    ensures Between(Put(tmp, 0, d), front, rear) == Between(d, front, rear)
  {
    assert Put(tmp, 0, d)[front..rear] == d[front..rear];
  }

  /** One step of a mark around the end. */
  lemma Wrap(mark: nat, capacity: nat)
    requires 0 < capacity && mark < 2 * capacity
    ensures mark % capacity == if mark < capacity then mark else mark - capacity
  {
  }

  /** What a take of `size` bytes reads, and what it leaves, on either side of the wrap. */
  lemma OutOfBuffer(d: seq<Byte>, front: nat, rear: nat, size: nat)
    requires front < |d| && rear < |d| && 0 < size <= Used(front, rear, |d|)
    ensures var next := if front + size < |d| then front + size else front + size - |d|;
      && next < |d|
      && Between(d, next, rear) == Between(d, front, rear)[size..]
    ensures front < rear ==> Between(d, front, rear)[..size] == d[front..front + size]
    ensures rear < front && |d| - front <= size ==>
      Between(d, front, rear)[..size] == d[front..] + d[..size - (|d| - front)]
  {
    if rear < front {
      OutOfParts(d[front..], d[..rear], size);
      if |d| - front <= size {
        assert d[..rear][..size - (|d| - front)] == d[..size - (|d| - front)];
        assert d[..rear][size - (|d| - front)..] == d[size - (|d| - front)..rear];
      } else {
        assert d[front..][size..] == d[front + size..];
      }
    }
  }

  lemma OutOfParts(a: seq<Byte>, b: seq<Byte>, size: nat)
    requires size <= |a| + |b|
    ensures size <= |a| ==> (a + b)[size..] == a[size..] + b
    ensures size >= |a| ==> (a + b)[size..] == b[size - |a|..] && (a + b)[..size] == a + b[..size - |a|]
  {
  }

  lemma PutTwice(d: seq<Byte>, a: seq<Byte>, b: seq<Byte>)
    requires |a| + |b| <= |d|
    ensures Put(Put(d, 0, a), |a|, b) == Put(d, 0, a + b)
  {
  }

  // ------------------------------------------------------------------------------------------
  // The buffer
  // ------------------------------------------------------------------------------------------

  /** The run `rs` from the marks `m` and the queue `q` is sound, gives `out` and ends with `place` and `left`. */
  predicate Answers(m: Marks, q: seq<Byte>, rs: seq<Request>, place: Marks, left: seq<Byte>, out: seq<Byte>)
    requires m.Proper()
  {
    m.Sound(rs) && place == m.AfterAll(rs) && left == AfterAll(q, rs) && out == OutAll(q, rs)
  }

  lemma AnswersOn(m: Marks, q: seq<Byte>, rs: seq<Request>, n: nat, place: Marks, left: seq<Byte>, out: seq<Byte>)
    requires n < |rs| && m.Proper() && place.Proper() && Answers(m, q, rs[..n], place, left, out)
    ensures place.Overruns(rs[n]) ==> Halts(m, q, rs, n, out)
    ensures !place.Overruns(rs[n]) ==>
      Answers(m, q, rs[..n + 1], place.After(rs[n]), After(left, rs[n]), out + Out(left, rs[n]))
  {
    assert rs[..n + 1][..n] == rs[..n] && rs[..n + 1][n] == rs[n];
  }

  /** The run comes to a halt behind its first `n` requests, having given `out`: the next Pop overruns. */
  predicate Halts(m: Marks, q: seq<Byte>, rs: seq<Request>, n: nat, out: seq<Byte>)
    requires m.Proper()
  {
    n < |rs| && m.Sound(rs[..n]) && !m.Sound(rs[..n + 1]) && out == OutAll(q, rs[..n])
  }

  lemma AnswersInOrder(m: Marks, q: seq<Byte>, rs: seq<Request>, place: Marks, left: seq<Byte>, out: seq<Byte>)
    requires m.Proper() && Answers(m, q, rs, place, left, out) && NeverClears(rs)
    ensures out + left == q + InAll(rs)
  {
    FirstInFirstOut(q, rs);
  }

  datatype Popped = Refused | Done | Overrun

  class StringRingBuffer {
    var capacity: nat
    var front: nat
    var rear: nat
    var data: array<Byte>

    ghost predicate Valid()
      reads this
    {
      front < capacity && rear < capacity && data.Length == capacity
    }

    function Place(): Marks
      reads this
    {
      Marks(front, rear, capacity)
    }

    ghost function Contents(): (queue: seq<Byte>)
      requires Valid()
      reads this, data
      ensures |queue| == Used(front, rear, capacity) < capacity
    {
      Between(data[..], front, rear)
    }

    constructor (size: nat)
      requires size > 0
      ensures Valid() && fresh(data) && Place() == Marks(0, 0, size) && Contents() == []
    {
      capacity, front, rear := size, 0, 0;
      data := new Byte[size];
    }

    function Size(): nat
      requires Valid()
      reads this, data
      ensures Size() == |Contents()|
    {
      if rear > front then rear - front
      else if rear == front then 0
      else rear + capacity - front
    }

    predicate Full(newSize: nat)
      requires Valid()
      reads this, data
    {
      Size() + newSize >= capacity
    }

    /** The new buffer is twice as long and holds the same queue. */
    method Resize()
      requires Valid()
      modifies this
      ensures Valid() && fresh(data) && Place() == old(Place()).Resized()
      ensures Contents() == old(Contents())
    {
      var tmp := new Byte[2 * capacity];
      if rear < front {
        var oldSize := Size();
        var offset := capacity - front;
        ResizeStraightens(data[..], front, rear, tmp[..]);
        Copy(tmp, 0, data[front..]);
        Copy(tmp, offset, data[..rear]);
        front, rear := 0, oldSize;
      } else {
        ResizeCopies(data[..], front, rear, tmp[..]);
        Copy(tmp, 0, data[..]);
      }
      capacity := 2 * capacity;
      data := tmp;
    }

    /** The resize loop of Push. */
    method MakeRoom(n: nat)
      requires Valid()
      modifies this
      ensures Valid() && !Full(n) && (data == old(data) || fresh(data))
      ensures Contents() == old(Contents()) && Place() == old(Place()).Fitted(n)
    {
      while Full(n)
        invariant Valid() && Contents() == old(Contents())
        invariant data == old(data) || fresh(data)
        invariant Place().Fitted(n) == old(Place()).Fitted(n)
        decreases n + Size() - capacity
      {
        Resize();
      }
    }

    method Push(src: seq<Byte>) returns (ok: bool)
      requires Valid()
      modifies this, data
      ensures Valid() && ok
      ensures data == old(data) || fresh(data)
      ensures Contents() == old(Contents()) + src
      ensures Place() == old(Place()).Pushed(|src|)
    {
      MakeRoom(|src|);
      Write(src);
      ok := true;
    }

    /** The part of Push after its resize loop; of its two branches for wrapped data one is never taken. */
    method Write(src: seq<Byte>)
      requires Valid() && !Full(|src|)
      modifies this, data
      ensures Valid() && data == old(data)
      ensures Contents() == old(Contents()) + src
      ensures Place() == Marks(old(front), (old(rear) + |src|) % capacity, old(capacity))
    {
      ghost var next := if rear + |src| < capacity then rear + |src| else rear + |src| - capacity;
      if rear >= front {
        if rear + |src| >= capacity {
          CopyAround(src);
        } else {
          CopyStraight(src);
        }
      } else {
        assert rear + |src| < front;
        CopyStraight(src);
      }
      assert Between(data[..], front, next) == old(Contents()) + src;
      MoveRear(|src|);
      assert rear == next;
    }

    /** The rear mark moves on, around the end if need be. */
    method MoveRear(n: nat)
      requires Valid() && rear + n < 2 * capacity
      modifies `rear
      ensures rear == if old(rear) + n < capacity then old(rear) + n else old(rear) + n - capacity
      ensures rear == (old(rear) + n) % capacity
    {
      Wrap(rear + n, capacity);
      rear := (rear + n) % capacity;
    }

    /** The two copies of bytes that reach the end of the buffer. */
    method CopyAround(src: seq<Byte>)
      requires Valid() && !Full(|src|) && rear >= front && rear + |src| >= capacity
      modifies data
      ensures rear + |src| - capacity < capacity
      ensures Between(data[..], front, rear + |src| - capacity) == Between(old(data[..]), front, rear) + src
    {
      var offset := capacity - rear;
      PutWraps(data[..], front, rear, src);
      Copy(data, rear, src[..offset]);
      Copy(data, 0, src[offset..]);
    }

    /** The one copy of bytes that do not. */
    method CopyStraight(src: seq<Byte>)
      requires Valid() && rear + |src| < if rear >= front then capacity else front
      modifies data
      ensures Between(data[..], front, rear + |src|) == Between(old(data[..]), front, rear) + src
    {
      PutAppends(data[..], front, rear, src);
      Copy(data, rear, src);
    }

    /** The front mark moves over the oldest bytes. */
    method Advance(size: nat)
      requires Valid() && 0 < size <= Size()
      modifies this`front
      ensures Valid() && Contents() == old(Contents())[size..] && Place() == old(Place()).Taken(size)
    {
      OutOfBuffer(data[..], front, rear, size);
      Wrap(front + size, capacity);
      front := (front + size) % capacity;
    }

    /**
     The copies of Pop. The source makes them without looking; what it does after one that leaves
     `dst` is not part of this model.
     */
    method Read(dst: array<Byte>, size: Int32) returns (fits: bool)
      requires Valid() && dst != data && 0 < size <= Size() && size <= dst.Length
      modifies dst
      ensures fits <==> !Place().Overruns(Take(size))
      ensures fits ==> dst[..] == Put(old(dst[..]), 0, Contents()[..size])
    {
      OutOfBuffer(data[..], front, rear, size);
      OverrunsIff(Place(), size);
      if rear > front {
        Copy(dst, 0, data[front..front + size]);
      } else {
        var tempOffset := capacity - front;
        var others := AsSize(size - tempOffset);
        SecondCopy(size, tempOffset);
        if tempOffset + others > size {
          return false;
        }
        PutTwice(dst[..], data[front..], data[..others]);
        Copy(dst, 0, data[front..]);
        Copy(dst, tempOffset, data[..others]);
      }
      fits := true;
    }

    /** Pop. On Overrun nothing is promised: the source has then written past the `size` bytes of `dst`. */
    method Pop(dst: array<Byte>, size: Int32, readOnly: bool) returns (r: Popped)
      requires Valid() && dst != data && size <= dst.Length
      modifies this`front, dst
      ensures r == Refused <==> !(0 < size <= |old(Contents())|)
      ensures r == Overrun <==> old(Place()).Overruns(Take(size))
      ensures r == Done ==> dst[..] == old(Contents())[..size] + old(dst[size..])
      ensures r == Refused ==> dst[..] == old(dst[..])
      ensures r != Overrun ==>
        && Valid()
        && Contents() == (if readOnly || r == Refused then old(Contents()) else old(Contents())[size..])
        && Place() == (if readOnly then old(Place()) else old(Place()).After(Take(size)))
    {
      if size <= 0 || Size() < size {
        return Refused;
      }
      var fits := Read(dst, size);
      if !fits {
        return Overrun;
      }
      if !readOnly {
        Advance(size);
      }
      r := Done;
    }

    method Erase(size: Int32) returns (ok: bool)
      requires Valid()
      modifies this`front
      ensures Valid() && ok == (0 < size <= |old(Contents())|)
      ensures Contents() == (if ok then old(Contents())[size..] else old(Contents()))
      ensures Place() == old(Place()).After(Take(size))
    {
      if size <= 0 || Size() < size {
        return false;
      }
      Advance(size);
      ok := true;
    }

    /** ZeroCopyPop: the bytes stay in place, at `at`, and are handed out only when they do not wrap. */
    method ZeroCopyPop(size: Int32, readOnly: bool) returns (ok: bool, at: nat)
      requires Valid()
      modifies this`front
      ensures Valid() && ok == (0 < size <= |old(Contents())| && old(front) < rear)
      ensures ok ==> at + size <= data.Length && data[at..at + size] == old(Contents())[..size]
      ensures Contents() == if ok && !readOnly then old(Contents())[size..] else old(Contents())
    {
      at := 0;
      if size <= 0 || Size() < size || front > rear {
        return false, at;
      }
      OutOfBuffer(data[..], front, rear, size);
      at := front;
      if !readOnly {
        Advance(size);
      }
      ok := true;
    }

    /** Clear. */
    method Reset()
      requires Valid()
      modifies this`front, this`rear
      ensures Valid() && Contents() == [] && Place() == old(Place()).After(Clear)
    {
      front, rear := 0, 0;
    }

    method ServeOne(r: Request) returns (taken: seq<Byte>, going: bool)
      requires Valid()
      modifies this, data
      ensures going <==> !old(Place()).Overruns(r)
      ensures going ==> Valid() && (data == old(data) || fresh(data)) && Place() == old(Place()).After(r)
      ensures going ==> taken == Out(old(Contents()), r) && Contents() == After(old(Contents()), r)
    {
      taken, going := [], true;
      match r
      case Push(bytes) =>
        var ok := Push(bytes);
      case Take(size) =>
        if size > 0 {
          var dst := new Byte[size];
          var popped := Pop(dst, size, false);
          if popped == Done {
            taken := dst[..];
          }
          going := popped != Overrun;
        }
      case Clear =>
        Reset();
    }

    /** The request `n` of a run whose earlier ones have given `out`. */
    method ServeNext(ghost m: Marks, ghost q: seq<Byte>, rs: seq<Request>, n: nat, out: seq<Byte>)
      returns (more: seq<Byte>, going: bool)
      requires Valid() && n < |rs| && m.Proper() && Answers(m, q, rs[..n], Place(), Contents(), out)
      modifies this, data
      ensures going ==> Valid() && (data == old(data) || fresh(data))
      ensures going ==> Answers(m, q, rs[..n + 1], Place(), Contents(), more)
      ensures !going ==> more == out && Halts(m, q, rs, n, out)
    {
      AnswersOn(m, q, rs, n, Place(), Contents(), out);
      var taken;
      taken, going := ServeOne(rs[n]);
      more := if going then out + taken else out;
    }

    /** The loop of such a run. */
    method ServeAll(rs: seq<Request>) returns (served: nat, out: seq<Byte>)
      requires Valid()
      modifies this, data
      ensures served <= |rs|
      ensures served == |rs| ==> Valid() && (data == old(data) || fresh(data))
      ensures served == |rs| ==> Answers(old(Place()), old(Contents()), rs, Place(), Contents(), out)
      ensures served < |rs| ==> Halts(old(Place()), old(Contents()), rs, served, out)
    {
      served, out := 0, [];
      ghost var start, queue := Place(), Contents();
      while served < |rs|
        invariant served <= |rs| && Valid() && (data == old(data) || fresh(data))
        invariant Answers(start, queue, rs[..served], Place(), Contents(), out)
      {
        var going;
        out, going := ServeNext(start, queue, rs, served, out);
        if !going {
          return;
        }
        served := served + 1;
      }
      assert rs[..served] == rs;
    }

    /**
     A run of the buffer, up to the first Pop that overruns: what it gave out is what the queue gives
     out, and without Clear what went in comes out in order.
     */
    method Serve(rs: seq<Request>) returns (served: nat, out: seq<Byte>)
      requires Valid()
      modifies this, data
      ensures served <= |rs|
      ensures served == |rs| ==> Valid() && (data == old(data) || fresh(data))
      ensures served == |rs| ==> Answers(old(Place()), old(Contents()), rs, Place(), Contents(), out)
      ensures served == |rs| && NeverClears(rs) ==> out + Contents() == old(Contents()) + InAll(rs)
      ensures served < |rs| ==> Halts(old(Place()), old(Contents()), rs, served, out)
    {
      ghost var start, queue := Place(), Contents();
      served, out := ServeAll(rs);
      if served == |rs| && NeverClears(rs) {
        AnswersInOrder(start, queue, rs, Place(), Contents(), out);
      }
    }
  }
}
