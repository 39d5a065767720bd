/** The ring buffer between the keyboard interrupt and the main loop. */
module KeyRing {
  import opened Bytes

  const RING_SIZE := 256
  const CAPACITY := 255

  /** Slots and the two unsigned-char indices. */
  datatype RingState = RingState(slots: seq<Byte>, head: Byte, tail: Byte)
  {
    predicate Ok() {
      |slots| == RING_SIZE
    }

    /** The bytes waiting, oldest first. */
    function Pending(): (q: seq<Byte>)
      requires Ok()
      ensures |q| == (tail - head) % RING_SIZE
    {
      if head <= tail then slots[head..tail] else slots[head..] + slots[..tail]
    }

    /** The producer's step: one slot always stays unused, so a byte is lost when 255 wait. */
    function Offer(c: Byte): (r: RingState)
      requires Ok()
      ensures r.Ok()
    {
      var next := (tail + 1) % RING_SIZE;
      if next == head then this else RingState(slots[tail := c], head, next)
    }

    /** The consumer's step over the oldest byte. */
    function Advance(): (r: RingState)
      requires Ok()
      ensures r.Ok()
    {
      this.(head := (head + 1) % RING_SIZE)
    }
  }

  /** What a bounded queue keeps of one more byte. */
  function Accept(queue: seq<Byte>, c: Byte): seq<Byte> {
    if |queue| < CAPACITY then queue + [c] else queue
  }

  function AcceptAll(queue: seq<Byte>, bytes: seq<Byte>): seq<Byte> {
    if bytes == [] then queue
    else Accept(AcceptAll(queue, bytes[..|bytes| - 1]), bytes[|bytes| - 1])
  }

  // ---- laws ----

  /** Storing a byte at the tail and moving the tail on puts it behind the bytes that wait. */
  lemma StoreAppends(r: RingState, c: Byte)
    requires r.Ok() && |r.Pending()| < CAPACITY
    ensures RingState(r.slots[r.tail := c], r.head, (r.tail + 1) % RING_SIZE).Pending() == r.Pending() + [c]
  {
    var slots, next := r.slots[r.tail := c], (r.tail + 1) % RING_SIZE;
    if r.head > r.tail {
      assert slots[..next] == r.slots[..r.tail] + [c];
    } else if next == 0 {
      assert slots[r.head..] == r.slots[r.head..r.tail] + [c];
    } else {
      assert slots[r.head..next] == r.slots[r.head..r.tail] + [c];
    }
  }

  /** At most 255 bytes wait; a byte joins at the end unless exactly 255 already wait. */
  lemma OfferIsAccept(r: RingState, c: Byte)
    requires r.Ok()
    ensures |r.Pending()| <= 255
    ensures r.Offer(c).Pending() == Accept(r.Pending(), c)
    ensures r.Offer(c) == r <==> |r.Pending()| == 255
  {
    hide RingState.Pending;
    assert (r.tail + 1) % RING_SIZE == r.head <==> |r.Pending()| == CAPACITY;
    if |r.Pending()| < CAPACITY {
      StoreAppends(r, c);
    }
  }

  /** The slot at the head holds the oldest byte, and advancing removes exactly that one. */
  lemma AdvanceIsTail(r: RingState)
    requires r.Ok()
    ensures r.head == r.tail <==> r.Pending() == []
    ensures r.head != r.tail ==>
              r.Pending() == [r.slots[r.head]] + r.Advance().Pending()
  {
    if r.head != r.tail {
      assert r.Pending() == [r.slots[r.head]] + r.Advance().Pending();
    }
  }

  /** A burst is accepted up to the free room and then cut off. */
  lemma {:induction false} AcceptAllIsPrefix(queue: seq<Byte>, bytes: seq<Byte>)
    requires |queue| <= CAPACITY
    ensures AcceptAll(queue, bytes) == queue + Prefix(bytes, CAPACITY - |queue|)
  {
    if bytes != [] {
      var init := bytes[..|bytes| - 1];
      AcceptAllIsPrefix(queue, init);
      if |init| < CAPACITY - |queue| {
        assert bytes == init + [bytes[|bytes| - 1]];
      } else {
        assert Prefix(init, CAPACITY - |queue|) == Prefix(bytes, CAPACITY - |queue|);
      }
    }
  }

  /** The byte a pop hands over, if it does. */
  function Popped(ok: bool, c: Byte): seq<Byte> {
    if ok then [c] else []
  }

  class Ring {
    const slots: array<Byte>
    var head: Byte
    var tail: Byte

    ghost predicate Valid()
      reads this
    {
      slots.Length == RING_SIZE
    }

    ghost function State(): (r: RingState)
      requires Valid()
      reads this, slots
      ensures r.Ok()
    {
      RingState(slots[..], head, tail)
    }

    constructor ()
      ensures Valid() && fresh(slots) && State().Pending() == []
    {
      slots := new Byte[RING_SIZE](_ => 0);
      head, tail := 0, 0;
    }

    method Enqueue(c: Byte)
      requires Valid()
      modifies this, slots
      ensures Valid() && State() == old(State()).Offer(c)
      ensures State().Pending() == Accept(old(State().Pending()), c)
    {
      OfferIsAccept(State(), c);
      var next := (tail + 1) % RING_SIZE;
      if next == head {
        return;
      }
      slots[tail] := c;
      tail := next;
    }

    /** `ok` is false when nothing waits; otherwise the oldest byte is taken. */
    method Pop() returns (ok: bool, c: Byte)
      requires Valid()
      modifies this
      ensures Valid()
      ensures ok <==> old(State().Pending()) != []
      ensures !ok ==> State() == old(State())
      ensures ok ==> State() == old(State()).Advance()
      ensures old(State().Pending()) == Popped(ok, c) + State().Pending()
    {
      AdvanceIsTail(State());
      if head == tail {
        return false, 0;
      }
      c := slots[head];
      head := (head + 1) % RING_SIZE;
      ok := true;
    }
  }
}
