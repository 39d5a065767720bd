/** The main loop and the keyboard interrupt, interleaved at every instruction of the ring
    access, with COM1 bytes arriving at any time. */
module KernelRuns {
  import opened Bytes
  import opened KeyRing
  import opened Keyboard
  import opened LineEditor
  import opened ChatModel
  import opened ChatSpec
  import opened ChatScreen

  /** The next action of the main loop: `cli`; the emptiness test; the read of the oldest slot;
      the advance of the head; `sti` with a byte in hand; processing that byte; `sti` with
      none; the COM1 test; reading and processing a COM1 byte. */
  datatype Pc =
    | Poll | Masked | Nonempty | Loaded(c: Byte) | Advanced(c: Byte) | Process(c: Byte)
    | Drained | Wire | Receive

  /** The machine, and the history of the run: key bytes accepted by the ring and popped from
      it, COM1 bytes arrived, and the inputs processed so far. */
  datatype Kernel = Kernel(iflag: bool, pc: Pc, ring: RingState, wire: seq<Byte>, chat: Chat,
                           accepted: seq<Byte>, popped: seq<Byte>, arrived: seq<Byte>, fed: seq<Input>)

  datatype Event = Main | KeyIrq(codes: seq<Byte>) | WireByte(b: Byte)

  // ---- steps ----

  /** The interrupt handler offers one byte to the ring. */
  function OfferKey(k: Kernel, b: Byte): (r: Kernel)
    requires k.ring.Ok()
    ensures r.ring.Ok()
  {
    var ring := k.ring.Offer(b);
    k.(ring := ring, accepted := if ring == k.ring then k.accepted else k.accepted + [b])
  }

  function OfferKeys(k: Kernel, bytes: seq<Byte>): (r: Kernel)
    requires k.ring.Ok()
    ensures r.ring.Ok()
  {
    if bytes == [] then k
    else OfferKey(OfferKeys(k, bytes[..|bytes| - 1]), bytes[|bytes| - 1])
  }

  /** One action of the main loop. A hung processor spins with interrupts enabled. */
  function MainStep(k: Kernel, banners: Banners): (r: Kernel)
    requires k.ring.Ok()
    ensures r.ring.Ok()
  {
    if k.chat.hung then k
    else
      match k.pc
      case Poll => k.(iflag := false, pc := Masked)
      case Masked => k.(pc := if k.ring.head == k.ring.tail then Drained else Nonempty)
      case Nonempty => k.(pc := Loaded(k.ring.slots[k.ring.head]))
      case Loaded(c) => k.(ring := k.ring.Advance(), popped := k.popped + [c], pc := Advanced(c))
      case Advanced(c) => k.(iflag := true, pc := Process(c))
      case Process(c) =>
        k.(chat := KeyboardByte(k.chat, c, banners), fed := k.fed + [Input(Vga, c)], pc := Poll)
      case Drained => k.(iflag := true, pc := Wire)
      case Wire => k.(pc := if k.wire == [] then Poll else Receive)
      case Receive =>
        if k.wire == [] then k
        else k.(chat := SerialByte(k.chat, k.wire[0], banners),
                fed := k.fed + [Input(Serial, k.wire[0])], wire := k.wire[1..], pc := Wire)
  }

  /** An interrupt is taken only while the interrupt flag is set, and then runs to its end. */
  function Step(k: Kernel, e: Event, banners: Banners): (r: Kernel)
    requires k.ring.Ok()
    ensures r.ring.Ok()
  {
    match e
    case Main => MainStep(k, banners)
    case KeyIrq(codes) => if k.iflag then OfferKeys(k, Translate(codes)) else k
    case WireByte(b) => k.(wire := k.wire + [b], arrived := k.arrived + [b])
  }

  function Run(k: Kernel, events: seq<Event>, banners: Banners): (r: Kernel)
    requires k.ring.Ok()
    ensures r.ring.Ok()
    decreases |events|
  {
    if events == [] then k else Run(Step(k, events[0], banners), events[1..], banners)
  }

  /** The end of the chat's initialisation: empty ring, empty editors, interrupts enabled. */
  predicate Started(k: Kernel) {
    && k.iflag && k.pc == Poll
    && k.ring.Ok() && k.ring.head == 0 && k.ring.tail == 0
    && k.wire == [] && k.accepted == [] && k.popped == [] && k.arrived == []
    && k.fed == []
    && Starting(k.chat) && EditorOnScreen(k.chat)
  }

  // ---- the invariant ----

  /** The byte popped but not yet processed. */
  function InHand(pc: Pc): seq<Byte> {
    match pc
    case Advanced(c) => [c]
    case Process(c) => [c]
    case _ => []
  }

  predicate Unmasked(pc: Pc) {
    pc == Poll || pc.Process? || pc == Wire || pc == Receive
  }

  /** What interrupt masking gives: between `cli` and `sti` the ring is as the test found it. */
  predicate RingAgrees(k: Kernel)
    ensures RingAgrees(k) ==> k.ring.Ok()
  {
    && k.ring.Ok()
    && (k.iflag <==> Unmasked(k.pc))
    && (k.pc == Nonempty || k.pc.Loaded? ==> k.ring.head != k.ring.tail)
    && (k.pc.Loaded? ==> k.pc.c == k.ring.slots[k.ring.head])
    && (k.pc == Drained ==> k.ring.head == k.ring.tail)
    && k.accepted == k.popped + k.ring.Pending()
  }

  ghost predicate Invariant(k: Kernel, start: Chat, banners: Banners)
    ensures Invariant(k, start, banners) ==> k.ring.Ok()
  {
    && RingAgrees(k)
    && k.popped == Typed(Vga, k.fed) + InHand(k.pc)
    && k.arrived == Typed(Serial, k.fed) + k.wire
    && (k.pc == Receive ==> k.wire != [])
    && k.chat == FeedAll(start, k.fed, banners)
  }

  lemma StartedInvariant(k: Kernel, banners: Banners)
    requires Started(k)
    ensures Invariant(k, k.chat, banners)
  {
    AdvanceIsTail(k.ring);
  }

  lemma MainKeepsRing(k: Kernel, banners: Banners)
    requires RingAgrees(k)
    ensures RingAgrees(MainStep(k, banners))
  {
    hide KeyboardByte, SerialByte, RingState.Pending;
    AdvanceIsTail(k.ring);
    if k.pc.Loaded? && !k.chat.hung {
      var rest := k.ring.Advance().Pending();
      assert k.popped + ([k.pc.c] + rest) == (k.popped + [k.pc.c]) + rest;
    }
  }

  /** Processing a byte moves it from the hand, or from COM1, into the processed inputs. */
  lemma ProcessKeepsHistory(k: Kernel, start: Chat, banners: Banners)
    requires Invariant(k, start, banners) && !k.chat.hung && k.pc.Process?
    ensures var r := MainStep(k, banners);
            && r.popped == Typed(Vga, r.fed) + InHand(r.pc)
            && r.arrived == Typed(Serial, r.fed) + r.wire
            && r.chat == FeedAll(start, r.fed, banners)
  {
    hide KeyboardByte, FeedAll, RingAgrees, Typed, RingState.Pending, RingState.Advance;
    var e := Input(Vga, k.pc.c);
    TypedGrows(Vga, k.fed, e);
    TypedGrows(Serial, k.fed, e);
    FeedAllGrows(start, k.fed, e, banners);
  }

  lemma ReceiveKeepsHistory(k: Kernel, start: Chat, banners: Banners)
    requires Invariant(k, start, banners) && !k.chat.hung && k.pc == Receive
    ensures var r := MainStep(k, banners);
            && r.popped == Typed(Vga, r.fed) + InHand(r.pc)
            && r.arrived == Typed(Serial, r.fed) + r.wire
            && r.chat == FeedAll(start, r.fed, banners)
  {
    hide SerialByte, FeedAll, RingAgrees, Typed, RingState.Pending, RingState.Advance;
    var e := Input(Serial, k.wire[0]);
    TypedGrows(Vga, k.fed, e);
    TypedGrows(Serial, k.fed, e);
    FeedAllGrows(start, k.fed, e, banners);
    assert k.wire == [k.wire[0]] + k.wire[1..];
  }

  lemma MainKeepsInvariant(k: Kernel, start: Chat, banners: Banners)
    requires Invariant(k, start, banners)
    ensures Invariant(MainStep(k, banners), start, banners)
  {
    hide KeyboardByte, SerialByte, FeedAll, Typed, RingState.Pending, RingState.Advance, RingAgrees;
    MainKeepsRing(k, banners);
    if k.pc.Process? && !k.chat.hung {
      ProcessKeepsHistory(k, start, banners);
    } else if k.pc == Receive && !k.chat.hung {
      ReceiveKeepsHistory(k, start, banners);
    }
  }

  /** The interrupt only appends to the ring: nothing waiting moves, and a byte is accepted
      unless exactly 255 wait. */
  lemma OfferKeyKeepsRing(k: Kernel, b: Byte)
    requires RingAgrees(k) && k.iflag
    ensures RingAgrees(OfferKey(k, b))
    ensures OfferKey(k, b).accepted == k.accepted <==> |k.ring.Pending()| == CAPACITY
    ensures OfferKey(k, b).accepted == if |k.ring.Pending()| < CAPACITY then k.accepted + [b] else k.accepted
  {
    hide RingState.Pending, RingState.Offer;
    OfferIsAccept(k.ring, b);
  }

  lemma {:induction false} OfferKeysKeepRing(k: Kernel, bytes: seq<Byte>)
    requires RingAgrees(k) && k.iflag
    ensures var r := OfferKeys(k, bytes);
            && RingAgrees(r)
            && r == k.(ring := r.ring, accepted := r.accepted)
  {
    hide RingAgrees, RingState.Offer;
    if bytes != [] {
      var init := bytes[..|bytes| - 1];
      OfferKeysKeepRing(k, init);
      OfferKeyKeepsRing(OfferKeys(k, init), bytes[|bytes| - 1]);
    }
  }

  lemma {:induction false} IrqPending(k: Kernel, bytes: seq<Byte>)
    requires k.ring.Ok()
    ensures OfferKeys(k, bytes).ring.Pending() == AcceptAll(k.ring.Pending(), bytes)
  {
    hide RingState.Pending, RingState.Offer;
    if bytes != [] {
      IrqPending(k, bytes[..|bytes| - 1]);
      OfferIsAccept(OfferKeys(k, bytes[..|bytes| - 1]).ring, bytes[|bytes| - 1]);
    }
  }

  /** In every state one interrupt accepts the first bytes of its burst, up to the free room,
      and loses the rest. */
  lemma {:induction false} IrqAcceptsPrefix(k: Kernel, bytes: seq<Byte>)
    requires k.ring.Ok()
    ensures |k.ring.Pending()| <= CAPACITY
    ensures OfferKeys(k, bytes).accepted == k.accepted + Prefix(bytes, CAPACITY - |k.ring.Pending()|)
  {
    hide RingState.Pending, RingState.Offer, Prefix;
    OfferIsAccept(k.ring, 0);
    var room := CAPACITY - |k.ring.Pending()|;
    if bytes == [] {
      assert Prefix(bytes, room) == [];
    } else {
      var init, b := bytes[..|bytes| - 1], bytes[|bytes| - 1];
      IrqAcceptsPrefix(k, init);
      IrqPending(k, init);
      AcceptAllIsPrefix(k.ring.Pending(), init);
      OfferIsAccept(OfferKeys(k, init).ring, b);
      PrefixOfOneMore(init, b, room);
      assert bytes == init + [b];
    }
  }

  lemma PrefixOfOneMore(s: seq<Byte>, b: Byte, n: nat)
    ensures Prefix(s + [b], n) == if |Prefix(s, n)| < n then Prefix(s, n) + [b] else Prefix(s, n)
  {}

  lemma StepKeepsInvariant(k: Kernel, e: Event, start: Chat, banners: Banners)
    requires Invariant(k, start, banners)
    ensures Invariant(Step(k, e, banners), start, banners)
  {
    hide MainStep, FeedAll, RingState.Pending;
    match e
    case Main => MainKeepsInvariant(k, start, banners);
    case KeyIrq(codes) =>
      if k.iflag {
        OfferKeysKeepRing(k, Translate(codes));
      }
    case WireByte(b) =>
  }

  lemma {:induction false} RunKeepsInvariant(k: Kernel, events: seq<Event>, start: Chat, banners: Banners)
    requires Invariant(k, start, banners)
    ensures Invariant(Run(k, events, banners), start, banners)
    decreases |events|
  {
    hide Step, Invariant;
    if events != [] {
      StepKeepsInvariant(k, events[0], start, banners);
      RunKeepsInvariant(Step(k, events[0], banners), events[1..], start, banners);
    }
  }

  lemma {:induction false} RunConcat(k: Kernel, a: seq<Event>, b: seq<Event>, banners: Banners)
    requires k.ring.Ok()
    ensures Run(k, a + b, banners) == Run(Run(k, a, banners), b, banners)
    decreases |a|
  {
    hide Step;
    if a == [] {
      assert a + b == b;
    } else {
      assert (a + b)[1..] == a[1..] + b;
      RunConcat(Step(k, a[0], banners), a[1..], b, banners);
    }
  }

  // ---- what every run guarantees ----

  /** FIFO delivery under interrupts: the bytes processed, the one in hand and those waiting
      are, in this order, exactly the bytes accepted; at most 255 wait. */
  lemma FifoUnderInterrupts(k: Kernel, events: seq<Event>, banners: Banners)
    requires Started(k)
    ensures var r := Run(k, events, banners);
            && r.accepted == Typed(Vga, r.fed) + InHand(r.pc) + r.ring.Pending()
            && r.arrived == Typed(Serial, r.fed) + r.wire
            && |r.ring.Pending()| <= CAPACITY
  {
    hide Run, FeedAll;
    StartedInvariant(k, banners);
    RunKeepsInvariant(k, events, k.chat, banners);
    OfferIsAccept(Run(k, events, banners).ring, 0);
  }

  /** The critical section: in every reachable state no interrupt is taken between the emptiness
      test of the ring and the advance of its head, and everywhere else one is. */
  lemma RingAccessIsMasked(k: Kernel, events: seq<Event>, banners: Banners, codes: seq<Byte>)
    requires Started(k)
    ensures var r := Run(k, events, banners);
            if r.pc.Masked? || r.pc.Nonempty? || r.pc.Loaded? || r.pc.Advanced? || r.pc.Drained?
            then Step(r, KeyIrq(codes), banners) == r
            else Step(r, KeyIrq(codes), banners) == OfferKeys(r, Translate(codes))
  {
    hide Run, FeedAll, OfferKeys, Translate;
    StartedInvariant(k, banners);
    RunKeepsInvariant(k, events, k.chat, banners);
  }

  /** In every state a burst is accepted whole if and only if it fits the free room; a single
      byte is lost if and only if exactly 255 bytes wait. */
  lemma LossExactly(k: Kernel, bytes: seq<Byte>, b: Byte)
    requires k.ring.Ok()
    ensures OfferKeys(k, bytes).accepted == k.accepted + bytes <==> |bytes| + |k.ring.Pending()| <= 255
    ensures OfferKey(k, b).accepted == k.accepted <==> |k.ring.Pending()| == 255
  {
    hide RingState.Pending, RingState.Offer;
    IrqAcceptsPrefix(k, bytes);
    OfferIsAccept(k.ring, b);
    var room := CAPACITY - |k.ring.Pending()|;
    if OfferKeys(k, bytes).accepted == k.accepted + bytes {
      assert |k.accepted + Prefix(bytes, room)| == |k.accepted + bytes|;
    }
  }

  /** The scan codes of one event, if it is an interrupt that is taken. */
  function CodesOf(k: Kernel, e: Event): seq<Byte> {
    if e.KeyIrq? && k.iflag then e.codes else []
  }

  /** All scan codes of the interrupts a run takes, in order. */
  function CodesTaken(k: Kernel, events: seq<Event>, banners: Banners): seq<Byte>
    requires k.ring.Ok()
    decreases |events|
  {
    if events == [] then []
    else CodesOf(k, events[0]) + CodesTaken(Step(k, events[0], banners), events[1..], banners)
  }

  /** Every burst taken fits the room the ring has when it is taken. */
  predicate NeverOverrun(k: Kernel, events: seq<Event>, banners: Banners)
    requires k.ring.Ok()
    decreases |events|
  {
    events != [] ==>
      && |Translate(CodesOf(k, events[0]))| + |k.ring.Pending()| <= CAPACITY
      && NeverOverrun(Step(k, events[0], banners), events[1..], banners)
  }

  /** One event appends at most the translation of the scan codes it takes, and all of it if
      and only if it fits. */
  lemma StepAccepts(k: Kernel, e: Event, banners: Banners)
    requires k.ring.Ok()
    ensures var typed, now := Translate(CodesOf(k, e)), Step(k, e, banners).accepted;
            && |now| <= |k.accepted| + |typed|
            && (|now| == |k.accepted| + |typed| <==> |typed| + |k.ring.Pending()| <= CAPACITY)
            && (now == k.accepted + typed <==> |typed| + |k.ring.Pending()| <= CAPACITY)
  {
    hide RingState.Pending, KeyboardByte, SerialByte, RingState.Advance;
    var typed := Translate(CodesOf(k, e));
    OfferIsAccept(k.ring, 0);
    if e.KeyIrq? && k.iflag {
      IrqAcceptsPrefix(k, typed);
      LossExactly(k, typed, 0);
    } else {
      assert typed == [] && Step(k, e, banners).accepted == k.accepted;
    }
  }

  lemma TranslateNothing()
    ensures Translate([]) == []
  {}

  lemma {:induction false} RunAccepts(k: Kernel, events: seq<Event>, banners: Banners)
    requires k.ring.Ok()
    ensures var typed, now := Translate(CodesTaken(k, events, banners)), Run(k, events, banners).accepted;
            && |now| <= |k.accepted| + |typed|
            && (|now| == |k.accepted| + |typed| ==> NeverOverrun(k, events, banners))
            && (NeverOverrun(k, events, banners) ==> now == k.accepted + typed)
    decreases |events|
  {
    hide Step, CodesOf, RingState.Pending, Translate;
    if events == [] {
      TranslateNothing();
    } else {
      var e := events[0];
      var t := Step(k, e, banners);
      StepAccepts(k, e, banners);
      RunAccepts(t, events[1..], banners);
      TranslateConcat(CodesOf(k, e), CodesTaken(t, events[1..], banners));
    }
  }

  /** Lossless typing: over a whole run the bytes accepted are the translation of all scan codes
      taken, in order, if and only if no burst exceeds the room it finds. */
  lemma RunLosesNothingExactly(k: Kernel, events: seq<Event>, banners: Banners)
    requires k.ring.Ok()
    ensures Run(k, events, banners).accepted == k.accepted + Translate(CodesTaken(k, events, banners))
            <==> NeverOverrun(k, events, banners)
  {
    hide Run, CodesTaken, NeverOverrun, Translate;
    RunAccepts(k, events, banners);
  }

  /** The interrupt reads and changes nothing but the ring (and the history of it). */
  lemma {:induction false} OfferKeysTouchRing(k: Kernel, j: Kernel, bytes: seq<Byte>)
    requires k.ring.Ok() && j.ring == k.ring && j.accepted == k.accepted
    ensures OfferKeys(j, bytes) == j.(ring := OfferKeys(k, bytes).ring, accepted := OfferKeys(k, bytes).accepted)
  {
    hide RingState.Offer;
    if bytes != [] {
      OfferKeysTouchRing(k, j, bytes[..|bytes| - 1]);
    }
  }

  /** Processing one byte is a fair single step: a key interrupt or a COM1 arrival during it has
      the same effect just before as just after. */
  lemma ProcessingCommutes(k: Kernel, e: Event, banners: Banners)
    requires k.ring.Ok() && k.iflag && (k.pc.Process? || k.pc == Receive) && e != Main
    requires k.pc == Receive && e.WireByte? ==> k.wire != []
    ensures Step(Step(k, Main, banners), e, banners) == Step(Step(k, e, banners), Main, banners)
  {
    hide OfferKeys, KeyboardByte, SerialByte, Translate;
    var t := MainStep(k, banners);
    match e
    case KeyIrq(codes) =>
      OfferKeysTouchRing(k, k, Translate(codes));
      OfferKeysTouchRing(k, t, Translate(codes));
    case WireByte(_) =>
  }

  /** However key interrupts, COM1 arrivals and main-loop actions interleave, what each user
      posted is what the editing reference says of the bytes of that user processed so far,
      and screen and editor invariants hold. */
  lemma RunsMeetSpec(k: Kernel, events: seq<Event>, banners: Banners)
    requires Started(k)
    ensures var r := Run(k, events, banners);
            && (r.chat.hung <==> DeadlockLine(r.fed))
            && (!r.chat.hung ==> forall u :: Follows(r.chat, r.fed, u))
            && EditorOnScreen(r.chat)
  {
    hide Run, FeedAll, Follows, DeadlockLine, RingAgrees, EditorOnScreen;
    StartedInvariant(k, banners);
    RunKeepsInvariant(k, events, k.chat, banners);
    EditingMeetsSpec(k.chat, Run(k, events, banners).fed, banners);
    RunsStayOnScreen(k.chat, Run(k, events, banners).fed, banners);
  }
}
