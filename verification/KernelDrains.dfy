/** The main loop catches up: after any run, finitely many more of its actions process every
    byte that was accepted, so delivery is complete as well as in order. */
module KernelDrains {
  import opened Bytes
  import opened KeyRing
  import opened Keyboard
  import opened LineEditor
  import opened ChatModel
  import opened ChatSpec
  import opened KernelRuns

  /** Nothing waits anywhere and the loop is at its start. */
  predicate Quiescent(k: Kernel)
    requires k.ring.Ok()
  {
    k.pc == Poll && k.ring.Pending() == [] && k.wire == []
  }

  /** Bounds the main-loop actions until everything that waits is processed. */
  function Backlog(k: Kernel): nat
    requires k.ring.Ok()
  {
    var keys, bytes := |k.ring.Pending()|, |k.wire|;
    10 * keys + 10 * bytes +
    match k.pc
    case Poll => if keys > 0 then 5 else if bytes > 0 then 9 else 0
    case Masked => if keys > 0 then 4 else 8
    case Nonempty => 3
    case Loaded(_) => 2
    case Advanced(_) => 11
    case Process(_) => 10
    case Drained => 7
    case Wire => 6
    case Receive => 5
  }

  lemma MainLowersBacklog(k: Kernel, start: Chat, banners: Banners)
    requires Invariant(k, start, banners) && !k.chat.hung && !Quiescent(k)
    ensures Backlog(MainStep(k, banners)) < Backlog(k)
    ensures MainStep(k, banners).accepted == k.accepted && MainStep(k, banners).arrived == k.arrived
  {
    hide KeyboardByte, SerialByte, RingState.Pending, RingState.Advance, FeedAll, Typed;
    AdvanceIsTail(k.ring);
  }

  function MainSteps(n: nat): seq<Event> {
    seq(n, _ => Main)
  }

  /** Left alone, the main loop reaches a state with nothing left to do, or hangs, within as many
      actions as its backlog. */
  lemma {:induction false} MainLoopDrains(k: Kernel, start: Chat, banners: Banners) returns (n: nat)
    requires Invariant(k, start, banners)
    ensures n <= Backlog(k)
    ensures var r := Run(k, MainSteps(n), banners);
            && (r.chat.hung || Quiescent(r))
            && r.accepted == k.accepted && r.arrived == k.arrived
    decreases Backlog(k)
  {
    hide MainStep, Invariant, Quiescent, Backlog;
    if k.chat.hung || Quiescent(k) {
      n := 0;
    } else {
      MainLowersBacklog(k, start, banners);
      StepKeepsInvariant(k, Main, start, banners);
      var m := MainLoopDrains(Step(k, Main, banners), start, banners);
      n := m + 1;
      assert MainSteps(n)[1..] == MainSteps(m);
    }
  }

  /** The bytes a user's editor is to receive. */
  function Delivered(k: Kernel, u: User): seq<Byte> {
    match u case Vga => k.accepted case Serial => k.arrived
  }

  lemma {:induction false} LinesOfPrefix(u: User, stream: seq<Byte>, more: seq<Byte>)
    ensures forall line | line in Lines(u, stream) :: line in Lines(u, stream + more)
    decreases |more|
  {
    hide Lines;
    if more == [] {
      assert stream + more == stream;
    } else {
      var init, c := more[..|more| - 1], more[|more| - 1];
      LinesOfPrefix(u, stream, init);
      LinesGrow(u, stream + init, c);
      assert stream + more == (stream + init) + [c];
    }
  }

  /** A /deadlock line that was processed is a /deadlock line that was delivered. */
  lemma ProcessedIsDelivered(k: Kernel, start: Chat, banners: Banners)
    requires Invariant(k, start, banners) && DeadlockLine(k.fed)
    ensures exists u :: DEADLOCK in Lines(u, Delivered(k, u))
  {
    hide Lines, FeedAll, DEADLOCK;
    var u :| DEADLOCK in Lines(u, Typed(u, k.fed));
    LinesOfPrefix(Vga, Typed(Vga, k.fed), InHand(k.pc) + k.ring.Pending());
    LinesOfPrefix(Serial, Typed(Serial, k.fed), k.wire);
    assert k.accepted == Typed(Vga, k.fed) + (InHand(k.pc) + k.ring.Pending());
    assert DEADLOCK in Lines(u, Delivered(k, u));
  }

  /** Whenever a run has nothing waiting, everything delivered has been processed. */
  lemma QuiescentMeansProcessed(k: Kernel, events: seq<Event>, banners: Banners, u: User)
    requires Started(k)
    requires var r := Run(k, events, banners); !r.chat.hung && Quiescent(r)
    ensures var r := Run(k, events, banners);
            && Posts(u, r.chat.posted) == Messages(u, Delivered(r, u))
            && r.chat.Line(u) == EditAll(u, Rest(u, Delivered(r, u)))
  {
    hide Run, FeedAll, RingState.Pending, DeadlockLine, EditAll, Rest, Messages;
    var r := Run(k, events, banners);
    FifoUnderInterrupts(k, events, banners);
    RunsMeetSpec(k, events, banners);
    assert Typed(u, r.fed) == Delivered(r, u);
    assert Follows(r.chat, r.fed, u);
  }

  /** End to end. After any interleaving of key interrupts, COM1 arrivals and main-loop actions
      whose delivered bytes contain no complete /deadlock line, finitely many further actions
      of the main loop leave nothing waiting, and then each user has posted exactly the
      messages of all the bytes delivered for that user, however polls batched them. */
  lemma EveryByteIsProcessed(k: Kernel, events: seq<Event>, banners: Banners) returns (n: nat)
    requires Started(k)
    requires forall u :: DEADLOCK !in Lines(u, Delivered(Run(k, events, banners), u))
    ensures n <= Backlog(Run(k, events, banners))
    ensures var before, r := Run(k, events, banners), Run(k, events + MainSteps(n), banners);
            && !r.chat.hung && Quiescent(r)
            && r.accepted == before.accepted && r.arrived == before.arrived
            && forall u ::
                 && Posts(u, r.chat.posted) == Messages(u, Delivered(before, u))
                 && r.chat.Line(u) == EditAll(u, Rest(u, Delivered(before, u)))
  {
    hide Run, Step, FeedAll, Lines, DEADLOCK, RingAgrees, RingState.Pending, DeadlockLine;
    hide EditAll, Rest, Messages, Quiescent;
    var before := Run(k, events, banners);
    StartedInvariant(k, banners);
    RunKeepsInvariant(k, events, k.chat, banners);
    n := MainLoopDrains(before, k.chat, banners);
    var all := events + MainSteps(n);
    RunConcat(k, events, MainSteps(n), banners);
    var r := Run(k, all, banners);
    forall u: User
      ensures Delivered(r, u) == Delivered(before, u)
    {}
    if r.chat.hung {
      RunKeepsInvariant(k, all, k.chat, banners);
      RunsMeetSpec(k, all, banners);
      ProcessedIsDelivered(r, k.chat, banners);
    }
    forall u: User
      ensures Posts(u, r.chat.posted) == Messages(u, Delivered(before, u))
      ensures r.chat.Line(u) == EditAll(u, Rest(u, Delivered(before, u)))
    {
      QuiescentMeansProcessed(k, all, banners, u);
    }
  }

  /** The bytes arriving on COM1, in order. */
  function WireBytes(events: seq<Event>): seq<Byte> {
    if events == [] then []
    else (match events[0] case WireByte(b) => [b] case _ => []) + WireBytes(events[1..])
  }

  lemma {:induction false} AllArrive(k: Kernel, events: seq<Event>, banners: Banners)
    requires k.ring.Ok()
    ensures Run(k, events, banners).arrived == k.arrived + WireBytes(events)
    decreases |events|
  {
    hide MainStep, OfferKeys, Translate;
    if events != [] {
      var e := events[0];
      if k.iflag && e.KeyIrq? {
        OfferKeysTouchRing(k, k, Translate(e.codes));
      }
      MainDeliversNothing(k, banners);
      AllArrive(Step(k, e, banners), events[1..], banners);
    }
  }

  lemma MainDeliversNothing(k: Kernel, banners: Banners)
    requires k.ring.Ok()
    ensures MainStep(k, banners).arrived == k.arrived && MainStep(k, banners).accepted == k.accepted
  {
    hide KeyboardByte, SerialByte, RingState.Advance;
  }

  /** What each user typed in a run: the keys of the scan codes taken, the bytes on the wire. */
  function TypedIn(k: Kernel, events: seq<Event>, banners: Banners, u: User): seq<Byte>
    requires k.ring.Ok()
  {
    match u
    case Vga => Translate(CodesTaken(k, events, banners))
    case Serial => WireBytes(events)
  }

  /** From scan codes to messages. In any interleaving in which no burst of keys exceeds the room
      it finds and nobody typed a complete /deadlock line, finitely many further actions of the
      main loop leave each user with exactly the messages, and the open line, of everything
      that user typed. */
  lemma KeystrokesBecomeMessages(k: Kernel, events: seq<Event>, banners: Banners) returns (n: nat)
    requires Started(k) && NeverOverrun(k, events, banners)
    requires forall u :: DEADLOCK !in Lines(u, TypedIn(k, events, banners, u))
    ensures n <= Backlog(Run(k, events, banners))
    ensures var r := Run(k, events + MainSteps(n), banners);
            && !r.chat.hung && Quiescent(r)
            && forall u ::
                 && Posts(u, r.chat.posted) == Messages(u, TypedIn(k, events, banners, u))
                 && r.chat.Line(u) == EditAll(u, Rest(u, TypedIn(k, events, banners, u)))
  {
    hide Run, CodesTaken, NeverOverrun, Translate, WireBytes, Lines, DEADLOCK, EditAll, Rest, Messages, Quiescent;
    hide RingState.Pending, DeadlockLine, RingState.Ok;
    RunLosesNothingExactly(k, events, banners);
    AllArrive(k, events, banners);
    forall u: User
      ensures Delivered(Run(k, events, banners), u) == TypedIn(k, events, banners, u)
    {}
    n := EveryByteIsProcessed(k, events, banners);
  }

  // ---- every schedule ----

  /** How often the main loop gets to act. */
  function MainActions(events: seq<Event>): nat {
    if events == [] then 0 else MainActions(events[1..]) + if events[0] == Main then 1 else 0
  }

  /** All bytes delivered so far. */
  function Received(k: Kernel): nat {
    |k.accepted| + |k.arrived|
  }

  /** More than the main-loop actions one further byte can cost. */
  const BYTE_COST := 19

  /** A key burst or an arrival adds at most `BYTE_COST` per byte it delivers. */
  lemma DeliveryRaisesBacklog(k: Kernel, e: Event, start: Chat, banners: Banners)
    requires Invariant(k, start, banners) && e != Main
    ensures var r := Step(k, e, banners);
            Backlog(r) <= Backlog(k) + BYTE_COST * (Received(r) - Received(k))
  {
    hide RingState.Pending, RingState.Offer, FeedAll, Typed, Translate, OfferKeys;
    match e
    case WireByte(_) =>
    case KeyIrq(codes) =>
      if k.iflag {
        OfferKeysKeepRing(k, Translate(codes));
        IrqAcceptsPrefix(k, Translate(codes));
      }
  }

  /** Under every schedule the main loop catches up: whatever interrupts and arrivals come in
      between, when the loop gets to act as often as its backlog and the bytes delivered
      meanwhile ask for, there is a moment at which nothing waits, or the machine hangs. */
  lemma {:induction false} EverySchedulePauses(k: Kernel, events: seq<Event>, start: Chat, banners: Banners)
    returns (n: nat)
    requires Invariant(k, start, banners)
    requires MainActions(events)
             >= Backlog(k) + BYTE_COST * (Received(Run(k, events, banners)) - Received(k))
    ensures n <= |events|
    ensures var r := Run(k, events[..n], banners);
            r.chat.hung || Quiescent(r)
    decreases |events|
  {
    hide Step, Invariant, Quiescent, Backlog, Received;
    if k.chat.hung || Quiescent(k) {
      n := 0;
    } else if events == [] {
      NoBacklogIsQuiescent(k, start, banners);
      assert false;
    } else {
      var e := events[0];
      StepKeepsInvariant(k, e, start, banners);
      if e == Main {
        MainStepLowersBacklog(k, start, banners);
      } else {
        DeliveryRaisesBacklog(k, e, start, banners);
      }
      var m := EverySchedulePauses(Step(k, e, banners), events[1..], start, banners);
      n := m + 1;
      assert events[..n][1..] == events[1..][..m];
    }
  }

  lemma NoBacklogIsQuiescent(k: Kernel, start: Chat, banners: Banners)
    requires Invariant(k, start, banners)
    ensures Backlog(k) == 0 <==> Quiescent(k)
  {
    hide FeedAll, Typed, RingState.Pending;
  }

  lemma MainStepLowersBacklog(k: Kernel, start: Chat, banners: Banners)
    requires Invariant(k, start, banners) && !k.chat.hung && !Quiescent(k)
    ensures Backlog(Step(k, Main, banners)) < Backlog(k)
    ensures Received(Step(k, Main, banners)) == Received(k)
  {
    hide MainStep, Invariant, Quiescent, Backlog;
    MainLowersBacklog(k, start, banners);
  }

  /** Delivered bytes are never taken back. */
  lemma {:induction false} RunOnlyDelivers(k: Kernel, events: seq<Event>, banners: Banners, u: User)
    requires k.ring.Ok()
    ensures Delivered(k, u) <= Delivered(Run(k, events, banners), u)
    decreases |events|
  {
    hide MainStep, OfferKeys, Translate;
    if events != [] {
      var e := events[0];
      if k.iflag && e.KeyIrq? {
        OfferKeysTouchRing(k, k, Translate(e.codes));
        IrqAcceptsPrefix(k, Translate(e.codes));
      }
      MainDeliversNothing(k, banners);
      RunOnlyDelivers(Step(k, e, banners), events[1..], banners, u);
    }
  }

  /** End to end under every schedule. After any run, in any continuation that lets the main loop
      act often enough and delivers no complete /deadlock line, there is a moment at which
      nothing waits and each user has posted exactly the messages of everything delivered for
      that user by then, which includes all that the first run delivered. */
  lemma EveryScheduleDelivers(k: Kernel, events: seq<Event>, more: seq<Event>, banners: Banners)
    returns (n: nat)
    requires Started(k)
    requires forall u :: DEADLOCK !in Lines(u, Delivered(Run(k, events + more, banners), u))
    requires var before := Run(k, events, banners);
             MainActions(more) >= Backlog(before)
                                  + BYTE_COST * (Received(Run(k, events + more, banners)) - Received(before))
    ensures n <= |more|
    ensures var before, r := Run(k, events, banners), Run(k, events + more[..n], banners);
            && !r.chat.hung && Quiescent(r)
            && forall u ::
                 && Delivered(before, u) <= Delivered(r, u)
                 && Posts(u, r.chat.posted) == Messages(u, Delivered(r, u))
                 && r.chat.Line(u) == EditAll(u, Rest(u, Delivered(r, u)))
  {
    hide Run, Step, FeedAll, Lines, DEADLOCK, RingAgrees, RingState.Pending, DeadlockLine;
    hide EditAll, Rest, Messages, Quiescent, Backlog, Received, MainActions;
    var before := Run(k, events, banners);
    StartedInvariant(k, banners);
    RunKeepsInvariant(k, events, k.chat, banners);
    RunConcat(k, events, more, banners);
    n := EverySchedulePauses(before, more, k.chat, banners);
    RunConcat(k, events, more[..n], banners);
    NotHungYet(k, events, more, n, banners);
    var r := Run(k, events + more[..n], banners);
    forall u: User
      ensures Delivered(before, u) <= Delivered(r, u)
      ensures Posts(u, r.chat.posted) == Messages(u, Delivered(r, u))
      ensures r.chat.Line(u) == EditAll(u, Rest(u, Delivered(r, u)))
    {
      RunOnlyDelivers(before, more[..n], banners, u);
      QuiescentMeansProcessed(k, events + more[..n], banners, u);
    }
  }

  lemma DeliveredLinesStay(k: Kernel, events: seq<Event>, banners: Banners, u: User)
    requires k.ring.Ok()
    ensures forall line | line in Lines(u, Delivered(k, u)) ::
              line in Lines(u, Delivered(Run(k, events, banners), u))
  {
    hide Run, Lines;
    RunOnlyDelivers(k, events, banners, u);
    var some, all := Delivered(k, u), Delivered(Run(k, events, banners), u);
    assert all == some + all[|some|..];
    LinesOfPrefix(u, some, all[|some|..]);
  }

  /** A machine to which no /deadlock line is ever delivered does not hang on the way. */
  lemma NotHungYet(k: Kernel, events: seq<Event>, more: seq<Event>, n: nat, banners: Banners)
    requires Started(k) && n <= |more|
    requires forall u :: DEADLOCK !in Lines(u, Delivered(Run(k, events + more, banners), u))
    ensures !Run(k, events + more[..n], banners).chat.hung
  {
    hide Run, FeedAll, Lines, DEADLOCK, RingAgrees, RingState.Pending, DeadlockLine;
    var some := events + more[..n];
    var r := Run(k, some, banners);
    StartedInvariant(k, banners);
    RunKeepsInvariant(k, some, k.chat, banners);
    RunsMeetSpec(k, some, banners);
    assert events + more == some + more[n..];
    RunConcat(k, some, more[n..], banners);
    forall u: User
      ensures DEADLOCK !in Lines(u, Delivered(r, u))
    {
      DeliveredLinesStay(r, more[n..], banners, u);
    }
    if r.chat.hung {
      ProcessedIsDelivered(r, k.chat, banners);
    }
  }
}
