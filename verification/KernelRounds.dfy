/** The in-place polling round and the interleaved step system agree: undisturbed, the step
    system's main loop does in one round what the method `ChatMachine.Poll` promises. */
module KernelRounds {
  import opened Bytes
  import opened KeyRing
  import opened LineEditor
  import opened ChatModel
  import opened ChatSpec
  import opened ChatMachine
  import opened KernelRuns
  import opened KernelDrains

  lemma FirstMain(k: Kernel, n: nat, banners: Banners)
    requires k.ring.Ok() && n > 0
    ensures Run(k, MainSteps(n), banners) == Run(MainStep(k, banners), MainSteps(n - 1), banners)
  {
    hide MainStep;
    assert MainSteps(n)[1..] == MainSteps(n - 1);
  }

  lemma MainStepsAdd(k: Kernel, m: nat, n: nat, banners: Banners)
    requires k.ring.Ok()
    ensures Run(k, MainSteps(m + n), banners) == Run(Run(k, MainSteps(m), banners), MainSteps(n), banners)
  {
    assert MainSteps(m + n) == MainSteps(m) + MainSteps(n);
    RunConcat(k, MainSteps(m), MainSteps(n), banners);
  }

  /** The six actions that take one waiting key byte from the ring to its editor. */
  lemma KeyTakesSix(k: Kernel, banners: Banners)
    requires RingAgrees(k) && k.pc == Pc.Poll && !k.chat.hung && k.ring.Pending() != []
    ensures var r, c := Run(k, MainSteps(6), banners), k.ring.slots[k.ring.head];
            && RingAgrees(r) && r.pc == Pc.Poll && r.wire == k.wire
            && r.chat == KeyboardByte(k.chat, c, banners)
            && k.ring.Pending() == [c] + r.ring.Pending()
  {
    hide KeyboardByte, RingState.Pending, RingState.Advance, RingAgrees, Run;
    AdvanceIsTail(k.ring);
    var masked := MainStep(k, banners);
    var nonempty := MainStep(masked, banners);
    var loaded := MainStep(nonempty, banners);
    var advanced := MainStep(loaded, banners);
    var process := MainStep(advanced, banners);
    SixSteps(k, banners);
    MainKeepsRing(k, banners);
    MainKeepsRing(masked, banners);
    MainKeepsRing(nonempty, banners);
    MainKeepsRing(loaded, banners);
    MainKeepsRing(advanced, banners);
    MainKeepsRing(process, banners);
  }

  lemma SixSteps(k: Kernel, banners: Banners)
    requires k.ring.Ok()
    ensures Run(k, MainSteps(6), banners) ==
            MainStep(MainStep(MainStep(ThreeMain(k, banners), banners), banners), banners)
  {
    hide MainStep;
    MainStepsAdd(k, 3, 3, banners);
    ThreeSteps(k, banners);
    ThreeSteps(ThreeMain(k, banners), banners);
  }

  function ThreeMain(k: Kernel, banners: Banners): (r: Kernel)
    requires k.ring.Ok()
    ensures r.ring.Ok()
  {
    MainStep(MainStep(MainStep(k, banners), banners), banners)
  }

  lemma ThreeSteps(k: Kernel, banners: Banners)
    requires k.ring.Ok()
    ensures Run(k, MainSteps(3), banners) == ThreeMain(k, banners)
  {
    hide MainStep;
    var first := MainStep(k, banners);
    FirstMain(k, 3, banners);
    FirstMain(first, 2, banners);
    FirstMain(MainStep(first, banners), 1, banners);
    assert MainSteps(0) == [];
  }

  lemma {:induction false} KeysDrain(k: Kernel, banners: Banners) returns (n: nat)
    requires RingAgrees(k) && k.pc == Pc.Poll && !k.chat.hung
    ensures var r := Run(k, MainSteps(n), banners);
            && RingAgrees(r) && r.wire == k.wire && r.pc == Pc.Poll
            && r.chat == FeedBytes(k.chat, Vga, k.ring.Pending(), banners)
            && (!r.chat.hung ==> r.ring.Pending() == [])
    decreases |k.ring.Pending()|
  {
    hide KeyboardByte, RingState.Pending, RingAgrees, MainStep, FeedBytes, Run;
    RunNothing(k, banners);
    if k.ring.Pending() == [] {
      n := 0;
      FeedBytesDone(k.chat, Vga, [], banners);
    } else {
      var c := k.ring.slots[k.ring.head];
      var t := Run(k, MainSteps(6), banners);
      KeyTakesSix(k, banners);
      FeedBytesFirst(k.chat, Vga, c, t.ring.Pending(), banners);
      if t.chat.hung {
        n := 6;
        FeedBytesDone(t.chat, Vga, t.ring.Pending(), banners);
      } else {
        var m := KeysDrain(t, banners);
        n := 6 + m;
        MainStepsAdd(k, 6, m, banners);
      }
    }
  }

  lemma RunNothing(k: Kernel, banners: Banners)
    requires k.ring.Ok()
    ensures Run(k, MainSteps(0), banners) == k
  {}

  /** The two actions that read and process one COM1 byte. */
  lemma WireTakesTwo(k: Kernel, banners: Banners)
    requires k.ring.Ok() && k.pc == Pc.Wire && !k.chat.hung && k.wire != []
    ensures Run(k, MainSteps(2), banners) ==
            k.(chat := SerialByte(k.chat, k.wire[0], banners), wire := k.wire[1..],
               fed := k.fed + [Input(Serial, k.wire[0])])
  {
    hide SerialByte;
    FirstMain(k, 2, banners);
    FirstMain(MainStep(k, banners), 1, banners);
    RunNothing(MainStep(MainStep(k, banners), banners), banners);
  }

  lemma {:induction false} WireDrains(k: Kernel, banners: Banners) returns (n: nat)
    requires k.ring.Ok() && k.pc == Pc.Wire && !k.chat.hung
    ensures var r := Run(k, MainSteps(n), banners);
            && r.ring == k.ring
            && r.chat == FeedBytes(k.chat, Serial, k.wire, banners)
            && (!r.chat.hung ==> r.pc == Pc.Poll && r.wire == [])
    decreases |k.wire|
  {
    hide SerialByte, FeedBytes, Run;
    if k.wire == [] {
      n := 1;
      FirstMain(k, 1, banners);
      RunNothing(MainStep(k, banners), banners);
      FeedBytesDone(k.chat, Serial, [], banners);
    } else {
      var t := Run(k, MainSteps(2), banners);
      WireTakesTwo(k, banners);
      assert k.wire == [k.wire[0]] + t.wire;
      FeedBytesFirst(k.chat, Serial, k.wire[0], t.wire, banners);
      if t.chat.hung {
        n := 2;
        FeedBytesDone(t.chat, Serial, t.wire, banners);
      } else {
        var m := WireDrains(t, banners);
        n := 2 + m;
        MainStepsAdd(k, 2, m, banners);
      }
    }
  }

  /** From an empty ring three actions lead to the COM1 test. */
  lemma EmptyRingLeadsToWire(k: Kernel, banners: Banners)
    requires RingAgrees(k) && k.pc == Pc.Poll && !k.chat.hung && k.ring.Pending() == []
    ensures Run(k, MainSteps(3), banners) == k.(pc := Pc.Wire, iflag := true)
  {
    hide Run;
    AdvanceIsTail(k.ring);
    ThreeSteps(k, banners);
  }

  /** One undisturbed round of the step system feeds every waiting key byte and then every
      waiting COM1 byte, exactly as the method `Poll` does, and ends at the top of the loop
      with nothing waiting unless the machine hangs. */
  lemma RoundIsPoll(k: Kernel, banners: Banners) returns (n: nat)
    requires RingAgrees(k) && k.pc == Pc.Poll && !k.chat.hung
    ensures var r := Run(k, MainSteps(n), banners);
            && r.chat == FeedAll(k.chat, Inputs(Vga, k.ring.Pending()) + Inputs(Serial, k.wire), banners)
            && (!r.chat.hung ==> Quiescent(r))
  {
    hide RingState.Pending, RingAgrees, MainStep, FeedAll, Run;
    var m := KeysDrain(k, banners);
    var t := Run(k, MainSteps(m), banners);
    FeedAllConcat(k.chat, Inputs(Vga, k.ring.Pending()), Inputs(Serial, k.wire), banners);
    if t.chat.hung {
      n := m;
      HungStaysAll(t.chat, Inputs(Serial, k.wire), banners);
    } else {
      var w := Run(t, MainSteps(3), banners);
      EmptyRingLeadsToWire(t, banners);
      var l := WireDrains(w, banners);
      n := m + (3 + l);
      MainStepsAdd(t, 3, l, banners);
      MainStepsAdd(k, m, 3 + l, banners);
    }
  }
}
