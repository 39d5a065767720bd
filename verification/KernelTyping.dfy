/** From the keys a user presses to the messages on the screen. */
module KernelTyping {
  import opened Bytes
  import opened KeyRing
  import opened Keyboard
  import opened KeyLayout
  import opened LineEditor
  import opened EditLaws
  import opened ChatModel
  import opened ChatSpec
  import opened KernelRuns
  import opened KernelDrains

  /** The keys of a text and the Enter key, each pressed and released. */
  function LineKeys(text: seq<Byte>): seq<Byte>
    requires forall b | b in text :: Keyable(b)
  {
    hide Keyable;
    KeyableNewline();
    Keystrokes(text + [10])
  }

  lemma KeyableNewline()
    ensures Keyable(10)
  {}

  /** A text one can type on this keyboard within one line. */
  predicate Line(text: seq<Byte>) {
    |text| <= 120 && forall b | b in text :: Keyable(b) && b >= 32
  }

  lemma LineKeysComplete(text: seq<Byte>)
    requires Line(text)
    ensures Translate(LineKeys(text)) == text + [10]
    ensures Lines(Vga, text + [10]) == [text] && Rest(Vga, text + [10]) == []
    ensures Messages(Vga, text + [10]) ==
            if text in {[], Ascii("/deadlock"), Ascii("/transferir"), Ascii("/help")} then [] else [text]
  {
    hide Keyable, Keystrokes, Translate, Lines, Rest, Messages, Ascii;
    KeyableNewline();
    KeystrokesGiveText(text + [10]);
    NothingTyped();
    TypedLineCompletes(Vga, [], text, 10);
    TypedLineIsMessage(Vga, [], text, 10);
    assert [] + text + [10] == text + [10];
    assert [] + [text] == [text];
  }

  lemma NothingTyped()
    ensures Lines(Vga, []) == [] && Rest(Vga, []) == [] && Messages(Vga, []) == []
  {}

  /** Whoever types a text that is no command, and Enter, on the keyboard has posted exactly that
      text once the main loop has caught up: however interrupts split the scan codes, whatever
      COM1 sends meanwhile short of hanging the machine, unless a burst overruns the ring. */
  lemma TypedTextIsPosted(k: Kernel, events: seq<Event>, text: seq<Byte>, banners: Banners) returns (n: nat)
    requires Started(k) && NeverOverrun(k, events, banners)
    requires Line(text) && CodesTaken(k, events, banners) == LineKeys(text)
    requires text !in {[], Ascii("/deadlock"), Ascii("/transferir"), Ascii("/help")}
    requires DEADLOCK !in Lines(Serial, WireBytes(events))
    ensures n <= Backlog(Run(k, events, banners))
    ensures var r := Run(k, events + MainSteps(n), banners);
            && !r.chat.hung && Quiescent(r)
            && Posts(Vga, r.chat.posted) == [text] && r.chat.vgaLine == []
  {
    hide Run, CodesTaken, NeverOverrun, Translate, WireBytes, Lines, EditAll, Rest, Messages, Quiescent;
    hide Ascii, LineKeys, RingState.Pending, RingState.Ok, Backlog, Posts;
    LineKeysComplete(text);
    forall u: User
      ensures DEADLOCK !in Lines(u, TypedIn(k, events, banners, u))
    {}
    n := KeystrokesBecomeMessages(k, events, banners);
    var r := Run(k, events + MainSteps(n), banners);
    assert Posts(Vga, r.chat.posted) == Messages(Vga, TypedIn(k, events, banners, Vga));
    assert r.chat.Line(Vga) == EditAll(Vga, []);
    EmptyLine();
  }

  lemma EmptyLine()
    ensures EditAll(Vga, []) == []
  {}

  /** And whoever types /deadlock and Enter there hangs the machine. */
  lemma TypedDeadlockHangs(k: Kernel, events: seq<Event>, banners: Banners) returns (n: nat)
    requires Started(k) && NeverOverrun(k, events, banners)
    requires Line(Ascii("/deadlock")) && CodesTaken(k, events, banners) == LineKeys(Ascii("/deadlock"))
    ensures n <= Backlog(Run(k, events, banners))
    ensures Run(k, events + MainSteps(n), banners).chat.hung
  {
    hide Run, CodesTaken, NeverOverrun, Translate, Lines, EditAll, Rest, Messages, Quiescent;
    hide Ascii, LineKeys, RingState.Pending, RingState.Ok, Backlog, FeedAll, DeadlockLine, RingAgrees;
    LineKeysComplete(Ascii("/deadlock"));
    RunLosesNothingExactly(k, events, banners);
    StartedInvariant(k, banners);
    RunKeepsInvariant(k, events, k.chat, banners);
    var before := Run(k, events, banners);
    n := MainLoopDrains(before, k.chat, banners);
    RunConcat(k, events, MainSteps(n), banners);
    var all := events + MainSteps(n);
    var r := Run(k, all, banners);
    if !r.chat.hung {
      AllProcessed(k, all, banners);
      assert [Ascii("/deadlock")][0] == DEADLOCK;
      assert Typed(Vga, r.fed) == Ascii("/deadlock") + [10];
      DeadlockTyped(r.fed);
      RunsMeetSpec(k, all, banners);
    }
  }

  lemma AllProcessed(k: Kernel, events: seq<Event>, banners: Banners)
    requires Started(k)
    requires Quiescent(Run(k, events, banners))
    ensures var r := Run(k, events, banners);
            Typed(Vga, r.fed) == r.accepted
  {
    hide Run, FeedAll, RingState.Pending;
    FifoUnderInterrupts(k, events, banners);
  }

  lemma DeadlockTyped(es: seq<Input>)
    requires DEADLOCK in Lines(Vga, Typed(Vga, es))
    ensures DeadlockLine(es)
  {}

  /** The line is one that can be typed. */
  lemma DeadlockIsTypable()
    ensures Line(Ascii("/deadlock"))
  {
    hide Keyable;
    DeadlockKeys();
    assert Ascii("/deadlock") == [47, 100, 101, 97, 100, 108, 111, 99, 107];
  }

  lemma DeadlockKeys()
    ensures Keyable(47) && Keyable(100) && Keyable(101) && Keyable(97)
    ensures Keyable(108) && Keyable(111) && Keyable(99) && Keyable(107)
  {
    hide CodeOf;
    assert Key(0x35) == [47] && Key(0x20) == [100] && Key(0x12) == [101] && Key(0x1E) == [97];
    assert Key(0x26) == [108] && Key(0x18) == [111] && Key(0x2E) == [99] && Key(0x25) == [107];
    KeyHasItsCode(0x35);
    KeyHasItsCode(0x20);
    KeyHasItsCode(0x12);
    KeyHasItsCode(0x1E);
    KeyHasItsCode(0x26);
    KeyHasItsCode(0x18);
    KeyHasItsCode(0x2E);
    KeyHasItsCode(0x25);
  }
}
