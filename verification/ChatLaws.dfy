/** What each byte makes the chat do, said without the functions that compute it: lines, echoes,
    messages and the answers to the commands. */
module ChatLaws {
  import opened Bytes
  import opened Terminal
  import opened TextLayout
  import opened LineEditor
  import opened EditLaws
  import opened ChatModel
  import opened ChatSpec
  import opened ChatScreen

  // ---- what is printed ----

  lemma CommandBytes()
    ensures Ascii("/deadlock") == [47, 100, 101, 97, 100, 108, 111, 99, 107]
    ensures Ascii("/transferir") == [47, 116, 114, 97, 110, 115, 102, 101, 114, 105, 114]
    ensures Ascii("/help") == [47, 104, 101, 108, 112]
  {}

  /** The texts of a command come out one after the other, each on its own device. */
  lemma {:induction false} AnnounceConcat(s: Chat, outs: seq<Output>, more: seq<Output>)
    ensures Announce(s, outs + more) == Announce(Announce(s, outs), more)
    decreases |more|
  {
    if more == [] {
      assert outs + more == outs;
    } else {
      var init := more[..|more| - 1];
      AnnounceConcat(s, outs, init);
      assert (outs + more)[..|outs + more| - 1] == outs + init;
    }
  }

  lemma AnnounceOne(s: Chat, text: seq<Byte>, fg: Byte, bg: Byte)
    ensures Announce(s, [OnScreen(text, fg, bg)]) == s.(roll := Write(s.roll, text, Attribute(fg, bg)))
    ensures Announce(s, [OnWire(text)]) == s.(sent := s.sent + text)
  {
    var screen, wire := OnScreen(text, fg, bg), OnWire(text);
    assert [screen][..0] == [] && [wire][..0] == [];
    assert Announce(s, []) == s;
  }

  // ---- bytes inside a line ----

  /** A printable byte joins its user's line while that has fewer than 120 bytes, and is echoed to
      that user alone: in white on black at the cursor, or as the same byte on COM1. */
  lemma PrintableJoinsLine(s: Chat, u: User, c: Byte, banners: Banners)
    requires EditorOnScreen(s) && !s.hung && Printable(u, c) && |s.Line(u)| < 120
    ensures var t := Feed(s, Input(u, c), banners);
            && t.roll.paper == s.roll.paper + (if u == Vga then [Cell(c, 0x0F)] else [])
            && (u == Serial ==> t.roll == s.roll)
            && t == s.WithLine(u, s.Line(u) + [c]).(roll := t.roll,
                                                    sent := s.sent + if u == Serial then [c] else [])
  {
    hide Write, Complete;
    ColourValues();
    assert s.sent + [] == s.sent && s.roll.paper + [] == s.roll.paper;
    if u == Vga {
      EchoKeepsOnScreen(s, c);
    }
  }

  /** An erase takes the last byte of its user's line, and nothing from an empty one. The keyboard
      user's also takes the cell before the cursor; the COM1 user's prints nothing. */
  lemma RuboutTakesLast(s: Chat, u: User, c: Byte, banners: Banners)
    requires EditorOnScreen(s) && !s.hung && Rubout(u, c)
    ensures var t, line := Feed(s, Input(u, c), banners), s.Line(u);
            && (line == [] ==> t == s)
            && (line != [] ==> t == s.WithLine(u, line[..|line| - 1]).(roll := t.roll))
            && t.roll.top == s.roll.top
            && t.roll.paper == if u == Vga && line != [] then s.roll.paper[..|s.roll.paper| - 1] else s.roll.paper
  {
    hide Complete;
  }

  /** Any other control byte, and a printable byte for a line of 120, has no effect at all. */
  lemma OtherByteIsIgnored(s: Chat, u: User, c: Byte, banners: Banners)
    requires !s.hung && !Rubout(u, c) && !Enter(u, c) && (c < 32 || |s.Line(u)| >= 120)
    ensures Feed(s, Input(u, c), banners) == s
  {
    hide Complete, Write;
  }

  // ---- Enter ----

  /** The COM1 user's Enter is echoed as carriage return and newline. */
  function EnterEcho(u: User): seq<Byte> {
    if u == Serial then [13, 10] else []
  }

  lemma EnterCompletes(s: Chat, u: User, c: Byte, banners: Banners)
    requires !s.hung && Enter(u, c)
    ensures Feed(s, Input(u, c), banners) == Complete(s.(sent := s.sent + EnterEcho(u)), u, banners)
  {
    hide Complete;
    assert s.sent + [] == s.sent;
  }

  /** Enter on an empty line posts and prints nothing but that echo. */
  lemma EmptyEnter(s: Chat, u: User, c: Byte, banners: Banners)
    requires !s.hung && Enter(u, c) && s.Line(u) == []
    ensures Feed(s, Input(u, c), banners) == s.(sent := s.sent + EnterEcho(u))
  {
    hide Write, Announce, Ascii;
    EnterCompletes(s, u, c, banners);
    CommandsAreStrings();
  }

  /** A line that is no command is posted under its user's name, printed in light green on the
      screen and sent over COM1, both times labelled with the user and in full. */
  lemma MessageEnter(s: Chat, u: User, c: Byte, banners: Banners)
    requires !s.hung && Enter(u, c) && 0 < |s.Line(u)| <= 120
    requires s.Line(u) !in {Ascii("/deadlock"), Ascii("/transferir"), Ascii("/help")}
    ensures var line := s.Line(u);
            var text := Label(u) + line + [10];
            Feed(s, Input(u, c), banners)
            == s.(roll := Write(s.roll, text, 0x0A), sent := s.sent + EnterEcho(u) + text,
                  posted := s.posted + [Message(u, line)]).WithLine(u, [])
  {
    hide Write, Announce, Ascii, Label, FullMessage;
    EnterCompletes(s, u, c, banners);
    NeverTruncated(u, s.Line(u));
    FullMessageIs(u, s.Line(u));
    ColourValues();
  }

  /** /help prints its texts and does nothing else. */
  lemma HelpEnter(s: Chat, u: User, c: Byte, banners: Banners)
    requires !s.hung && Enter(u, c) && s.Line(u) == Ascii("/help")
    ensures Feed(s, Input(u, c), banners)
            == Announce(s.(sent := s.sent + EnterEcho(u)), banners.help).WithLine(u, [])
  {
    hide Write, Announce, Ascii;
    EnterCompletes(s, u, c, banners);
    CommandsAreStrings();
  }

  /** /transferir prints its texts, with the contents the files have before it exchanges them. */
  lemma TransferirEnter(s: Chat, u: User, c: Byte, banners: Banners)
    requires !s.hung && Enter(u, c) && s.Line(u) == Ascii("/transferir")
    ensures Feed(s, Input(u, c), banners)
            == Announce(s.(sent := s.sent + EnterEcho(u)), banners.safe(s.fileVga, s.fileSerial))
               .(fileVga := s.fileSerial, fileSerial := s.fileVga).WithLine(u, [])
  {
    hide Write, Announce, Ascii;
    EnterCompletes(s, u, c, banners);
    CommandsAreStrings();
    AnnounceKeeps(s.(sent := s.sent + EnterEcho(u)), banners.safe(s.fileVga, s.fileSerial));
  }

  /** /deadlock prints its texts and hangs the machine with its line still in the editor. */
  lemma DeadlockEnter(s: Chat, u: User, c: Byte, banners: Banners)
    requires !s.hung && Enter(u, c) && s.Line(u) == Ascii("/deadlock")
    ensures Feed(s, Input(u, c), banners)
            == Announce(s.(sent := s.sent + EnterEcho(u)), banners.unsafe).(hung := true)
  {
    hide Write, Announce, Ascii;
    EnterCompletes(s, u, c, banners);
  }

  // ---- the COM1 echo over a run ----

  /** COM1 never takes an echo back: until somebody presses Enter what was sent only grows, and as
      long as the COM1 user erases nothing it grows by exactly that user's line. */
  lemma {:induction false} WireEchoesLine(s: Chat, es: seq<Input>, banners: Banners)
    requires EditorOnScreen(s) && s.serialLine == [] && !s.hung && Quiet(es)
    ensures var t := FeedAll(s, es, banners);
            && !t.hung && s.sent <= t.sent
            && ((forall e | e in es :: e.user == Serial ==> !Rubout(Serial, e.byte)) ==>
                  t.sent == s.sent + t.serialLine)
  {
    hide Feed, Printable, Rubout, Enter, IsEnter, EditorOnScreen;
    if es != [] {
      var init, e := es[..|es| - 1], es[|es| - 1];
      assert forall x | x in init :: x in es;
      WireEchoesLine(s, init, banners);
      RunsStayOnScreen(s, init, banners);
      EntersAre(e.user, e.byte);
      var t := FeedAll(s, init, banners);
      QuietEcho(t, e, banners);
    } else {
      assert s.sent + [] == s.sent;
    }
  }

  lemma QuietEcho(s: Chat, e: Input, banners: Banners)
    requires EditorOnScreen(s) && !s.hung && !Enter(e.user, e.byte)
    ensures var t := Feed(s, e, banners);
            && !t.hung && s.sent <= t.sent
            && (t.sent == s.sent || t.sent == s.sent + [e.byte])
            && (e.user == Serial && Rubout(Serial, e.byte) ==> t.sent == s.sent)
            && (!(e.user == Serial && Rubout(Serial, e.byte)) ==>
                  t.serialLine == s.serialLine + t.sent[|s.sent|..])
  {
    hide Feed;
    if Rubout(e.user, e.byte) {
      RuboutTakesLast(s, e.user, e.byte, banners);
    } else if e.byte < 32 || |s.Line(e.user)| >= 120 {
      OtherByteIsIgnored(s, e.user, e.byte, banners);
    } else {
      PrintableJoinsLine(s, e.user, e.byte, banners);
      assert s.sent + [] == s.sent;
    }
  }
}
