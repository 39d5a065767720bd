/** The chat as a state that bytes change: editors, screen, COM1 output, posted messages,
    the two files, and whether the processor is caught in the endless spin. */
module ChatModel {
  import opened Bytes
  import opened Terminal
  import opened LineEditor

  const MESSAGE_SIZE := 136

  /** One piece of command output: a coloured string on the screen or a string on COM1. */
  datatype Output = OnScreen(text: seq<Byte>, fg: Byte, bg: Byte) | OnWire(text: seq<Byte>)

  /** The texts of the three commands. The ordered transfer also prints the contents of the two
      files as they are when it starts, so its texts are a function of them. */
  datatype Banners = Banners(unsafe: seq<Output>, safe: (seq<Byte>, seq<Byte>) -> seq<Output>, help: seq<Output>)

  datatype Message = Message(user: User, text: seq<Byte>)

  datatype Chat = Chat(vgaLine: seq<Byte>, serialLine: seq<Byte>, roll: Roll, sent: seq<Byte>,
                       posted: seq<Message>, fileVga: seq<Byte>, fileSerial: seq<Byte>, hung: bool)
  {
    function Line(u: User): seq<Byte> {
      match u case Vga => vgaLine case Serial => serialLine
    }

    function WithLine(u: User, line: seq<Byte>): Chat {
      match u case Vga => this.(vgaLine := line) case Serial => this.(serialLine := line)
    }
  }

  /** One byte as its user typed it. */
  datatype Input = Input(user: User, byte: Byte)

  const ECHO := Attribute(WHITE, BLACK)
  const SPEECH := Attribute(LIGHT_GREEN, BLACK)

  function FullMessage(u: User, line: seq<Byte>): seq<Byte> {
    Ascii("[") + Name(u) + Ascii("] ") + line + [NEWLINE]
  }

  /** What the formatter leaves in its fixed buffer. */
  function Formatted(u: User, line: seq<Byte>): seq<Byte> {
    Prefix(FullMessage(u, line), MESSAGE_SIZE - 1)
  }

  function Announce(s: Chat, outs: seq<Output>): Chat {
    if outs == [] then s
    else
      var t := Announce(s, outs[..|outs| - 1]);
      match outs[|outs| - 1]
      case OnScreen(text, fg, bg) => t.(roll := Write(t.roll, text, Attribute(fg, bg)))
      case OnWire(text) => t.(sent := t.sent + text)
  }

  /** Both the screen and COM1 receive the same formatted line. */
  function Submit(s: Chat, u: User, line: seq<Byte>): Chat {
    if line == [] then s
    else
      var text := Formatted(u, line);
      s.(roll := Write(s.roll, text, SPEECH), sent := s.sent + text,
         posted := s.posted + [Message(u, line)])
  }

  /** What a command does before its line is cleared. Swapping the files is the ordered
      transfer; the unordered one never returns. */
  function Obey(s: Chat, line: seq<Byte>, banners: Banners): Chat {
    if line == DEADLOCK then Announce(s, banners.unsafe).(hung := true)
    else if line == TRANSFERIR then
      var t := Announce(s, banners.safe(s.fileVga, s.fileSerial));
      t.(fileVga := t.fileSerial, fileSerial := t.fileVga)
    else if line == HELP then Announce(s, banners.help)
    else s
  }

  /** A command if the line names one, a message otherwise. */
  function Dispatched(s: Chat, u: User, line: seq<Byte>, banners: Banners): Chat {
    if IsCommand(line) then Obey(s, line, banners) else Submit(s, u, line)
  }

  /** A completed line. The editor is cleared unless the command does not return. */
  function Complete(s: Chat, u: User, banners: Banners): Chat {
    var t := Dispatched(s, u, s.Line(u), banners);
    if s.Line(u) == DEADLOCK then t else t.WithLine(u, [])
  }

  function KeyboardByte(s: Chat, c: Byte, banners: Banners): Chat {
    if s.hung then s
    else if c == NEWLINE then Complete(s, Vga, banners)
    else if c == BACKSPACE then
      if s.vgaLine == [] then s
      else s.(vgaLine := s.vgaLine[..|s.vgaLine| - 1], roll := Erase(s.roll))
    else if c < 32 || |s.vgaLine| >= LINE_MAX then s
    else s.(vgaLine := s.vgaLine + [c], roll := Write(s.roll, [c], ECHO))
  }

  function SerialByte(s: Chat, c: Byte, banners: Banners): Chat {
    if s.hung then s
    else if c == NEWLINE || c == RETURN then
      Complete(s.(sent := s.sent + [RETURN, NEWLINE]), Serial, banners)
    else if c == BACKSPACE || c == DELETE then
      if s.serialLine == [] then s else s.(serialLine := s.serialLine[..|s.serialLine| - 1])
    else if c < 32 || |s.serialLine| >= LINE_MAX then s
    else s.(serialLine := s.serialLine + [c], sent := s.sent + [c])
  }

  function Feed(s: Chat, e: Input, banners: Banners): Chat {
    match e.user
    case Vga => KeyboardByte(s, e.byte, banners)
    case Serial => SerialByte(s, e.byte, banners)
  }

  function FeedAll(s: Chat, es: seq<Input>, banners: Banners): Chat {
    if es == [] then s
    else Feed(FeedAll(s, es[..|es| - 1], banners), es[|es| - 1], banners)
  }

  lemma FeedAllGrows(s: Chat, es: seq<Input>, e: Input, banners: Banners)
    ensures FeedAll(s, es + [e], banners) == Feed(FeedAll(s, es, banners), e, banners)
  {
    assert (es + [e])[..|es|] == es;
  }

  lemma {:induction false} FeedAllConcat(s: Chat, es: seq<Input>, fs: seq<Input>, banners: Banners)
    ensures FeedAll(s, es + fs, banners) == FeedAll(FeedAll(s, es, banners), fs, banners)
    decreases |fs|
  {
    if fs == [] {
      assert es + fs == es;
    } else {
      var init := fs[..|fs| - 1];
      FeedAllConcat(s, es, init, banners);
      assert (es + fs)[..|es + fs| - 1] == es + init;
    }
  }

  /** Both editors empty, nothing posted yet, the machine running; screen, COM1 and files as
      they are when the chat starts. */
  predicate Starting(s: Chat) {
    s.vgaLine == [] && s.serialLine == [] && s.posted == [] && !s.hung
  }

  function Typed(u: User, es: seq<Input>): seq<Byte> {
    if es == [] then []
    else
      var before, last := Typed(u, es[..|es| - 1]), es[|es| - 1];
      if last.user == u then before + [last.byte] else before
  }

  /** The texts a user posted. */
  function Posts(u: User, posted: seq<Message>): seq<seq<Byte>> {
    if posted == [] then []
    else
      var before, last := Posts(u, posted[..|posted| - 1]), posted[|posted| - 1];
      if last.user == u then before + [last.text] else before
  }

  lemma PostsGrow(u: User, posted: seq<Message>, m: Message)
    ensures Posts(u, posted + [m]) == if m.user == u then Posts(u, posted) + [m.text] else Posts(u, posted)
  {
    assert (posted + [m])[..|posted|] == posted;
  }

  lemma TypedGrows(u: User, es: seq<Input>, e: Input)
    ensures Typed(u, es + [e]) == if e.user == u then Typed(u, es) + [e.byte] else Typed(u, es)
  {
    assert (es + [e])[..|es|] == es;
  }

  lemma {:induction false} AnnounceKeeps(s: Chat, outs: seq<Output>)
    ensures var t := Announce(s, outs);
            && t.vgaLine == s.vgaLine && t.serialLine == s.serialLine && t.posted == s.posted
            && t.fileVga == s.fileVga && t.fileSerial == s.fileSerial && t.hung == s.hung
  {
    if outs != [] {
      AnnounceKeeps(s, outs[..|outs| - 1]);
    }
  }

  /** The label in front of a user's messages. */
  function Label(u: User): seq<Byte> {
    match u case Vga => Ascii("[vga] ") case Serial => Ascii("[serial] ")
  }

  lemma LabelBytes()
    ensures Label(Vga) == [91, 118, 103, 97, 93, 32]
    ensures Label(Serial) == [91, 115, 101, 114, 105, 97, 108, 93, 32]
  {}

  lemma FullMessageIs(u: User, line: seq<Byte>)
    ensures FullMessage(u, line) == Label(u) + line + [10]
  {
    LabelBytes();
    assert Ascii("[") == [91] && Ascii("] ") == [93, 32];
    assert Ascii("vga") == [118, 103, 97];
    assert Ascii("serial") == [115, 101, 114, 105, 97, 108];
    assert Ascii("[") + Name(u) + Ascii("] ") == Label(u);
  }

  /** With a line of at most 120 bytes the 136-byte buffer always holds the whole message, its
      newline and the terminator. */
  lemma NeverTruncated(u: User, line: seq<Byte>)
    requires |line| <= LINE_MAX
    ensures Formatted(u, line) == FullMessage(u, line) == Label(u) + line + [NEWLINE]
    ensures |FullMessage(u, line)| + 1 <= 136
  {
    FullMessageIs(u, line);
    LabelBytes();
  }

  /** What a completed line does to everything but the outputs. */
  lemma CompleteEffect(s: Chat, u: User, banners: Banners)
    ensures var t, line := Complete(s, u, banners), s.Line(u);
            && (forall v | v != u :: t.Line(v) == s.Line(v))
            && t.hung == (s.hung || line == DEADLOCK)
            && t.Line(u) == (if line == DEADLOCK then line else [])
            && t.posted == (if line == [] || IsCommand(line) then s.posted else s.posted + [Message(u, line)])
            && t.fileVga == (if line == TRANSFERIR then s.fileSerial else s.fileVga)
            && t.fileSerial == (if line == TRANSFERIR then s.fileVga else s.fileSerial)
  {
    hide Write, Ascii, Announce;
    AnnounceKeeps(s, banners.unsafe);
    AnnounceKeeps(s, banners.safe(s.fileVga, s.fileSerial));
    AnnounceKeeps(s, banners.help);
    assert |DEADLOCK| == 9 && |TRANSFERIR| == 11 && |HELP| == 5;
  }

  lemma CommandsAreStrings()
    ensures NUL !in DEADLOCK && NUL !in TRANSFERIR && NUL !in HELP
    ensures |DEADLOCK| == 9 && |TRANSFERIR| == 11 && |HELP| == 5
  {
    assert DEADLOCK == [47, 100, 101, 97, 100, 108, 111, 99, 107];
    assert TRANSFERIR == [47, 116, 114, 97, 110, 115, 102, 101, 114, 105, 114];
    assert HELP == [47, 104, 101, 108, 112];
  }

  lemma CompleteIsDispatch(s: Chat, u: User, banners: Banners)
    requires !s.hung
    ensures var t := Dispatched(s, u, s.Line(u), banners);
            Complete(s, u, banners) == if t.hung then t else t.WithLine(u, [])
  {
    hide Write, Ascii, Announce;
    AnnounceKeeps(s, banners.safe(s.fileVga, s.fileSerial));
    AnnounceKeeps(s, banners.help);
    CommandsAreStrings();
  }
}
