/** The chat as the kernel runs it: line buffers, ring, screen, COM1 and files updated in place. */
module ChatMachine {
  import opened Bytes
  import opened Terminal
  import opened Console
  import opened KeyRing
  import opened Locks
  import opened LineEditor
  import opened ChatModel
  import opened ChatScreen
  import opened ChatSpec

  /** The bytes COM1 has received and not delivered, and everything sent over it. */
  class Uart {
    var incoming: seq<Byte>
    var sent: seq<Byte>

    method Print(text: seq<Byte>)
      requires NUL in text
      modifies this`sent
      ensures sent == old(sent) + Text(text)
    {
      var current := 0;
      while text[current] != NUL
        invariant 0 <= current <= Length(text)
        invariant sent == old(sent) + text[..current]
        decreases |text| - current
      {
        sent := sent + [text[current]];
        current := current + 1;
      }
      LengthIs(text, current);
    }

    method RxReady() returns (ready: bool)
      ensures ready <==> incoming != []
    {
      ready := incoming != [];
    }

    method ReadByte() returns (c: Byte)
      requires incoming != []
      modifies this`incoming
      ensures c == old(incoming)[0] && incoming == old(incoming)[1..]
    {
      c := incoming[0];
      incoming := incoming[1..];
    }
  }

  /** The string comparison loop is equality of the two strings. */
  method StrEqual(a: seq<Byte>, b: seq<Byte>) returns (equal: bool)
    requires NUL in a && NUL in b
    ensures equal <==> Text(a) == Text(b)
  {
    var i := 0;
    while a[i] != NUL && b[i] != NUL
      invariant 0 <= i <= Length(a) && i <= Length(b)
      invariant a[..i] == b[..i]
      decreases |a| - i
    {
      if a[i] != b[i] {
        assert i < Length(a) && i < Length(b);
        assert Text(a)[i] == a[i] && Text(b)[i] == b[i];
        return false;
      }
      i := i + 1;
    }
    equal := a[i] == b[i];
    if equal {
      LengthIs(a, i);
      LengthIs(b, i);
    } else {
      assert Length(a) != Length(b);
    }
  }

  /** Two cuts in turn are one cut of the concatenation. */
  lemma PrefixConcat(a: seq<Byte>, b: seq<Byte>, room: nat)
    ensures Prefix(a, room) + Prefix(b, room - |Prefix(a, room)|) == Prefix(a + b, room)
  {}

  /** Continues a buffer that holds `sofar`, cut to its room, with the string at the start of
      `piece`; one byte stays free for the terminator. */
  method AppendPiece(out: array<Byte>, o: nat, outSize: nat, piece: seq<Byte>, ghost sofar: seq<Byte>)
    returns (end: nat)
    requires o < outSize <= out.Length && NUL in piece
    requires out[..o] == Prefix(sofar, outSize - 1)
    modifies out
    ensures end < outSize && out[..end] == Prefix(sofar + Text(piece), outSize - 1)
  {
    var i := 0;
    end := o;
    while piece[i] != NUL && end + 1 < outSize
      invariant 0 <= i <= Length(piece) && end == o + i < outSize
      invariant out[..end] == old(out[..o]) + piece[..i]
      decreases outSize - end
    {
      out[end] := piece[i];
      assert out[..end + 1] == out[..end] + [piece[i]];
      i := i + 1;
      end := end + 1;
    }
    assert Prefix(Text(piece), outSize - 1 - o) == piece[..i];
    PrefixConcat(sofar, Text(piece), outSize - 1);
  }

  /** Leaves the first `outSize - 1` bytes of "[user] msg" and a newline, terminated. */
  method AppendFormatted(user: seq<Byte>, msg: seq<Byte>, out: array<Byte>, outSize: nat)
    requires 0 < outSize <= out.Length && NUL in user && NUL in msg
    modifies out
    ensures var full := Ascii("[") + Text(user) + Ascii("] ") + Text(msg) + [NEWLINE];
            NUL in out[..] && Text(out[..]) == Prefix(full, outSize - 1)
  {
    hide Text, Prefix, Ascii;
    BracketsAreStrings();
    assert out[..0] == Prefix([], outSize - 1);
    var o := AppendPiece(out, 0, outSize, Terminated(Ascii("[")), []);
    assert [] + Ascii("[") == Ascii("[");
    o := AppendPiece(out, o, outSize, user, Ascii("["));
    o := AppendPiece(out, o, outSize, Terminated(Ascii("] ")), Ascii("[") + Text(user));
    o := AppendPiece(out, o, outSize, msg, Ascii("[") + Text(user) + Ascii("] "));
    ghost var body := Ascii("[") + Text(user) + Ascii("] ") + Text(msg);
    ghost var written := out[..o];
    PrefixGrows(body, outSize - 1);
    if o + 1 < outSize {
      out[o] := NEWLINE;
      o := o + 1;
      assert out[..o] == written + [NEWLINE];
    }
    written := out[..o];
    out[o] := NUL;
    assert out[..][..o] == written && out[..][o] == NUL;
    PrefixNoNul(body + [NEWLINE], outSize - 1);
    FirstNulEndsText(out[..], written);
  }

  lemma BracketsAreStrings()
    ensures Text(Terminated(Ascii("["))) == Ascii("[") && NUL !in Ascii("[")
    ensures Text(Terminated(Ascii("] "))) == Ascii("] ") && NUL !in Ascii("] ")
  {
    assert Ascii("[") == [91] && Ascii("] ") == [93, 32];
    TextOfTerminated(Ascii("["));
    TextOfTerminated(Ascii("] "));
  }

  lemma PrefixGrows(body: seq<Byte>, room: nat)
    ensures Prefix(body + [NEWLINE], room)
            == if |Prefix(body, room)| < room then Prefix(body, room) + [NEWLINE] else Prefix(body, room)
  {}

  lemma PrefixNoNul(s: seq<Byte>, room: nat)
    requires NUL !in s
    ensures NUL !in Prefix(s, room)
  {}

  lemma FirstNulEndsText(buffer: seq<Byte>, text: seq<Byte>)
    requires |text| < |buffer| && buffer[..|text|] == text && buffer[|text|] == NUL && NUL !in text
    ensures NUL in buffer && Text(buffer) == text
  {
    forall i | 0 <= i < |text|
      ensures buffer[i] != NUL
    {
      assert buffer[i] == text[i];
    }
    LengthIs(buffer, |text|);
  }

  /** Every text of the commands is a C string, whatever strings the files hold. */
  ghost predicate BannersOk(banners: Banners) {
    && (forall o | o in banners.unsafe :: NUL !in o.text)
    && (forall a, b, o | NUL !in a && NUL !in b && o in banners.safe(a, b) :: NUL !in o.text)
    && (forall o | o in banners.help :: NUL !in o.text)
  }

  class ChatKernel {
    const screen: Screen
    const uart: Uart
    const files: FileStore
    const banners: Banners

    const kbdLine: array<Byte>
    var kbdLen: nat
    const serLine: array<Byte>
    var serLen: nat

    /** The processor is in the busy-wait that never ends. */
    var hung: bool
    ghost var posted: seq<Message>

    ghost function Footprint(): set<object> {
      {this, screen, screen.video, uart, kbdLine, serLine} + files.Footprint()
    }

    ghost predicate Valid()
      reads this, screen, screen.video, uart`sent, kbdLine, serLine, files.vga.data, files.serial.data
      ensures Valid() ==> files.Valid() && kbdLen <= kbdLine.Length && serLen <= serLine.Length
    {
      && BannersOk(banners)
      && screen.Valid() && files.Valid()
      && kbdLine.Length == LINE_MAX + 1 && serLine.Length == LINE_MAX + 1
      && kbdLen <= LINE_MAX && serLen <= LINE_MAX
      && kbdLine != serLine
      && screen.video !in {kbdLine, serLine, files.vga.data, files.serial.data}
      && kbdLine !in {files.vga.data, files.serial.data}
      && serLine !in {files.vga.data, files.serial.data}
      && EditorOnScreen(State())
    }

    ghost function State(): (s: Chat)
      requires files.Valid() && kbdLen <= kbdLine.Length && serLen <= serLine.Length
      reads this, screen, uart`sent, kbdLine, serLine, files.vga.data, files.serial.data
      ensures s.hung == hung
    {
      Chat(kbdLine[..kbdLen], serLine[..serLen], screen.roll, uart.sent, posted,
           files.vga.Content(), files.serial.Content(), hung)
    }

    /** The start of the chat on a screen that was cleared and then only written to. */
    constructor (screen: Screen, uart: Uart, banners: Banners)
      requires screen.Valid() && BannersOk(banners)
      requires screen.roll.top > 0 ==> screen.roll.Position() >= CELLS - WIDTH
      ensures Valid() && fresh(Footprint() - {screen, screen.video, uart})
      ensures this.screen == screen && this.uart == uart && this.banners == banners
      ensures State() == Chat([], [], screen.roll, uart.sent, [],
                              Ascii("foto_ferias.png"), Ascii("trabalho.pdf"), false)
    {
      this.screen := screen;
      this.uart := uart;
      this.banners := banners;
      kbdLine := new Byte[LINE_MAX + 1](_ => 0);
      serLine := new Byte[LINE_MAX + 1](_ => 0);
      kbdLen := 0;
      serLen := 0;
      hung := false;
      posted := [];
      files := new FileStore();
    }

    /** Writes the texts of a command, in order. */
    method Say(outs: seq<Output>)
      requires Valid() && forall o | o in outs :: NUL !in o.text
      modifies screen, screen.video, uart`sent
      ensures Valid() && State() == Announce(old(State()), outs)
    {
      ghost var was := State();
      for i := 0 to |outs|
        invariant screen.Valid() && files.Valid()
        invariant State() == Announce(was, outs[..i])
      {
        TextOfTerminated(outs[i].text);
        match outs[i] {
          case OnScreen(text, fg, bg) => screen.WriteColored(Terminated(text), fg, bg);
          case OnWire(text) => uart.Print(Terminated(text));
        }
        assert outs[..i + 1][..i] == outs[..i];
      }
      assert outs[..|outs|] == outs;
      AnnounceKeepsOnScreen(was, outs);
    }

    /** The formatted line goes to the screen and to COM1 inside one critical section. */
    method Submit(u: User, user: seq<Byte>, msg: seq<Byte>)
      requires Valid() && NUL in user && NUL in msg && Text(user) == Name(u)
      modifies screen, screen.video, uart`sent, this`posted
      ensures Valid() && State() == ChatModel.Submit(old(State()), u, Text(msg))
    {
      hide Text, Write, Ascii, Put, EditorOnScreen, Prefix;
      if msg[0] == NUL {
        LengthIs(msg, 0);
        return;
      }
      StartsNonEmpty(msg);
      ghost var was := State();
      var buf := new Byte[MESSAGE_SIZE](_ => 0);
      AppendFormatted(user, msg, buf, MESSAGE_SIZE);
      assert Text(buf[..]) == Formatted(u, Text(msg));
      screen.WriteColored(buf[..], LIGHT_GREEN, BLACK);
      uart.Print(buf[..]);
      posted := posted + [Message(u, Text(msg))];
      WriteKeepsOnScreen(was, Formatted(u, Text(msg)), SPEECH);
      SameEditorOnScreen(was.(roll := screen.roll), State());
    }

    /** `patience` bounds each busy-wait; the unordered demonstration outlasts every bound. */
    method RunUnsafe(patience: nat)
      requires Valid() && patience > 0
      modifies screen, screen.video, uart`sent, files.vga.lock, files.serial.lock, files`trace, this`hung
      ensures Valid() && State() == Announce(old(State()), banners.unsafe).(hung := true)
    {
      hide Text, Write, Announce, EditorOnScreen, Put;
      ghost var was := State();
      Say(banners.unsafe);
      var returned := files.DemoUnsafe(patience);
      hung := !returned;
      SameEditorOnScreen(Announce(was, banners.unsafe), State());
    }

    /** The ordered transfer prints the contents it is about to exchange. */
    method RunSafe(patience: nat)
      requires Valid() && patience > 0
      modifies screen, screen.video, uart`sent, files.Footprint(), this`hung
      ensures Valid()
      ensures var was := old(State());
              var t := Announce(was, banners.safe(was.fileVga, was.fileSerial));
              State() == t.(fileVga := t.fileSerial, fileSerial := t.fileVga, hung := false)
    {
      hide Valid, UserFile.Content, Announce;
      var texts := SafeTexts();
      Say(texts);
      ExchangeFiles(patience);
    }

    method SafeTexts() returns (texts: seq<Output>)
      requires Valid()
      ensures texts == banners.safe(State().fileVga, State().fileSerial)
      ensures forall o | o in texts :: NUL !in o.text
    {
      texts := banners.safe(files.vga.Content(), files.serial.Content());
    }

    method ExchangeFiles(patience: nat)
      requires Valid() && patience > 0
      modifies files.Footprint(), this`hung
      ensures Valid()
      ensures State() == old(State()).(fileVga := old(State()).fileSerial,
                                       fileSerial := old(State()).fileVga, hung := false)
    {
      hide UserFile.Content, Text, EditorOnScreen;
      ghost var was := State();
      var returned := files.DemoSafe(patience);
      hung := !returned;
      SameEditorOnScreen(was, State());
    }

    /** Runs the command a line names, if it names one. */
    method TryCommand(line: seq<Byte>, patience: nat) returns (handled: bool)
      requires Valid() && NUL in line && patience > 0 && !hung
      modifies screen, screen.video, uart`sent, files.Footprint(), this`hung
      ensures Valid() && handled == IsCommand(Text(line))
      ensures State() == Obey(old(State()), Text(line), banners)
    {
      hide Text, Ascii, Write, Announce, EditorOnScreen, Put;
      CommandsAreStrings();
      AnnounceKeeps(State(), banners.safe(State().fileVga, State().fileSerial));
      TextOfTerminated(DEADLOCK);
      TextOfTerminated(TRANSFERIR);
      TextOfTerminated(HELP);
      var isDeadlock := StrEqual(line, Terminated(DEADLOCK));
      if isDeadlock {
        RunUnsafe(patience);
        return true;
      }
      var isTransferir := StrEqual(line, Terminated(TRANSFERIR));
      if isTransferir {
        RunSafe(patience);
        return true;
      }
      var isHelp := StrEqual(line, Terminated(HELP));
      if isHelp {
        Say(banners.help);
        return true;
      }
      return false;
    }

    method KbdProcessChar(c: Byte, patience: nat)
      requires Valid() && patience > 0 && !hung
      modifies Footprint()
      ensures Valid() && State() == KeyboardByte(old(State()), c, banners)
      ensures uart.incoming == old(uart.incoming)
    {
      hide Text, Ascii, Write, Announce, EditorOnScreen, Put, Erase, Complete, Feed;
      if c == NEWLINE {
        CompleteKeyboardLine(patience);
        return;
      }
      if c == BACKSPACE {
        if kbdLen > 0 {
          EraseKeyboardChar();
        }
        return;
      }
      if c < 32 {
        return;
      }
      if kbdLen >= LINE_MAX {
        return;
      }
      AppendKeyboardChar(c);
    }

    /** The backspace branch: line and screen lose their last character together. */
    method EraseKeyboardChar()
      requires Valid() && !hung && kbdLen > 0
      modifies kbdLine, this`kbdLen, screen, screen.video
      ensures Valid() && State() == KeyboardByte(old(State()), BACKSPACE, banners)
    {
      hide Text, Ascii, Write, Announce, EditorOnScreen, Put, Erase, Complete;
      ghost var was := State();
      FeedKeepsOnScreen(was, Input(Vga, BACKSPACE), banners);
      kbdLen := kbdLen - 1;
      kbdLine[kbdLen] := NUL;
      assert kbdLine[..kbdLen] == was.vgaLine[..|was.vgaLine| - 1];
      screen.Backspace();
    }

    /** The typing branch: line and screen gain the character together. */
    method AppendKeyboardChar(c: Byte)
      requires Valid() && !hung && kbdLen < LINE_MAX && 32 <= c
      modifies kbdLine, this`kbdLen, screen, screen.video
      ensures Valid() && State() == KeyboardByte(old(State()), c, banners)
    {
      hide Text, Ascii, Write, Announce, EditorOnScreen, Put, Erase, Complete;
      ghost var was := State();
      FeedKeepsOnScreen(was, Input(Vga, c), banners);
      kbdLine[kbdLen] := c;
      kbdLen := kbdLen + 1;
      kbdLine[kbdLen] := NUL;
      assert kbdLine[..kbdLen] == was.vgaLine + [c];
      TextOfTerminated([c]);
      var echo := Terminated([c]);
      screen.WriteWhite(echo);
    }

    /** A command if the line names one, a message otherwise. */
    method Dispatch(u: User, user: seq<Byte>, line: seq<Byte>, patience: nat)
      requires Valid() && patience > 0 && !hung
      requires NUL in user && Text(user) == Name(u) && NUL in line
      modifies screen, screen.video, uart`sent, files.Footprint(), this`hung, this`posted
      ensures Valid() && State() == Dispatched(old(State()), u, Text(line), banners)
    {
      hide Text, Ascii, Write, Announce, EditorOnScreen, Put;
      var handled := TryCommand(line, patience);
      if !handled {
        Submit(u, user, line);
      }
    }

    method CompleteKeyboardLine(patience: nat)
      requires Valid() && patience > 0 && !hung
      modifies Footprint()
      ensures Valid() && State() == Complete(old(State()), Vga, banners)
      ensures uart.incoming == old(uart.incoming)
    {
      hide Valid, Text, Ascii, Dispatched, Complete;
      CompleteIsDispatch(State(), Vga, banners);
      TerminateKeyboardLine();
      VgaIsString();
      Dispatch(Vga, Terminated(Ascii("vga")), kbdLine[..], patience);
      if hung {
        return;
      }
      ClearKeyboardLine();
    }

    method TerminateKeyboardLine()
      requires Valid()
      modifies kbdLine
      ensures Valid() && State() == old(State())
      ensures NUL in kbdLine[..] && Text(kbdLine[..]) == State().vgaLine
    {
      hide Text, EditorOnScreen;
      kbdLine[kbdLen] := NUL;
      assert kbdLine[..kbdLen] == old(kbdLine[..kbdLen]);
      LineIsText(kbdLine[..], kbdLen, State());
    }

    method ClearKeyboardLine()
      requires Valid()
      modifies kbdLine, this`kbdLen
      ensures Valid() && State() == old(State()).(vgaLine := [])
    {
      kbdLen := 0;
      kbdLine[0] := NUL;
    }

    method SerProcessChar(c: Byte, patience: nat)
      requires Valid() && patience > 0 && !hung
      modifies Footprint()
      ensures Valid() && State() == SerialByte(old(State()), c, banners)
      ensures uart.incoming == old(uart.incoming)
    {
      hide Text, Ascii, Write, Announce, EditorOnScreen, Put, Complete, Feed;
      if c == NEWLINE || c == RETURN {
        ghost var was := State();
        TextOfTerminated([RETURN, NEWLINE]);
        uart.Print(Terminated([RETURN, NEWLINE]));
        SameEditorOnScreen(was, State());
        CompleteSerialLine(patience);
        return;
      }
      if c == BACKSPACE || c == DELETE {
        EraseSerialChar(c);
        return;
      }
      if c < 32 {
        return;
      }
      if serLen >= LINE_MAX {
        return;
      }
      AppendSerialChar(c);
    }

    method EraseSerialChar(c: Byte)
      requires Valid() && !hung && (c == BACKSPACE || c == DELETE)
      modifies serLine, this`serLen
      ensures Valid() && State() == SerialByte(old(State()), c, banners)
    {
      hide Text, Ascii, Write, Announce, EditorOnScreen, Put, Complete;
      ghost var was := State();
      FeedKeepsOnScreen(was, Input(Serial, c), banners);
      if serLen > 0 {
        serLen := serLen - 1;
        assert serLine[..serLen] == was.serialLine[..|was.serialLine| - 1];
      }
      serLine[serLen] := NUL;
      assert serLine[..serLen] == old(serLine[..])[..serLen];
    }

    method AppendSerialChar(c: Byte)
      requires Valid() && !hung && serLen < LINE_MAX && 32 <= c && c != DELETE
      modifies serLine, this`serLen, uart`sent
      ensures Valid() && State() == SerialByte(old(State()), c, banners)
    {
      hide Text, Ascii, Write, Announce, EditorOnScreen, Put, Complete;
      ghost var was := State();
      FeedKeepsOnScreen(was, Input(Serial, c), banners);
      serLine[serLen] := c;
      serLen := serLen + 1;
      serLine[serLen] := NUL;
      assert serLine[..serLen] == was.serialLine + [c];
      TextOfTerminated([c]);
      var echo := Terminated([c]);
      uart.Print(echo);
    }

    method CompleteSerialLine(patience: nat)
      requires Valid() && patience > 0 && !hung
      modifies Footprint()
      ensures Valid() && State() == Complete(old(State()), Serial, banners)
      ensures uart.incoming == old(uart.incoming)
    {
      hide Valid, Text, Ascii, Dispatched, Complete;
      CompleteIsDispatch(State(), Serial, banners);
      TerminateSerialLine();
      SerialIsString();
      Dispatch(Serial, Terminated(Ascii("serial")), serLine[..], patience);
      if hung {
        return;
      }
      ClearSerialLine();
    }

    method TerminateSerialLine()
      requires Valid()
      modifies serLine
      ensures Valid() && State() == old(State())
      ensures NUL in serLine[..] && Text(serLine[..]) == State().serialLine
    {
      hide Text, EditorOnScreen;
      serLine[serLen] := NUL;
      assert serLine[..serLen] == old(serLine[..serLen]);
      LineIsText(serLine[..], serLen, State());
    }

    method ClearSerialLine()
      requires Valid()
      modifies serLine, this`serLen
      ensures Valid() && State() == old(State()).(serialLine := [])
    {
      serLen := 0;
      serLine[0] := NUL;
    }

  }

  /** Bytes of one user, in order. */
  function Inputs(u: User, bytes: seq<Byte>): (es: seq<Input>)
    ensures |es| == |bytes|
  {
    seq(|bytes|, i requires 0 <= i < |bytes| => Input(u, bytes[i]))
  }

  /** Feeding the bytes of one user, in order. */
  function FeedBytes(s: Chat, u: User, bytes: seq<Byte>, banners: Banners): Chat {
    FeedAll(s, Inputs(u, bytes), banners)
  }

  lemma FeedBytesFirst(s: Chat, u: User, c: Byte, rest: seq<Byte>, banners: Banners)
    ensures FeedBytes(s, u, [c] + rest, banners) == FeedBytes(Feed(s, Input(u, c), banners), u, rest, banners)
  {
    assert Inputs(u, [c] + rest) == [Input(u, c)] + Inputs(u, rest);
    FeedAllConcat(s, [Input(u, c)], Inputs(u, rest), banners);
    assert [Input(u, c)][..0] == [];
    assert FeedAll(s, [], banners) == s;
  }

  /** Once the machine hangs, the rest of a batch makes no difference; neither does nothing. */
  lemma FeedBytesDone(s: Chat, u: User, bytes: seq<Byte>, banners: Banners)
    requires s.hung || bytes == []
    ensures FeedBytes(s, u, bytes, banners) == s
  {
    if s.hung {
      HungStaysAll(s, Inputs(u, bytes), banners);
    }
  }

  /** One round of the main loop: everything the keyboard queued, then everything COM1
      received, each byte processed once and in order, unless a command hangs the machine. */
  method Poll(kernel: ChatKernel, ring: Ring, patience: nat)
    requires kernel.Valid() && ring.Valid() && ring.slots !in kernel.Footprint()
    requires patience > 0 && !kernel.hung
    modifies kernel.Footprint(), ring
    ensures kernel.Valid() && ring.Valid()
    ensures kernel.State() == FeedAll(old(kernel.State()),
                                      Inputs(Vga, old(ring.State().Pending())) + Inputs(Serial, old(kernel.uart.incoming)),
                                      kernel.banners)
    ensures !kernel.hung ==> ring.State().Pending() == [] && kernel.uart.incoming == []
  {
    hide ChatKernel.Valid, ChatKernel.State, Ring.State, FeedAll, RingState.Pending;
    ghost var keys, bytes := ring.State().Pending(), kernel.uart.incoming;
    DrainKeyboard(kernel, ring, patience);
    FeedAllConcat(old(kernel.State()), Inputs(Vga, keys), Inputs(Serial, bytes), kernel.banners);
    if kernel.hung {
      HungStaysAll(kernel.State(), Inputs(Serial, bytes), kernel.banners);
      return;
    }
    DrainSerial(kernel, patience);
  }

  method DrainKeyboard(kernel: ChatKernel, ring: Ring, patience: nat)
    requires kernel.Valid() && ring.Valid() && ring.slots !in kernel.Footprint()
    requires patience > 0 && !kernel.hung
    modifies kernel.Footprint(), ring
    ensures kernel.Valid() && ring.Valid() && kernel.uart.incoming == old(kernel.uart.incoming)
    ensures kernel.State() == FeedBytes(old(kernel.State()), Vga, old(ring.State().Pending()), kernel.banners)
    ensures !kernel.hung ==> ring.State().Pending() == []
  {
    hide ChatKernel.Valid, ChatKernel.State, Ring.Valid, Ring.State, FeedBytes, KeyboardByte;
    hide RingState.Ok, RingState.Pending, RingState.Advance;
    ghost var goal := FeedBytes(kernel.State(), Vga, ring.State().Pending(), kernel.banners);
    var ok, c := ring.Pop();
    while ok
      invariant kernel.Valid() && ring.Valid() && !kernel.hung
      invariant kernel.uart.incoming == old(kernel.uart.incoming)
      invariant goal == FeedBytes(kernel.State(), Vga,
                                  Popped(ok, c) + ring.State().Pending(), kernel.banners)
      invariant !ok ==> ring.State().Pending() == []
      decreases |ring.State().Pending()|, ok
    {
      ghost var rest := ring.State().Pending();
      FeedBytesFirst(kernel.State(), Vga, c, rest, kernel.banners);
      kernel.KbdProcessChar(c, patience);
      assert ring.State().Pending() == rest;
      assert goal == FeedBytes(kernel.State(), Vga, rest, kernel.banners);
      if kernel.hung {
        FeedBytesDone(kernel.State(), Vga, ring.State().Pending(), kernel.banners);
        return;
      }
      ok, c := ring.Pop();
    }
    FeedBytesDone(kernel.State(), Vga, Popped(ok, c) + ring.State().Pending(), kernel.banners);
  }

  method DrainSerial(kernel: ChatKernel, patience: nat)
    requires kernel.Valid() && patience > 0 && !kernel.hung
    modifies kernel.Footprint()
    ensures kernel.Valid()
    ensures kernel.State() == FeedBytes(old(kernel.State()), Serial, old(kernel.uart.incoming), kernel.banners)
    ensures !kernel.hung ==> kernel.uart.incoming == []
  {
    hide ChatKernel.Valid, ChatKernel.State, FeedBytes, SerialByte;
    ghost var goal := FeedBytes(kernel.State(), Serial, kernel.uart.incoming, kernel.banners);
    var ready := kernel.uart.RxReady();
    while ready
      invariant kernel.Valid() && !kernel.hung
      invariant ready <==> kernel.uart.incoming != []
      invariant goal == FeedBytes(kernel.State(), Serial, kernel.uart.incoming, kernel.banners)
      decreases |kernel.uart.incoming|
    {
      ghost var waiting := kernel.uart.incoming;
      var c := kernel.uart.ReadByte();
      assert waiting == [c] + kernel.uart.incoming;
      FeedBytesFirst(kernel.State(), Serial, c, kernel.uart.incoming, kernel.banners);
      kernel.SerProcessChar(c, patience);
      if kernel.hung {
        FeedBytesDone(kernel.State(), Serial, kernel.uart.incoming, kernel.banners);
        return;
      }
      ready := kernel.uart.RxReady();
    }
    FeedBytesDone(kernel.State(), Serial, kernel.uart.incoming, kernel.banners);
  }

  lemma VgaIsString()
    ensures Text(Terminated(Ascii("vga"))) == Name(Vga)
  {
    assert Ascii("vga") == [118, 103, 97];
    TextOfTerminated(Ascii("vga"));
  }

  lemma SerialIsString()
    ensures Text(Terminated(Ascii("serial"))) == Name(Serial)
  {
    assert Ascii("serial") == [115, 101, 114, 105, 97, 108];
    TextOfTerminated(Ascii("serial"));
  }

  /** A terminated line buffer holds its line as a C string. */
  lemma LineIsText(buffer: seq<Byte>, n: nat, s: Chat)
    requires n < |buffer| && buffer[n] == NUL && EditorOnScreen(s)
    requires buffer[..n] == s.vgaLine || buffer[..n] == s.serialLine
    ensures NUL in buffer && Text(buffer) == buffer[..n]
  {
    FirstNulEndsText(buffer, buffer[..n]);
  }

  lemma StartsNonEmpty(s: seq<Byte>)
    requires NUL in s && s[0] != NUL
    ensures Text(s) != []
  {}
}
