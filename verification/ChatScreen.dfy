/** The keyboard editor and the screen agree. */
module ChatScreen {
  import opened Bytes
  import opened Terminal
  import opened LineEditor
  import opened ChatModel
  import opened ChatSpec

  /** Lines fit their buffers, and the cursor has room behind it for the whole keyboard line:
      once the window has moved it is never more than a line above its last row. */
  predicate EditorOnScreen(s: Chat) {
    && |s.vgaLine| <= LINE_MAX && |s.serialLine| <= LINE_MAX
    && NUL !in s.vgaLine && NUL !in s.serialLine
    && s.roll.Ok()
    && |s.vgaLine| <= s.roll.Position()
    && (s.roll.top > 0 ==> CELLS - WIDTH - LINE_MAX + |s.vgaLine| <= s.roll.Position())
  }

  /** Only the lines and the roll matter. */
  lemma SameEditorOnScreen(s: Chat, t: Chat)
    requires s.vgaLine == t.vgaLine && s.serialLine == t.serialLine && s.roll == t.roll
    ensures EditorOnScreen(s) == EditorOnScreen(t)
  {}

  lemma WriteKeepsOnScreen(s: Chat, text: seq<Byte>, attribute: Byte)
    requires EditorOnScreen(s)
    ensures EditorOnScreen(s.(roll := Write(s.roll, text, attribute)))
    ensures s.roll.paper <= Write(s.roll, text, attribute).paper
  {
    WriteOk(s.roll, text, attribute);
  }

  lemma {:induction false} AnnounceKeepsOnScreen(s: Chat, outs: seq<Output>)
    requires EditorOnScreen(s)
    ensures EditorOnScreen(Announce(s, outs))
    ensures s.roll.paper <= Announce(s, outs).roll.paper
  {
    hide Write;
    if outs != [] {
      var init := outs[..|outs| - 1];
      AnnounceKeepsOnScreen(s, init);
      match outs[|outs| - 1]
      case OnScreen(text, fg, bg) => WriteKeepsOnScreen(Announce(s, init), text, Attribute(fg, bg));
      case OnWire(_) =>
    }
  }

  lemma CompleteKeepsOnScreen(s: Chat, u: User, banners: Banners)
    requires EditorOnScreen(s)
    ensures EditorOnScreen(Complete(s, u, banners))
    ensures s.roll.paper <= Complete(s, u, banners).roll.paper
  {
    hide Write, Announce, Ascii;
    AnnounceKeepsOnScreen(s, banners.unsafe);
    AnnounceKeepsOnScreen(s, banners.safe(s.fileVga, s.fileSerial));
    AnnounceKeepsOnScreen(s, banners.help);
    WriteKeepsOnScreen(s, Formatted(u, s.Line(u)), SPEECH);
    CompleteEffect(s, u, banners);
  }

  /** Typing one more character. */
  lemma EchoKeepsOnScreen(s: Chat, c: Byte)
    requires EditorOnScreen(s) && 32 <= c && |s.vgaLine| < LINE_MAX
    ensures EditorOnScreen(s.(vgaLine := s.vgaLine + [c], roll := Write(s.roll, [c], ECHO)))
    ensures Write(s.roll, [c], ECHO).paper == s.roll.paper + [Cell(c, ECHO)]
  {
    assert Write(s.roll, [c], ECHO) == Put(s.roll, c, ECHO) by {
      assert [c][..0] == [];
      assert Write(s.roll, [], ECHO) == s.roll;
    }
    PutMovesByOneRow(s.roll, c, ECHO);
  }

  lemma FeedKeepsOnScreen(s: Chat, e: Input, banners: Banners)
    requires EditorOnScreen(s)
    ensures EditorOnScreen(Feed(s, e, banners))
  {
    hide Write, Complete;
    if e.user == Vga && e.byte >= 32 && |s.vgaLine| < LINE_MAX {
      EchoKeepsOnScreen(s, e.byte);
    }
    CompleteKeepsOnScreen(s, Vga, banners);
    CompleteKeepsOnScreen(s.(sent := s.sent + [RETURN, NEWLINE]), Serial, banners);
  }

  /** Every run, with any command texts and any output of the other user in between: both
      lines fit, the cursor stays inside the window, and an erase of the keyboard editor is
      never at the first cell of the window, so it always takes one cell back: the one before
      the cursor, whatever it shows (`EraseTakesOwnEcho`). */
  lemma {:induction false} RunsStayOnScreen(s: Chat, es: seq<Input>, banners: Banners)
    requires EditorOnScreen(s)
    ensures EditorOnScreen(FeedAll(s, es, banners))
    ensures var t := FeedAll(s, es, banners);
            !t.hung && t.vgaLine != [] ==>
              KeyboardByte(t, BACKSPACE, banners).roll.paper == t.roll.paper[..|t.roll.paper| - 1]
  {
    hide Feed, Write, Complete;
    if es != [] {
      RunsStayOnScreen(s, es[..|es| - 1], banners);
      FeedKeepsOnScreen(FeedAll(s, es[..|es| - 1], banners), es[|es| - 1], banners);
    }
  }

  /** In every run no message is cut short by the 136-byte buffer. */
  lemma RunsNeverTruncate(s: Chat, es: seq<Input>, banners: Banners, u: User)
    requires EditorOnScreen(s)
    ensures var line := FeedAll(s, es, banners).Line(u);
            Formatted(u, line) == Label(u) + line + [NEWLINE]
  {
    RunsStayOnScreen(s, es, banners);
    NeverTruncated(u, FeedAll(s, es, banners).Line(u));
  }

  /** In every run a completed message reaches the screen and COM1 as the same unbroken text,
      in full, and leaves its editor empty. */
  lemma MessageReachesBoth(s: Chat, es: seq<Input>, banners: Banners, u: User)
    requires EditorOnScreen(s)
    requires var t := FeedAll(s, es, banners);
             !t.hung && t.Line(u) != [] && !IsCommand(t.Line(u))
    ensures var t := FeedAll(s, es, banners);
            var r := Feed(t, Input(u, NEWLINE), banners);
            var echo: seq<Byte> := if u == Serial then [RETURN, NEWLINE] else [];
            var text := Label(u) + t.Line(u) + [NEWLINE];
            && r.roll == Write(t.roll, text, 0x0A)
            && r.sent == t.sent + echo + text
            && r.Line(u) == [] && !r.hung
  {
    hide Write, FeedAll, Label;
    assert SPEECH == 0x0A;
    RunsNeverTruncate(s, es, banners, u);
    var t := FeedAll(s, es, banners);
    assert t.sent + [] == t.sent;
  }

  /** Bytes that cause no output of their own on the screen besides the keyboard echo. */
  predicate Quiet(es: seq<Input>) {
    forall e | e in es :: !IsEnter(e.user, e.byte)
  }

  /** While nobody presses Enter, what lies on the roll after the place where the keyboard line
      began is exactly that line, in white on black, however it wrapped or scrolled. */
  lemma {:induction false} RollSpellsLine(s: Chat, es: seq<Input>, banners: Banners)
    requires EditorOnScreen(s) && s.vgaLine == [] && !s.hung && Quiet(es)
    ensures var t := FeedAll(s, es, banners);
            !t.hung && t.roll.paper == s.roll.paper + Spell(t.vgaLine, ECHO)
  {
    hide Write;
    if es != [] {
      var init, e := es[..|es| - 1], es[|es| - 1];
      RollSpellsLine(s, init, banners);
      RunsStayOnScreen(s, init, banners);
      var t := FeedAll(s, init, banners);
      assert !IsEnter(e.user, e.byte);
      if e.user == Vga {
        if e.byte == BACKSPACE && t.vgaLine != [] {
          EraseUnspells(s.roll.paper, t.vgaLine);
        } else if e.byte >= 32 && |t.vgaLine| < LINE_MAX {
          EchoKeepsOnScreen(t, e.byte);
          assert Spell(t.vgaLine, ECHO) + [Cell(e.byte, ECHO)] == Spell(t.vgaLine + [e.byte], ECHO);
        }
      }
    } else {
      assert s.roll.paper + Spell([], ECHO) == s.roll.paper;
    }
  }

  lemma EraseUnspells(paper: seq<Cell>, line: seq<Byte>)
    requires line != []
    ensures var long := paper + Spell(line, ECHO);
            long[..|long| - 1] == paper + Spell(line[..|line| - 1], ECHO)
  {}

  /** On the screen itself: the cells just before the cursor spell the keyboard line. */
  lemma ScreenSpellsLine(s: Chat, es: seq<Input>, banners: Banners)
    requires EditorOnScreen(s) && s.vgaLine == [] && !s.hung && Quiet(es)
    ensures var t := FeedAll(s, es, banners);
            && t.roll.Ok() && |t.vgaLine| <= t.roll.Position()
            && t.roll.Window()[t.roll.Position() - |t.vgaLine|..t.roll.Position()] == Spell(t.vgaLine, ECHO)
  {
    var t := FeedAll(s, es, banners);
    RollSpellsLine(s, es, banners);
    RunsStayOnScreen(s, es, banners);
    WindowEndsWith(t.roll, s.roll.paper, Spell(t.vgaLine, ECHO));
  }

  lemma WindowEndsWith(r: Roll, paper: seq<Cell>, cells: seq<Cell>)
    requires r.Ok() && r.paper == paper + cells && |cells| <= r.Position()
    ensures r.Window()[r.Position() - |cells|..r.Position()] == cells
  {
    var shown := r.Window()[r.Position() - |cells|..r.Position()];
    forall i | 0 <= i < |cells|
      ensures shown[i] == cells[i]
    {
      var p := WIDTH * r.top + (r.Position() - |cells| + i);
      assert shown[i] == r.CellAt(p);
      assert p == |paper| + i;
    }
  }

  /** How many of the last characters of the keyboard line were typed since anything else was
      printed on the screen. */
  ghost function Fresh(s: Chat, es: seq<Input>, banners: Banners): nat {
    if es == [] then 0
    else
      var init, e := es[..|es| - 1], es[|es| - 1];
      var n, t := Fresh(s, init, banners), FeedAll(s, init, banners);
      if e.user == Serial then (if Feed(t, e, banners).roll.paper == t.roll.paper then n else 0)
      else if t.hung then n
      else if e.byte == NEWLINE then 0
      else if e.byte == BACKSPACE then (if n == 0 then 0 else n - 1)
      else if e.byte < 32 || |t.vgaLine| >= LINE_MAX then n
      else n + 1
  }

  /** The roll ends with the last `n` characters of the line. */
  ghost predicate EndsWithLine(roll: Roll, line: seq<Byte>, n: nat) {
    && n <= |line| && n <= |roll.paper|
    && roll.paper[|roll.paper| - n..] == Spell(line[|line| - n..], ECHO)
  }

  lemma EchoEndsWithLine(r: Roll, q: Roll, line: seq<Byte>, n: nat, c: Byte)
    requires EndsWithLine(r, line, n) && q.paper == r.paper + [Cell(c, ECHO)]
    ensures EndsWithLine(q, line + [c], n + 1)
  {
    var long := line + [c];
    assert q.paper[|q.paper| - (n + 1)..] == r.paper[|r.paper| - n..] + [Cell(c, ECHO)];
    assert long[|long| - (n + 1)..] == line[|line| - n..] + [c];
  }

  lemma EraseEndsWithLine(r: Roll, line: seq<Byte>, n: nat)
    requires EndsWithLine(r, line, n) && line != [] && r.paper != []
    ensures EndsWithLine(Roll(r.paper[..|r.paper| - 1], r.top), line[..|line| - 1], if n == 0 then 0 else n - 1)
  {
    if n > 0 {
      var p, l := |r.paper|, |line|;
      assert r.paper[..p - 1][p - 1 - (n - 1)..] == r.paper[p - n..][..n - 1];
      assert line[..l - 1][l - 1 - (n - 1)..] == line[l - n..][..n - 1];
    }
  }

  lemma FeedEndsWithLine(t: Chat, e: Input, n: nat, banners: Banners)
    requires EditorOnScreen(t) && EndsWithLine(t.roll, t.vgaLine, n) && !t.hung
    requires e.user == Vga && e.byte != NEWLINE
    ensures EndsWithLine(Feed(t, e, banners).roll, Feed(t, e, banners).vgaLine,
                         if e.byte == BACKSPACE then (if n == 0 then 0 else n - 1)
                         else if e.byte < 32 || |t.vgaLine| >= LINE_MAX then n
                         else n + 1)
  {
    hide Write, EndsWithLine;
    if e.byte == BACKSPACE && t.vgaLine != [] {
      EraseEndsWithLine(t.roll, t.vgaLine, n);
    } else if e.byte == BACKSPACE {
      NothingTyped(t.roll, n);
    } else if e.byte >= 32 && |t.vgaLine| < LINE_MAX {
      EchoKeepsOnScreen(t, e.byte);
      EchoEndsWithLine(t.roll, Write(t.roll, [e.byte], ECHO), t.vgaLine, n, e.byte);
    }
  }

  lemma NothingTyped(r: Roll, n: nat)
    requires EndsWithLine(r, [], n)
    ensures n == 0
  {}

  /** In every run, with commands and messages of both users in between, the cells just before
      the cursor spell as much of the end of the keyboard line as was typed since the last
      other output. */
  lemma {:induction false} RollEndsWithFreshLine(s: Chat, es: seq<Input>, banners: Banners)
    requires EditorOnScreen(s)
    ensures var t := FeedAll(s, es, banners);
            EndsWithLine(t.roll, t.vgaLine, Fresh(s, es, banners))
  {
    hide EndsWithLine, Complete, Write;
    if es == [] {
      EndsWithNothing(s.roll, s.vgaLine);
    } else {
      var init, e := es[..|es| - 1], es[|es| - 1];
      var n, t := Fresh(s, init, banners), FeedAll(s, init, banners);
      RollEndsWithFreshLine(s, init, banners);
      RunsStayOnScreen(s, init, banners);
      EndsWithNothing(Feed(t, e, banners).roll, Feed(t, e, banners).vgaLine);
      if e.user == Serial {
        FeedOther(t, e, banners, Vga);
        SamePaperEndsWithLine(t.roll, Feed(t, e, banners).roll, t.vgaLine, n);
      } else if !t.hung && e.byte != NEWLINE {
        FeedEndsWithLine(t, e, n, banners);
      }
    }
  }

  lemma SamePaperEndsWithLine(r: Roll, q: Roll, line: seq<Byte>, n: nat)
    requires EndsWithLine(r, line, n)
    ensures q.paper == r.paper ==> EndsWithLine(q, line, n)
  {}

  lemma EndsWithNothing(r: Roll, line: seq<Byte>)
    ensures EndsWithLine(r, line, 0)
  {
    assert r.paper[|r.paper|..] == [] == Spell(line[|line|..], ECHO);
  }

  /** The same on the screen: the window never hides a part of it. */
  lemma ScreenSpellsFreshLine(s: Chat, es: seq<Input>, banners: Banners)
    requires EditorOnScreen(s)
    ensures var t, n := FeedAll(s, es, banners), Fresh(s, es, banners);
            && t.roll.Ok() && n <= |t.vgaLine| <= t.roll.Position()
            && t.roll.Window()[t.roll.Position() - n..t.roll.Position()]
               == Spell(t.vgaLine[|t.vgaLine| - n..], ECHO)
  {
    hide FeedAll, Fresh, Roll.Window, Roll.CellAt;
    var t, n := FeedAll(s, es, banners), Fresh(s, es, banners);
    RollEndsWithFreshLine(s, es, banners);
    RunsStayOnScreen(s, es, banners);
    var p := |t.roll.paper| - n;
    WindowEndsWith(t.roll, t.roll.paper[..p], t.roll.paper[p..]);
  }

  // ---- which cell an erase takes ----

  /** Where on the roll each character of the keyboard line was echoed. */
  ghost function Echoes(s: Chat, es: seq<Input>, banners: Banners): seq<nat> {
    if es == [] then []
    else
      var init, e := es[..|es| - 1], es[|es| - 1];
      var places, t := Echoes(s, init, banners), FeedAll(s, init, banners);
      if e.user == Serial || t.hung then places
      else if e.byte == NEWLINE then []
      else if e.byte == BACKSPACE then (if places == [] then [] else places[..|places| - 1])
      else if e.byte < 32 || |t.vgaLine| >= LINE_MAX then places
      else places + [|t.roll.paper|]
  }

  /** Every echo is still on the roll, with at least the rest of the line behind it, and with
      nothing else behind it exactly for the last `n` characters. */
  ghost predicate Placed(paper: seq<Cell>, line: seq<Byte>, places: seq<nat>, n: nat) {
    && |places| == |line| && n <= |line|
    && forall j | 0 <= j < |line| ::
         && places[j] + (|line| - j) <= |paper|
         && (places[j] + (|line| - j) == |paper| <==> j >= |line| - n)
         && paper[places[j]] == Cell(line[j], ECHO)
  }

  lemma OutputKeepsPlaced(paper: seq<Cell>, longer: seq<Cell>, line: seq<Byte>, places: seq<nat>, n: nat)
    requires Placed(paper, line, places, n) && paper <= longer
    ensures Placed(longer, line, places, if longer == paper then n else 0)
  {}

  lemma EchoKeepsPlaced(paper: seq<Cell>, c: Byte, line: seq<Byte>, places: seq<nat>, n: nat)
    requires Placed(paper, line, places, n)
    ensures Placed(paper + [Cell(c, ECHO)], line + [c], places + [|paper|], n + 1)
  {}

  lemma EraseKeepsPlaced(paper: seq<Cell>, line: seq<Byte>, places: seq<nat>, n: nat)
    requires Placed(paper, line, places, n) && line != [] && paper != []
    ensures Placed(paper[..|paper| - 1], line[..|line| - 1], places[..|places| - 1], if n == 0 then 0 else n - 1)
  {}

  lemma SerialOnlyExtends(t: Chat, c: Byte, banners: Banners)
    requires EditorOnScreen(t)
    ensures t.roll.paper <= SerialByte(t, c, banners).roll.paper
    ensures SerialByte(t, c, banners).vgaLine == t.vgaLine
  {
    hide Complete, Write;
    CompleteKeepsOnScreen(t.(sent := t.sent + [RETURN, NEWLINE]), Serial, banners);
    FeedOther(t, Input(Serial, c), banners, Vga);
  }

  lemma KeyKeepsPlaced(t: Chat, c: Byte, places: seq<nat>, n: nat, banners: Banners)
    requires EditorOnScreen(t) && !t.hung && c != NEWLINE
    requires Placed(t.roll.paper, t.vgaLine, places, n)
    ensures var r := KeyboardByte(t, c, banners);
            if c == BACKSPACE then
              Placed(r.roll.paper, r.vgaLine, if places == [] then [] else places[..|places| - 1],
                     if n == 0 then 0 else n - 1)
            else if c < 32 || |t.vgaLine| >= LINE_MAX then Placed(r.roll.paper, r.vgaLine, places, n)
            else Placed(r.roll.paper, r.vgaLine, places + [|t.roll.paper|], n + 1)
  {
    hide Write, Placed;
    PlacedAll(t.roll.paper, t.vgaLine, places, n);
    if c == BACKSPACE && t.vgaLine != [] {
      EraseKeepsPlaced(t.roll.paper, t.vgaLine, places, n);
    } else if c >= 32 && |t.vgaLine| < LINE_MAX {
      EchoKeepsOnScreen(t, c);
      EchoKeepsPlaced(t.roll.paper, c, t.vgaLine, places, n);
    }
  }

  lemma PlacedAll(paper: seq<Cell>, line: seq<Byte>, places: seq<nat>, n: nat)
    requires Placed(paper, line, places, n)
    ensures |places| == |line| && n <= |line| <= |paper|
  {
    assert line != [] ==> places[0] + |line| <= |paper|;
  }

  lemma {:induction false} RunsKeepPlaced(s: Chat, es: seq<Input>, banners: Banners)
    requires EditorOnScreen(s) && s.vgaLine == [] && !FeedAll(s, es, banners).hung
    ensures var t := FeedAll(s, es, banners);
            Placed(t.roll.paper, t.vgaLine, Echoes(s, es, banners), Fresh(s, es, banners))
  {
    hide Placed, KeyboardByte, SerialByte, EditorOnScreen;
    if es == [] {
      NothingPlaced(s.roll.paper);
    } else {
      var init, e := es[..|es| - 1], es[|es| - 1];
      var t, places, n := FeedAll(s, init, banners), Echoes(s, init, banners), Fresh(s, init, banners);
      if t.hung {
        HungStays(t, e, banners);
      }
      RunsKeepPlaced(s, init, banners);
      RunsStayOnScreen(s, init, banners);
      if e.user == Serial {
        SerialOnlyExtends(t, e.byte, banners);
        OutputKeepsPlaced(t.roll.paper, Feed(t, e, banners).roll.paper, t.vgaLine, places, n);
      } else if e.byte == NEWLINE {
        KeyboardOwnEffect(t, NEWLINE, banners);
        NothingPlaced(Feed(t, e, banners).roll.paper);
      } else {
        KeyKeepsPlaced(t, e.byte, places, n, banners);
      }
    }
  }

  lemma NothingPlaced(paper: seq<Cell>)
    ensures Placed(paper, [], [], 0)
  {}

  /** Which cell an erase takes, in every run from an empty keyboard line: every character of the
      line still has its echo on the roll; erasing the last character takes its own echo back
      if and only if something of the line was typed since the last other output, and
      otherwise the echo stays on the roll and a cell of the other output goes. */
  lemma EraseTakesOwnEcho(s: Chat, es: seq<Input>, banners: Banners)
    requires EditorOnScreen(s) && s.vgaLine == []
    requires var t := FeedAll(s, es, banners); !t.hung && t.vgaLine != []
    ensures var t, places := FeedAll(s, es, banners), Echoes(s, es, banners);
            var after := KeyboardByte(t, BACKSPACE, banners).roll.paper;
            && |places| == |t.vgaLine| <= |t.roll.paper|
            && (forall j | 0 <= j < |places| ::
                  places[j] < |t.roll.paper| && t.roll.paper[places[j]] == Cell(t.vgaLine[j], ECHO))
            && after == t.roll.paper[..|t.roll.paper| - 1]
            && (after == t.roll.paper[..places[|places| - 1]] <==> Fresh(s, es, banners) > 0)
            && (places[|places| - 1] < |after| <==> Fresh(s, es, banners) == 0)
  {
    hide FeedAll, Fresh, Echoes, Write;
    RunsKeepPlaced(s, es, banners);
    RunsStayOnScreen(s, es, banners);
    var t := FeedAll(s, es, banners);
    PlacedAll(t.roll.paper, t.vgaLine, Echoes(s, es, banners), Fresh(s, es, banners));
  }

  /** The other case is real. One user types `a`, the other sends a message, and the first takes
      the `a` back: the line is empty and the `a` is still on the screen's roll. */
  lemma ErasedCharacterStays(s: Chat, banners: Banners)
    requires Starting(s) && EditorOnScreen(s)
    ensures var t := FeedAll(s, [Input(Vga, 97), Input(Serial, 120), Input(Serial, NEWLINE),
                                 Input(Vga, BACKSPACE)], banners);
            && !t.hung && t.vgaLine == []
            && s.roll.paper + [Cell(97, ECHO)] <= t.roll.paper
  {
    hide Write, Ascii, FeedAll, Complete;
    var a, x, enter, back := Input(Vga, 97), Input(Serial, 120), Input(Serial, NEWLINE), Input(Vga, BACKSPACE);
    FeedAllGrows(s, [], a, banners);
    FeedAllGrows(s, [a], x, banners);
    FeedAllGrows(s, [a, x], enter, banners);
    FeedAllGrows(s, [a, x, enter], back, banners);
    assert [] + [a] == [a] && [a] + [x] == [a, x] && [a, x] + [enter] == [a, x, enter];
    assert [a, x, enter] + [back] == [a, x, enter, back];
    FeedNothing(s, banners);
    EchoKeepsOnScreen(s, 97);
    var named := FeedAll(s, [a, x], banners);
    assert named.vgaLine == [97] && named.serialLine == [120] && !named.hung;
    assert named.roll.paper == s.roll.paper + [Cell(97, ECHO)];
    MessageExtends(named.(sent := named.sent + [RETURN, NEWLINE]), Serial, banners);
    assert FeedAll(s, [a, x, enter], banners).Line(Vga) == named.Line(Vga);
  }

  lemma FeedNothing(s: Chat, banners: Banners)
    ensures FeedAll(s, [], banners) == s
  {}

  /** A message puts at least one cell on the roll. */
  lemma MessageExtends(s: Chat, u: User, banners: Banners)
    requires EditorOnScreen(s) && s.Line(u) != [] && !IsCommand(s.Line(u)) && !s.hung
    ensures var t := Complete(s, u, banners);
            && s.roll.paper < t.roll.paper && !t.hung
            && forall v | v != u :: t.Line(v) == s.Line(v)
  {
    hide Write, Ascii;
    CompleteEffect(s, u, banners);
    WriteGrows(s.roll, Formatted(u, s.Line(u)), SPEECH);
    WriteOk(s.roll, Formatted(u, s.Line(u)), SPEECH);
  }

  lemma WriteGrows(r: Roll, text: seq<Byte>, attribute: Byte)
    requires r.Ok() && text != []
    ensures |Write(r, text, attribute).paper| > |r.paper|
  {
    WriteOk(r, text[..|text| - 1], attribute);
  }

  /** Typing a character and taking it back restores line, cursor and canvas; the window is
      restored too if and only if the character did not fill the last cell of the screen. */
  lemma TypeThenErase(s: Chat, c: Byte, banners: Banners)
    requires EditorOnScreen(s) && !s.hung && 32 <= c && |s.vgaLine| < LINE_MAX
    ensures var t := KeyboardByte(KeyboardByte(s, c, banners), BACKSPACE, banners);
            && t == s.(roll := Roll(s.roll.paper, t.roll.top))
            && (t == s <==> s.roll.Position() != CELLS - 1)
  {
    EchoKeepsOnScreen(s, c);
    var typed := KeyboardByte(s, c, banners);
    assert typed.roll.paper[..|typed.roll.paper| - 1] == s.roll.paper;
    assert typed.vgaLine[..|typed.vgaLine| - 1] == s.vgaLine;
    assert Write(s.roll, [c], ECHO) == Put(s.roll, c, ECHO) by {
      assert [c][..0] == [];
      assert Write(s.roll, [], ECHO) == s.roll;
    }
    PutMovesByOneRow(s.roll, c, ECHO);
  }
}
