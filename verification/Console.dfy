/** The VGA text console: 80 by 25 cells of two bytes each, written and scrolled in place. */
module Console {
  import opened Bytes
  import opened Terminal

  const VIDEO_BYTES := 4000

  class Screen {
    const video: array<Byte>
    var position: nat
    /** The roll this screen is showing. */
    ghost var roll: Roll

    /** The cells on the screen. */
    ghost function Cells(): (s: seq<Cell>)
      requires video.Length == VIDEO_BYTES
      reads video
      ensures |s| == CELLS && forall i | 0 <= i < CELLS :: s[i] == Cell(video[2 * i], video[2 * i + 1])
    {
      seq(CELLS, i requires 0 <= i < CELLS reads video => Cell(video[2 * i], video[2 * i + 1]))
    }

    /** The video bytes are exactly the window of the roll, and the cursor is its end. */
    ghost predicate Valid()
      reads this, video
    {
      && video.Length == VIDEO_BYTES
      && roll.Ok()
      && position == roll.Position()
      && Cells() == roll.Window()
    }

    /** Video memory as the machine left it, then cleared. */
    constructor ()
      ensures Valid() && fresh(video) && roll == CLEAR
    {
      video := new Byte[VIDEO_BYTES](_ => 0);
      position := 0;
      roll := CLEAR;
      new;
      Clear();
    }

    method SetCharacter(idx: nat, c: Byte, fg: Byte, bg: Byte)
      requires video.Length == VIDEO_BYTES && idx < CELLS
      modifies video
      ensures Cells() == old(Cells())[idx := Cell(c, Attribute(fg, bg))]
    {
      var vgaIdx := idx * 2;
      video[vgaIdx] := c;
      video[vgaIdx + 1] := bg % 16 * 16 + fg % 16;
    }

    method Clear()
      requires video.Length == VIDEO_BYTES
      modifies this, video
      ensures Valid() && roll == CLEAR
    {
      var i := 0;
      while i < WIDTH * HEIGHT
        invariant 0 <= i <= CELLS
        invariant forall j | 0 <= j < i :: Cells()[j] == BLANK
      {
        SetCharacter(i, SPACE, WHITE, BLACK);
        i := i + 1;
      }
      position := 0;
      roll := CLEAR;
      assert forall j | 0 <= j < CELLS :: CLEAR.Window()[j] == BLANK;
    }

    /** Every row moves up by one, the last row becomes blank, the cursor goes to its start. */
    method Scroll()
      requires video.Length == VIDEO_BYTES
      modifies this`position, video
      ensures position == CELLS - WIDTH
      ensures Cells() == old(Cells())[WIDTH..] + Blanks(WIDTH)
    {
      ghost var was := Cells();
      var i := 0;
      while i < (HEIGHT - 1) * WIDTH
        invariant 0 <= i <= CELLS - WIDTH
        invariant forall j | 0 <= j < i :: Cells()[j] == was[j + WIDTH]
        invariant forall j | i <= j < CELLS :: Cells()[j] == was[j]
      {
        var nextRow := i + WIDTH;
        assert Cells()[nextRow] == was[nextRow];
        label before:
        video[i * 2] := video[nextRow * 2];
        video[i * 2 + 1] := video[nextRow * 2 + 1];
        assert Cells() == old@before(Cells())[i := was[nextRow]];
        i := i + 1;
      }
      var lastRowStart := (HEIGHT - 1) * WIDTH;
      i := lastRowStart;
      while i < HEIGHT * WIDTH
        invariant lastRowStart <= i <= CELLS
        invariant forall j | 0 <= j < lastRowStart :: Cells()[j] == was[j + WIDTH]
        invariant forall j | lastRowStart <= j < i :: Cells()[j] == BLANK
      {
        SetCharacter(i, SPACE, WHITE, BLACK);
        i := i + 1;
      }
      position := lastRowStart;
    }

    /** One character of a string, with the scroll it may cause. */
    method PutCharacter(character: Byte, fg: Byte, bg: Byte)
      requires Valid()
      modifies this, video
      ensures Valid() && roll == Put(old(roll), character, Attribute(fg, bg))
    {
      hide Put, Follow;
      PutShows(roll, character, Attribute(fg, bg));
      if character == NEWLINE {
        position := position + (WIDTH - position % WIDTH);
      } else {
        SetCharacter(position, character, fg, bg);
        position := position + 1;
      }
      if position >= WIDTH * HEIGHT {
        Scroll();
      }
      roll := Put(roll, character, Attribute(fg, bg));
    }

    /** Writes the string at the start of `text` and leaves the screen showing the roll with
        that string appended. */
    method WriteColored(text: seq<Byte>, fg: Byte, bg: Byte)
      requires Valid() && NUL in text
      modifies this, video
      ensures Valid() && roll == Write(old(roll), Text(text), Attribute(fg, bg))
    {
      var i := 0;
      while text[i] != NUL
        invariant 0 <= i <= Length(text)
        invariant Valid() && roll == Write(old(roll), text[..i], Attribute(fg, bg))
        decreases |text| - i
      {
        PutCharacter(text[i], fg, bg);
        assert text[..i + 1][..i] == text[..i];
        i := i + 1;
      }
      LengthIs(text, i);
    }

    method WriteWhite(text: seq<Byte>)
      requires Valid() && NUL in text
      modifies this, video
      ensures Valid() && roll == Write(old(roll), Text(text), Attribute(WHITE, BLACK))
    {
      WriteColored(text, WHITE, BLACK);
    }

    method Backspace()
      requires Valid()
      modifies this, video
      ensures Valid() && roll == Erase(old(roll))
    {
      if position == 0 {
        return;
      }
      EraseShows(roll);
      position := position - 1;
      SetCharacter(position, SPACE, WHITE, BLACK);
      roll := Erase(roll);
    }
  }

  /** The roll after a sequence of writes to a cleared screen. */
  ghost function WriteTexts(texts: seq<(seq<Byte>, Byte, Byte)>): Roll
    requires forall t | t in texts :: NUL in t.0
  {
    if texts == [] then CLEAR
    else
      var t := texts[|texts| - 1];
      Write(WriteTexts(texts[..|texts| - 1]), Text(t.0), Attribute(t.1, t.2))
  }

  /** From a cleared screen, any sequence of writes leaves the 2000 cells equal to the window
      of the roll that was never scrolled: its rows k to k + 24, where the number k of scrolls
      and the absolute cursor `position + 80 * k` follow from what was written alone. */
  method WriteAll(screen: Screen, texts: seq<(seq<Byte>, Byte, Byte)>)
    requires screen.video.Length == VIDEO_BYTES
    requires forall t | t in texts :: NUL in t.0
    modifies screen, screen.video
    ensures screen.Valid() && screen.roll == WriteTexts(texts)
    ensures screen.Cells() == WriteTexts(texts).Window()
    ensures TopForced(WriteTexts(texts))
    ensures screen.position + WIDTH * WriteTexts(texts).top == |WriteTexts(texts).paper|
  {
    screen.Clear();
    for i := 0 to |texts|
      invariant screen.Valid() && screen.roll == WriteTexts(texts[..i]) && TopForced(screen.roll)
    {
      var (text, fg, bg) := texts[i];
      WriteKeepsTopForced(screen.roll, Text(text), Attribute(fg, bg));
      screen.WriteColored(text, fg, bg);
      assert texts[..i + 1][..i] == texts[..i];
    }
    assert texts[..|texts|] == texts;
  }
}
