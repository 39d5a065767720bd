/** What the text console is meant to show: an endless roll of 80-column rows seen through a
    window of 25 rows. Nothing is ever copied or scrolled here. */
module Terminal {
  import opened Bytes

  const WIDTH := 80
  const HEIGHT := 25
  const CELLS := 2000

  const BLACK: Byte := 0
  const LIGHT_GREEN: Byte := 10
  const WHITE: Byte := 15

  datatype Cell = Cell(glyph: Byte, attribute: Byte)

  function Attribute(fg: Byte, bg: Byte): Byte {
    bg % 16 * 16 + fg % 16
  }

  const BLANK := Cell(SPACE, Attribute(WHITE, BLACK))

  /** The roll holds the cells before the cursor, so the absolute cursor is its length and
      every cell from the cursor on is blank; `top` counts the rows above the window. */
  datatype Roll = Roll(paper: seq<Cell>, top: nat)
  {
    /** The cursor lies inside the window. */
    predicate Ok() {
      WIDTH * top <= |paper| < WIDTH * top + CELLS
    }

    /** The cursor relative to the window. */
    function Position(): (p: nat)
      requires Ok()
      ensures p < CELLS
    {
      |paper| - WIDTH * top
    }

    /** The 2000 cells of the window. */
    function Window(): (w: seq<Cell>)
      ensures |w| == CELLS
      ensures forall i | 0 <= i < CELLS :: w[i] == CellAt(WIDTH * top + i)
    {
      seq(CELLS, i requires 0 <= i < CELLS => CellAt(WIDTH * top + i))
    }

    /** The cell at an absolute position. */
    function CellAt(p: nat): Cell {
      if p < |paper| then paper[p] else BLANK
    }
  }

  const CLEAR := Roll([], 0)

  function Blanks(n: nat): (s: seq<Cell>)
    ensures |s| == n && forall i | 0 <= i < n :: s[i] == BLANK
  {
    seq(n, _ => BLANK)
  }

  /** The window slides down just enough to keep the end of the roll inside. */
  function Follow(paper: seq<Cell>, top: nat): (r: Roll) {
    var row := |paper| / WIDTH;
    Roll(paper, if row < top + HEIGHT then top else row - (HEIGHT - 1))
  }

  function Put(r: Roll, c: Byte, attribute: Byte): Roll {
    if c == NEWLINE then Follow(r.paper + Blanks(WIDTH - |r.paper| % WIDTH), r.top)
    else Follow(r.paper + [Cell(c, attribute)], r.top)
  }

  function Write(r: Roll, text: seq<Byte>, attribute: Byte): Roll {
    if text == [] then r
    else Put(Write(r, text[..|text| - 1], attribute), text[|text| - 1], attribute)
  }

  /** Takes back the last cell, unless the cursor stands at the first cell of the window. */
  function Erase(r: Roll): Roll {
    if |r.paper| <= WIDTH * r.top then r else Roll(r.paper[..|r.paper| - 1], r.top)
  }

  /** A text without newlines, as cells. */
  function Spell(text: seq<Byte>, attribute: Byte): (s: seq<Cell>)
    ensures |s| == |text|
    ensures forall i | 0 <= i < |text| :: s[i] == Cell(text[i], attribute)
  {
    seq(|text|, i requires 0 <= i < |text| => Cell(text[i], attribute))
  }

  // ---- laws ----

  /** A single character moves the window by at most one row, and after it did the cursor is
      at the first column of the last row. */
  lemma PutMovesByOneRow(r: Roll, c: Byte, attribute: Byte)
    requires r.Ok()
    ensures Put(r, c, attribute).Ok()
    ensures r.paper <= Put(r, c, attribute).paper
    ensures var s := Put(r, c, attribute);
            && r.top <= s.top <= r.top + 1
            && (s.top == r.top + 1 <==> |s.paper| == WIDTH * r.top + CELLS)
            && (s.top == r.top + 1 ==> s.Position() == CELLS - WIDTH)
            && (s.top == r.top ==> s.Position() > r.Position())
  {}

  lemma {:induction false} WriteOk(r: Roll, text: seq<Byte>, attribute: Byte)
    requires r.Ok()
    ensures Write(r, text, attribute).Ok()
    ensures r.paper <= Write(r, text, attribute).paper
    ensures var s := Write(r, text, attribute);
            && r.top <= s.top
            && (s.top == r.top ==> s.Position() >= r.Position())
            && (s.top > r.top ==> s.Position() >= CELLS - WIDTH)
  {
    if text != [] {
      var init := text[..|text| - 1];
      WriteOk(r, init, attribute);
      PutMovesByOneRow(Write(r, init, attribute), text[|text| - 1], attribute);
    }
  }

  /** Writing two texts in turn is writing their concatenation. */
  lemma {:induction false} WriteConcat(r: Roll, s: seq<Byte>, t: seq<Byte>, attribute: Byte)
    ensures Write(Write(r, s, attribute), t, attribute) == Write(r, s + t, attribute)
    decreases |t|
  {
    if t == [] {
      assert s + t == s;
    } else {
      var init := t[..|t| - 1];
      WriteConcat(r, s, init, attribute);
      assert (s + t)[..|s + t| - 1] == s + init;
    }
  }

  /** The window is as far down the roll as the end of the roll forces it to be. */
  predicate TopForced(r: Roll) {
    r.top == if |r.paper| < CELLS then 0 else |r.paper| / WIDTH - (HEIGHT - 1)
  }

  /** As long as nothing is taken back, the number of scrolls is a function of the cursor. */
  lemma {:induction false} WriteKeepsTopForced(r: Roll, text: seq<Byte>, attribute: Byte)
    requires r.Ok() && TopForced(r)
    ensures TopForced(Write(r, text, attribute))
  {
    if text != [] {
      var init := text[..|text| - 1];
      WriteKeepsTopForced(r, init, attribute);
      WriteOk(r, init, attribute);
      PutMovesByOneRow(Write(r, init, attribute), text[|text| - 1], attribute);
    }
  }

  /** When the roll outgrows the window by one row, the new window is the old one with every
      row moved up by one and a blank last row. */
  lemma SlideIsShift(r: Roll)
    requires |r.paper| == WIDTH * r.top + CELLS
    ensures Roll(r.paper, r.top + 1).Window() == r.Window()[WIDTH..] + Blanks(WIDTH)
  {
    var w := r.Window()[WIDTH..] + Blanks(WIDTH);
    forall i | 0 <= i < CELLS
      ensures Roll(r.paper, r.top + 1).Window()[i] == w[i]
    {
      var slid := Roll(r.paper, r.top + 1);
      assert WIDTH * (r.top + 1) + i == WIDTH * r.top + (WIDTH + i);
      assert slid.Window()[i] == slid.CellAt(WIDTH * (r.top + 1) + i) == r.CellAt(WIDTH * r.top + (WIDTH + i));
      if i + WIDTH < CELLS {
        assert w[i] == r.Window()[WIDTH + i] == r.CellAt(WIDTH * r.top + (WIDTH + i));
      } else {
        assert w[i] == BLANK == r.CellAt(WIDTH * r.top + (WIDTH + i));
      }
    }
  }

  /** Extending the roll by one cell changes one cell of the window, the one at the cursor. */
  lemma AppendShows(r: Roll, cell: Cell)
    requires r.Ok()
    ensures Roll(r.paper + [cell], r.top).Window() == r.Window()[r.Position() := cell]
  {
    var w := r.Window()[r.Position() := cell];
    var longer := Roll(r.paper + [cell], r.top);
    forall i | 0 <= i < CELLS
      ensures longer.Window()[i] == w[i]
    {
      var p := WIDTH * r.top + i;
      assert longer.CellAt(p) == if p == |r.paper| then cell else r.CellAt(p);
    }
  }

  /** Blank cells beyond the cursor are already there. */
  lemma BlanksShow(r: Roll, n: nat)
    ensures Roll(r.paper + Blanks(n), r.top).Window() == r.Window()
  {
    var longer := Roll(r.paper + Blanks(n), r.top);
    forall i | 0 <= i < CELLS
      ensures longer.Window()[i] == r.Window()[i]
    {
      var p := WIDTH * r.top + i;
      assert longer.CellAt(p) == r.CellAt(p);
    }
  }

  /** At the first cell of the window there is nothing to take back. */
  lemma EraseAtOrigin(r: Roll)
    requires r.Ok()
    ensures Erase(r) == r <==> r.Position() == 0
  {}

  /** Taking a cell back blanks exactly the cell before the cursor. */
  lemma EraseShows(r: Roll)
    requires r.Ok() && r.Position() > 0
    ensures Erase(r).Ok() && Erase(r).Position() == r.Position() - 1
    ensures Erase(r).Window() == r.Window()[r.Position() - 1 := BLANK]
  {
    var w := r.Window()[r.Position() - 1 := BLANK];
    forall i | 0 <= i < CELLS
      ensures Erase(r).Window()[i] == w[i]
    {
      var p := WIDTH * r.top + i;
      assert Erase(r).CellAt(p) == if p == |r.paper| - 1 then BLANK else r.CellAt(p);
    }
  }

  /** The screen-level effect of one character: at most one cell changes, then the window
      stays or slides by one row. */
  lemma PutShows(r: Roll, c: Byte, attribute: Byte)
    requires r.Ok()
    ensures var s := Put(r, c, attribute);
            var w := if c == NEWLINE then r.Window() else r.Window()[r.Position() := Cell(c, attribute)];
            var advanced := r.Position() + if c == NEWLINE then WIDTH - r.Position() % WIDTH else 1;
            && s.Ok()
            && advanced <= CELLS
            && (advanced < CELLS ==> s.Position() == advanced && s.Window() == w)
            && (advanced == CELLS ==> s.Position() == CELLS - WIDTH && s.Window() == w[WIDTH..] + Blanks(WIDTH))
  {
    hide Roll.Window, Roll.CellAt, Blanks;
    PutMovesByOneRow(r, c, attribute);
    var s := Put(r, c, attribute);
    if c == NEWLINE {
      BlanksShow(r, WIDTH - |r.paper| % WIDTH);
    } else {
      AppendShows(r, Cell(c, attribute));
    }
    if s.top == r.top + 1 {
      SlideIsShift(Roll(s.paper, r.top));
    }
  }
}
