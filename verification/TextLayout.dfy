/** What a written text looks like, cell by cell. */
module TextLayout {
  import opened Bytes
  import opened Terminal

  /** A text of one character is that character. */
  lemma WriteOne(r: Roll, c: Byte, attribute: Byte)
    ensures Write(r, [c], attribute) == Put(r, c, attribute)
  {
    assert [c][..0] == [];
    assert Write(r, [], attribute) == r;
  }

  lemma WriteGrowsBy(r: Roll, text: seq<Byte>, c: Byte, attribute: Byte)
    ensures Write(r, text + [c], attribute) == Put(Write(r, text, attribute), c, attribute)
  {
    assert (text + [c])[..|text|] == text;
  }

  /** Where the cursor stands after a text: a newline goes to the next multiple of 80, any other
      character one cell on. */
  function CursorAfter(start: nat, text: seq<Byte>): nat {
    if text == [] then start
    else
      var before := CursorAfter(start, text[..|text| - 1]);
      if text[|text| - 1] == 10 then 80 * (before / 80 + 1) else before + 1
  }

  /** The whole layout of a text, cell by cell. */
  ghost predicate LaidOut(before: seq<Cell>, text: seq<Byte>, attribute: Byte, after: seq<Cell>) {
    && before <= after && |after| == CursorAfter(|before|, text)
    && (forall i | 0 <= i < |text| && text[i] != 10 ::
          var p := CursorAfter(|before|, text[..i]);
          |before| <= p < |after| && after[p] == Cell(text[i], attribute))
    && forall p | |before| <= p < |after| ::
         after[p] == Cell(32, 0x0F) || exists i :: PlacedAt(|before|, text, i, p)
  }

  /** The character at `i` is not a newline and stands at position `p`. */
  predicate PlacedAt(start: nat, text: seq<Byte>, i: nat, p: nat) {
    i < |text| && text[i] != 10 && CursorAfter(start, text[..i]) == p
  }

  lemma LaidOutGrows(before: seq<Cell>, text: seq<Byte>, c: Byte, attribute: Byte, paper: seq<Cell>, after: seq<Cell>)
    requires LaidOut(before, text, attribute, paper) && paper <= after
    requires |after| == CursorAfter(|before|, text + [c])
    requires c != 10 ==> after == paper + [Cell(c, attribute)]
    requires c == 10 ==> forall p | |paper| <= p < |after| :: after[p] == Cell(32, 0x0F)
    ensures LaidOut(before, text + [c], attribute, after)
  {
    hide CursorAfter;
    var longer := text + [c];
    assert longer[..|text|] == text;
    assert forall i | 0 <= i < |text| :: longer[..i] == text[..i];
    forall p | |before| <= p < |after|
      ensures after[p] == Cell(32, 0x0F) || exists i :: PlacedAt(|before|, longer, i, p)
    {
      if p < |paper| && paper[p] != Cell(32, 0x0F) {
        var i :| PlacedAt(|before|, text, i, p);
        assert PlacedAt(|before|, longer, i, p);
      } else if p >= |paper| && c != 10 {
        assert PlacedAt(|before|, longer, |text|, p);
      }
    }
  }

  /** Writing a text puts each character where the cursor has come by then, in its colours,
      leaves everything else it passes blank, and the cursor at the end of the text. */
  lemma {:induction false} WriteLaysOut(r: Roll, text: seq<Byte>, attribute: Byte)
    requires r.Ok()
    ensures LaidOut(r.paper, text, attribute, Write(r, text, attribute).paper)
  {
    hide LaidOut;
    if text == [] {
      NothingLaidOut(r.paper, attribute);
    } else {
      var init, c := text[..|text| - 1], text[|text| - 1];
      WriteLaysOut(r, init, attribute);
      WriteOk(r, init, attribute);
      LaidOutLength(r.paper, init, attribute, Write(r, init, attribute).paper);
      PutExtends(Write(r, init, attribute), c, attribute);
      assert text == init + [c];
      LaidOutGrows(r.paper, init, c, attribute, Write(r, init, attribute).paper, Write(r, text, attribute).paper);
    }
  }

  lemma NothingLaidOut(paper: seq<Cell>, attribute: Byte)
    ensures LaidOut(paper, [], attribute, paper)
  {}

  lemma LaidOutLength(before: seq<Cell>, text: seq<Byte>, attribute: Byte, after: seq<Cell>)
    requires LaidOut(before, text, attribute, after)
    ensures |after| == CursorAfter(|before|, text)
  {}

  lemma PutExtends(r: Roll, c: Byte, attribute: Byte)
    ensures var after := Put(r, c, attribute).paper;
            && r.paper <= after
            && (c != 10 ==> after == r.paper + [Cell(c, attribute)])
            && (c == 10 ==>
                  && |after| == 80 * (|r.paper| / 80 + 1)
                  && forall p | |r.paper| <= p < |after| :: after[p] == Cell(32, 0x0F))
  {
    ColourValues();
  }

  /** A text without a newline is spelled out behind the roll. */
  lemma {:induction false} WriteSpells(r: Roll, text: seq<Byte>, attribute: Byte)
    requires 10 !in text
    ensures Write(r, text, attribute).paper == r.paper + Spell(text, attribute)
  {
    if text == [] {
      assert r.paper + Spell([], attribute) == r.paper;
    } else {
      var init, c := text[..|text| - 1], text[|text| - 1];
      WriteSpells(r, init, attribute);
      PutExtends(Write(r, init, attribute), c, attribute);
      assert Spell(text, attribute) == Spell(init, attribute) + [Cell(c, attribute)];
    }
  }

  /** The low four bits of an attribute are the foreground, the high four the background. */
  lemma AttributeNibbles(fg: Byte, bg: Byte)
    ensures Attribute(fg, bg) % 16 == fg % 16
    ensures Attribute(fg, bg) / 16 == bg % 16
  {}

  lemma ColourValues()
    ensures BLANK == Cell(32, 0x0F)
    ensures Attribute(WHITE, BLACK) == 0x0F && Attribute(LIGHT_GREEN, BLACK) == 0x0A
  {}
}
