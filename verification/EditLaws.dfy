/** What editing means, said of the bytes alone: what a typed text, an erase and an ignored byte
    do to a line, and what an Enter makes of it. */
module EditLaws {
  import opened Bytes
  import opened LineEditor

  /** A byte that enters a line: printable, and not the erase byte a terminal sends. */
  predicate Printable(u: User, c: Byte) {
    c >= 32 && (u == Serial ==> c != 127)
  }

  /** Backspace erases for both users, delete for the COM1 user. */
  predicate Rubout(u: User, c: Byte) {
    c == 8 || (u == Serial && c == 127)
  }

  /** A newline is Enter for both users, a carriage return for the COM1 user. */
  predicate Enter(u: User, c: Byte) {
    c == 10 || (u == Serial && c == 13)
  }

  lemma EditAllGrows(u: User, piece: seq<Byte>, c: Byte)
    ensures EditAll(u, piece + [c]) == Edit(u, EditAll(u, piece), c)
  {
    assert (piece + [c])[..|piece|] == piece;
  }

  /** A printable text joins the line as it is, as long as the line stays within 120 bytes. */
  lemma {:induction false} TextJoinsLine(u: User, piece: seq<Byte>, text: seq<Byte>)
    requires forall c | c in text :: Printable(u, c)
    requires |EditAll(u, piece)| + |text| <= 120
    ensures EditAll(u, piece + text) == EditAll(u, piece) + text
    decreases |text|
  {
    hide EditAll;
    if text == [] {
      assert piece + text == piece;
      assert EditAll(u, piece) + text == EditAll(u, piece);
    } else {
      var init, c := text[..|text| - 1], text[|text| - 1];
      TextJoinsLine(u, piece, init);
      EditAllGrows(u, piece + init, c);
      assert Printable(u, c);
      assert piece + text == piece + init + [c];
      assert EditAll(u, piece) + init + [c] == EditAll(u, piece) + text;
    }
  }

  /** One erase takes exactly the last byte, if there is one. */
  lemma EraseTakesLast(u: User, piece: seq<Byte>, c: Byte)
    requires Rubout(u, c)
    ensures var line := EditAll(u, piece);
            EditAll(u, piece + [c]) == if line == [] then [] else line[..|line| - 1]
  {
    EditAllGrows(u, piece, c);
  }

  /** Control bytes leave the line alone, and so does a printable byte when 120 are held. */
  lemma OtherBytesAreIgnored(u: User, piece: seq<Byte>, c: Byte)
    requires !Rubout(u, c) && (c < 32 || |EditAll(u, piece)| == 120)
    ensures EditAll(u, piece + [c]) == EditAll(u, piece)
  {
    EditAllGrows(u, piece, c);
  }

  /** As many erases as bytes typed give the line back, whatever it was. */
  lemma {:induction false} ErasesUndoText(u: User, piece: seq<Byte>, text: seq<Byte>, erases: seq<Byte>)
    requires forall c | c in text :: Printable(u, c)
    requires forall c | c in erases :: Rubout(u, c)
    requires |erases| <= |text| && |EditAll(u, piece)| + |text| <= 120
    ensures EditAll(u, piece + text + erases) == EditAll(u, piece) + text[..|text| - |erases|]
    decreases |erases|
  {
    if erases == [] {
      TextJoinsLine(u, piece, text);
      assert piece + text + erases == piece + text;
      assert text[..|text|] == text;
    } else {
      var init, c := erases[..|erases| - 1], erases[|erases| - 1];
      ErasesUndoText(u, piece, text, init);
      EraseTakesLast(u, piece + text + init, c);
      assert piece + text + erases == piece + text + init + [c];
    }
  }

  lemma EntersAre(u: User, c: Byte)
    ensures IsEnter(u, c) == Enter(u, c)
    ensures Printable(u, c) || Rubout(u, c) ==> !Enter(u, c)
  {}

  lemma {:induction false} TextHasNoEnter(u: User, stream: seq<Byte>, text: seq<Byte>)
    requires forall c | c in text :: !Enter(u, c)
    ensures Lines(u, stream + text) == Lines(u, stream)
    ensures Rest(u, stream + text) == Rest(u, stream) + text
    decreases |text|
  {
    hide Lines, Rest, IsEnter, Enter;
    if text == [] {
      assert stream + text == stream;
      assert Rest(u, stream) + text == Rest(u, stream);
    } else {
      var init, c := text[..|text| - 1], text[|text| - 1];
      TextHasNoEnter(u, stream, init);
      EntersAre(u, c);
      LinesGrow(u, stream + init, c);
      SplitGrows(u, stream + init, c);
      assert stream + text == stream + init + [c];
      assert Rest(u, stream) + text == Rest(u, stream) + init + [c];
    }
  }

  /** A printable text of at most 120 bytes followed by Enter completes exactly that line. */
  lemma TypedLineCompletes(u: User, stream: seq<Byte>, text: seq<Byte>, enter: Byte)
    requires forall c | c in text :: Printable(u, c)
    requires |text| <= 120 && Enter(u, enter) && Rest(u, stream) == []
    ensures Lines(u, stream + text + [enter]) == Lines(u, stream) + [text]
    ensures Rest(u, stream + text + [enter]) == []
  {
    hide Lines, Rest, IsEnter, Enter;
    forall c | c in text
      ensures !Enter(u, c)
    {
      EntersAre(u, c);
    }
    TextHasNoEnter(u, stream, text);
    EntersAre(u, enter);
    LinesGrow(u, stream + text, enter);
    SplitGrows(u, stream + text, enter);
    TextJoinsLine(u, [], text);
    assert [] + text == text;
  }

  /** ... which is a message unless it is empty or one of the three commands. */
  lemma TypedLineIsMessage(u: User, stream: seq<Byte>, text: seq<Byte>, enter: Byte)
    requires forall c | c in text :: Printable(u, c)
    requires |text| <= 120 && Enter(u, enter) && Rest(u, stream) == []
    ensures Messages(u, stream + text + [enter]) ==
            if text in {[], Ascii("/deadlock"), Ascii("/transferir"), Ascii("/help")} then Messages(u, stream)
            else Messages(u, stream) + [text]
  {
    hide Lines, Rest, Ascii;
    TypedLineCompletes(u, stream, text, enter);
    SpokenGrows(Lines(u, stream), text);
  }
}
