/** Which byte each key gives: the translation table against the rows engraved on the keyboard. */
module KeyLayout {
  import opened Bytes
  import opened Keyboard

  const DIGITS := "1234567890-="
  const UPPER := "qwertyuiop[]"
  const HOME := "asdfghjkl;'`"
  const LOWER := "\\zxcvbnm,./"

  /** The keys at consecutive make codes, from `first` on, give the bytes of `text`. */
  ghost predicate RowGives(first: nat, text: string) {
    && first + |text| <= 0x80
    && forall i | 0 <= i < |text| :: text[i] as int < 256 && Key(first + i) == [text[i] as int]
  }

  /** Engraved characters are printable, and none is a space or an asterisk. */
  ghost predicate Engraved(text: string) {
    forall i | 0 <= i < |text| :: 33 <= text[i] as int < 127 && text[i] as int != 42
  }

  lemma RowsEngraved()
    ensures Engraved(DIGITS) && Engraved(UPPER) && Engraved(HOME) && Engraved(LOWER)
  {}

  /** The text as the table has it, from `first` on. */
  ghost predicate InTable(first: nat, text: string) {
    && first + |text| <= 0x80
    && forall i | 0 <= i < |text| :: text[i] == Keys((first + i) / 8)[(first + i) % 8] && first + i != BACKSPACE_CODE
  }

  lemma TableGives(first: nat, text: string)
    requires InTable(first, text) && Engraved(text)
    ensures RowGives(first, text)
  {
    hide Keys;
  }

  lemma UpperRowsOfTable()
    ensures DIGITS == Keys(0)[2..] + Keys(1)[..6]
    ensures UPPER == Keys(2) + Keys(3)[..4]
  {}

  lemma LowerRowsOfTable()
    ensures HOME == Keys(3)[6..] + Keys(4) + Keys(5)[..2]
    ensures LOWER == Keys(5)[3..] + Keys(6)[..6]
  {}

  lemma RowsInTable()
    ensures InTable(0x02, DIGITS) && InTable(0x10, UPPER) && InTable(0x1E, HOME) && InTable(0x2B, LOWER)
  {
    hide Keys, DIGITS, UPPER, HOME, LOWER;
    UpperRowsOfTable();
    LowerRowsOfTable();
  }

  /** The four rows of the keyboard as they are engraved, and the keys beside them. */
  lemma KeyboardRows()
    ensures RowGives(0x02, DIGITS) && RowGives(0x10, UPPER) && RowGives(0x1E, HOME) && RowGives(0x2B, LOWER)
  {
    hide InTable, Engraved, RowGives;
    RowsInTable();
    RowsEngraved();
    TableGives(0x02, DIGITS);
    TableGives(0x10, UPPER);
    TableGives(0x1E, HOME);
    TableGives(0x2B, LOWER);
  }

  lemma KeysBesideRows()
    ensures Key(0x0E) == [8] && Key(0x1C) == [10] && Key(0x37) == [42] && Key(0x39) == [32]
  {}

  /** The scan codes that stand for a byte: every other code, and every break code, gives none. */
  predicate Mapped(code: Byte) {
    || 0x02 <= code <= 0x0E || 0x10 <= code <= 0x1C || 0x1E <= code <= 0x29
    || 0x2B <= code <= 0x35 || code == 0x37 || code == 0x39
  }

  lemma OnlyMappedKeysGiveBytes(code: Byte)
    ensures Key(code) == [] <==> !Mapped(code)
    ensures |Key(code)| <= 1
  {
    var row := code / 8;
    assert row >= 8 ==> Keys(row) == Keys(8);
  }

  /** The make codes from `first` on, one after the other. */
  function CodesFrom(first: nat, n: nat): (codes: seq<Byte>)
    requires first + n <= 0x80
    ensures |codes| == n
  {
    seq(n, i requires 0 <= i < n => first + i)
  }

  lemma TranslateOne(code: Byte)
    ensures Translate([code]) == Key(code)
  {
    assert [code][..0] == [];
    assert Translate([]) == [];
  }

  /** Pressing the keys of a row from left to right types its text. */
  lemma {:induction false} RowTypesText(first: nat, text: string)
    requires RowGives(first, text)
    ensures Translate(CodesFrom(first, |text|)) == Ascii(text)
  {
    hide Key;
    if text != "" {
      var n := |text| - 1;
      var init := text[..n];
      assert RowGives(first, init);
      RowTypesText(first, init);
      assert CodesFrom(first, |text|)[..n] == CodesFrom(first, n);
      assert Ascii(text) == Ascii(init) + [text[n] as int];
    }
  }

  /** The place of a byte in a row, or the row's length. */
  function Place(row: string, b: Byte): (i: nat)
    ensures i <= |row| && (i < |row| ==> row[i] as int == b)
    ensures forall j | 0 <= j < i :: row[j] as int != b
  {
    if row == "" || row[0] as int == b then 0 else 1 + Place(row[1..], b)
  }

  /** The make code of the key engraved with a byte; 0 when there is none. */
  function CodeOf(b: Byte): Byte {
    if b == BACKSPACE then 0x0E
    else if b == NEWLINE then 0x1C
    else if b == 42 then 0x37
    else if b == SPACE then 0x39
    else if Place(DIGITS, b) < 12 then 0x02 + Place(DIGITS, b)
    else if Place(UPPER, b) < 12 then 0x10 + Place(UPPER, b)
    else if Place(HOME, b) < 12 then 0x1E + Place(HOME, b)
    else if Place(LOWER, b) < 11 then 0x2B + Place(LOWER, b)
    else 0
  }

  /** There is a key for the byte. */
  predicate Keyable(b: Byte) {
    CodeOf(b) != 0
  }

  lemma RowSizes()
    ensures |DIGITS| == 12 && |UPPER| == 12 && |HOME| == 12 && |LOWER| == 11
  {}

  /** The key engraved with a byte gives that byte ... */
  lemma CodeGivesByte(b: Byte)
    requires Keyable(b)
    ensures Key(CodeOf(b)) == [b] && CodeOf(b) < 0x80
  {
    hide Key, Place, DIGITS, UPPER, HOME, LOWER;
    RowSizes();
    KeyboardRows();
    KeysBesideRows();
  }

  ghost predicate Apart(a: string, b: string) {
    forall i, j | 0 <= i < |a| && 0 <= j < |b| :: a[i] != b[j]
  }

  ghost predicate Distinct(a: string) {
    forall i, j | 0 <= i < j < |a| :: a[i] != a[j]
  }

  lemma RowsApart()
    ensures Apart(DIGITS, UPPER) && Apart(DIGITS, HOME) && Apart(DIGITS, LOWER)
    ensures Apart(UPPER, HOME) && Apart(UPPER, LOWER) && Apart(HOME, LOWER)
  {
    hide Apart, DIGITS, UPPER, HOME, LOWER;
    DigitsApart();
    LettersApart();
  }

  lemma DigitsApart()
    ensures Apart(DIGITS, UPPER) && Apart(DIGITS, HOME) && Apart(DIGITS, LOWER)
  {}

  lemma LettersApart()
    ensures Apart(UPPER, HOME) && Apart(UPPER, LOWER) && Apart(HOME, LOWER)
  {}

  lemma RowsDistinct()
    ensures Distinct(DIGITS) && Distinct(UPPER) && Distinct(HOME) && Distinct(LOWER)
  {}

  lemma PlaceInRow(row: string, i: nat)
    requires Distinct(row) && i < |row| && row[i] as int < 256
    ensures Place(row, row[i] as int) == i
  {
    hide Place;
  }

  lemma PlaceElsewhere(row: string, other: string, i: nat)
    requires Apart(row, other) && i < |other| && other[i] as int < 256
    ensures Place(row, other[i] as int) == |row|
  {
    hide Place;
  }

  /** ... and no other key does: each mapped code is the code of the byte it gives. */
  lemma KeyHasItsCode(code: Byte)
    requires Mapped(code)
    ensures |Key(code)| == 1 && CodeOf(Key(code)[0]) == code
  {
    hide Key, Place, Apart, Distinct, DIGITS, UPPER, HOME, LOWER;
    RowSizes();
    RowsEngraved();
    RowsApart();
    RowsDistinct();
    KeyboardRows();
    KeysBesideRows();
    OnlyMappedKeysGiveBytes(code);
    if 0x02 <= code < 0x0E {
      PlaceInRow(DIGITS, code - 0x02);
    } else if 0x10 <= code < 0x1C {
      PlaceElsewhere(DIGITS, UPPER, code - 0x10);
      PlaceInRow(UPPER, code - 0x10);
    } else if 0x1E <= code <= 0x29 {
      PlaceElsewhere(DIGITS, HOME, code - 0x1E);
      PlaceElsewhere(UPPER, HOME, code - 0x1E);
      PlaceInRow(HOME, code - 0x1E);
    } else if 0x2B <= code <= 0x35 {
      PlaceElsewhere(DIGITS, LOWER, code - 0x2B);
      PlaceElsewhere(UPPER, LOWER, code - 0x2B);
      PlaceElsewhere(HOME, LOWER, code - 0x2B);
      PlaceInRow(LOWER, code - 0x2B);
    }
  }

  /** Two different scan codes never give the same byte. */
  lemma KeysDiffer(a: Byte, b: Byte)
    requires Key(a) == Key(b) != []
    ensures a == b
  {
    hide Key, CodeOf;
    OnlyMappedKeysGiveBytes(a);
    OnlyMappedKeysGiveBytes(b);
    KeyHasItsCode(a);
    KeyHasItsCode(b);
  }

  /** Typing a text: each key is pressed and released. */
  function Keystrokes(text: seq<Byte>): seq<Byte>
    requires forall b | b in text :: Keyable(b)
  {
    if text == [] then []
    else
      var code := CodeOf(text[|text| - 1]);
      Keystrokes(text[..|text| - 1]) + [code, (code + 0x80) % 0x100]
  }

  /** Typing a text gives exactly that text. */
  lemma {:induction false} KeystrokesGiveText(text: seq<Byte>)
    requires forall b | b in text :: Keyable(b)
    ensures Translate(Keystrokes(text)) == text
  {
    hide Key, Keyable, CodeOf;
    if text != [] {
      var init, b := text[..|text| - 1], text[|text| - 1];
      var code := CodeOf(b);
      KeystrokesGiveText(init);
      CodeGivesByte(b);
      OnlyMappedKeysGiveBytes((code + 0x80) % 0x100);
      TranslateConcat(Keystrokes(init), [code, (code + 0x80) % 0x100]);
      assert [code, (code + 0x80) % 0x100] == [code] + [(code + 0x80) % 0x100];
      TranslateConcat([code], [(code + 0x80) % 0x100]);
      TranslateOne(code);
      TranslateOne((code + 0x80) % 0x100);
    }
  }
}
