/** What the two line editors are meant to do with a stream of bytes. */
module LineEditor {
  import opened Bytes

  const LINE_MAX := 120

  /** The keyboard user and the COM1 user. */
  datatype User = Vga | Serial

  function Name(u: User): seq<Byte> {
    match u case Vga => Ascii("vga") case Serial => Ascii("serial")
  }

  predicate IsEnter(u: User, c: Byte) {
    c == NEWLINE || (u == Serial && c == RETURN)
  }

  predicate IsErase(u: User, c: Byte) {
    c == BACKSPACE || (u == Serial && c == DELETE)
  }

  /** One byte inside a line: erase, ignore, or append while there is room. */
  function Edit(u: User, line: seq<Byte>, c: Byte): seq<Byte> {
    if IsErase(u, c) then (if line == [] then [] else line[..|line| - 1])
    else if c < 32 || |line| >= LINE_MAX then line
    else line + [c]
  }

  /** The line left by a piece of the stream that contains no Enter. */
  function EditAll(u: User, piece: seq<Byte>): (line: seq<Byte>)
    ensures |line| <= LINE_MAX && NUL !in line
  {
    if piece == [] then [] else Edit(u, EditAll(u, piece[..|piece| - 1]), piece[|piece| - 1])
  }

  /** The index of the first Enter, or the length of the stream. */
  function FirstEnter(u: User, stream: seq<Byte>): (k: nat)
    ensures k <= |stream|
    ensures k < |stream| ==> IsEnter(u, stream[k])
    ensures forall i | 0 <= i < k :: !IsEnter(u, stream[i])
  {
    if stream == [] || IsEnter(u, stream[0]) then 0 else 1 + FirstEnter(u, stream[1..])
  }

  /** The stream cut at its Enters: the pieces before each of them ... */
  function Pieces(u: User, stream: seq<Byte>): seq<seq<Byte>>
    decreases |stream|
  {
    var k := FirstEnter(u, stream);
    if k == |stream| then [] else [stream[..k]] + Pieces(u, stream[k + 1..])
  }

  /** ... and what follows the last one. */
  function Rest(u: User, stream: seq<Byte>): seq<Byte>
    decreases |stream|
  {
    var k := FirstEnter(u, stream);
    if k == |stream| then stream else Rest(u, stream[k + 1..])
  }

  /** The line each completed piece leaves. */
  function Lines(u: User, stream: seq<Byte>): (lines: seq<seq<Byte>>)
    ensures |lines| == |Pieces(u, stream)|
  {
    var pieces := Pieces(u, stream);
    seq(|pieces|, i requires 0 <= i < |pieces| => EditAll(u, pieces[i]))
  }

  // ---- commands ----

  const DEADLOCK := Ascii("/deadlock")
  const TRANSFERIR := Ascii("/transferir")
  const HELP := Ascii("/help")

  predicate IsCommand(line: seq<Byte>) {
    line == DEADLOCK || line == TRANSFERIR || line == HELP
  }

  /** The lines that are messages: neither empty nor exactly a command. */
  function Spoken(lines: seq<seq<Byte>>): seq<seq<Byte>> {
    if lines == [] then []
    else
      var before, last := Spoken(lines[..|lines| - 1]), lines[|lines| - 1];
      if last == [] || IsCommand(last) then before else before + [last]
  }

  /** The messages a user's stream submits. */
  function Messages(u: User, stream: seq<Byte>): seq<seq<Byte>> {
    Spoken(Lines(u, stream))
  }

  // ---- how the reference splits a stream that grows by one byte ----

  lemma SplitAt(u: User, stream: seq<Byte>, k: nat)
    requires k <= |stream|
    requires k < |stream| ==> IsEnter(u, stream[k])
    requires forall i | 0 <= i < k :: !IsEnter(u, stream[i])
    ensures k == |stream| ==> Pieces(u, stream) == [] && Rest(u, stream) == stream
    ensures k < |stream| ==>
              && Pieces(u, stream) == [stream[..k]] + Pieces(u, stream[k + 1..])
              && Rest(u, stream) == Rest(u, stream[k + 1..])
  {
    hide IsEnter;
    FirstEnterIs(u, stream, k);
    hide FirstEnter;
  }

  lemma FirstEnterIs(u: User, stream: seq<Byte>, k: nat)
    requires k <= |stream|
    requires k < |stream| ==> IsEnter(u, stream[k])
    requires forall i | 0 <= i < k :: !IsEnter(u, stream[i])
    ensures FirstEnter(u, stream) == k
  {
    hide IsEnter;
  }

  lemma {:induction false} SplitGrows(u: User, stream: seq<Byte>, c: Byte)
    ensures Pieces(u, stream + [c])
            == if IsEnter(u, c) then Pieces(u, stream) + [Rest(u, stream)] else Pieces(u, stream)
    ensures Rest(u, stream + [c]) == if IsEnter(u, c) then [] else Rest(u, stream) + [c]
    decreases |stream|
  {
    hide Pieces, Rest, IsEnter;
    var longer := stream + [c];
    var k := FirstEnter(u, stream);
    SplitAt(u, stream, k);
    if k < |stream| {
      SplitAt(u, longer, k);
      assert longer[..k] == stream[..k];
      assert longer[k + 1..] == stream[k + 1..] + [c];
      SplitGrows(u, stream[k + 1..], c);
    } else if IsEnter(u, c) {
      SplitAt(u, longer, k);
      SplitAt(u, [], 0);
      assert longer[..k] == stream && longer[k + 1..] == [];
    } else {
      SplitAt(u, longer, k + 1);
    }
  }

  /** A byte that is no Enter extends the open line; an Enter completes it. */
  lemma LinesGrow(u: User, stream: seq<Byte>, c: Byte)
    ensures IsEnter(u, c) ==>
              && Lines(u, stream + [c]) == Lines(u, stream) + [EditAll(u, Rest(u, stream))]
              && EditAll(u, Rest(u, stream + [c])) == []
    ensures !IsEnter(u, c) ==>
              && Lines(u, stream + [c]) == Lines(u, stream)
              && EditAll(u, Rest(u, stream + [c])) == Edit(u, EditAll(u, Rest(u, stream)), c)
  {
    SplitGrows(u, stream, c);
    if IsEnter(u, c) {
      assert Lines(u, stream + [c]) == Lines(u, stream) + [EditAll(u, Rest(u, stream))];
    } else {
      var rest := Rest(u, stream);
      assert (rest + [c])[..|rest|] == rest;
      assert Lines(u, stream + [c]) == Lines(u, stream);
    }
  }

  lemma SpokenGrows(lines: seq<seq<Byte>>, line: seq<Byte>)
    ensures Spoken(lines + [line])
            == if line == [] || IsCommand(line) then Spoken(lines) else Spoken(lines) + [line]
  {
    assert (lines + [line])[..|lines|] == lines;
  }

  /** The Enters of a stream, in order. */
  function Enters(u: User, stream: seq<Byte>): (enters: seq<Byte>)
    ensures forall c | c in enters :: IsEnter(u, c)
  {
    if stream == [] then []
    else (if IsEnter(u, stream[0]) then [stream[0]] else []) + Enters(u, stream[1..])
  }

  /** Pieces, each followed by its Enter, and then the rest. */
  function Glued(pieces: seq<seq<Byte>>, enters: seq<Byte>, rest: seq<Byte>): seq<Byte> {
    if pieces == [] || enters == [] then rest
    else pieces[0] + [enters[0]] + Glued(pieces[1..], enters[1..], rest)
  }

  lemma {:induction false} EntersAt(u: User, stream: seq<Byte>, k: nat)
    requires k <= |stream|
    requires forall i | 0 <= i < k :: !IsEnter(u, stream[i])
    ensures Enters(u, stream) == Enters(u, stream[k..])
  {
    if k == 0 {
      assert stream[0..] == stream;
    } else {
      EntersAt(u, stream[1..], k - 1);
      assert stream[1..][k - 1..] == stream[k..];
    }
  }

  /** The reference really cuts the stream: gluing pieces, Enters and rest gives it back. */
  lemma {:induction false} SplitIsFaithful(u: User, stream: seq<Byte>)
    ensures |Enters(u, stream)| == |Pieces(u, stream)|
    ensures Glued(Pieces(u, stream), Enters(u, stream), Rest(u, stream)) == stream
    decreases |stream|
  {
    hide Pieces, Rest, IsEnter;
    var k := FirstEnter(u, stream);
    SplitAt(u, stream, k);
    EntersAt(u, stream, k);
    if k < |stream| {
      var tail := stream[k + 1..];
      SplitIsFaithful(u, tail);
      assert stream[k..][0] == stream[k] && stream[k..][1..] == tail;
      assert Enters(u, stream) == [stream[k]] + Enters(u, tail);
      GluedStep(stream[..k], stream[k], Pieces(u, tail), Enters(u, tail), Rest(u, tail));
      assert stream == stream[..k] + [stream[k]] + tail;
    }
  }

  lemma GluedStep(piece: seq<Byte>, c: Byte, pieces: seq<seq<Byte>>, enters: seq<Byte>, rest: seq<Byte>)
    ensures Glued([piece] + pieces, [c] + enters, rest) == piece + [c] + Glued(pieces, enters, rest)
  {
    assert ([piece] + pieces)[1..] == pieces && ([c] + enters)[1..] == enters;
  }

  /** ... and neither a piece nor the rest contains an Enter. */
  lemma {:induction false} NoEnterInside(u: User, stream: seq<Byte>)
    ensures forall p, c | p in Pieces(u, stream) && c in p :: !IsEnter(u, c)
    ensures forall c | c in Rest(u, stream) :: !IsEnter(u, c)
    decreases |stream|
  {
    hide Pieces, Rest, IsEnter;
    var k := FirstEnter(u, stream);
    SplitAt(u, stream, k);
    if k < |stream| {
      NoEnterInside(u, stream[k + 1..]);
    }
  }
}
