/** The keyboard interrupt handler: scan codes (set 1) to bytes. */
module Keyboard {
  import opened Bytes
  import opened KeyRing

  /** Eight entries of the translation table, for make codes 8 * r to 8 * r + 7; the rows for
      codes from 0x40 on are all zero. */
  function Keys(r: nat): (row: string)
    ensures |row| == 8
  {
    match r
    case 0 => "\0\0123456"
    case 1 => "7890-=\0\0"
    case 2 => "qwertyui"
    case 3 => "op[]\n\0as"
    case 4 => "dfghjkl;"
    case 5 => "'`\0\\zxcv"
    case 6 => "bnm,./\0*"
    case 7 => "\0 \0\0\0\0\0\0"
    case _ => "\0\0\0\0\0\0\0\0"
  }

  /** The byte of each make code; 0 where no key is mapped. */
  function ScancodeToAscii(code: Byte): Byte
    requires code < 0x80
  {
    Keys(code / 8)[code % 8] as int % 256
  }

  const BACKSPACE_CODE: Byte := 0x0E

  /** The byte a scan code stands for, if any: break codes and unmapped keys give none. */
  function Key(code: Byte): seq<Byte> {
    if code >= 0x80 then []
    else if code == BACKSPACE_CODE then [BACKSPACE]
    else if ScancodeToAscii(code) != 0 then [ScancodeToAscii(code)]
    else []
  }

  function Translate(codes: seq<Byte>): seq<Byte> {
    if codes == [] then []
    else Translate(codes[..|codes| - 1]) + Key(codes[|codes| - 1])
  }

  /** How scan codes are split into bursts does not change what they stand for. */
  lemma {:induction false} TranslateConcat(a: seq<Byte>, b: seq<Byte>)
    ensures Translate(a + b) == Translate(a) + Translate(b)
    decreases |b|
  {
    hide Key;
    if b == [] {
      assert a + b == a;
    } else {
      var init := b[..|b| - 1];
      TranslateConcat(a, init);
      assert (a + b)[..|a + b| - 1] == a + init;
    }
  }

  /** A byte the keyboard can produce: backspace, newline or a printable ASCII character. */
  predicate Typable(b: Byte) {
    b == BACKSPACE || b == NEWLINE || 32 <= b < 127
  }

  lemma RowTypable(r: nat, i: nat)
    requires i < 8
    ensures Keys(r)[i] as int == 0 || (Keys(r)[i] as int < 256 && Typable(Keys(r)[i] as int))
  {}

  lemma KeyTypable(code: Byte)
    ensures forall b | b in Key(code) :: Typable(b)
  {
    hide Keys;
    if code < 0x80 {
      RowTypable(code / 8, code % 8);
    }
  }

  lemma {:induction false} TranslateTypable(codes: seq<Byte>)
    ensures forall b | b in Translate(codes) :: Typable(b)
  {
    if codes != [] {
      TranslateTypable(codes[..|codes| - 1]);
      KeyTypable(codes[|codes| - 1]);
    }
  }

  lemma AcceptAllConcat(q: seq<Byte>, a: seq<Byte>, b: seq<Byte>)
    requires |b| <= 1
    ensures AcceptAll(q, a + b) == if b == [] then AcceptAll(q, a) else Accept(AcceptAll(q, a), b[0])
  {
    if b == [] {
      assert a + b == a;
    } else {
      assert (a + b)[..|a + b| - 1] == a;
    }
  }

  lemma TranslateNone(codes: seq<Byte>, q: seq<Byte>)
    ensures AcceptAll(q, Translate(codes[..0])) == q
  {}

  /** What one more code adds to a queue that has taken the codes before it. */
  lemma KeyAccepted(codes: seq<Byte>, n: nat, q: seq<Byte>)
    requires n < |codes|
    ensures var before := AcceptAll(q, Translate(codes[..n]));
            AcceptAll(q, Translate(codes[..n + 1])) ==
            if Key(codes[n]) == [] then before else Accept(before, Key(codes[n])[0])
  {
    hide Key, AcceptAll;
    KeyIsOne(codes[n]);
    assert codes[..n + 1][..n] == codes[..n];
    AcceptAllConcat(q, Translate(codes[..n]), Key(codes[n]));
  }

  lemma KeyIsOne(code: Byte)
    ensures |Key(code)| <= 1
  {}

  /** The output buffer of the keyboard controller. */
  class Controller {
    var buffer: seq<Byte>

    method OutputReady() returns (ready: bool)
      ensures ready <==> buffer != []
    {
      ready := buffer != [];
    }

    method ReadScanCode() returns (code: Byte)
      requires buffer != []
      modifies this
      ensures code == old(buffer)[0] && buffer == old(buffer)[1..]
    {
      code := buffer[0];
      buffer := buffer[1..];
    }
  }

  /** One interrupt drains the controller and queues the translated bytes, in order, as far
      as the ring has room. */
  method KeyboardHandler(controller: Controller, ring: Ring)
    requires ring.Valid() && controller as object != ring
    modifies controller, ring, ring.slots
    ensures ring.Valid() && controller.buffer == []
    ensures var waiting := old(ring.State().Pending());
            |waiting| <= CAPACITY
            && ring.State().Pending()
               == waiting + Prefix(Translate(old(controller.buffer)), CAPACITY - |waiting|)
    ensures forall b | b in Translate(old(controller.buffer)) :: Typable(b)
  {
    hide ScancodeToAscii, Translate, AcceptAll, Typable, RingState.Pending, RingState.Offer, Ring.State;
    TranslateNone(controller.buffer, ring.State().Pending());
    ghost var codes := controller.buffer;
    ghost var n := 0;
    ghost var waiting := ring.State().Pending();
    var ready := controller.OutputReady();
    while ready
      invariant ring.Valid()
      invariant n <= |codes| && controller.buffer == codes[n..]
      invariant ready <==> controller.buffer != []
      invariant ring.State().Pending() == AcceptAll(waiting, Translate(codes[..n]))
      decreases |controller.buffer|
    {
      var scanCode := controller.ReadScanCode();
      KeyAccepted(codes, n, waiting);
      n := n + 1;
      ready := controller.OutputReady();
      if scanCode >= 0x80 {
        continue;
      }
      if scanCode == BACKSPACE_CODE {
        ring.Enqueue(BACKSPACE);
        continue;
      }
      var ascii := ScancodeToAscii(scanCode);
      if ascii != 0 {
        ring.Enqueue(ascii);
      }
    }
    assert codes[..n] == codes;
    AcceptAllIsPrefix(waiting, Translate(codes));
    TranslateTypable(codes);
  }
}
