/** The 32-bit words of the page bitmap and the unsigned 32-bit arithmetic of the kernel.
    The bit operators are wrapped in functions so that proofs about pages can hide them
    and use the laws below instead. */
module Words {

  const WORD_LIMIT := 0x1_0000_0000

  /** An unsigned 32-bit integer. */
  type Word = x: int | 0 <= x < WORD_LIMIT

  /** Unsigned 32-bit arithmetic wraps around. */
  function Wrap(x: int): Word {
    x % WORD_LIMIT
  }

  function Mask(b: nat): bv32
    requires b < 32
  {
    (1 as bv32) << b
  }

  function Pick(w: bv32, m: bv32): bv32 { w & m }

  function Or(w: bv32, m: bv32): bv32 { w | m }

  function AndNot(w: bv32, m: bv32): bv32 { w & !m }

  /** Non-zero exactly when bit `b` of `w` is one. */
  function Bit(w: bv32, b: nat): bv32
    requires b < 32
  {
    Pick(w, Mask(b))
  }

  // ---- laws of single masks ----

  lemma OneBit(b: nat)
    requires b < 32
    ensures var m := Mask(b); m != 0 && m & (m - 1) == 0
  {}

  lemma Disjoint(i: nat, j: nat)
    requires i < 32 && j < 32 && i != j
    ensures Pick(Mask(i), Mask(j)) == 0
  {}

  lemma OrSame(w: bv32, m: bv32)
    requires m != 0
    ensures Pick(Or(w, m), m) != 0
  {}

  lemma OrOther(w: bv32, m: bv32, n: bv32)
    requires Pick(m, n) == 0
    ensures Pick(Or(w, m), n) == Pick(w, n)
  {}

  lemma AndNotSame(w: bv32, m: bv32)
    ensures Pick(AndNot(w, m), m) == 0
  {}

  lemma AndNotOther(w: bv32, m: bv32, n: bv32)
    requires Pick(m, n) == 0
    ensures Pick(AndNot(w, m), n) == Pick(w, n)
  {}

  lemma OrThenAndNot(w: bv32, m: bv32)
    requires Pick(w, m) == 0
    ensures AndNot(Or(w, m), m) == w
  {}

  lemma AndNotThenOr(w: bv32, m: bv32)
    requires Pick(w, m) == m
    ensures Or(AndNot(w, m), m) == w
  {}

  lemma Whole(w: bv32, m: bv32)
    requires m & (m - 1) == 0 && Pick(w, m) != 0
    ensures Pick(w, m) == m
  {}

  lemma Join(w: bv32, l: bv32, m: bv32)
    requires Pick(w, l) == l && Pick(w, m) == m
    ensures Pick(w, Or(l, m)) == Or(l, m)
  {}

  lemma PickNone(w: bv32)
    ensures Pick(w, 0) == 0
  {}

  lemma PickAll(w: bv32)
    ensures Pick(w, 0xFFFF_FFFF) == w && Pick(0xFFFF_FFFF, w) == w
  {}

  // ---- laws of single bits ----

  lemma SetBit(w: bv32, i: nat, j: nat)
    requires i < 32 && j < 32
    ensures i == j ==> Bit(Or(w, Mask(i)), j) != 0
    ensures i != j ==> Bit(Or(w, Mask(i)), j) == Bit(w, j)
  {
    hide Mask, Pick, Or, AndNot;
    OneBit(i);
    if i != j {
      Disjoint(i, j);
      OrOther(w, Mask(i), Mask(j));
    } else {
      OrSame(w, Mask(i));
    }
  }

  lemma ClearBit(w: bv32, i: nat, j: nat)
    requires i < 32 && j < 32
    ensures i == j ==> Bit(AndNot(w, Mask(i)), j) == 0
    ensures i != j ==> Bit(AndNot(w, Mask(i)), j) == Bit(w, j)
  {
    hide Mask, Pick, Or, AndNot;
    if i != j {
      Disjoint(i, j);
      AndNotOther(w, Mask(i), Mask(j));
    } else {
      AndNotSame(w, Mask(i));
    }
  }

  lemma SetThenClear(w: bv32, i: nat)
    requires i < 32 && Bit(w, i) == 0
    ensures AndNot(Or(w, Mask(i)), Mask(i)) == w
  {
    hide Mask, Pick, Or, AndNot;
    OrThenAndNot(w, Mask(i));
  }

  lemma ClearThenSet(w: bv32, i: nat)
    requires i < 32 && Bit(w, i) != 0
    ensures Or(AndNot(w, Mask(i)), Mask(i)) == w
  {
    hide Mask, Pick, Or, AndNot;
    OneBit(i);
    Whole(w, Mask(i));
    AndNotThenOr(w, Mask(i));
  }

  lemma FullBit(b: nat)
    requires b < 32
    ensures Bit(0xFFFF_FFFF, b) != 0
  {
    hide Mask, Pick, Or, AndNot;
    OneBit(b);
    PickAll(Mask(b));
  }

  // ---- a word with all 32 bits set is 0xFFFFFFFF ----

  /** The word whose lowest `b` bits are one. */
  function Low(b: nat): bv32
    requires b <= 32
  {
    if b == 0 then 0 else Or(Low(b - 1), Mask(b - 1))
  }

  lemma {:induction false} LowBits(w: bv32, b: nat)
    requires b <= 32
    requires forall i: nat :: i < b ==> Bit(w, i) != 0
    ensures Pick(w, Low(b)) == Low(b)
  {
    hide Mask, Pick, Or, AndNot;
    if b == 0 {
      PickNone(w);
    } else {
      LowBits(w, b - 1);
      assert Bit(w, b - 1) != 0;
      OneBit(b - 1);
      Whole(w, Mask(b - 1));
      Join(w, Low(b - 1), Mask(b - 1));
    }
  }

  /** Twice a one-bit mask, less one, adds that bit to the bits below it. */
  lemma OneBitFills(m: bv32)
    requires m != 0 && m & (m - 1) == 0
    ensures Or(m - 1, m) == (m << 1) - 1
  {}

  lemma MaskDoubles(b: nat)
    requires b < 31
    ensures Mask(b + 1) == Mask(b) << 1
  {}

  lemma {:induction false} LowIsMaskLessOne(b: nat)
    requires b < 32
    ensures Low(b) == Mask(b) - 1
  {
    if b > 0 {
      LowIsMaskLessOne(b - 1);
      OneBit(b - 1);
      hide Mask;
      OneBitFills(Mask(b - 1));
      MaskDoubles(b - 1);
    }
  }

  lemma LowIsFull()
    ensures Low(32) == 0xFFFF_FFFF
  {
    LowIsMaskLessOne(31);
    assert Mask(31) == 0x8000_0000;
  }

  /** The whole-word test of the allocator is exact: a word is 0xFFFFFFFF if and only if
      every one of its 32 bits is one, so a scan of any other word finds a zero bit. */
  lemma FullWord(w: bv32)
    ensures w == 0xFFFF_FFFF <==> forall b: nat :: b < 32 ==> Bit(w, b) != 0
  {
    hide Mask, Pick, Or, AndNot;
    if w == 0xFFFF_FFFF {
      forall b: nat | b < 32
        ensures Bit(w, b) != 0
      {
        FullBit(b);
      }
    }
    if forall b: nat :: b < 32 ==> Bit(w, b) != 0 {
      LowBits(w, 32);
      LowIsFull();
      PickAll(w);
    }
  }

  // ---- which bit is which ----

  function Half(w: bv32): bv32 { w >> 1 }

  function Twice(w: bv32): bv32 { w << 1 }

  /** The `b`-th binary digit, counted from the lowest. */
  function Digit(w: bv32, b: nat): bv32 {
    if b == 0 then Pick(w, 1) else Digit(Half(w), b - 1)
  }

  lemma HalfPick(w: bv32, m: bv32)
    requires Half(Twice(m)) == m
    ensures Pick(w, Twice(m)) != 0 <==> Pick(Half(w), m) != 0
  {}

  lemma MaskHalves(b: nat)
    requires b < 31
    ensures Half(Twice(Mask(b))) == Mask(b)
  {}

  lemma MaskIsTwice(b: nat)
    requires b < 31
    ensures Mask(b + 1) == Twice(Mask(b))
  {
    hide Mask;
    MaskDoubles(b);
  }

  lemma LowestMask()
    ensures Mask(0) == 1
  {}

  /** Bit `b` of a word is its `b`-th binary digit. */
  lemma {:induction false} BitIsDigit(w: bv32, b: nat)
    requires b < 32
    ensures Bit(w, b) != 0 <==> Digit(w, b) != 0
    decreases b
  {
    hide Mask, Pick, Half, Twice;
    if b == 0 {
      LowestMask();
    } else {
      MaskIsTwice(b - 1);
      MaskHalves(b - 1);
      HalfPick(w, Mask(b - 1));
      BitIsDigit(Half(w), b - 1);
    }
  }
}
