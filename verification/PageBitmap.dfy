/** The page bitmap as a value: which of the 2^20 page frames are free, and what setting
    and clearing one bit does to them. */
module PageBitmap {
  import opened Words

  const PAGE_SIZE := 4096
  const BITMAP_WORDS := 32768
  const PAGES := 1048576

  predicate IsBitmap(s: seq<bv32>) {
    |s| == BITMAP_WORDS
  }

  predicate Used(s: seq<bv32>, p: nat)
    requires IsBitmap(s) && p < PAGES
  {
    Bit(s[p / 32], p % 32) != 0
  }

  function Marked(s: seq<bv32>, p: nat): (t: seq<bv32>)
    requires IsBitmap(s) && p < PAGES
    ensures IsBitmap(t)
  {
    s[p / 32 := Or(s[p / 32], Mask(p % 32))]
  }

  function Cleared(s: seq<bv32>, p: nat): (t: seq<bv32>)
    requires IsBitmap(s) && p < PAGES
    ensures IsBitmap(t)
  {
    s[p / 32 := AndNot(s[p / 32], Mask(p % 32))]
  }

  /** The set of free page frames. */
  ghost function FreePages(s: seq<bv32>): set<nat>
    requires IsBitmap(s)
  {
    set p: nat | p < PAGES && !Used(s, p)
  }

  lemma UsedAfterMark(s: seq<bv32>, p: nat, q: nat)
    requires IsBitmap(s) && p < PAGES && q < PAGES
    ensures Used(Marked(s, p), q) <==> p == q || Used(s, q)
  {
    hide Mask, Pick, Or, AndNot, Bit;
    if p / 32 == q / 32 {
      SetBit(s[p / 32], p % 32, q % 32);
    }
  }

  lemma UsedAfterClear(s: seq<bv32>, p: nat, q: nat)
    requires IsBitmap(s) && p < PAGES && q < PAGES
    ensures Used(Cleared(s, p), q) <==> p != q && Used(s, q)
  {
    hide Mask, Pick, Or, AndNot, Bit;
    if p / 32 == q / 32 {
      ClearBit(s[p / 32], p % 32, q % 32);
    }
  }

  /** Setting a bit takes exactly that page out of the free set. */
  lemma FreeAfterMark(s: seq<bv32>, p: nat)
    requires IsBitmap(s) && p < PAGES
    ensures FreePages(Marked(s, p)) == FreePages(s) - {p}
  {
    hide Mask, Pick, Or, AndNot, Bit;
    forall q: nat | q < PAGES
      ensures Used(Marked(s, p), q) <==> p == q || Used(s, q)
    {
      UsedAfterMark(s, p, q);
    }
  }

  /** Clearing a bit puts exactly that page into the free set. */
  lemma FreeAfterClear(s: seq<bv32>, p: nat)
    requires IsBitmap(s) && p < PAGES
    ensures FreePages(Cleared(s, p)) == FreePages(s) + {p}
  {
    hide Mask, Pick, Or, AndNot, Bit;
    forall q: nat | q < PAGES
      ensures Used(Cleared(s, p), q) <==> p != q && Used(s, q)
    {
      UsedAfterClear(s, p, q);
    }
  }

  /** Clearing undoes setting, bit for bit, on a page that was free; and the reverse on a used one. */
  lemma MarkAndClearUndo(s: seq<bv32>, p: nat)
    requires IsBitmap(s) && p < PAGES
    ensures !Used(s, p) ==> Cleared(Marked(s, p), p) == s
    ensures Used(s, p) ==> Marked(Cleared(s, p), p) == s
  {
    hide Mask, Pick, Or, AndNot, Bit;
    if !Used(s, p) {
      SetThenClear(s[p / 32], p % 32);
    } else {
      ClearThenSet(s[p / 32], p % 32);
    }
  }

  /** A bitmap of all-ones words has no free page. */
  lemma NothingFree(s: seq<bv32>)
    requires IsBitmap(s)
    requires forall i | 0 <= i < BITMAP_WORDS :: s[i] == 0xFFFF_FFFF
    ensures FreePages(s) == {}
  {
    hide Mask, Pick, Or, AndNot, Bit;
    forall p: nat | p < PAGES
      ensures Used(s, p)
    {
      FullBit(p % 32);
    }
  }

  /** The reference search: the first free page at or after `p`, bit by bit, or PAGES. */
  ghost function Scan(s: seq<bv32>, p: nat): (r: nat)
    requires IsBitmap(s) && p <= PAGES
    ensures p <= r <= PAGES
    ensures forall q: nat :: p <= q < r ==> Used(s, q)
    ensures r < PAGES ==> !Used(s, r)
    decreases PAGES - p
  {
    if p == PAGES || !Used(s, p) then p else Scan(s, p + 1)
  }

  /** Scanning from page 0 yields the least free page, and PAGES exactly when none is free. */
  lemma ScanIsLeast(s: seq<bv32>)
    requires IsBitmap(s)
    ensures Scan(s, 0) == PAGES <==> FreePages(s) == {}
    ensures Scan(s, 0) < PAGES ==>
              Scan(s, 0) in FreePages(s) && forall q | q in FreePages(s) :: Scan(s, 0) <= q
  {
    hide Mask, Pick, Or, AndNot, Bit;
    if Scan(s, 0) < PAGES {
      assert Scan(s, 0) in FreePages(s);
    }
  }

  /** The layout in memory: page `p` is used exactly when binary digit `p % 32`, from the lowest, of
      word `p / 32` is one. */
  lemma BitLayout(s: seq<bv32>, p: nat)
    requires IsBitmap(s) && p < PAGES
    ensures Used(s, p) <==> Digit(s[p / 32], p % 32) != 0
  {
    hide Bit, Digit;
    BitIsDigit(s[p / 32], p % 32);
  }
}
