/**
 The 32-bit slot bitmap: bit i is set while slot i is free (include/bitmap.hpp). Words are bit vectors;
 Has gives them their meaning as sets of free slots.
 */
module SlotBitmap {
  type Word = bv32

  const SLOTS: nat := 32

  /** All slots free: std::numeric_limits<BitmapTy>::max(). */
  const ALL_FREE: Word := 0xFFFF_FFFF

  function And(a: Word, b: Word): Word { a & b }

  /** origin & ~m. */
  function Clear(a: Word, m: Word): Word { a & !m }

  /** origin | m. */
  function Set(a: Word, m: Word): Word { a | m }

  function Double(a: Word): Word { a << 1 }

  function Half(a: Word): (r: Word)
    ensures a != 0 ==> r < a
  {
    a >> 1
  }

  predicate Odd(a: Word) { a & 1 != 0 }

  /** origin & -origin. */
  function LowBit(w: Word): Word { w & (0 - w) }

  /** static_cast<BitmapTy>(1) << i. */
  function Mask(i: nat): Word {
    if i == 0 then 1 else Double(Mask(i - 1))
  }

  /** Slot i is free. */
  predicate Has(w: Word, i: nat) {
    And(w, Mask(i)) != 0
  }

  /** __builtin_ffs(w) - 1: the index of the lowest set bit, -1 for 0. */
  function Ffs(w: Word): int
    decreases w
  {
    if w == 0 then -1 else if Odd(w) || Half(w) == 0 then 0 else 1 + Ffs(Half(w))
  }

  // ---------- facts about single words ----------

  lemma AndDouble(a: Word, b: Word)
    ensures Double(And(a, b)) == And(Double(a), Double(b))
    ensures And(1, Double(a)) == 0
    ensures And(a, b) == And(b, a)
  {
  }

  lemma DoubleNonzero(a: Word)
    requires a != 0 && And(a, 0x8000_0000) == 0
    ensures Double(a) != 0
  {
  }

  lemma DisjointBits(w: Word, m: Word, n: Word)
    requires m & n == 0
    ensures (w & !m) & n == w & n && (w | m) & n == w & n
  {
  }

  lemma UpdateOther(w: Word, m: Word, n: Word)
    requires And(m, n) == 0
    ensures And(Clear(w, m), n) == And(w, n) && And(Set(w, m), n) == And(w, n)
  {
    DisjointBits(w, m, n);
  }

  lemma UpdateSame(w: Word, m: Word)
    ensures And(Clear(w, m), m) == 0 && And(Set(w, m), m) == m
  {
  }

  lemma Restore(w: Word, m: Word)
    requires And(w, m) == m
    ensures Set(Clear(w, m), m) == w
  {
  }

  lemma LowBitOdd(w: Word)
    requires Odd(w)
    ensures LowBit(w) == 1 && And(w, 1) != 0
  {
  }

  lemma EvenWord(w: Word)
    requires w & 1 == 0
    ensures (w >> 1) << 1 == w && (w != 0 ==> w >> 1 != 0)
  {
  }

  lemma EvenLowBit(w: Word)
    requires w & 1 == 0
    ensures LowBit(w) == LowBit(w >> 1) << 1
  {
  }

  lemma LowBitEven(w: Word)
    requires !Odd(w)
    ensures Double(Half(w)) == w
    ensures LowBit(w) == Double(LowBit(Half(w)))
    ensures w != 0 ==> Half(w) != 0
    ensures And(w, 1) == 0
  {
    hide LowBit;
    EvenWord(w);
    EvenLowBit(w);
  }

  lemma LowBitIn(w: Word)
    ensures And(w, LowBit(w)) == LowBit(w)
    ensures w != 0 ==> LowBit(w) != 0
  {
  }

  lemma AndZero(m: Word)
    ensures And(0, m) == 0 && And(m, 0) == 0 && Double(0) == 0 && And(m, m) == m && And(ALL_FREE, m) == m
  {
  }

  // ---------- masks ----------

  lemma {:induction false} MasksApart(i: nat, j: nat)
    requires i != j
    ensures And(Mask(i), Mask(j)) == 0
  {
    hide And, Double;
    AndDouble(Mask(i), Mask(j));
    if i == 0 {
      AndDouble(Mask(j - 1), 1);
    } else if j == 0 {
      AndDouble(Mask(i - 1), 1);
    } else {
      MasksApart(i - 1, j - 1);
      AndDouble(Mask(i - 1), Mask(j - 1));
      AndZero(0);
    }
  }

  lemma TopMask()
    ensures Mask(31) == 0x8000_0000
  {
    assert Mask(8) == 0x100;
    assert Mask(16) == 0x1_0000;
    assert Mask(24) == 0x100_0000;
  }

  lemma {:induction false} MaskNonzero(i: nat)
    requires i < SLOTS
    ensures Mask(i) != 0
  {
    TopMask();
    hide And, Double;
    if i > 0 {
      MaskNonzero(i - 1);
      MasksApart(i - 1, 31);
      DoubleNonzero(Mask(i - 1));
    }
  }

  lemma {:induction false} MaskZero(i: nat)
    requires i >= SLOTS
    ensures Mask(i) == 0
  {
    TopMask();
    if i > SLOTS { MaskZero(i - 1); }
  }

  // ---------- updates seen as set operations ----------

  /** Clearing bit i removes exactly slot i. */
  lemma ClearBit(w: Word, i: nat, j: nat)
    requires i < SLOTS && j < SLOTS
    ensures Has(Clear(w, Mask(i)), j) <==> Has(w, j) && j != i
  {
    hide Mask, And, Clear, Set;
    if j == i {
      UpdateSame(w, Mask(i));
    } else {
      MasksApart(i, j);
      UpdateOther(w, Mask(i), Mask(j));
    }
  }

  /** Setting bit i adds exactly slot i. */
  lemma SetBit(w: Word, i: nat, j: nat)
    requires i < SLOTS && j < SLOTS
    ensures Has(Set(w, Mask(i)), j) <==> Has(w, j) || j == i
  {
    hide Mask, And, Clear, Set;
    if j == i {
      UpdateSame(w, Mask(i));
      MaskNonzero(i);
    } else {
      MasksApart(i, j);
      UpdateOther(w, Mask(i), Mask(j));
    }
  }

  /** The bit isolated from a nonzero word is the mask of its lowest set bit. */
  lemma {:induction false} LowBitIsLowest(w: Word)
    requires w != 0
    ensures 0 <= Ffs(w) < SLOTS
    ensures LowBit(w) == Mask(Ffs(w)) && Has(w, Ffs(w))
    ensures forall j: nat :: j < Ffs(w) ==> !Has(w, j)
    decreases w
  {
    hide LowBit, And, Double, Odd, Half;
    LowBitIn(w);
    if Odd(w) {
      LowBitOdd(w);
    } else {
      var u := Half(w);
      LowBitEven(w);
      LowBitIsLowest(u);
      var i := Ffs(u);
      if i + 1 >= SLOTS { MaskZero(i + 1); }
      forall j: nat | j < i + 1
        ensures !Has(w, j)
      {
        EvenSlots(w, j);
      }
    }
  }

  /** An even word has the slots of its half, one higher. */
  lemma EvenSlots(w: Word, j: nat)
    requires !Odd(w)
    ensures Has(w, j) ==> j > 0 && Has(Half(w), j - 1)
  {
    hide LowBit, And, Double, Odd, Half;
    LowBitEven(w);
    if j > 0 {
      AndDouble(Half(w), Mask(j - 1));
      AndZero(0);
    }
  }

  lemma FfsOfLowBit(w: Word)
    requires w != 0
    ensures Ffs(LowBit(w)) == Ffs(w)
  {
    hide Ffs, Mask, LowBit, And;
    LowBitIsLowest(w);
    LowBitIn(w);
    LowBitIsLowest(LowBit(w));
    MaybeApart(Ffs(w), Ffs(LowBit(w)));
  }

  lemma MaybeApart(i: nat, j: nat)
    ensures i != j ==> And(Mask(i), Mask(j)) == 0
  {
    if i != j { MasksApart(i, j); }
  }

  /** A word is zero exactly when every slot is taken. */
  lemma ZeroIffFull(w: Word)
    ensures w == 0 <==> forall i: nat :: i < SLOTS ==> !Has(w, i)
  {
    hide Ffs, Mask, LowBit, And;
    if w != 0 {
      LowBitIsLowest(w);
    } else {
      forall i: nat | i < SLOTS ensures !Has(w, i) { AndZero(Mask(i)); }
    }
  }

  lemma AllFree(i: nat)
    requires i < SLOTS
    ensures Has(ALL_FREE, i)
  {
    hide Mask, And;
    MaskNonzero(i);
    AndZero(Mask(i));
  }

  // ---------- one undisturbed call ----------

  /** The word after allocBit when no other thread interferes. */
  function AllocWord(w: Word): Word {
    if w == 0 then w else Clear(w, LowBit(w))
  }

  function AllocIndex(w: Word): int {
    if w == 0 then -1 else Ffs(LowBit(w))
  }

  function FreeWord(w: Word, i: nat): Word {
    Set(w, Mask(i))
  }

  /** Allocation returns the lowest free slot and takes exactly that slot. */
  lemma AllocTakesLowest(w: Word)
    requires w != 0
    ensures 0 <= AllocIndex(w) < SLOTS && Has(w, AllocIndex(w))
    ensures forall j: nat :: j < AllocIndex(w) ==> !Has(w, j)
    ensures forall j: nat :: j < SLOTS ==> (Has(AllocWord(w), j) <==> Has(w, j) && j != AllocIndex(w))
  {
    hide LowBit, Ffs, Mask, And, Clear;
    LowBitIsLowest(w);
    FfsOfLowBit(w);
    forall j: nat | j < SLOTS
      ensures Has(AllocWord(w), j) <==> Has(w, j) && j != AllocIndex(w)
    {
      ClearBit(w, Ffs(w), j);
    }
  }

  /** Freeing the slot just allocated restores the word. */
  lemma FreeUndoesAlloc(w: Word)
    requires w != 0
    ensures AllocIndex(w) >= 0 && FreeWord(AllocWord(w), AllocIndex(w)) == w
  {
    hide LowBit, Ffs, Mask, And, Clear, Set;
    LowBitIsLowest(w);
    FfsOfLowBit(w);
    LowBitIn(w);
    Restore(w, LowBit(w));
  }

  /** allocBit without interference: the weak compare-and-swap may still fail any number of times. */
  method AllocBit(bitmap: Word) returns (after: Word, idx: int)
    ensures after == AllocWord(bitmap) && idx == AllocIndex(bitmap)
  {
    var failures: nat := *;
    after := bitmap;
    var origin := bitmap;
    while origin != 0
      invariant origin == after == bitmap
      decreases failures
    {
      var lowbit := LowBit(origin);
      if failures == 0 {
        after := Clear(origin, lowbit);
        return after, Ffs(lowbit);
      }
      failures := failures - 1;
      origin := after;
    }
    idx := -1;
  }

  /** freeBit without interference. */
  method FreeBit(bitmap: Word, idx: nat) returns (after: Word)
    ensures after == FreeWord(bitmap, idx)
  {
    var failures: nat := *;
    var bit := Mask(idx);
    after := bitmap;
    while true
      invariant after == bitmap
      decreases failures
    {
      var origin := after;
      if failures == 0 {
        after := Set(origin, bit);
        return;
      }
      failures := failures - 1;
    }
  }
}
