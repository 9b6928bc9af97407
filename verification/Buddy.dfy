/** One block of physical memory and its bitmaps at eight orders, as
    `src/kernel/mem/alloc_page.c` marks them: a set bit is a page, or a group of buddies,
    that is taken. */
module Buddy {
  import opened Bitmap

  const ORDERS: nat := 8

  datatype Block = Block(base: nat, npages: nat, bitmap: seq<seq<bv8>>)

  /** Every order has a bit for the parent of every bit of the order below; order 0 has one
      for every page, and is made of whole words. */
  predicate Shape(b: Block) {
    && |b.bitmap| == ORDERS
    && b.npages <= 8 * |b.bitmap[0]| && |b.bitmap[0]| % 8 == 0
    && (forall j :: 0 <= j < ORDERS - 1 ==> |b.bitmap[j]| <= 2 * |b.bitmap[j + 1]|)
  }

  predicate InMap(b: Block, j: nat, i: nat) {
    j < |b.bitmap| && i < 8 * |b.bitmap[j]|
  }

  predicate Taken(b: Block, j: nat, i: nat)
    requires InMap(b, j, i)
  {
    Bit(b.bitmap[j][i / 8], i % 8)
  }

  /** `b` with one byte of one bitmap replaced. */
  function PutByte(b: Block, j: nat, i: nat, x: bv8): Block
    requires InMap(b, j, i)
  {
    b.(bitmap := b.bitmap[j := b.bitmap[j][i / 8 := x]])
  }

  function Clear(b: Block, j: nat, i: nat): Block
    requires InMap(b, j, i)
  {
    PutByte(b, j, i, Cleared(b.bitmap[j][i / 8], i % 8))
  }

  function Take(b: Block, j: nat, i: nat): Block
    requires InMap(b, j, i)
  {
    PutByte(b, j, i, Marked(b.bitmap[j][i / 8], i % 8))
  }

  /** The two blocks differ in their bits at most. */
  predicate SameMaps(b: Block, b': Block) {
    && b'.base == b.base && b'.npages == b.npages && |b'.bitmap| == |b.bitmap|
    && (forall j :: 0 <= j < |b.bitmap| ==> |b'.bitmap[j]| == |b.bitmap[j]|)
  }

  lemma ClearIs(b: Block, j: nat, i: nat)
    requires InMap(b, j, i)
    ensures SameMaps(b, Clear(b, j, i))
    ensures forall k: nat, m: nat :: InMap(b, k, m) ==>
              (Taken(Clear(b, j, i), k, m) <==> Taken(b, k, m) && !(k == j && m == i))
  {
    hide Bit, Cleared;
    forall k: nat, m: nat | InMap(b, k, m)
      ensures Taken(Clear(b, j, i), k, m) <==> Taken(b, k, m) && !(k == j && m == i)
    {
      if k == j && m / 8 == i / 8 {
        ClearedBit(b.bitmap[j][i / 8], i % 8, m % 8);
      }
    }
  }

  lemma TakeIs(b: Block, j: nat, i: nat)
    requires InMap(b, j, i)
    ensures SameMaps(b, Take(b, j, i))
    ensures forall k: nat, m: nat :: InMap(b, k, m) ==>
              (Taken(Take(b, j, i), k, m) <==> Taken(b, k, m) || (k == j && m == i))
    ensures Taken(b, j, i) ==> Take(b, j, i) == b
  {
    hide Bit, Marked;
    forall k: nat, m: nat | InMap(b, k, m)
      ensures Taken(Take(b, j, i), k, m) <==> Taken(b, k, m) || (k == j && m == i)
    {
      if k == j && m / 8 == i / 8 {
        MarkedBit(b.bitmap[j][i / 8], i % 8, m % 8);
      }
    }
    if Taken(b, j, i) {
      MarkedBit(b.bitmap[j][i / 8], i % 8, i % 8);
      assert b.bitmap[j][i / 8 := b.bitmap[j][i / 8]] == b.bitmap[j];
      assert b.bitmap[j := b.bitmap[j]] == b.bitmap;
    }
  }

  // ---- Marking ----

  predicate BuddyTest(r: Reading, b: Block, j: nat, i: nat)
    requires InMap(b, j, i)
  {
    BuddiesClear(r, b.bitmap[j][i / 8], i)
  }

  /** `mark_page_free` inside its block, from order `j` up. */
  function MarkFree(r: Reading, b: Block, i: nat, j: nat): (b': Block)
    requires Shape(b) && j <= ORDERS && (j < ORDERS ==> InMap(b, j, i))
    ensures SameMaps(b, b')
    decreases ORDERS - j
  {
    if j == ORDERS then b
    else
      var b1 := Clear(b, j, i);
      if BuddyTest(r, b1, j, i) then MarkFree(r, b1, i / 2, j + 1) else b1
  }

  /** `mark_page_used` inside its block, from order `j` up. */
  function MarkUsed(b: Block, i: nat, j: nat): (b': Block)
    requires Shape(b) && j <= ORDERS && (j < ORDERS ==> InMap(b, j, i))
    ensures SameMaps(b, b')
    decreases ORDERS - j
  {
    if j == ORDERS || Taken(b, j, i) then b else MarkUsed(Take(b, j, i), i / 2, j + 1)
  }

  predicate PairFree(b: Block, j: nat, i: nat)
    requires InMap(b, j, i)
  {
    !Taken(b, j, i / 2 * 2) && !Taken(b, j, i / 2 * 2 + 1)
  }

  lemma TestIs(r: Reading, b: Block, j: nat, i: nat)
    requires InMap(b, j, i)
    ensures BuddyTest(r, b, j, i) <==> (r == AsWritten && i % 32 >= 8) || PairFree(b, j, i)
  {
    hide Bit, BuddiesClear;
    BuddyCheck(r, b.bitmap[j][i / 8], i);
    PairInByte(i, i / 2);
  }

  lemma PairInByte(i: nat, h: nat)
    requires h == i / 2
    ensures h * 2 / 8 == i / 8 && (h * 2 + 1) / 8 == i / 8
    ensures h * 2 % 8 == i % 8 / 2 * 2 && (h * 2 + 1) % 8 == i % 8 / 2 * 2 + 1
  {
    assert h == i / 8 * 4 + i % 8 / 2;
  }

  lemma PairBound(i: nat, n: nat)
    requires i < 8 * n
    ensures i / 2 * 2 + 1 < 8 * n
  {
  }

  /** What marking a page free does to the bits. */
  lemma {:induction false} FreeEffect(r: Reading, b: Block, i: nat, j: nat)
    requires Shape(b) && j < ORDERS && InMap(b, j, i)
    ensures !Taken(MarkFree(r, b, i, j), j, i)
    ensures forall k: nat, m: nat :: InMap(b, k, m) && Taken(MarkFree(r, b, i, j), k, m) ==> Taken(b, k, m)
    ensures forall k: nat, m: nat :: InMap(b, k, m) && k <= j && !(k == j && m == i) ==>
              Taken(MarkFree(r, b, i, j), k, m) == Taken(b, k, m)
    decreases ORDERS - j
  {
    hide Taken, Clear, BuddyTest;
    ClearIs(b, j, i);
    var b1 := Clear(b, j, i);
    if BuddyTest(r, b1, j, i) && j + 1 < ORDERS {
      FreeEffect(r, b1, i / 2, j + 1);
    }
  }

  lemma {:induction false} UsedEffect(b: Block, i: nat, j: nat)
    requires Shape(b) && j < ORDERS && InMap(b, j, i)
    ensures Taken(MarkUsed(b, i, j), j, i)
    ensures forall k: nat, m: nat :: InMap(b, k, m) && Taken(b, k, m) ==> Taken(MarkUsed(b, i, j), k, m)
    ensures forall k: nat, m: nat :: InMap(b, k, m) && k <= j && !(k == j && m == i) ==>
              Taken(MarkUsed(b, i, j), k, m) == Taken(b, k, m)
    decreases ORDERS - j
  {
    hide Taken, Take;
    TakeIs(b, j, i);
    if !Taken(b, j, i) && j + 1 < ORDERS {
      UsedEffect(Take(b, j, i), i / 2, j + 1);
    }
  }

  // ---- Both buddies clear: the parent is clear ----

  /** A parent is clear when both its children are; the parent of `i` at order `j` is still to
      be seen to. */
  ghost predicate PairsUpTo(b: Block, j: nat, i: nat)
    requires Shape(b)
  {
    forall k: nat, m: nat :: k < ORDERS - 1 && InMap(b, k, m) && PairFree(b, k, m) && !(k + 1 == j && m / 2 == i) ==>
      !Taken(b, k + 1, m / 2)
  }

  /** Whenever both bits of a buddy pair are clear, their parent is. */
  ghost predicate PairsJoined(b: Block)
    requires Shape(b)
  {
    forall k: nat, m: nat :: k < ORDERS - 1 && InMap(b, k, m) && PairFree(b, k, m) ==> !Taken(b, k + 1, m / 2)
  }

  lemma ClearMovesUp(b: Block, i: nat, j: nat)
    requires Shape(b) && j < ORDERS && InMap(b, j, i) && PairsUpTo(b, j, i)
    ensures PairsUpTo(Clear(b, j, i), j + 1, i / 2)
  {
    hide Taken, Clear, PairFree;
    ClearIs(b, j, i);
    var b1 := Clear(b, j, i);
    forall k: nat, m: nat | k < ORDERS - 1 && InMap(b1, k, m) && PairFree(b1, k, m) && !(k == j && m / 2 == i / 2)
      ensures !Taken(b1, k + 1, m / 2)
    {
      PairStillFree(b, i, j, k, m);
    }
  }

  /** A pair that does not hold the cleared bit was free before. */
  lemma PairStillFree(b: Block, i: nat, j: nat, k: nat, m: nat)
    requires Shape(b) && InMap(b, j, i) && InMap(b, k, m) && PairFree(Clear(b, j, i), k, m)
             && !(k == j && m / 2 == i / 2)
    ensures PairFree(b, k, m)
  {
    hide Taken, Clear;
    ClearIs(b, j, i);
    Halves(i);
    Halves(m);
  }

  lemma PairNotFree(b: Block, i: nat, j: nat)
    requires Shape(b) && j < ORDERS && InMap(b, j, i) && PairsUpTo(b, j + 1, i / 2) && !PairFree(b, j, i)
    ensures PairsJoined(b)
  {
    hide Taken;
  }

  lemma {:induction false} FreeJoins(r: Reading, b: Block, i: nat, j: nat)
    requires Shape(b) && j <= ORDERS && (j < ORDERS ==> InMap(b, j, i)) && PairsUpTo(b, j, i)
    ensures PairsJoined(MarkFree(r, b, i, j))
    decreases ORDERS - j
  {
    hide Taken, Clear, BuddyTest, PairFree;
    if j < ORDERS {
      hide PairsUpTo, PairsJoined;
      ClearIs(b, j, i);
      ClearMovesUp(b, i, j);
      var b1 := Clear(b, j, i);
      TestIs(r, b1, j, i);
      if BuddyTest(r, b1, j, i) {
        FreeJoins(r, b1, i / 2, j + 1);
      } else {
        PairNotFree(b1, i, j);
      }
    }
  }

  /** No pair below `i` at order `j` is free. */
  ghost predicate NoPairBelow(b: Block, j: nat, i: nat) {
    0 < j < ORDERS ==> forall m: nat :: InMap(b, j - 1, m) && m / 2 == i ==> !PairFree(b, j - 1, m)
  }

  lemma TakeKeepsPairs(b: Block, i: nat, j: nat)
    requires Shape(b) && j < ORDERS && InMap(b, j, i) && PairsJoined(b) && NoPairBelow(b, j, i)
    ensures PairsJoined(Take(b, j, i))
  {
    hide Taken, Take, PairFree, NoPairBelow;
    TakeIs(b, j, i);
    var b1 := Take(b, j, i);
    forall k: nat, m: nat | k < ORDERS - 1 && InMap(b1, k, m) && PairFree(b1, k, m)
      ensures !Taken(b1, k + 1, m / 2)
    {
      PairWasFree(b, i, j, k, m);
    }
  }

  /** A pair that is free now was free before, and is not the one below the bit set. */
  lemma PairWasFree(b: Block, i: nat, j: nat, k: nat, m: nat)
    requires Shape(b) && j < ORDERS && InMap(b, j, i) && k < ORDERS - 1 && InMap(b, k, m) && NoPairBelow(b, j, i)
    requires InMap(Take(b, j, i), k, m) && PairFree(Take(b, j, i), k, m)
    ensures PairFree(b, k, m) && !(k + 1 == j && m / 2 == i)
  {
    hide Taken, Take;
    TakeIs(b, j, i);
    Halves(m);
  }

  lemma TakeBlocksPair(b: Block, i: nat, j: nat)
    requires j < ORDERS && InMap(b, j, i)
    ensures NoPairBelow(Take(b, j, i), j + 1, i / 2)
  {
    hide Taken, Take;
    TakeIs(b, j, i);
    Halves(i);
  }

  lemma {:induction false} UsedJoins(b: Block, i: nat, j: nat)
    requires Shape(b) && j <= ORDERS && (j < ORDERS ==> InMap(b, j, i)) && PairsJoined(b) && NoPairBelow(b, j, i)
    ensures PairsJoined(MarkUsed(b, i, j))
    decreases ORDERS - j
  {
    hide Taken, Take, PairFree, PairsJoined, NoPairBelow;
    if j < ORDERS && !Taken(b, j, i) {
      TakeIs(b, j, i);
      TakeKeepsPairs(b, i, j);
      TakeBlocksPair(b, i, j);
      UsedJoins(Take(b, j, i), i / 2, j + 1);
    }
  }

  // ---- The parent clear: both buddies are clear ----

  /** Whenever a bit is set, its parent is: a parent is clear only if both children are. */
  ghost predicate ParentsCover(b: Block)
    requires Shape(b)
  {
    forall k: nat, m: nat :: k < ORDERS - 1 && InMap(b, k, m) && Taken(b, k, m) ==> Taken(b, k + 1, m / 2)
  }

  /** Read with the in-byte offset, marking free keeps it. */
  lemma {:induction false} FreeCovers(b: Block, i: nat, j: nat)
    requires Shape(b) && j <= ORDERS && (j < ORDERS ==> InMap(b, j, i)) && ParentsCover(b)
    requires 0 < j < ORDERS ==> forall m: nat :: InMap(b, j - 1, m) && m / 2 == i ==> !Taken(b, j - 1, m)
    ensures ParentsCover(MarkFree(InByte, b, i, j))
    decreases ORDERS - j
  {
    hide Taken, Clear, BuddyTest;
    if j < ORDERS {
      ClearIs(b, j, i);
      var b1 := Clear(b, j, i);
      TestIs(InByte, b1, j, i);
      if BuddyTest(InByte, b1, j, i) {
        forall m: nat | InMap(b1, j, m) && m / 2 == i / 2
          ensures !Taken(b1, j, m)
        {
          assert m == i / 2 * 2 || m == i / 2 * 2 + 1;
        }
        FreeCovers(b1, i / 2, j + 1);
      }
    }
  }

  /** The same, but the bit above `i` at order `j - 1` is still to come. */
  ghost predicate CoversUpTo(b: Block, j: nat, i: nat)
    requires Shape(b)
  {
    forall k: nat, m: nat :: k < ORDERS - 1 && InMap(b, k, m) && Taken(b, k, m) && !(k + 1 == j && m / 2 == i) ==>
      Taken(b, k + 1, m / 2)
  }

  lemma {:induction false} UsedCovers(b: Block, i: nat, j: nat)
    requires Shape(b) && j <= ORDERS && (j < ORDERS ==> InMap(b, j, i)) && CoversUpTo(b, j, i)
    ensures ParentsCover(MarkUsed(b, i, j))
    decreases ORDERS - j
  {
    hide Taken, Take;
    if j < ORDERS && !Taken(b, j, i) {
      TakeIs(b, j, i);
      UsedCovers(Take(b, j, i), i / 2, j + 1);
    }
  }

  /** `mark_page_used` without its early return. */
  function TakeAll(b: Block, i: nat, j: nat): (b': Block)
    requires Shape(b) && j <= ORDERS && (j < ORDERS ==> InMap(b, j, i))
    ensures SameMaps(b, b')
    decreases ORDERS - j
  {
    if j == ORDERS then b else TakeAll(Take(b, j, i), i / 2, j + 1)
  }

  lemma {:induction false} NothingToTake(b: Block, i: nat, j: nat)
    requires Shape(b) && ParentsCover(b) && j < ORDERS && InMap(b, j, i) && Taken(b, j, i)
    ensures TakeAll(b, i, j) == b
    decreases ORDERS - j
  {
    hide Taken, Take;
    TakeIs(b, j, i);
    if j + 1 < ORDERS {
      NothingToTake(b, i / 2, j + 1);
    }
  }

  /** The early return of `mark_page_used` loses nothing. */
  lemma {:induction false} EarlyReturnLosesNothing(b: Block, i: nat, j: nat)
    requires Shape(b) && j <= ORDERS && (j < ORDERS ==> InMap(b, j, i)) && CoversUpTo(b, j, i)
    ensures MarkUsed(b, i, j) == TakeAll(b, i, j)
    decreases ORDERS - j
  {
    hide Taken, Take;
    if j < ORDERS {
      if Taken(b, j, i) {
        NothingToTake(b, i, j);
      } else {
        TakeIs(b, j, i);
        EarlyReturnLosesNothing(Take(b, j, i), i / 2, j + 1);
      }
    }
  }

  // ---- The mask as written ----

  function BuddyOf(i: nat): (b: nat)
    ensures forall n: nat :: i < 8 * n ==> b < 8 * n
  {
    if i % 2 == 0 then i + 1 else i - 1
  }

  /** Going up from `i` at order `j` past clear buddies, the first taken buddy below the top
      order, if any, is at an offset the written mask sees. */
  predicate MaskSees(b: Block, i: nat, j: nat)
    requires Shape(b) && j < ORDERS && InMap(b, j, i)
    decreases ORDERS - j
  {
    if j == ORDERS - 1 then true
    else if Taken(b, j, BuddyOf(i)) then i % 32 < 8
    else MaskSees(b, i / 2, j + 1)
  }

  lemma {:induction false} MaskSeesSame(b: Block, b': Block, i: nat, j: nat)
    requires Shape(b) && Shape(b') && SameMaps(b, b') && j < ORDERS && InMap(b, j, i)
    requires forall k: nat, m: nat :: k >= j && InMap(b, k, m) ==> Taken(b', k, m) == Taken(b, k, m)
    ensures MaskSees(b', i, j) == MaskSees(b, i, j)
    decreases ORDERS - j
  {
    hide Taken;
    if j < ORDERS - 1 && !Taken(b, j, BuddyOf(i)) {
      MaskSeesSame(b, b', i / 2, j + 1);
    }
  }

  lemma Halves(i: nat)
    ensures if i % 2 == 0 then i / 2 * 2 == i && BuddyOf(i) == i / 2 * 2 + 1
            else i / 2 * 2 + 1 == i && BuddyOf(i) == i / 2 * 2
  {
  }

  lemma PairIs(b: Block, j: nat, i: nat)
    requires InMap(b, j, i)
    ensures InMap(b, j, BuddyOf(i)) && (PairFree(b, j, i) <==> !Taken(b, j, i) && !Taken(b, j, BuddyOf(i)))
  {
    hide Taken, BuddyOf;
    Halves(i);
    PairBound(i, |b.bitmap[j]|);
  }

  lemma {:induction false} SeenAgrees(b: Block, i: nat, j: nat)
    requires Shape(b) && j < ORDERS && InMap(b, j, i) && MaskSees(b, i, j)
    ensures MarkFree(AsWritten, b, i, j) == MarkFree(InByte, b, i, j)
    decreases ORDERS - j
  {
    hide Taken, Clear, BuddyTest, PairFree;
    if j < ORDERS - 1 {
      ClearIs(b, j, i);
      var b1 := Clear(b, j, i);
      TestIs(AsWritten, b1, j, i);
      TestIs(InByte, b1, j, i);
      PairIs(b1, j, i);
      if !Taken(b, j, BuddyOf(i)) {
        MaskSeesSame(b, b1, i / 2, j + 1);
        SeenAgrees(b1, i / 2, j + 1);
      }
    }
  }

  lemma {:induction false} UnseenUncovers(b: Block, i: nat, j: nat)
    requires Shape(b) && j < ORDERS && InMap(b, j, i) && !MaskSees(b, i, j)
    ensures !ParentsCover(MarkFree(AsWritten, b, i, j))
    decreases ORDERS - j
  {
    hide Taken, Clear, BuddyTest, PairFree;
    ClearIs(b, j, i);
    var b1 := Clear(b, j, i);
    TestIs(AsWritten, b1, j, i);
    PairIs(b1, j, i);
    if Taken(b, j, BuddyOf(i)) {
      FreeEffect(AsWritten, b1, i / 2, j + 1);
      var b' := MarkFree(AsWritten, b, i, j);
      assert InMap(b', j, BuddyOf(i)) && Taken(b', j, BuddyOf(i)) && BuddyOf(i) / 2 == i / 2;
    } else {
      MaskSeesSame(b, b1, i / 2, j + 1);
      UnseenUncovers(b1, i / 2, j + 1);
    }
  }

  /** As written, marking a page free keeps parents covering exactly when the mask sees the
      first taken buddy. */
  lemma WrittenCoversIff(b: Block, i: nat)
    requires Shape(b) && InMap(b, 0, i) && ParentsCover(b)
    ensures ParentsCover(MarkFree(AsWritten, b, i, 0)) <==> MaskSees(b, i, 0)
  {
    hide Taken, MaskSees, ParentsCover, MarkFree;
    if MaskSees(b, i, 0) {
      SeenAgrees(b, i, 0);
      FreeCovers(b, i, 0);
    } else {
      UnseenUncovers(b, i, 0);
    }
  }

  /** Pages 8 and 9 are buddies; freeing page 8 while 9 is taken clears their parent. */
  lemma WrittenClearsParentOfTaken(b: Block)
    requires Shape(b) && InMap(b, 0, 9) && Taken(b, 0, 9)
    ensures var b' := MarkFree(AsWritten, b, 8, 0); Taken(b', 0, 9) && !Taken(b', 1, 4)
  {
    hide Taken, Clear, BuddyTest;
    ClearIs(b, 0, 8);
    var b1 := Clear(b, 0, 8);
    TestIs(AsWritten, b1, 0, 8);
    FreeEffect(AsWritten, b1, 4, 1);
  }

  // ---- Counting ----

  /** How many of the first `n` bits of order 0 are clear. */
  function Clears(b: Block, n: nat): nat
    requires |b.bitmap| > 0 && n <= 8 * |b.bitmap[0]|
    decreases n
  {
    if n == 0 then 0 else Clears(b, n - 1) + (if Taken(b, 0, n - 1) then 0 else 1)
  }

  lemma ClearsStep(b: Block, n: nat)
    requires |b.bitmap| > 0 && 0 < n <= 8 * |b.bitmap[0]|
    ensures Clears(b, n) == Clears(b, n - 1) + (if Taken(b, 0, n - 1) then 0 else 1)
  {
    hide Taken;
  }

  lemma {:induction false} ClearsSame(b: Block, b': Block, n: nat)
    requires |b.bitmap| > 0 && n <= 8 * |b.bitmap[0]| && SameMaps(b, b')
    requires forall m :: 0 <= m < n ==> Taken(b', 0, m) == Taken(b, 0, m)
    ensures Clears(b', n) == Clears(b, n)
    decreases n
  {
    hide Taken;
    if n > 0 {
      ClearsSame(b, b', n - 1);
    }
  }

  /** Clearing one set bit adds one. */
  lemma {:induction false} ClearsOneMore(b: Block, b': Block, i: nat, n: nat)
    requires |b.bitmap| > 0 && i < n <= 8 * |b.bitmap[0]| && SameMaps(b, b')
    requires Taken(b, 0, i) && !Taken(b', 0, i)
    requires forall m :: 0 <= m < n && m != i ==> Taken(b', 0, m) == Taken(b, 0, m)
    ensures Clears(b', n) == Clears(b, n) + 1
    decreases n
  {
    hide Taken, Clears;
    ClearsStep(b, n);
    ClearsStep(b', n);
    if n - 1 == i {
      ClearsSame(b, b', n - 1);
    } else {
      ClearsOneMore(b, b', i, n - 1);
    }
  }

  lemma {:induction false} NoClears(b: Block, n: nat)
    requires |b.bitmap| > 0 && n <= 8 * |b.bitmap[0]|
    requires forall m :: 0 <= m < n ==> Taken(b, 0, m)
    ensures Clears(b, n) == 0
    decreases n
  {
    hide Taken;
    if n > 0 {
      NoClears(b, n - 1);
    }
  }
}
