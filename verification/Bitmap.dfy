/** Bytes of a bitmap: the bit operations of `src/kernel/mem/alloc_page.c` and what they do
    to each bit. */
module Bitmap {

  /** `1 << k`, one place at a time. */
  function Mask(k: nat): bv8
    requires k < 8
    decreases k
  {
    if k == 0 then 1 else Mask(k - 1) << 1
  }

  predicate Hits(b: bv8, m: bv8) {
    b & m != 0
  }

  predicate Bit(b: bv8, k: nat)
    requires k < 8
  {
    Hits(b, Mask(k))
  }

  /** `b & ~m` */
  function Without(b: bv8, m: bv8): bv8 {
    b & !m
  }

  /** `b | m` */
  function With(b: bv8, m: bv8): bv8 {
    b | m
  }

  function Cleared(b: bv8, k: nat): bv8
    requires k < 8
  {
    Without(b, Mask(k))
  }

  function Marked(b: bv8, k: nat): bv8
    requires k < 8
  {
    With(b, Mask(k))
  }

  lemma Masks()
    ensures Mask(0) == 0x01 && Mask(1) == 0x02 && Mask(2) == 0x04 && Mask(3) == 0x08
    ensures Mask(4) == 0x10 && Mask(5) == 0x20 && Mask(6) == 0x40 && Mask(7) == 0x80
  {
    assert Mask(2) == 0x04;
    assert Mask(4) == 0x10;
    assert Mask(6) == 0x40;
  }

  /** A mask is one bit. */
  predicate OneBit(m: bv8) {
    m != 0 && m & (m - 1) == 0
  }

  lemma MaskIsOneBit(k: nat)
    requires k < 8
    ensures OneBit(Mask(k))
  {
    hide Mask;
    Masks();
  }

  lemma MasksApart(k: nat, i: nat)
    requires k < 8 && i < 8 && k != i
    ensures !Hits(Mask(k), Mask(i))
  {
    hide Mask;
    Masks();
  }

  lemma ApartOps(b: bv8, m: bv8, o: bv8)
    requires !Hits(m, o)
    ensures Hits(Without(b, m), o) == Hits(b, o) && Hits(With(b, m), o) == Hits(b, o)
  {
    assert (b & !m) & o == b & o;
    assert (b | m) & o == b & o;
  }

  lemma SameOps(b: bv8, m: bv8)
    requires OneBit(m)
    ensures !Hits(Without(b, m), m) && Hits(With(b, m), m)
    ensures Hits(b, m) ==> With(b, m) == b
  {
  }

  lemma ClearedBit(b: bv8, k: nat, i: nat)
    requires k < 8 && i < 8
    ensures Bit(Cleared(b, k), i) <==> Bit(b, i) && i != k
  {
    hide Mask, Hits, Without, OneBit;
    MaskIsOneBit(k);
    SameOps(b, Mask(k));
    if i != k {
      MasksApart(k, i);
      ApartOps(b, Mask(k), Mask(i));
    }
  }

  lemma MarkedBit(b: bv8, k: nat, i: nat)
    requires k < 8 && i < 8
    ensures Bit(Marked(b, k), i) <==> Bit(b, i) || i == k
    ensures Bit(b, k) ==> Marked(b, k) == b
  {
    hide Mask, Hits, With, OneBit;
    MaskIsOneBit(k);
    SameOps(b, Mask(k));
    if i != k {
      MasksApart(k, i);
      ApartOps(b, Mask(k), Mask(i));
    }
  }

  lemma AllSet(k: nat)
    requires k < 8
    ensures Bit(0xff, k)
  {
    hide Mask;
    Masks();
  }

  // ---- The buddy check ----

  /** `3 << s`, one place at a time. */
  function Three(s: nat): bv32
    decreases s
  {
    if s == 0 then 3 else Three(s - 1) << 1
  }

  predicate Misses(b: bv8, m: bv32) {
    (b as bv32) & m == 0
  }

  lemma ThreeLow()
    ensures Three(0) == 0x03 && Three(2) == 0x0c && Three(4) == 0x30 && Three(6) == 0xc0 && Three(8) == 0x300
  {
    assert Three(1) == 0x06;
    assert Three(3) == 0x18;
    assert Three(5) == 0x60;
    assert Three(7) == 0x180;
  }

  /** Shifted by eight places or more, nothing is left in the low byte. */
  lemma {:induction false} ThreeHigh(s: nat)
    requires s >= 8
    ensures Three(s) & 0xff == 0
    decreases s
  {
    if s == 8 {
      ThreeLow();
    } else {
      ThreeHigh(s - 1);
    }
  }

  /** How the buddy check places its two bits: by the offset in the whole bitmap, as the
      source has it, or by the offset in the byte. */
  datatype Reading = AsWritten | InByte

  /** The check shifts a 32-bit 3, and x86 takes such a shift count modulo 32. */
  function Shift(r: Reading, off: nat): nat {
    match r case AsWritten => off % 32 / 2 * 2 case InByte => off % 8 / 2 * 2
  }

  /** `b & (3 << (off & ~1))` is zero. */
  predicate BuddiesClear(r: Reading, b: bv8, off: nat) {
    Misses(b, Three(Shift(r, off)))
  }

  /** The check sees the pair only when the shift stays inside the byte. */
  lemma BuddyCheck(r: Reading, b: bv8, off: nat)
    ensures BuddiesClear(r, b, off) <==>
            (r == AsWritten && off % 32 >= 8) || (!Bit(b, off % 8 / 2 * 2) && !Bit(b, off % 8 / 2 * 2 + 1))
  {
    hide Bit, Three, Misses, Shift;
    ShiftIs(r, off);
    PairCheck(b, Shift(r, off));
  }

  lemma ShiftIs(r: Reading, off: nat)
    ensures Shift(r, off) % 2 == 0 && (Shift(r, off) >= 8 <==> r == AsWritten && off % 32 >= 8)
    ensures Shift(r, off) < 8 ==> Shift(r, off) == off % 8 / 2 * 2
  {
    assert off % 32 < 8 ==> off % 32 == off % 8;
  }

  lemma PairCheck(b: bv8, s: nat)
    requires s % 2 == 0
    ensures Misses(b, Three(s)) <==> s >= 8 || (!Bit(b, s) && !Bit(b, s + 1))
  {
    hide Three, Misses, Hits, Mask;
    if s >= 8 {
      ThreeHigh(s);
      LowByte(b, Three(s));
    } else {
      ThreeLow();
      Masks();
      TwoBits(b);
    }
  }

  lemma LowByte(b: bv8, m: bv32)
    requires m & 0xff == 0
    ensures Misses(b, m)
  {
  }

  lemma TwoBits(b: bv8)
    ensures Misses(b, 0x03) <==> !Hits(b, 0x01) && !Hits(b, 0x02)
    ensures Misses(b, 0x0c) <==> !Hits(b, 0x04) && !Hits(b, 0x08)
    ensures Misses(b, 0x30) <==> !Hits(b, 0x10) && !Hits(b, 0x20)
    ensures Misses(b, 0xc0) <==> !Hits(b, 0x40) && !Hits(b, 0x80)
  {
  }

  // ---- Little-endian words ----

  function Up(x: bv64): bv64 {
    x << 8
  }

  /** `1ull << k`, the whole bytes of the shift one at a time. */
  function One(k: nat): bv64
    decreases k
  {
    if k < 8 then Mask(k) as bv64 else Up(One(k - 8))
  }

  predicate Meets(w: bv64, m: bv64) {
    w & m != 0
  }

  function Above(w: bv64, b: bv8): bv64 {
    Up(w) | (b as bv64)
  }

  /** Bytes read as a little-endian word. */
  function Word(s: seq<bv8>): bv64 {
    if s == [] then 0 else Above(Word(s[1..]), s[0])
  }

  predicate WordBit(w: bv64, k: nat) {
    Meets(w, One(k))
  }

  /** Nothing is lost by going up a byte. */
  predicate Fits(m: bv64) {
    m & 0xff00_0000_0000_0000 == 0
  }

  /** `x` shifted by `q` bytes. */
  function UpBy(q: nat, x: bv64): bv64
    decreases q
  {
    if q == 0 then x else Up(UpBy(q - 1, x))
  }

  lemma {:induction false} OneIsUp(k: nat)
    ensures One(k) == UpBy(k / 8, Mask(k % 8) as bv64)
    decreases k
  {
    hide Up, Mask;
    if k >= 8 {
      OneIsUp(k - 8);
    }
  }

  lemma UpFits(m: bv8, q: nat)
    requires q < 7
    ensures Fits(UpBy(q, m as bv64)) && (m != 0 ==> UpBy(q + 1, m as bv64) != 0)
  {
    var x := m as bv64;
    assert UpBy(1, x) == Up(x);
    assert UpBy(2, x) == Up(Up(x));
    assert UpBy(3, x) == Up(Up(Up(x)));
    assert UpBy(4, x) == Up(Up(Up(Up(x))));
    assert UpBy(5, x) == Up(Up(Up(Up(Up(x)))));
    assert UpBy(6, x) == Up(Up(Up(Up(Up(Up(x))))));
    assert UpBy(7, x) == Up(Up(Up(Up(Up(Up(Up(x)))))));
  }

  lemma OneFits(k: nat)
    requires k < 56
    ensures Fits(One(k)) && One(k + 8) != 0
  {
    hide One, Fits, UpBy, Mask;
    OneIsUp(k);
    OneIsUp(k + 8);
    MaskIsOneBit(k % 8);
    UpFits(Mask(k % 8), k / 8);
  }

  lemma Low(w: bv64, b: bv8, k: nat)
    requires k < 8
    ensures Meets(Above(w, b), One(k)) <==> Bit(b, k)
  {
    hide Mask, Meets, Above, Hits, Up;
    LowMask(w, b, Mask(k));
  }

  lemma LowMask(w: bv64, b: bv8, m: bv8)
    ensures Meets(Above(w, b), m as bv64) <==> Hits(b, m)
  {
    assert Above(w, b) & (m as bv64) == (b & m) as bv64;
  }

  lemma High(w: bv64, b: bv8, o: bv64)
    requires Fits(o)
    ensures Meets(Above(w, b), Up(o)) <==> Meets(w, o)
  {
  }

  lemma OneAbove(k: nat)
    requires k >= 8
    ensures One(k) == Up(One(k - 8))
  {
  }

  /** A bit of the word is the bit of the byte it comes from. */
  lemma {:induction false} WordBitIs(s: seq<bv8>, k: nat)
    requires |s| <= 8 && k < 8 * |s|
    ensures WordBit(Word(s), k) <==> Bit(s[k / 8], k % 8)
    decreases |s|
  {
    hide One, Bit, Above, Meets, Up, Fits;
    if k < 8 {
      Low(Word(s[1..]), s[0], k);
    } else {
      WordBitIs(s[1..], k - 8);
      OneAbove(k);
      OneFits(k - 8);
      High(Word(s[1..]), s[0], One(k - 8));
    }
  }

  /** A word of all ones has every bit set. */
  lemma AllOnes(k: nat)
    requires k < 64
    ensures WordBit(0xffff_ffff_ffff_ffff, k)
  {
    hide One;
    OneNotZero(k);
  }

  lemma OneNotZero(k: nat)
    requires k < 64
    ensures One(k) != 0
  {
    hide Up, Fits;
    if k < 8 {
      MaskIsOneBit(k);
    } else {
      OneFits(k - 8);
    }
  }
}
