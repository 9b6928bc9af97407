/** 64-bit words as numbers: what shifting, masking and adding mean for their values. */
module Words {
  type Word = bv64

  function Value(x: Word): nat {
    x as nat
  }

  // The value of a word put together from two parts.

  lemma DoubleValue(h: Word, l: Word)
    ensures Value((h << 1) | (l & 1)) == 2 * Value(h & 0x7fff_ffff_ffff_ffff) + Value(l & 1)
  {
  }

  lemma OnPageValue(h: Word, l: Word)
    ensures Value((h << 12) | (l & 0xfff)) == 4096 * Value(h & 0xf_ffff_ffff_ffff) + Value(l & 0xfff)
  {
  }

  lemma EvenValue(h: Word)
    ensures Value(h << 1) == 2 * Value(h & 0x7fff_ffff_ffff_ffff)
  {
  }

  lemma OddValue(h: Word)
    ensures Value((h << 1) | 1) == 2 * Value(h & 0x7fff_ffff_ffff_ffff) + 1
  {
  }

  lemma StartValue(h: Word)
    ensures Value(h << 12) == 4096 * Value(h & 0xf_ffff_ffff_ffff)
  {
  }

  lemma OffsetBound(x: Word)
    ensures Value(x & 0xfff) < 4096
  {
  }

  lemma BitValue(x: Word)
    ensures Value(x & 1) == (if x & 1 == 0 then 0 else 1)
  {
  }

  // Every word is put together from its parts.

  lemma Halves(x: Word)
    ensures ((x >> 1) << 1) | (x & 1) == x
    ensures (x >> 1) & 0x7fff_ffff_ffff_ffff == x >> 1
  {
  }

  lemma EvenNext(x: Word, h: Word, y: Word)
    requires x & 1 == 0 && h == x >> 1 && y == x + 1
    ensures y == (h << 1) | 1 && h == y >> 1
  {
    EvenPlusOne(x, y);
    BitSet(x, h, y);
  }

  lemma EvenPlusOne(x: Word, y: Word)
    requires x & 1 == 0 && y == x + 1
    ensures y == x | 1
  {
  }

  lemma BitSet(x: Word, h: Word, y: Word)
    requires x & 1 == 0 && h == x >> 1 && y == x | 1
    ensures y == (h << 1) | 1 && h == y >> 1
  {
  }

  lemma OddNext(x: Word, h: Word, h': Word, y: Word)
    requires x & 1 != 0 && x != 0xffff_ffff_ffff_ffff && h == x >> 1 && h' == h + 1 && y == x + 1
    ensures y == h' << 1 && h' == y >> 1 && h != 0xffff_ffff_ffff_ffff
  {
    OddPlusOne(x, h, h', y);
    OddBelow(x, h, h');
    UpAndDown(h', y);
  }

  lemma OddPlusOne(x: Word, h: Word, h': Word, y: Word)
    requires x & 1 != 0 && h == x >> 1 && h' == h + 1 && y == x + 1
    ensures y == h' << 1
  {
  }

  lemma OddBelow(x: Word, h: Word, h': Word)
    requires x & 1 != 0 && x != 0xffff_ffff_ffff_ffff && h == x >> 1 && h' == h + 1
    ensures h' & 0x8000_0000_0000_0000 == 0 && h != 0xffff_ffff_ffff_ffff
  {
  }

  lemma UpAndDown(h: Word, y: Word)
    requires h & 0x8000_0000_0000_0000 == 0 && y == h << 1
    ensures h == y >> 1
  {
  }

  lemma PageAndOffset(x: Word)
    ensures ((x >> 12) << 12) | (x & 0xfff) == x
    ensures (x >> 12) & 0xf_ffff_ffff_ffff == x >> 12
    ensures x & 0xffff_ffff_ffff_f000 == (x >> 12) << 12
  {
  }

  lemma PageNext(x: Word)
    requires x < 0xffff_ffff_ffff_f000
    ensures x + 4096 == (((x >> 12) + 1) << 12) | (x & 0xfff)
    ensures ((x >> 12) + 1) & 0xf_ffff_ffff_ffff == (x >> 12) + 1
    ensures x >> 12 != 0xffff_ffff_ffff_ffff
  {
  }

  // ... and so has the value that its parts give it.

  lemma Half(x: Word, h: Word)
    requires h == x >> 1
    ensures Value(x) == 2 * Value(h) + if x & 1 == 0 then 0 else 1
  {
    hide Value;
    DoubleValue(h, x);
    BitValue(x);
    assert (h << 1) | (x & 1) == x by { Halves(x); }
    assert h & 0x7fff_ffff_ffff_ffff == h by { Halves(x); }
  }

  lemma OddIs(y: Word, h: Word)
    requires h == y >> 1 && y == (h << 1) | 1
    ensures Value(y) == 2 * Value(h) + 1
  {
    hide Value;
    OddValue(h);
    assert h & 0x7fff_ffff_ffff_ffff == h by { Halves(y); }
  }

  lemma EvenIs(y: Word, h: Word)
    requires h == y >> 1 && y == h << 1
    ensures Value(y) == 2 * Value(h)
  {
    hide Value;
    EvenValue(h);
    assert h & 0x7fff_ffff_ffff_ffff == h by { Halves(y); }
  }

  lemma EvenMore(x: Word, h: Word, y: Word)
    requires x & 1 == 0 && h == x >> 1 && y == x + 1
    ensures Value(y) == 2 * Value(h) + 1
  {
    hide Value;
    EvenNext(x, h, y);
    OddIs(y, h);
  }

  lemma OddMore(x: Word, h: Word, h': Word, y: Word)
    requires x & 1 != 0 && x != 0xffff_ffff_ffff_ffff && h == x >> 1 && h' == h + 1 && y == x + 1
    ensures Value(y) == 2 * Value(h') && h != 0xffff_ffff_ffff_ffff
  {
    hide Value;
    OddNext(x, h, h', y);
    EvenIs(y, h');
  }

  lemma {:induction false} OneMore(x: Word, y: Word)
    requires x != 0xffff_ffff_ffff_ffff && y == x + 1
    ensures Value(y) == Value(x) + 1
    decreases Value(x)
  {
    hide Value;
    var h := x >> 1;
    Half(x, h);
    if x & 1 == 0 {
      EvenMore(x, h, y);
    } else {
      var h' := h + 1;
      OddMore(x, h, h', y);
      OneMore(h, h');
    }
  }

  lemma PageParts(x: Word, h: Word, o: Word)
    requires h == x >> 12 && o == x & 0xfff
    ensures Value(x) == 4096 * Value(h) + Value(o) && Value(o) < 4096
  {
    hide Value;
    OnPageValue(h, x);
    OffsetBound(x);
    assert (h << 12) | (x & 0xfff) == x by { PageAndOffset(x); }
    assert h & 0xf_ffff_ffff_ffff == h by { PageAndOffset(x); }
  }

  lemma PageStartIs(x: Word, h: Word, y: Word)
    requires h == x >> 12 && y == x & 0xffff_ffff_ffff_f000
    ensures Value(y) == 4096 * Value(h)
  {
    hide Value;
    StartValue(h);
    assert h << 12 == y by { PageAndOffset(x); }
    assert h & 0xf_ffff_ffff_ffff == h by { PageAndOffset(x); }
  }

  /** `x & ~0xfff` is the start of the page of `x`. */
  lemma PageStart(x: Word)
    ensures Value(x & 0xffff_ffff_ffff_f000) == Value(x) / 4096 * 4096
  {
    hide Value;
    var h, o, y := x >> 12, x & 0xfff, x & 0xffff_ffff_ffff_f000;
    PageParts(x, h, o);
    PageStartIs(x, h, y);
  }

  /** A number that is a multiple of a page, and that an entry can hold, has none of the
      bits of an entry set. */
  lemma PageAligned(x: Word)
    requires Value(x) % 4096 == 0 && Value(x) < 0x8000_0000_0000_0000
    ensures x & 0x8000_0000_0000_0fff == 0
  {
    BelowTop(x);
    hide Value;
    OnPageStart(x, x >> 12, x & 0xfff);
    NoneSet(x);
  }

  lemma OnPageStart(x: Word, h: Word, o: Word)
    requires h == x >> 12 && o == x & 0xfff && Value(x) % 4096 == 0
    ensures o == 0
  {
    hide Value;
    PageParts(x, h, o);
    NoOffset(o);
  }

  lemma NoneSet(x: Word)
    requires x < 0x8000_0000_0000_0000 && x & 0xfff == 0
    ensures x & 0x8000_0000_0000_0fff == 0
  {
  }

  lemma BelowTop(x: Word)
    requires Value(x) < 0x8000_0000_0000_0000
    ensures x < 0x8000_0000_0000_0000
  {
  }

  lemma NoOffset(o: Word)
    requires Value(o) == 0
    ensures o == 0
  {
  }

  lemma NextPageIs(x: Word, h: Word, h': Word, o: Word, y: Word)
    requires x < 0xffff_ffff_ffff_f000 && h == x >> 12 && h' == h + 1 && o == x & 0xfff && y == x + 4096
    ensures Value(y) == 4096 * Value(h') + Value(o)
  {
    hide Value;
    OnPageValue(h', x);
    assert (h' << 12) | (x & 0xfff) == y by { PageNext(x); }
    assert h' & 0xf_ffff_ffff_ffff == h' by { PageNext(x); }
  }

  lemma NextPage(x: Word, y: Word)
    requires Value(x) + 4096 < 0x1_0000_0000_0000_0000 && y == x + 4096
    ensures Value(y) == Value(x) + 4096
  {
    BelowLastPage(x);
    hide Value;
    var h := x >> 12;
    NextPageFrom(x, h, h + 1, x & 0xfff, y);
  }

  lemma NextPageFrom(x: Word, h: Word, h': Word, o: Word, y: Word)
    requires x < 0xffff_ffff_ffff_f000 && h == x >> 12 && h' == h + 1 && o == x & 0xfff && y == x + 4096
    ensures Value(y) == Value(x) + 4096
  {
    hide Value;
    PageParts(x, h, o);
    NextPageIs(x, h, h', o, y);
    PageNumberMore(x, h, h');
  }

  lemma PageNumberMore(x: Word, h: Word, h': Word)
    requires x < 0xffff_ffff_ffff_f000 && h == x >> 12 && h' == h + 1
    ensures Value(h') == Value(h) + 1
  {
    hide Value;
    NotLast(x, h);
    OneMore(h, h');
  }

  lemma NotLast(x: Word, h: Word)
    requires x < 0xffff_ffff_ffff_f000 && h == x >> 12
    ensures h != 0xffff_ffff_ffff_ffff
  {
  }

  lemma BelowLastPage(x: Word)
    requires Value(x) + 4096 < 0x1_0000_0000_0000_0000
    ensures x < 0xffff_ffff_ffff_f000
  {
  }
}
