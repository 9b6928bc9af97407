/** The kernel's physical page allocator, `src/kernel/mem/alloc_page.c`. */
module PhysAlloc {
  import opened Mem
  import opened Bitmap
  import opened Buddy

  const PMB_COUNT: nat := 16
  const MAX_MEM_REGIONS: nat := 32
  const BADPAGE: nat := 0xffff_ffff_ffff_ffff

  predicate Holds(b: Block, page: nat) {
    b.base <= page < b.base + b.npages * PAGESIZE
  }

  function Off(b: Block, page: nat): nat
    requires Holds(b, page)
  {
    (page - b.base) / PAGESIZE
  }

  /** Padding bits are taken. */
  ghost predicate Padded(b: Block)
    requires Shape(b)
  {
    forall i :: b.npages <= i < 8 * |b.bitmap[0]| ==> Taken(b, 0, i)
  }

  ghost predicate BlockOk(b: Block) {
    Shape(b) && b.base % PAGESIZE == 0 && Padded(b) && PairsJoined(b)
  }

  predicate Apart(b: Block, c: Block) {
    b.npages == 0 || c.npages == 0 || b.base + b.npages * PAGESIZE <= c.base || c.base + c.npages * PAGESIZE <= b.base
  }

  /** Blocks in use come first, do not overlap, and leave at least one slot. */
  predicate Table(bs: seq<Block>) {
    && |bs| == PMB_COUNT && bs[PMB_COUNT - 1].npages == 0
    && (forall k, l :: 0 <= k < l < |bs| ==> Apart(bs[k], bs[l]) && (bs[k].npages == 0 ==> bs[l].npages == 0))
  }

  ghost predicate BlocksOk(bs: seq<Block>) {
    Table(bs) && (forall k :: 0 <= k < |bs| ==> BlockOk(bs[k]))
  }

  predicate FreeIn(b: Block, page: nat)
    requires Shape(b)
  {
    Holds(b, page) && !Taken(b, 0, Off(b, page))
  }

  predicate Shapes(bs: seq<Block>) {
    forall k :: 0 <= k < |bs| ==> Shape(bs[k])
  }

  ghost predicate Free(bs: seq<Block>, page: nat)
    requires Shapes(bs)
  {
    exists k :: 0 <= k < |bs| && FreeIn(bs[k], page)
  }

  ghost predicate Held(bs: seq<Block>, page: nat) {
    exists k :: 0 <= k < |bs| && Holds(bs[k], page)
  }

  /** The number of clear bits of order 0. */
  function Total(bs: seq<Block>): nat
    requires Shapes(bs)
  {
    if bs == [] then 0 else Total(bs[..|bs| - 1]) + Clears(bs[|bs| - 1], 8 * |bs[|bs| - 1].bitmap[0]|)
  }

  /** The first block from `k` on that holds the page. */
  function Which(bs: seq<Block>, page: nat, k: nat): (r: nat)
    requires k <= |bs|
    ensures k <= r <= |bs| && (r < |bs| ==> Holds(bs[r], page))
    ensures forall l :: k <= l < r ==> !Holds(bs[l], page)
    decreases |bs| - k
  {
    if k == |bs| || Holds(bs[k], page) then k else Which(bs, page, k + 1)
  }

  /** What `mark_page_free` leaves. */
  function FreedAt(bs: seq<Block>, page: nat): seq<Block>
    requires Shapes(bs)
  {
    var k := Which(bs, page, 0);
    if k == |bs| then bs else bs[k := MarkFree(AsWritten, bs[k], Off(bs[k], page), 0)]
  }

  /** What `mark_page_used` leaves. */
  function UsedAt(bs: seq<Block>, page: nat): seq<Block>
    requires Shapes(bs)
  {
    var k := Which(bs, page, 0);
    if k == |bs| then bs else bs[k := MarkUsed(bs[k], Off(bs[k], page), 0)]
  }

  // ---- What marking does to the table ----

  lemma HolderUnique(bs: seq<Block>, page: nat, k: nat)
    requires Table(bs) && k < |bs| && Holds(bs[k], page)
    ensures Which(bs, page, 0) == k
  {
    var w := Which(bs, page, 0);
    if w < k {
      assert false;
    }
  }

  lemma OffInMap(b: Block, page: nat)
    requires Shape(b) && Holds(b, page)
    ensures InMap(b, 0, Off(b, page)) && Off(b, page) < b.npages
  {
  }

  lemma OffInjective(b: Block, p: nat, q: nat)
    requires b.base % PAGESIZE == 0 && p % PAGESIZE == 0 && q % PAGESIZE == 0 && Holds(b, p) && Holds(b, q)
    requires Off(b, p) == Off(b, q)
    ensures p == q
  {
  }

  lemma BlockFreed(b: Block, page: nat)
    requires BlockOk(b) && Holds(b, page)
    ensures var b' := MarkFree(AsWritten, b, Off(b, page), 0);
            BlockOk(b') && SameMaps(b, b') && !Taken(b', 0, Off(b, page))
            && (forall m: nat :: InMap(b, 0, m) && m != Off(b, page) ==> Taken(b', 0, m) == Taken(b, 0, m))
  {
    hide Taken, MarkFree, PairFree;
    FreeEffect(AsWritten, b, Off(b, page), 0);
    FreeJoins(AsWritten, b, Off(b, page), 0);
  }

  lemma BlockUsed(b: Block, page: nat)
    requires BlockOk(b) && Holds(b, page)
    ensures var b' := MarkUsed(b, Off(b, page), 0);
            BlockOk(b') && SameMaps(b, b') && Taken(b', 0, Off(b, page))
            && (forall m: nat :: InMap(b, 0, m) && m != Off(b, page) ==> Taken(b', 0, m) == Taken(b, 0, m))
  {
    hide Taken, MarkUsed, PairFree;
    UsedEffect(b, Off(b, page), 0);
    UsedJoins(b, Off(b, page), 0);
  }

  lemma {:induction false} TotalWith(bs: seq<Block>, k: nat, b: Block, d: int)
    requires Shapes(bs) && k < |bs| && Shape(b)
    requires Clears(b, 8 * |b.bitmap[0]|) == Clears(bs[k], 8 * |bs[k].bitmap[0]|) + d
    ensures Total(bs[k := b]) == Total(bs) + d
    decreases |bs|
  {
    hide Clears;
    var n := |bs| - 1;
    if k < n {
      assert bs[k := b][..n] == bs[..n][k := b];
      TotalWith(bs[..n], k, b, d);
    } else {
      assert bs[k := b][..n] == bs[..n];
    }
  }

  /** Replacing a block by one with the same pages keeps the table, and what is free
      elsewhere. */
  lemma TableWith(bs: seq<Block>, k: nat, b: Block)
    requires BlocksOk(bs) && k < |bs| && BlockOk(b) && SameMaps(bs[k], b)
    ensures BlocksOk(bs[k := b])
    ensures forall p: nat :: Held(bs[k := b], p) <==> Held(bs, p)
  {
    hide BlockOk;
    var bs' := bs[k := b];
    forall p: nat
      ensures Held(bs', p) <==> Held(bs, p)
    {
      if l :| 0 <= l < |bs| && Holds(bs[l], p) {
        assert Holds(bs'[l], p);
      }
      if l :| 0 <= l < |bs| && Holds(bs'[l], p) {
        assert Holds(bs[l], p);
      }
    }
  }

  /** Only the page's own bit decides whether other pages are free. */
  lemma FreeWith(bs: seq<Block>, k: nat, b: Block, page: nat)
    requires BlocksOk(bs) && k < |bs| && BlockOk(b) && SameMaps(bs[k], b)
    requires Holds(bs[k], page) && page % PAGESIZE == 0
    requires forall m: nat :: InMap(b, 0, m) && m != Off(b, page) ==> Taken(b, 0, m) == Taken(bs[k], 0, m)
    ensures Shapes(bs) && Shapes(bs[k := b])
    ensures forall p: nat :: p % PAGESIZE == 0 && p != page ==> (Free(bs[k := b], p) <==> Free(bs, p))
    ensures Free(bs[k := b], page) <==> !Taken(b, 0, Off(b, page))
    ensures Free(bs, page) <==> !Taken(bs[k], 0, Off(bs[k], page))
  {
    hide Taken, PairsJoined, Padded;
    var bs' := bs[k := b];
    forall p: nat | p % PAGESIZE == 0 && p != page
      ensures Free(bs', p) <==> Free(bs, p)
    {
      if Holds(b, p) {
        OffInMap(b, p);
        if Off(b, p) == Off(b, page) {
          OffInjective(b, p, page);
        }
        assert FreeIn(b, p) == FreeIn(bs[k], p);
      }
      assert FreeIn(bs'[k], p) == FreeIn(bs[k], p);
      if l :| 0 <= l < |bs| && FreeIn(bs[l], p) {
        assert FreeIn(bs'[l], p);
      }
      if l :| 0 <= l < |bs| && FreeIn(bs'[l], p) {
        assert FreeIn(bs[l], p);
      }
    }
    OnlyHolder(bs, k, page);
    TableWith(bs, k, b);
    OnlyHolder(bs', k, page);
  }

  lemma OnlyHolder(bs: seq<Block>, k: nat, page: nat)
    requires BlocksOk(bs) && k < |bs| && Holds(bs[k], page)
    ensures Shapes(bs) && (Free(bs, page) <==> !Taken(bs[k], 0, Off(bs[k], page)))
  {
    hide Taken, PairsJoined, Padded;
    if l :| 0 <= l < |bs| && FreeIn(bs[l], page) {
      HolderUnique(bs, page, l);
      HolderUnique(bs, page, k);
    }
    if !Taken(bs[k], 0, Off(bs[k], page)) {
      assert FreeIn(bs[k], page);
    }
  }

  /** Freeing a taken page: it alone becomes free, and there is one more clear bit. */
  lemma FreedOk(bs: seq<Block>, page: nat)
    requires BlocksOk(bs) && Held(bs, page) && page % PAGESIZE == 0 && Shapes(bs) && !Free(bs, page)
    ensures BlocksOk(FreedAt(bs, page)) && Total(FreedAt(bs, page)) == Total(bs) + 1
    ensures forall p: nat :: p % PAGESIZE == 0 ==> (Free(FreedAt(bs, page), p) <==> Free(bs, p) || p == page)
    ensures forall p: nat :: Held(FreedAt(bs, page), p) <==> Held(bs, p)
  {
    hide BlockOk, MarkFree, Taken, Free, Held, Total, Clears;
    var k := HolderOf(bs, page);
    var b := bs[k];
    BlockIsOk(bs, k);
    BlockFreed(b, page);
    var b' := MarkFree(AsWritten, b, Off(b, page), 0);
    FreeWith(bs, k, b', page);
    TableWith(bs, k, b');
    OffInMap(b, page);
    ClearsOneMore(b, b', Off(b, page), 8 * |b.bitmap[0]|);
    TotalWith(bs, k, b', 1);
  }

  lemma BlockIsOk(bs: seq<Block>, k: nat)
    requires BlocksOk(bs) && k < |bs|
    ensures BlockOk(bs[k]) && Shape(bs[k]) && Shapes(bs)
  {
  }

  lemma HolderOf(bs: seq<Block>, page: nat) returns (k: nat)
    requires BlocksOk(bs) && Held(bs, page)
    ensures k < |bs| && Holds(bs[k], page) && Which(bs, page, 0) == k
  {
    k :| 0 <= k < |bs| && Holds(bs[k], page);
    HolderUnique(bs, page, k);
  }

  /** Taking a free page: it alone stops being free, and there is one clear bit less. */
  lemma UsedOk(bs: seq<Block>, page: nat)
    requires BlocksOk(bs) && Held(bs, page) && page % PAGESIZE == 0 && Shapes(bs) && Free(bs, page)
    ensures BlocksOk(UsedAt(bs, page)) && Total(UsedAt(bs, page)) == Total(bs) - 1
    ensures forall p: nat :: p % PAGESIZE == 0 ==> (Free(UsedAt(bs, page), p) <==> Free(bs, p) && p != page)
    ensures forall p: nat :: Held(UsedAt(bs, page), p) <==> Held(bs, p)
  {
    hide BlockOk, MarkUsed, Taken, Free, Held, Total, Clears;
    var k := HolderOf(bs, page);
    var b := bs[k];
    BlockIsOk(bs, k);
    BlockUsed(b, page);
    var b' := MarkUsed(b, Off(b, page), 0);
    FreeWith(bs, k, b', page);
    TableWith(bs, k, b');
    OffInMap(b, page);
    ClearsOneMore(b', b, Off(b, page), 8 * |b.bitmap[0]|);
    TotalWith(bs, k, b', -1);
  }

  // ---- Memory regions ----

  datatype Region = Region(base: nat, size: nat)

  predicate InRegion(r: Region, p: nat) {
    p % PAGESIZE == 0 && r.base <= p < r.base + r.size
  }

  ghost predicate InRegions(rs: seq<Region>, p: nat) {
    exists k :: 0 <= k < |rs| && InRegion(rs[k], p)
  }

  predicate Whole(r: Region) {
    r.base % PAGESIZE == 0 && r.size % PAGESIZE == 0
  }

  predicate Distinct(r: Region, q: Region) {
    r.size == 0 || q.size == 0 || r.base + r.size <= q.base || q.base + q.size <= r.base
  }

  /** Whole pages, in no two regions. */
  predicate RegionsOk(rs: seq<Region>) {
    && (forall k :: 0 <= k < |rs| ==> Whole(rs[k]))
    && (forall k, l :: 0 <= k < l < |rs| ==> Distinct(rs[k], rs[l]))
  }

  /** The first region from `k` on of at least `size` bytes. */
  function FirstFit(rs: seq<Region>, size: nat, k: nat): (r: nat)
    requires k <= |rs|
    ensures k <= r <= |rs| && (r < |rs| ==> rs[r].size >= size) && (forall l :: k <= l < r ==> rs[l].size < size)
    decreases |rs| - k
  {
    if k == |rs| || rs[k].size >= size then k else FirstFit(rs, size, k + 1)
  }

  /** A region without its first `size` bytes. */
  function Cut(r: Region, size: nat): Region
    requires size <= r.size
  {
    Region(r.base + size, r.size - size)
  }

  /** What `alloc_phys_early` leaves of the free memory. */
  function Shrunk(rs: seq<Region>, size: nat): (r: seq<Region>)
    ensures |r| == |rs|
  {
    var k := FirstFit(rs, size, 0);
    if k == |rs| then rs else rs[k := Cut(rs[k], size)]
  }

  function EarlyBase(rs: seq<Region>, size: nat): nat {
    var k := FirstFit(rs, size, 0);
    if k == |rs| then 0 else rs[k].base
  }

  lemma CutRegion(r: Region, size: nat)
    requires Whole(r) && size <= r.size && size % PAGESIZE == 0
    ensures Whole(Cut(r, size))
    ensures forall q :: (Distinct(r, q) ==> Distinct(Cut(r, size), q)) && (Distinct(q, r) ==> Distinct(q, Cut(r, size)))
    ensures forall p: nat :: InRegion(r, p) <==> InRegion(Cut(r, size), p) || InRegion(Region(r.base, size), p)
    ensures forall p: nat :: !(InRegion(Cut(r, size), p) && InRegion(Region(r.base, size), p))
  {
  }

  lemma CutRegions(rs: seq<Region>, size: nat)
    requires RegionsOk(rs) && size % PAGESIZE == 0 && FirstFit(rs, size, 0) < |rs|
    ensures RegionsOk(Shrunk(rs, size))
  {
    hide Whole, Distinct, Cut;
    var k := FirstFit(rs, size, 0);
    CutRegion(rs[k], size);
  }

  lemma InOneRegion(rs: seq<Region>, k: nat, p: nat)
    requires RegionsOk(rs) && k < |rs| && InRegion(rs[k], p)
    ensures forall l :: 0 <= l < |rs| && l != k ==> !InRegion(rs[l], p)
  {
    forall l | 0 <= l < |rs| && l != k
      ensures !InRegion(rs[l], p)
    {
      assert if l < k then Distinct(rs[l], rs[k]) else Distinct(rs[k], rs[l]);
    }
  }

  /** Early memory is cut off the free memory: every page is in one or the other. */
  lemma EarlyCuts(rs: seq<Region>, size: nat, p: nat)
    requires RegionsOk(rs) && size % PAGESIZE == 0 && FirstFit(rs, size, 0) < |rs|
    ensures InRegions(rs, p) <==> InRegions(Shrunk(rs, size), p) || InRegion(Region(EarlyBase(rs, size), size), p)
    ensures !(InRegions(Shrunk(rs, size), p) && InRegion(Region(EarlyBase(rs, size), size), p))
  {
    hide Whole, Distinct, Cut, InRegion;
    var k := FirstFit(rs, size, 0);
    var rs' := Shrunk(rs, size);
    CutRegion(rs[k], size);
    if l :| 0 <= l < |rs| && InRegion(rs[l], p) {
      InOneRegion(rs, l, p);
      assert l == k || InRegion(rs'[l], p);
      assert l == k && InRegion(Cut(rs[k], size), p) ==> InRegion(rs'[k], p);
    }
    if l :| 0 <= l < |rs'| && InRegion(rs'[l], p) {
      assert InRegion(rs[l], p);
      InOneRegion(rs, l, p);
    }
  }

  /** Pages of the bitmap of order `j` of a block whose order-0 bitmap has `n` pages. */
  function Halved(n: nat, j: nat): nat
    decreases j
  {
    if j == 0 then n else (Halved(n, j - 1) + 1) / 2
  }

  function BitmapPages(npages: nat): nat {
    (npages + PAGESIZE * 8 - 1) / (PAGESIZE * 8)
  }

  /** `2 ^ j` */
  function Span(j: nat): nat
    decreases j
  {
    if j == 0 then 1 else 2 * Span(j - 1)
  }

  /** A bitmap of order `j` has no page too few and none too many for a bit for each `2 ^ j`
      pages of the block, 32768 bits to a page. */
  predicate LeastPages(npages: nat, j: nat, pages: nat) {
    npages <= 32768 * Span(j) * pages && (npages > 0 ==> 32768 * Span(j) * (pages - 1) < npages)
  }

  lemma {:induction false} BitmapsLeast(npages: nat, j: nat)
    ensures LeastPages(npages, j, Halved(BitmapPages(npages), j))
    decreases j
  {
    hide BitmapPages;
    if j == 0 {
      FirstLeast(npages);
    } else {
      BitmapsLeast(npages, j - 1);
      HalfLeast(npages, 32768 * Span(j - 1), Halved(BitmapPages(npages), j - 1));
      assert 32768 * Span(j) == 2 * (32768 * Span(j - 1));
    }
  }

  lemma FirstLeast(npages: nat)
    ensures npages <= 32768 * BitmapPages(npages) && (npages > 0 ==> 32768 * (BitmapPages(npages) - 1) < npages)
  {
  }

  lemma HalfLeast(n: nat, u: nat, p: nat)
    requires n <= u * p && (n > 0 ==> u * (p - 1) < n)
    ensures n <= 2 * u * ((p + 1) / 2) && (n > 0 ==> 2 * u * ((p + 1) / 2 - 1) < n)
  {
    var q := (p + 1) / 2;
    Times(u, p, 2 * q);
    Times(u, 2 * (q - 1), p - 1);
    assert u * (2 * q) == 2 * u * q && u * (2 * (q - 1)) == 2 * u * (q - 1);
  }

  lemma Times(u: nat, a: int, b: int)
    requires a <= b
    ensures u * a <= u * b
  {
  }

  /** Free memory after the bitmaps of the first `j` orders were allocated. */
  function BlockRest(rs: seq<Region>, n: nat, j: nat): (r: seq<Region>)
    ensures |r| == |rs|
    decreases j
  {
    if j == 0 then rs else Shrunk(BlockRest(rs, n, j - 1), Halved(n, j - 1) * PAGESIZE)
  }

  lemma FirstOrder(rs: seq<Region>, n: nat)
    ensures Halved(n, 0) == n && BlockRest(rs, n, 0) == rs
  {
  }

  lemma NextOrder(rs: seq<Region>, n: nat, j: nat)
    ensures Halved(n, j + 1) == (Halved(n, j) + 1) / 2
    ensures BlockRest(rs, n, j + 1) == Shrunk(BlockRest(rs, n, j), Halved(n, j) * PAGESIZE)
  {
  }

  predicate BlockFits(rs: seq<Region>, n: nat, j: nat)
    decreases j
  {
    j > 0 ==> BlockFits(rs, n, j - 1) && FirstFit(BlockRest(rs, n, j - 1), Halved(n, j - 1) * PAGESIZE, 0) < |rs|
  }

  /** ... and those of the first `i` blocks. */
  function Rest(rs: seq<Region>, memMap: seq<Region>, i: nat): (r: seq<Region>)
    requires i <= |memMap|
    ensures |r| == |rs|
    decreases i
  {
    if i == 0 then rs else BlockRest(Rest(rs, memMap, i - 1), BitmapPages(memMap[i - 1].size / PAGESIZE), ORDERS)
  }

  predicate MapsFit(rs: seq<Region>, memMap: seq<Region>, i: nat)
    requires i <= |memMap|
    decreases i
  {
    i > 0 ==>
      MapsFit(rs, memMap, i - 1)
      && BlockFits(Rest(rs, memMap, i - 1), BitmapPages(memMap[i - 1].size / PAGESIZE), ORDERS)
  }

  lemma {:induction false} BlockRestOk(rs: seq<Region>, n: nat, j: nat)
    requires RegionsOk(rs) && BlockFits(rs, n, j)
    ensures RegionsOk(BlockRest(rs, n, j))
    ensures forall p :: InRegions(BlockRest(rs, n, j), p) ==> InRegions(rs, p)
    decreases j
  {
    hide RegionsOk, InRegions, Shrunk;
    if j > 0 {
      BlockRestOk(rs, n, j - 1);
      CutRegions(BlockRest(rs, n, j - 1), Halved(n, j - 1) * PAGESIZE);
      forall p: nat
        ensures InRegions(BlockRest(rs, n, j), p) ==> InRegions(BlockRest(rs, n, j - 1), p)
      {
        EarlyCuts(BlockRest(rs, n, j - 1), Halved(n, j - 1) * PAGESIZE, p);
      }
    }
  }

  lemma {:induction false} RestOk(rs: seq<Region>, memMap: seq<Region>, i: nat)
    requires RegionsOk(rs) && i <= |memMap| && MapsFit(rs, memMap, i)
    ensures RegionsOk(Rest(rs, memMap, i))
    ensures forall p :: InRegions(Rest(rs, memMap, i), p) ==> InRegions(rs, p)
    decreases i
  {
    hide RegionsOk, InRegions;
    if i > 0 {
      RestOk(rs, memMap, i - 1);
      BlockRestOk(Rest(rs, memMap, i - 1), BitmapPages(memMap[i - 1].size / PAGESIZE), ORDERS);
    }
  }

  /** Regions in use come first. */
  function MapCount(memMap: seq<Region>, k: nat): (n: nat)
    requires k <= |memMap|
    ensures k <= n <= |memMap| && (n < |memMap| ==> memMap[n].size == 0)
            && (forall l :: k <= l < n ==> memMap[l].size != 0)
    decreases |memMap| - k
  {
    if k == |memMap| || memMap[k].size == 0 then k else MapCount(memMap, k + 1)
  }

  // ---- New blocks ----

  function Ones(n: nat): (s: seq<bv8>)
    ensures |s| == n
  {
    seq(n, _ => 0xff)
  }

  lemma OnesAre(n: nat)
    ensures forall m :: 0 <= m < n ==> Ones(n)[m] == 0xff
  {
  }

  /** A block in which every page is still taken. */
  function NewBlock(r: Region): Block {
    Block(r.base, r.size / PAGESIZE,
          seq(ORDERS, j requires 0 <= j < ORDERS => Ones(Halved(BitmapPages(r.size / PAGESIZE), j) * PAGESIZE)))
  }

  /** A slot that is not in use. */
  function NoBlock(): Block {
    Block(0, 0, seq(ORDERS, _ => []))
  }

  lemma BitmapCovers(npages: nat)
    ensures npages <= 8 * (BitmapPages(npages) * PAGESIZE) && BitmapPages(npages) * PAGESIZE % 8 == 0
  {
    Enough(npages, BitmapPages(npages));
    Words(BitmapPages(npages));
  }

  lemma Enough(npages: nat, pages: nat)
    requires pages == (npages + 0x7fff) / 0x8000
    ensures npages <= 0x8000 * pages
  {
  }

  lemma Words(pages: nat)
    ensures pages * PAGESIZE % 8 == 0
  {
    assert pages * PAGESIZE == 8 * (512 * pages);
    Eights(512 * pages);
  }

  lemma Eights(n: nat)
    ensures 8 * n % 8 == 0
  {
  }

  lemma HalvedCovers(n: nat, j: nat)
    ensures Halved(n, 0) == n && Halved(n, j) * PAGESIZE <= 2 * (Halved(n, j + 1) * PAGESIZE)
  {
  }

  lemma NewBlockShape(r: Region)
    ensures Shape(NewBlock(r)) && NewBlock(r).base == r.base
  {
    hide Ones, Halved, BitmapPages;
    var b := NewBlock(r);
    BitmapCovers(b.npages);
    forall j | 0 <= j < ORDERS - 1
      ensures |b.bitmap[j]| <= 2 * |b.bitmap[j + 1]|
    {
      HalvedCovers(BitmapPages(b.npages), j);
    }
    HalvedCovers(BitmapPages(b.npages), 0);
  }

  lemma ShapeFacts(b: Block)
    requires Shape(b)
    ensures |b.bitmap| == ORDERS && b.npages <= 8 * |b.bitmap[0]|
  {
  }

  lemma NewBlockTaken(r: Region, j: nat, i: nat)
    requires InMap(NewBlock(r), j, i)
    ensures Taken(NewBlock(r), j, i)
  {
    hide Bit, Halved, BitmapPages;
    AllSet(i % 8);
  }

  lemma NewBlockOk(r: Region)
    requires Whole(r)
    ensures BlockOk(NewBlock(r)) && Full(NewBlock(r)) && Clears(NewBlock(r), 8 * |NewBlock(r).bitmap[0]|) == 0
  {
    hide Taken, Shape;
    var b := NewBlock(r);
    NewBlockShape(r);
    ShapeFacts(b);
    hide NewBlock;
    forall j: nat, i: nat | InMap(b, j, i)
      ensures Taken(b, j, i)
    {
      NewBlockTaken(r, j, i);
    }
    NoClears(b, 8 * |b.bitmap[0]|);
  }

  lemma NoBlockOk()
    ensures BlockOk(NoBlock()) && Full(NoBlock()) && Clears(NoBlock(), 8 * |NoBlock().bitmap[0]|) == 0
  {
  }

  // ---- The allocator ----

  class PhysicalMemory {
    const blocks: array<Block>
    const memFree: array<Region>
    var pagesTotal: nat
    var pagesFree: int
    ghost var outstanding: set<nat>

    ghost predicate Valid()
      reads this, blocks
    {
      && BlocksOk(blocks[..])
      && pagesFree == Total(blocks[..])
      && (forall p :: p in outstanding ==> p % PAGESIZE == 0 && Held(blocks[..], p) && !Free(blocks[..], p))
    }

    /** Zeroed, as the kernel starts, beside the free memory that the bootloader left. */
    constructor (free: seq<Region>)
      requires |free| == MAX_MEM_REGIONS
      ensures blocks.Length == PMB_COUNT && memFree.Length == MAX_MEM_REGIONS && memFree[..] == free
      ensures (forall k :: 0 <= k < PMB_COUNT ==> blocks[k] == NoBlock()) && pagesTotal == 0 && pagesFree == 0
              && outstanding == {}
      ensures fresh(blocks) && fresh(memFree)
    {
      blocks := new Block[PMB_COUNT](_ => NoBlock());
      memFree := new Region[MAX_MEM_REGIONS](i requires 0 <= i < |free| => free[i]);
      pagesTotal := 0;
      pagesFree := 0;
      outstanding := {};
      new;
      assert memFree[..] == free;
    }

    /** `mark_page_free` */
    method MarkPageFree(page: nat)
      requires blocks.Length == PMB_COUNT && Shapes(blocks[..])
      modifies blocks
      ensures blocks[..] == FreedAt(old(blocks[..]), page)
    {
      hide Shape, MarkFree, InMap;
      ghost var bs := blocks[..];
      for i := 0 to PMB_COUNT
        invariant blocks[..] == bs
        invariant Which(bs, page, 0) == Which(bs, page, i)
      {
        if !(page >= blocks[i].base && page < blocks[i].base + blocks[i].npages * PAGESIZE) { continue; }
        OffInMap(blocks[i], page);
        ClearOrders(i, (page - blocks[i].base) / PAGESIZE);
        return;
      }
    }

    /** Its loop over the orders. */
    method ClearOrders(i: nat, off: nat)
      requires i < blocks.Length && Shape(blocks[i]) && InMap(blocks[i], 0, off)
      modifies blocks
      ensures blocks[..] == old(blocks[..])[i := MarkFree(AsWritten, old(blocks[i]), off, 0)]
    {
      hide Clear, BuddyTest;
      ghost var bs := blocks[..];
      var bitmapOff, j := off, 0;
      while j < ORDERS
        invariant j <= ORDERS && Shape(blocks[i]) && (j < ORDERS ==> InMap(blocks[i], j, bitmapOff))
        invariant MarkFree(AsWritten, bs[i], off, 0) == MarkFree(AsWritten, blocks[i], bitmapOff, j)
        invariant blocks[..] == bs[i := blocks[i]]
      {
        ClearIs(blocks[i], j, bitmapOff);
        blocks[i] := Clear(blocks[i], j, bitmapOff);
        if BuddyTest(AsWritten, blocks[i], j, bitmapOff) {
          bitmapOff := bitmapOff / 2;
        } else {
          return;
        }
        j := j + 1;
      }
    }

    /** `mark_page_used` */
    method MarkPageUsed(page: nat)
      requires blocks.Length == PMB_COUNT && Shapes(blocks[..])
      modifies blocks
      ensures blocks[..] == UsedAt(old(blocks[..]), page)
    {
      hide Shape, MarkUsed, InMap;
      ghost var bs := blocks[..];
      for i := 0 to PMB_COUNT
        invariant blocks[..] == bs
        invariant Which(bs, page, 0) == Which(bs, page, i)
      {
        if !(page >= blocks[i].base && page < blocks[i].base + blocks[i].npages * PAGESIZE) { continue; }
        OffInMap(blocks[i], page);
        TakeOrders(i, (page - blocks[i].base) / PAGESIZE);
        return;
      }
    }

    /** Its loop over the orders. */
    method TakeOrders(i: nat, off: nat)
      requires i < blocks.Length && Shape(blocks[i]) && InMap(blocks[i], 0, off)
      modifies blocks
      ensures blocks[..] == old(blocks[..])[i := MarkUsed(old(blocks[i]), off, 0)]
    {
      hide Take, Taken;
      ghost var bs := blocks[..];
      var bitmapOff, j := off, 0;
      while j < ORDERS
        invariant j <= ORDERS && Shape(blocks[i]) && (j < ORDERS ==> InMap(blocks[i], j, bitmapOff))
        invariant MarkUsed(bs[i], off, 0) == MarkUsed(blocks[i], bitmapOff, j)
        invariant blocks[..] == bs[i := blocks[i]]
      {
        if Taken(blocks[i], j, bitmapOff) { return; }
        TakeIs(blocks[i], j, bitmapOff);
        blocks[i] := Take(blocks[i], j, bitmapOff);
        bitmapOff := bitmapOff / 2;
        j := j + 1;
      }
    }

    /** `alloc_phys_early`; 0 when no region is large enough. */
    method AllocPhysEarly(npages: nat) returns (base: nat)
      requires memFree.Length == MAX_MEM_REGIONS && npages < 0x8_0000
      modifies memFree
      ensures memFree[..] == Shrunk(old(memFree[..]), npages * PAGESIZE)
      ensures base == EarlyBase(old(memFree[..]), npages * PAGESIZE)
    {
      var size := npages * PAGESIZE;
      ghost var rs := memFree[..];
      base := 0;
      for i := 0 to MAX_MEM_REGIONS
        invariant memFree[..] == rs && base == 0
        invariant FirstFit(rs, size, 0) == FirstFit(rs, size, i)
      {
        if memFree[i].size >= size {
          base := memFree[i].base;
          memFree[i] := Region(memFree[i].base + size, memFree[i].size - size);
          break;
        }
      }
    }

    /** `init_physical_memory`. The bitmaps come off the free memory, and exactly the pages
        that remain become free. */
    method Init(memMap: seq<Region>)
      requires blocks.Length == PMB_COUNT && memFree.Length == MAX_MEM_REGIONS
      requires (forall k :: 0 <= k < PMB_COUNT ==> blocks[k] == NoBlock()) && pagesTotal == 0 && pagesFree == 0
               && outstanding == {}
      requires RegionsOk(memMap) && MapCount(memMap, 0) < |memMap| && MapCount(memMap, 0) < PMB_COUNT
      requires forall k :: 0 <= k < |memMap| ==> memMap[k].size < 0x2000_0000_0000
      requires RegionsOk(memFree[..]) && MapsFit(memFree[..], memMap, MapCount(memMap, 0))
      requires forall k :: 0 <= k < MAX_MEM_REGIONS ==> memFree[k].size <= 0x1_0000_0000
      requires forall p: nat :: InRegions(memFree[..], p) ==> InRegions(memMap[..MapCount(memMap, 0)], p)
      modifies this, blocks, memFree
      ensures Valid() && outstanding == {}
      ensures memFree[..] == Rest(old(memFree[..]), memMap, MapCount(memMap, 0))
      ensures pagesTotal == Pages(memMap[..MapCount(memMap, 0)])
      ensures forall p: nat :: Held(blocks[..], p) && p % PAGESIZE == 0 <==> InRegions(memMap[..MapCount(memMap, 0)], p)
      ensures forall p: nat :: p % PAGESIZE == 0 ==> (Free(blocks[..], p) <==> InRegions(memFree[..], p))
    {
      hide RegionsOk, InRegions, BlocksOk, Held, Free, Total, Rest, MapsFit, NewBlock, NoBlock, BlockFits, Pages, Table,
           Full, Built, BlockRest, BitmapPages;
      ghost var mf, n := memFree[..], MapCount(memMap, 0);
      var i := 0;
      NothingYet(memFree[..], memMap, blocks[..]);
      while memMap[i].size != 0
        invariant i <= n && MapsFit(mf, memMap, n)
        invariant memFree[..] == Rest(mf, memMap, i) && pagesTotal == Pages(memMap[..i]) && pagesFree == 0
                  && outstanding == {}
        invariant Built(blocks[..], memMap, i)
        decreases n - i
      {
        FitsNext(mf, memMap, i, n);
        BuiltNext(blocks[..], memMap, i, n);
        AddBlock(i, memMap[i]);
        pagesTotal := pagesTotal + memMap[i].size / PAGESIZE;
        i := i + 1;
      }
      RestOk(mf, memMap, n);
      RestSmall(mf, memMap, n);
      TableBuilt(blocks[..], memMap, n);
      ReleaseFree();
    }

    /** Sets up block `i` with its eight bitmaps, all ones. */
    method AddBlock(i: nat, reg: Region)
      requires i < blocks.Length && memFree.Length == MAX_MEM_REGIONS && blocks[i] == NoBlock()
      requires reg.size < 0x2000_0000_0000 && BlockFits(memFree[..], BitmapPages(reg.size / PAGESIZE), ORDERS)
      modifies blocks, memFree
      ensures blocks[..] == old(blocks[..])[i := NewBlock(reg)]
      ensures |blocks[i].bitmap| == 8 && forall l :: 0 <= l < 8 ==>
                && |blocks[i].bitmap[l]| % 4096 == 0
                && LeastPages(reg.size / 4096, l, |blocks[i].bitmap[l]| / 4096)
                && forall m :: 0 <= m < |blocks[i].bitmap[l]| ==> blocks[i].bitmap[l][m] == 0xff
      ensures memFree[..] == BlockRest(old(memFree[..]), BitmapPages(reg.size / PAGESIZE), ORDERS)
    {
      hide Shrunk, BlockFits, EarlyBase, BitmapPages, Ones, Halved, BlockRest, LeastPages;
      ghost var mf, bs := memFree[..], blocks[..];
      var npages := reg.size / PAGESIZE;
      blocks[i] := blocks[i].(base := reg.base, npages := npages);
      var bitmapSizePages := BitmapPages(npages);
      FewPages(reg.size);
      FirstOrder(mf, BitmapPages(npages));
      for j := 0 to ORDERS
        invariant bitmapSizePages == Halved(BitmapPages(npages), j) < 0x8_0000
        invariant memFree[..] == BlockRest(mf, BitmapPages(npages), j)
        invariant blocks[..] == bs[i := blocks[i]] && blocks[i].base == reg.base && blocks[i].npages == npages
        invariant |blocks[i].bitmap| == ORDERS
        invariant forall l :: 0 <= l < j ==> blocks[i].bitmap[l] == Ones(Halved(BitmapPages(npages), l) * PAGESIZE)
      {
        NextOrder(mf, BitmapPages(npages), j);
        var at := AllocPhysEarly(bitmapSizePages);
        blocks[i] := blocks[i].(bitmap := blocks[i].bitmap[j := Ones(bitmapSizePages * PAGESIZE)]);
        bitmapSizePages := (bitmapSizePages + 1) / 2;
      }
      assert blocks[i].bitmap == NewBlock(reg).bitmap;
      forall l | 0 <= l < ORDERS
        ensures |blocks[i].bitmap[l]| == Halved(BitmapPages(npages), l) * PAGESIZE
        ensures LeastPages(npages, l, Halved(BitmapPages(npages), l))
        ensures forall m :: 0 <= m < |blocks[i].bitmap[l]| ==> blocks[i].bitmap[l][m] == 0xff
      {
        BitmapsLeast(npages, l);
        OnesAre(Halved(BitmapPages(npages), l) * PAGESIZE);
      }
    }

    /** "Unmark free memory" */
    method ReleaseFree()
      requires blocks.Length == PMB_COUNT && memFree.Length == MAX_MEM_REGIONS
      requires BlocksOk(blocks[..]) && Shapes(blocks[..]) && Total(blocks[..]) == 0 == pagesFree
      requires RegionsOk(memFree[..]) && forall k :: 0 <= k < MAX_MEM_REGIONS ==> memFree[k].size <= 0x1_0000_0000
      requires forall p: nat :: !Free(blocks[..], p)
      requires forall p: nat :: InRegions(memFree[..], p) ==> Held(blocks[..], p)
      modifies this`pagesFree, blocks
      ensures BlocksOk(blocks[..]) && Shapes(blocks[..]) && Total(blocks[..]) == pagesFree
      ensures forall p: nat :: Held(blocks[..], p) <==> Held(old(blocks[..]), p)
      ensures forall p: nat :: p % PAGESIZE == 0 ==> (Free(blocks[..], p) <==> InRegions(memFree[..], p))
    {
      hide RegionsOk, InRegions, BlocksOk, Held, Free, Total, InRegion, Shapes, FreedAt;
      ghost var bs, rs := blocks[..], memFree[..];
      NoRegions(rs);
      for i := 0 to MAX_MEM_REGIONS
        invariant BlocksOk(blocks[..]) && Shapes(blocks[..]) && Total(blocks[..]) == pagesFree && memFree[..] == rs
        invariant forall p: nat :: Held(blocks[..], p) <==> Held(bs, p)
        invariant forall p: nat :: p % PAGESIZE == 0 ==> (Free(blocks[..], p) <==> InRegions(rs[..i], p))
      {
        NoPages(rs[i].base);
        for j := 0 to memFree[i].size / PAGESIZE
          invariant BlocksOk(blocks[..]) && Shapes(blocks[..]) && Total(blocks[..]) == pagesFree && memFree[..] == rs
          invariant forall p: nat :: Held(blocks[..], p) <==> Held(bs, p)
          invariant forall p: nat :: p % PAGESIZE == 0 ==>
                      (Free(blocks[..], p) <==> InRegions(rs[..i], p) || InRegion(Region(rs[i].base, j * PAGESIZE), p))
        {
          NextPage(rs, i, j);
          FreedOk(blocks[..], memFree[i].base + j * PAGESIZE);
          MarkPageFree(memFree[i].base + j * PAGESIZE);
          BlocksShape(blocks[..]);
          pagesFree := pagesFree + 1;
        }
        RegionDone(rs, i);
      }
      assert rs[..MAX_MEM_REGIONS] == rs;
    }

    /** `free_phys_pages` of pages that are out. */
    method FreePhysPages(page: nat, npages: nat)
      requires Valid()
      requires forall i :: 0 <= i < npages ==> page + i * PAGESIZE in outstanding
      modifies this, blocks
      ensures Valid() && pagesTotal == old(pagesTotal) && pagesFree == old(pagesFree) + npages
      ensures outstanding == old(outstanding) - Run(page, npages)
      ensures forall p: nat :: p % PAGESIZE == 0 ==>
                (Free(blocks[..], p) <==> Free(old(blocks[..]), p) || p in Run(page, npages))
    {
      hide BlockOk, Table, Free, Held, Total, BlocksOk, FreedAt, Run;
      ghost var bs, out := blocks[..], outstanding;
      ValidFacts(this);
      NoRun(page);
      for i := 0 to npages
        invariant BlocksOk(blocks[..]) && Shapes(blocks[..]) && pagesFree == old(pagesFree)
                  && pagesTotal == old(pagesTotal)
        invariant Total(blocks[..]) == pagesFree + i && outstanding == out
        invariant forall p: nat :: p % PAGESIZE == 0 ==> (Free(blocks[..], p) <==> Free(bs, p) || p in Run(page, i))
        invariant forall p: nat :: Held(blocks[..], p) <==> Held(bs, p)
      {
        RunNext(page, i);
        FreedOk(blocks[..], page + i * PAGESIZE);
        MarkPageFree(page + i * PAGESIZE);
        BlocksShape(blocks[..]);
      }
      pagesFree := pagesFree + npages;
      outstanding := outstanding - Run(page, npages);
    }

    /** `alloc_phys_pages`: the lowest free page of the first block that has one. */
    method AllocPhysPages(npages: int) returns (page: nat)
      requires Valid()
      modifies this, blocks
      ensures Valid() && pagesTotal == old(pagesTotal)
      ensures Lowest(old(blocks[..]), npages, page)
      ensures npages != 1 ==> page == 0xffff_ffff_ffff_ffff
      ensures npages == 1 ==>
                (page == 0xffff_ffff_ffff_ffff <==> forall p: nat :: p % 4096 == 0 ==> !Free(old(blocks[..]), p))
      ensures page != BADPAGE ==>
                exists j :: 0 <= j < |old(blocks[..])| && FreeIn(old(blocks[..])[j], page) &&
                  forall k, p :: 0 <= k < |old(blocks[..])| && FreeIn(old(blocks[..])[k], p) ==>
                    j < k || (j == k && page <= p)
      ensures page == BADPAGE ==>
                blocks[..] == old(blocks[..]) && pagesFree == old(pagesFree) && outstanding == old(outstanding)
      ensures page != BADPAGE ==>
                && page !in old(outstanding) && outstanding == old(outstanding) + {page}
                && Held(blocks[..], page) && pagesFree == old(pagesFree) - 1
                && (forall p: nat :: p % PAGESIZE == 0 ==>
                      (Free(blocks[..], p) <==> Free(old(blocks[..]), p) && p != page))
    {
      hide BlockOk, Table, Free, Held, Total, Taken, Shape, BlocksOk, Lowest, Full;
      ghost var bs := blocks[..];
      LowestMeans(bs, npages);
      if npages != 1 {
        NotOne(bs, npages);
        return BADPAGE;
      }
      ValidFacts(this);
      var i := 0;
      while true
        invariant i < PMB_COUNT && blocks[..] == bs && unchanged(this)
        invariant forall l :: 0 <= l < i ==> Full(bs[l])
        decreases PMB_COUNT - i
      {
        if blocks[i].npages == 0 { break; }
        BlockFacts(bs, i);
        var bitmap := blocks[i].bitmap[0];
        var bitmapSize := (blocks[i].npages + 63) / 64;
        WordsFit(blocks[i]);
        for j := 0 to bitmapSize
          invariant blocks[..] == bs && unchanged(this)
          invariant forall m :: 0 <= m < 64 * j ==> Taken(bs[i], 0, m)
        {
          var tmp := Word(bitmap[8 * j..8 * j + 8]);
          if tmp != 0xffff_ffff_ffff_ffff {
            for k := 0 to 64
              invariant blocks[..] == bs && unchanged(this)
              invariant forall m :: 0 <= m < 64 * j + k ==> Taken(bs[i], 0, m)
            {
              BitOfWord(bs[i], j, k);
              if !WordBit(tmp, k) {
                page := blocks[i].base + (j * 64 + k) * PAGESIZE;
                FoundLowest(bs, i, j * 64 + k, page);
                UsedOk(bs, page);
                MarkPageUsed(page);
                pagesFree := pagesFree - 1;
                outstanding := outstanding + {page};
                return;
              }
            }
          } else {
            FullWord(bs[i], j);
          }
        }
        AllTaken(bs[i], bitmapSize);
        i := i + 1;
        InUse(bs, i);
      }
      NoneFree(bs, i);
      page := BADPAGE;
    }
  }

  /** Pages of the regions together. */
  function Pages(rs: seq<Region>): nat {
    if rs == [] then 0 else Pages(rs[..|rs| - 1]) + rs[|rs| - 1].size / PAGESIZE
  }

  /** Their addresses. */
  ghost function PageSet(rs: seq<Region>): set<nat> {
    if rs == [] then {}
    else
      var r := rs[|rs| - 1];
      PageSet(rs[..|rs| - 1]) + Run(r.base, r.size / PAGESIZE)
  }

  /** `Pages` counts the pages in the regions. */
  lemma {:induction false} PagesCount(rs: seq<Region>)
    requires RegionsOk(rs)
    ensures |PageSet(rs)| == Pages(rs) && forall p: nat :: p in PageSet(rs) <==> InRegions(rs, p)
  {
    if rs != [] {
      var n := |rs| - 1;
      PagesCount(rs[..n]);
      OneRegionMore(rs, n);
    }
  }

  lemma OneRegionMore(rs: seq<Region>, n: nat)
    requires RegionsOk(rs) && |rs| == n + 1
    requires |PageSet(rs[..n])| == Pages(rs[..n]) && forall p: nat :: p in PageSet(rs[..n]) <==> InRegions(rs[..n], p)
    ensures |PageSet(rs)| == Pages(rs) && forall p: nat :: p in PageSet(rs) <==> InRegions(rs, p)
  {
    hide Distinct, InRegion, InRegions, Whole, Run;
    var r, a := rs[n], PageSet(rs[..n]);
    var b := Run(r.base, r.size / PAGESIZE);
    assert Whole(r);
    RegionDone(rs, n);
    RunIsRegion(r);
    assert rs[..n + 1] == rs && Region(r.base, r.size / PAGESIZE * PAGESIZE) == r by { WholeSize(r); }
    assert PageSet(rs) == a + b && Pages(rs) == Pages(rs[..n]) + r.size / PAGESIZE;
    forall p: nat | p in a
      ensures p !in b
    {
      InOneOnly(rs, n, p);
    }
    Disjoint(a, b);
  }

  lemma WholeSize(r: Region)
    requires Whole(r)
    ensures r.size / PAGESIZE * PAGESIZE == r.size
  {
  }

  lemma Disjoint(a: set<nat>, b: set<nat>)
    requires forall p: nat :: p in a ==> p !in b
    ensures |a + b| == |a| + |b|
  {
    assert a !! b;
  }

  lemma InOneOnly(rs: seq<Region>, n: nat, p: nat)
    requires RegionsOk(rs) && n < |rs| && InRegions(rs[..n], p)
    ensures !InRegion(rs[n], p)
  {
    var k :| 0 <= k < n && InRegion(rs[..n][k], p);
    assert Distinct(rs[k], rs[n]);
  }

  lemma {:induction false} RunIs(page: nat, n: nat)
    requires page % PAGESIZE == 0
    ensures |Run(page, n)| == n
    ensures forall p: nat :: p in Run(page, n) <==> InRegion(Region(page, n * PAGESIZE), p)
    decreases n
  {
    hide InRegion, Run;
    if n == 0 {
      NoRun(page);
      NoPages(page);
    } else {
      RunIs(page, n - 1);
      OneMoreOfRun(page, n - 1);
    }
  }

  lemma OneMoreOfRun(page: nat, n: nat)
    requires page % PAGESIZE == 0 && |Run(page, n)| == n
    requires forall p: nat :: p in Run(page, n) <==> InRegion(Region(page, n * PAGESIZE), p)
    ensures |Run(page, n + 1)| == n + 1
    ensures var run, r := Run(page, n + 1), Region(page, (n + 1) * PAGESIZE);
            forall p: nat :: p in run <==> InRegion(r, p)
  {
    hide InRegion, Run;
    RunNext(page, n);
    MorePages(page, n);
  }

  lemma RunIsRegion(r: Region)
    requires Whole(r)
    ensures forall p: nat :: p in Run(r.base, r.size / PAGESIZE) <==> InRegion(r, p)
    ensures |Run(r.base, r.size / PAGESIZE)| == r.size / PAGESIZE
  {
    hide InRegion;
    RunIs(r.base, r.size / PAGESIZE);
    assert Region(r.base, r.size / PAGESIZE * PAGESIZE) == r;
  }

  lemma NothingYet(rs: seq<Region>, memMap: seq<Region>, bs: seq<Block>)
    requires |bs| == PMB_COUNT && forall k :: 0 <= k < PMB_COUNT ==> bs[k] == NoBlock()
    ensures Rest(rs, memMap, 0) == rs && Pages(memMap[..0]) == 0 && Built(bs, memMap, 0)
  {
    hide NoBlock;
  }

  /** The first `i` slots hold the blocks of the map's regions, with every page taken. */
  ghost predicate Built(bs: seq<Block>, memMap: seq<Region>, i: nat) {
    && |bs| == PMB_COUNT && i < PMB_COUNT && i <= |memMap|
    && (forall k :: 0 <= k < i ==> bs[k] == NewBlock(memMap[k]))
    && (forall k :: i <= k < PMB_COUNT ==> bs[k] == NoBlock())
  }

  lemma BuiltNext(bs: seq<Block>, memMap: seq<Region>, i: nat, n: nat)
    requires Built(bs, memMap, i) && i < n < PMB_COUNT && n <= |memMap|
    ensures bs[i] == NoBlock() && Built(bs[i := NewBlock(memMap[i])], memMap, i + 1)
  {
    hide NewBlock, NoBlock;
  }

  lemma FewPages(size: nat)
    requires size < 0x2000_0000_0000
    ensures BitmapPages(size / PAGESIZE) < 0x8_0000
  {
  }

  lemma {:induction false} FitsNext(rs: seq<Region>, memMap: seq<Region>, i: nat, n: nat)
    requires i < n <= |memMap| && MapsFit(rs, memMap, n)
    ensures BlockFits(Rest(rs, memMap, i), BitmapPages(memMap[i].size / PAGESIZE), ORDERS)
    ensures Rest(rs, memMap, i + 1) == BlockRest(Rest(rs, memMap, i), BitmapPages(memMap[i].size / PAGESIZE), ORDERS)
    ensures Pages(memMap[..i + 1]) == Pages(memMap[..i]) + memMap[i].size / PAGESIZE
    decreases n
  {
    hide BlockFits, BlockRest;
    assert memMap[..i + 1][..i] == memMap[..i];
    if i < n - 1 {
      FitsNext(rs, memMap, i, n - 1);
    }
  }

  lemma {:induction false} BlockRestSmall(rs: seq<Region>, n: nat, j: nat)
    requires forall k :: 0 <= k < |rs| ==> rs[k].size <= 0x1_0000_0000
    ensures forall k :: 0 <= k < |rs| ==> BlockRest(rs, n, j)[k].size <= 0x1_0000_0000
    decreases j
  {
    if j > 0 {
      BlockRestSmall(rs, n, j - 1);
    }
  }

  lemma {:induction false} RestSmall(rs: seq<Region>, memMap: seq<Region>, i: nat)
    requires i <= |memMap| && forall k :: 0 <= k < |rs| ==> rs[k].size <= 0x1_0000_0000
    ensures forall k :: 0 <= k < |rs| ==> Rest(rs, memMap, i)[k].size <= 0x1_0000_0000
    decreases i
  {
    hide BlockRest;
    if i > 0 {
      RestSmall(rs, memMap, i - 1);
      BlockRestSmall(Rest(rs, memMap, i - 1), BitmapPages(memMap[i - 1].size / PAGESIZE), ORDERS);
    }
  }

  /** After the first loop: a table in which nothing is free. */
  lemma {:induction false} TableBuilt(bs: seq<Block>, memMap: seq<Region>, n: nat)
    requires Built(bs, memMap, n) && n == MapCount(memMap, 0) && n < |memMap| && RegionsOk(memMap)
    ensures BlocksOk(bs) && Shapes(bs) && Total(bs) == 0 && forall p: nat :: !Free(bs, p)
    ensures forall p: nat :: Held(bs, p) && p % PAGESIZE == 0 <==> InRegions(memMap[..n], p)
  {
    hide Total, Clears, BlockOk, Full, Shape;
    forall k | 0 <= k < PMB_COUNT
      ensures BlockOk(bs[k]) && Full(bs[k]) && Shape(bs[k]) && |bs[k].bitmap| == ORDERS
              && Clears(bs[k], 8 * |bs[k].bitmap[0]|) == 0
    {
      BuiltBlock(bs[k], memMap, k, n);
    }
    forall k, l | 0 <= k < l < PMB_COUNT
      ensures Apart(bs[k], bs[l]) && (bs[k].npages == 0 ==> bs[l].npages == 0)
    {
      BuiltApart(bs, memMap, k, l, n);
    }
    NothingFree(bs);
    forall p: nat
      ensures Held(bs, p) && p % PAGESIZE == 0 <==> InRegions(memMap[..n], p)
    {
      BuiltHolds(bs, memMap, n, p);
    }
  }

  lemma {:induction false} BuiltBlock(b: Block, memMap: seq<Region>, k: nat, n: nat)
    requires n == MapCount(memMap, 0) && n < |memMap| && RegionsOk(memMap)
    requires b == if k < n then NewBlock(memMap[k]) else NoBlock()
    ensures BlockOk(b) && Full(b) && Shape(b) && |b.bitmap| == ORDERS && Clears(b, 8 * |b.bitmap[0]|) == 0
  {
    hide NewBlock, NoBlock, PairsJoined, Padded, Full, Clears;
    if k < n {
      NewBlockOk(memMap[k]);
    } else {
      NoBlockOk();
    }
  }

  lemma {:induction false} BuiltApart(bs: seq<Block>, memMap: seq<Region>, k: nat, l: nat, n: nat)
    requires Built(bs, memMap, n) && n == MapCount(memMap, 0) && n < |memMap| && RegionsOk(memMap) && k < l < PMB_COUNT
    ensures Apart(bs[k], bs[l]) && (bs[k].npages == 0 ==> bs[l].npages == 0)
  {
    if l < n {
      assert Distinct(memMap[k], memMap[l]) && Whole(memMap[k]) && Whole(memMap[l]);
    } else if k < n {
      assert Whole(memMap[k]) && memMap[k].size != 0;
    }
  }

  lemma {:induction false} NothingFree(bs: seq<Block>)
    requires forall k :: 0 <= k < |bs| ==> Full(bs[k]) && Shape(bs[k]) && Clears(bs[k], 8 * |bs[k].bitmap[0]|) == 0
    ensures Shapes(bs) && Total(bs) == 0 && forall p: nat :: !Free(bs, p)
  {
    hide Total, Clears, Taken;
    NoneClear(bs);
    forall p: nat, k | 0 <= k < |bs|
      ensures !FreeIn(bs[k], p)
    {
      if Holds(bs[k], p) {
        OffInMap(bs[k], p);
      }
    }
  }

  lemma {:induction false} NoneClear(bs: seq<Block>)
    requires Shapes(bs) && forall k :: 0 <= k < |bs| ==> Clears(bs[k], 8 * |bs[k].bitmap[0]|) == 0
    ensures Total(bs) == 0
  {
    hide Clears;
    if bs != [] {
      NoneClear(bs[..|bs| - 1]);
    }
  }

  lemma {:induction false} BuiltHolds(bs: seq<Block>, memMap: seq<Region>, n: nat, p: nat)
    requires Built(bs, memMap, n) && n == MapCount(memMap, 0) && n < |memMap| && RegionsOk(memMap)
    ensures Held(bs, p) && p % PAGESIZE == 0 <==> InRegions(memMap[..n], p)
  {
    forall k | 0 <= k < n
      ensures Holds(bs[k], p) && p % PAGESIZE == 0 <==> InRegion(memMap[..n][k], p)
    {
      assert Whole(memMap[k]);
    }
    if k :| 0 <= k < |bs| && Holds(bs[k], p) {
      assert k < n;
    }
    if k :| 0 <= k < n && InRegion(memMap[..n][k], p) {
      assert Holds(bs[k], p);
    }
  }

  lemma NoRegions(rs: seq<Region>)
    ensures forall p: nat :: !InRegions(rs[..0], p)
  {
  }

  lemma NoPages(base: nat)
    ensures forall p: nat :: !InRegion(Region(base, 0 * PAGESIZE), p)
  {
  }

  /** The next page of a region is not among those before it. */
  lemma {:induction false} NextPage(rs: seq<Region>, i: nat, j: nat)
    requires RegionsOk(rs) && i < |rs| && j < rs[i].size / PAGESIZE
    ensures var page := rs[i].base + j * PAGESIZE;
            && page % PAGESIZE == 0 && InRegions(rs, page)
            && !InRegions(rs[..i], page) && !InRegion(Region(rs[i].base, j * PAGESIZE), page)
            && (forall p: nat :: InRegion(Region(rs[i].base, (j + 1) * PAGESIZE), p) <==>
                  InRegion(Region(rs[i].base, j * PAGESIZE), p) || p == page)
  {
    hide Distinct;
    assert Whole(rs[i]);
    var page := rs[i].base + j * PAGESIZE;
    assert InRegion(rs[i], page);
    InOneRegion(rs, i, page);
    MorePages(rs[i].base, j);
  }

  lemma MorePages(base: nat, j: nat)
    requires base % PAGESIZE == 0
    ensures forall p: nat :: InRegion(Region(base, (j + 1) * PAGESIZE), p) <==>
              InRegion(Region(base, j * PAGESIZE), p) || p == base + j * PAGESIZE
  {
    var q := base / PAGESIZE + j;
    assert base + j * PAGESIZE == q * PAGESIZE;
    forall p: nat | p % PAGESIZE == 0 && q * PAGESIZE <= p < (q + 1) * PAGESIZE
      ensures p == q * PAGESIZE
    {
      assert p == p / PAGESIZE * PAGESIZE;
    }
  }

  lemma {:induction false} RegionDone(rs: seq<Region>, i: nat)
    requires RegionsOk(rs) && i < |rs|
    ensures forall p: nat :: InRegions(rs[..i + 1], p) <==>
              InRegions(rs[..i], p) || InRegion(Region(rs[i].base, rs[i].size / PAGESIZE * PAGESIZE), p)
  {
    hide Distinct, InRegion;
    assert Whole(rs[i]);
    var s, t := rs[..i], rs[..i + 1];
    forall p: nat
      ensures InRegions(t, p) <==> InRegions(s, p) || InRegion(rs[i], p)
    {
      if k :| 0 <= k < |s| && InRegion(s[k], p) {
        assert InRegion(t[k], p);
      }
      if k :| 0 <= k < |t| && InRegion(t[k], p) {
        assert k < i ==> InRegion(s[k], p);
      }
      assert InRegion(t[i], p) == InRegion(rs[i], p);
    }
  }

  /** The addresses of `n` pages in a row. */
  ghost function Run(page: nat, n: nat): set<nat>
    decreases n
  {
    if n == 0 then {} else Run(page, n - 1) + {page + (n - 1) * PAGESIZE}
  }

  lemma NoRun(page: nat)
    ensures Run(page, 0) == {}
  {
  }

  lemma {:induction false} RunBelow(page: nat, n: nat)
    ensures forall p :: p in Run(page, n) ==> p < page + n * PAGESIZE
    decreases n
  {
    if n > 0 {
      RunBelow(page, n - 1);
    }
  }

  lemma RunNext(page: nat, n: nat)
    ensures Run(page, n + 1) == Run(page, n) + {page + n * PAGESIZE} && page + n * PAGESIZE !in Run(page, n)
  {
    RunBelow(page, n);
  }

  lemma BlocksShape(bs: seq<Block>)
    requires BlocksOk(bs)
    ensures Shapes(bs)
  {
    hide Table;
    forall k | 0 <= k < |bs|
      ensures Shape(bs[k])
    {
      assert BlockOk(bs[k]);
    }
  }

  /** Every page of the block is taken. */
  ghost predicate Full(b: Block) {
    Shape(b) && forall m :: 0 <= m < b.npages ==> Taken(b, 0, m)
  }

  /** What a request finds: a single page is granted unless none is free, and then it is the
      lowest free page of the first block that has a free page. */
  ghost predicate Lowest(bs: seq<Block>, npages: int, page: nat) {
    if npages != 1 then page == BADPAGE
    else
      && Shapes(bs)
      && (page == BADPAGE <==> forall p: nat :: p % PAGESIZE == 0 ==> !Free(bs, p))
      && (page != BADPAGE ==>
            exists k :: 0 <= k < |bs| && FirstFreeIn(bs, k, page))
  }

  ghost predicate FirstFreeIn(bs: seq<Block>, k: nat, page: nat)
    requires k < |bs| && Shape(bs[k])
  {
    && page % PAGESIZE == 0 && FreeIn(bs[k], page)
    && (forall l :: 0 <= l < k ==> Full(bs[l]))
    && (forall p: nat :: p < page && Holds(bs[k], p) ==> !FreeIn(bs[k], p))
  }

  lemma LowestMeans(bs: seq<Block>, npages: int)
    requires BlocksOk(bs)
    ensures Shapes(bs)
    ensures forall page: nat :: Lowest(bs, npages, page) ==>
              && (npages != 1 ==> page == 0xffff_ffff_ffff_ffff)
              && (npages == 1 ==>
                    (page == 0xffff_ffff_ffff_ffff <==> forall p: nat :: p % 4096 == 0 ==> !Free(bs, p)))
              && (page != BADPAGE ==>
                    exists j :: 0 <= j < |bs| && FreeIn(bs[j], page) &&
                      forall k, p :: 0 <= k < |bs| && FreeIn(bs[k], p) ==> j < k || (j == k && page <= p))
  {
    hide BlocksOk, Free, Taken;
    BlocksShape(bs);
    forall page: nat | npages == 1 && page != BADPAGE && Lowest(bs, npages, page)
      ensures exists j :: 0 <= j < |bs| && FreeIn(bs[j], page) &&
                forall k, p :: 0 <= k < |bs| && FreeIn(bs[k], p) ==> j < k || (j == k && page <= p)
    {
      var j :| 0 <= j < |bs| && FirstFreeIn(bs, j, page);
      forall k, p: nat | 0 <= k < |bs| && FreeIn(bs[k], p)
        ensures j < k || (j == k && page <= p)
      {
        if k < j {
          NoneFreeIn(bs[k], p);
        }
      }
    }
  }

  lemma NoneFreeIn(b: Block, p: nat)
    requires Shape(b)
    ensures Full(b) ==> !FreeIn(b, p)
  {
    hide Taken;
  }

  lemma NotOne(bs: seq<Block>, npages: int)
    requires npages != 1
    ensures Lowest(bs, npages, BADPAGE)
  {
  }

  lemma ValidFacts(pmem: PhysicalMemory)
    requires pmem.Valid()
    ensures BlocksOk(pmem.blocks[..]) && pmem.blocks.Length == PMB_COUNT && pmem.pagesFree == Total(pmem.blocks[..])
    ensures Shapes(pmem.blocks[..])
  {
    hide BlockOk, Total;
    forall k | 0 <= k < PMB_COUNT
      ensures Shape(pmem.blocks[..][k])
    {
      BlockIsOk(pmem.blocks[..], k);
    }
  }

  lemma BlockFacts(bs: seq<Block>, i: nat)
    requires BlocksOk(bs) && i < PMB_COUNT
    ensures |bs| == PMB_COUNT && Shape(bs[i]) && |bs[i].bitmap| == ORDERS
  {
    hide PairsJoined, Padded, Apart;
    assert BlockOk(bs[i]);
  }

  lemma WordsFit(b: Block)
    requires Shape(b)
    ensures 64 * ((b.npages + 63) / 64) <= 8 * |b.bitmap[0]|
    ensures b.npages <= 64 * ((b.npages + 63) / 64)
  {
    var w := |b.bitmap[0]| / 8;
    assert b.npages <= 64 * w;
  }

  lemma BitOfWord(b: Block, j: nat, k: nat)
    requires Shape(b) && 8 * j + 8 <= |b.bitmap[0]| && k < 64
    ensures WordBit(Word(b.bitmap[0][8 * j..8 * j + 8]), k) <==> Taken(b, 0, 64 * j + k)
  {
    hide Bit, WordBit, Word;
    WordBitIs(b.bitmap[0][8 * j..8 * j + 8], k);
    assert (64 * j + k) / 8 == 8 * j + k / 8 && (64 * j + k) % 8 == k % 8;
  }

  lemma FullWord(b: Block, j: nat)
    requires Shape(b) && 8 * j + 8 <= |b.bitmap[0]| && Word(b.bitmap[0][8 * j..8 * j + 8]) == 0xffff_ffff_ffff_ffff
    ensures forall m :: 64 * j <= m < 64 * j + 64 ==> Taken(b, 0, m)
  {
    hide Taken, Word, WordBit;
    forall m | 64 * j <= m < 64 * j + 64
      ensures Taken(b, 0, m)
    {
      BitOfWord(b, j, m - 64 * j);
      AllOnes(m - 64 * j);
    }
  }

  lemma AllTaken(b: Block, n: nat)
    requires Shape(b) && b.npages <= 64 * n <= 8 * |b.bitmap[0]|
    requires forall m :: 0 <= m < 64 * n ==> Taken(b, 0, m)
    ensures Full(b)
  {
    hide Taken;
  }

  lemma InUse(bs: seq<Block>, i: nat)
    requires BlocksOk(bs) && 0 < i <= PMB_COUNT && bs[i - 1].npages != 0
    ensures i < PMB_COUNT
  {
    hide BlockOk;
  }

  lemma NoneFree(bs: seq<Block>, i: nat)
    requires BlocksOk(bs) && i < PMB_COUNT && bs[i].npages == 0
    requires forall l :: 0 <= l < i ==> Full(bs[l])
    ensures Lowest(bs, 1, BADPAGE)
  {
    hide Taken, PairsJoined, Padded;
    assert Shapes(bs);
    forall p: nat
      ensures !Free(bs, p)
    {
      forall k | 0 <= k < |bs|
        ensures !FreeIn(bs[k], p)
      {
        if k < i && Holds(bs[k], p) {
          OffInMap(bs[k], p);
        }
      }
    }
  }

  /** The first clear bit is the lowest free page. */
  lemma FoundLowest(bs: seq<Block>, i: nat, m: nat, page: nat)
    requires BlocksOk(bs) && i < PMB_COUNT && m < 8 * |bs[i].bitmap[0]| && page == bs[i].base + m * PAGESIZE
    requires !Taken(bs[i], 0, m)
    requires forall k :: 0 <= k < m ==> Taken(bs[i], 0, k)
    requires forall l :: 0 <= l < i ==> Full(bs[l])
    ensures Shapes(bs) && Lowest(bs, 1, page) && Free(bs, page) && Held(bs, page) && page % PAGESIZE == 0
            && page != BADPAGE
  {
    hide Taken, PairsJoined, Full, Table, Holds, FreeIn, FirstFreeIn;
    BlockFacts(bs, i);
    assert BlockOk(bs[i]);
    ClearBitIsPage(bs[i], m, page);
    FirstFreeIs(bs, i, page);
    assert Free(bs, page);
  }

  lemma ClearBitIsPage(b: Block, m: nat, page: nat)
    requires BlockOk(b) && m < 8 * |b.bitmap[0]| && page == b.base + m * PAGESIZE && !Taken(b, 0, m)
    requires forall k :: 0 <= k < m ==> Taken(b, 0, k)
    ensures page % PAGESIZE == 0 && page != BADPAGE && Holds(b, page) && FreeIn(b, page)
    ensures forall p: nat :: p < page && Holds(b, p) ==> !FreeIn(b, p)
  {
    hide Taken, PairsJoined;
    assert Off(b, page) == m;
    forall p: nat | p < page && Holds(b, p)
      ensures !FreeIn(b, p)
    {
      assert Off(b, p) < m;
    }
  }

  lemma FirstFreeIs(bs: seq<Block>, k: nat, page: nat)
    requires k < |bs| && Shape(bs[k]) && page % PAGESIZE == 0 && FreeIn(bs[k], page)
    requires forall l :: 0 <= l < k ==> Full(bs[l])
    requires forall p: nat :: p < page && Holds(bs[k], p) ==> !FreeIn(bs[k], p)
    ensures FirstFreeIn(bs, k, page)
  {
    hide Full, FreeIn, Holds;
  }
}
