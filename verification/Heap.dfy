/** The kernel heap, `src/kernel/mem/kmalloc.c`: best fit over the chain of blocks that
    starts at the heap base. Addresses are byte offsets from zero; the null pointer is 0. */
module Heap {
  import opened Mem
  import PageIter

  const HEAP_BASE: nat := 0xffff_a000_0000_0000
  const HEADER: nat := 32

  /** `HeapBlock` */
  datatype Block = Block(used: bool, size: nat)

  function PageRound(size: nat): nat {
    (size + PAGESIZE - 1) / PAGESIZE * PAGESIZE
  }

  // ---- The chain ----

  /** Where block `i` of the chain starts, counted from the heap base. */
  ghost function At(chain: seq<Block>, i: nat): nat
    requires i <= |chain|
    decreases i
  {
    if i == 0 then 0 else At(chain, i - 1) + HEADER + chain[i - 1].size
  }

  /** The address of the header of block `i`. */
  ghost function Addr(chain: seq<Block>, i: nat): nat
    requires i <= |chain|
  {
    HEAP_BASE + At(chain, i)
  }

  /** The address `kmalloc` returns for block `i`. */
  ghost function Payload(chain: seq<Block>, i: nat): nat
    requires i < |chain|
  {
    Addr(chain, i) + HEADER
  }

  /** Every step of the chain is a positive number of pages. */
  ghost predicate PageSteps(chain: seq<Block>) {
    forall i :: 0 <= i < |chain| ==> (HEADER + chain[i].size) % PAGESIZE == 0 && chain[i].size > 0
  }

  lemma {:induction false} AtMonotone(chain: seq<Block>, i: nat, j: nat)
    requires i < j <= |chain|
    ensures At(chain, i) + HEADER + chain[i].size <= At(chain, j)
    decreases j
  {
    if i < j - 1 {
      AtMonotone(chain, i, j - 1);
    }
  }

  lemma AtNext(chain: seq<Block>, i: nat)
    requires i < |chain|
    ensures At(chain, i + 1) == At(chain, i) + HEADER + chain[i].size
  {
  }

  lemma {:induction false} AtPage(chain: seq<Block>, i: nat)
    requires i <= |chain| && PageSteps(chain)
    ensures At(chain, i) % PAGESIZE == 0
    decreases i
  {
    if i > 0 {
      AtPage(chain, i - 1);
      PagesAdd(At(chain, i - 1), HEADER + chain[i - 1].size);
    }
  }

  lemma PagesAdd(a: nat, b: nat)
    requires a % PAGESIZE == 0 && b % PAGESIZE == 0
    ensures (a + b) % PAGESIZE == 0
  {
    assert (a + b) % 4096 == (a % 4096 + b % 4096) % 4096;
  }

  lemma {:induction false} AtSame(chain: seq<Block>, chain': seq<Block>, i: nat)
    requires i <= |chain| && i <= |chain'|
    requires forall k :: 0 <= k < i ==> chain'[k].size == chain[k].size
    ensures At(chain', i) == At(chain, i)
    decreases i
  {
    if i > 0 {
      AtSame(chain, chain', i - 1);
    }
  }

  /** Payloads are disjoint from each other and from every header. */
  lemma PayloadsApart(chain: seq<Block>, i: nat, j: nat)
    requires i < |chain| && j < |chain| && i != j
    ensures Payload(chain, i) + chain[i].size <= Addr(chain, j) || Payload(chain, j) + chain[j].size <= Addr(chain, i)
  {
    if i < j {
      AtMonotone(chain, i, j);
    } else {
      AtMonotone(chain, j, i);
    }
  }

  // ---- What a request gets ----

  predicate Suits(b: Block, size: nat) {
    !b.used && b.size >= size
  }

  /** Among the first `n` blocks, `k` is the smallest that suits, the earliest among equals. */
  predicate BestOf(chain: seq<Block>, n: nat, size: nat, k: nat)
    requires n <= |chain|
  {
    && k < n && Suits(chain[k], size)
    && (forall l :: 0 <= l < n && Suits(chain[l], size) ==>
          chain[k].size < chain[l].size || (chain[k].size == chain[l].size && k <= l))
  }

  predicate NoneOf(chain: seq<Block>, n: nat, size: nat)
    requires n <= |chain|
  {
    forall l :: 0 <= l < n ==> !Suits(chain[l], size)
  }

  /** The chain after a request of `size` bytes that block `k` satisfies. */
  ghost predicate Granted(chain: seq<Block>, chain': seq<Block>, size: nat, k: nat) {
    if NoneOf(chain, |chain|, size) then
      k == |chain| && chain' == chain + [Block(true, PageRound(size + HEADER) - HEADER)]
    else
      BestOf(chain, |chain|, size, k) && chain' == chain[k := Block(true, chain[k].size)]
  }

  /** A request can be granted in one way only: there is one best block. */
  lemma GrantedOneWay(chain: seq<Block>, a: seq<Block>, b: seq<Block>, size: nat, j: nat, k: nat)
    requires Granted(chain, a, size, j) && Granted(chain, b, size, k)
    ensures j == k && a == b
  {
    hide PageRound;
  }

  /** The chain without the free blocks at its end. */
  function Trim(chain: seq<Block>): (t: seq<Block>)
    ensures t <= chain && EndsUsed(t)
    ensures forall i :: |t| <= i < |chain| ==> !chain[i].used
  {
    if chain == [] || chain[|chain| - 1].used then chain else Trim(chain[..|chain| - 1])
  }

  predicate EndsUsed(chain: seq<Block>) {
    chain == [] || chain[|chain| - 1].used
  }

  /** The chain after block `k` was freed. */
  function Released(chain: seq<Block>, k: nat): seq<Block>
    requires k < |chain|
  {
    Trim(chain[k := Block(false, chain[k].size)])
  }

  /** A payload that was handed out and not freed. */
  ghost predicate Live(chain: seq<Block>, addr: nat, size: nat) {
    exists k :: 0 <= k < |chain| && chain[k].used && Payload(chain, k) == addr && chain[k].size == size
  }

  // ---- The heap ----

  class KernelHeap {
    var heapSize: nat
    /** Headers in mapped memory, by address. */
    var headers: map<nat, Block>
    /** Pages of the heap that are mapped, counted from the heap base. */
    var mapped: set<nat>
    ghost var chain: seq<Block>

    /** Stepping from the base lands exactly on `heapSize`; every header is in mapped memory;
        the last block is used. */
    ghost predicate Valid()
      reads this
    {
      && PageSteps(chain) && At(chain, |chain|) == heapSize && EndsUsed(chain)
      && Chained(headers, chain) && HeadersMapped(mapped, chain)
    }

    /** Exactly the pages below `heapSize` are mapped. */
    ghost predicate Exact()
      reads this
    {
      MappedTo(mapped, heapSize)
    }

    constructor ()
      ensures Valid() && Exact() && chain == []
    {
      heapSize := 0;
      headers := map[];
      mapped := {};
      chain := [];
    }

    /** Reading a header: it must be there, and its page mapped. */
    function Load(blk: nat): Block
      reads this
      requires blk in headers && blk >= HEAP_BASE && (blk - HEAP_BASE) / PAGESIZE in mapped
    {
      headers[blk]
    }

    /** `kmapanon`: the pages that the walk over the range visits. */
    method KmapAnon(addr: nat, size: nat)
      requires addr >= HEAP_BASE
      modifies this`mapped
      ensures mapped == old(mapped) + PagesOf(addr, size)
    {
      mapped := mapped + PagesOf(addr, size);
    }

    /** `kunmapanon`: likewise, and what was stored on the pages is gone. */
    method KunmapAnon(addr: nat, size: nat)
      requires addr >= HEAP_BASE
      modifies this`mapped, this`headers
      ensures mapped == old(mapped) - PagesOf(addr, size)
      ensures headers ==
                map a | a in old(headers) && !(a >= HEAP_BASE && PageAt(a) in PagesOf(addr, size)) :: old(headers)[a]
    {
      var gone := PagesOf(addr, size);
      mapped := mapped - gone;
      headers := map a | a in headers && !(a >= HEAP_BASE && PageAt(a) in gone) :: headers[a];
    }

    /** `make_new_block`. The mapping stays exact just when the walk visits the whole new
        range. */
    method MakeNewBlock(size: nat) returns (addr: nat)
      requires Valid() && size < 0x4000_0000_0000_0000
      modifies this
      ensures Valid() && chain == old(chain) + [Block(true, PageRound(size + HEADER) - HEADER)]
      ensures addr == Payload(chain, |old(chain)|)
      ensures size + 32 <= heapSize - old(heapSize) < size + 32 + 4096 && (heapSize - old(heapSize)) % 4096 == 0
      ensures heapSize >= old(heapSize) && Grown(old(mapped), mapped, old(heapSize), heapSize)
      ensures old(Exact()) ==> (Exact() <==> RangeRegular(old(heapSize), heapSize))
    {
      hide PageSteps, Chained, At, MappedTo, PagesOf, PageRound, HeadersMapped, PageIter.PagesVisited, RangeRegular;
      var blk := HEAP_BASE + heapSize;
      var extraSize := PageRound(size + HEADER);
      RoundUp(size);
      ghost var b := Block(true, extraSize - HEADER);
      AtPage(chain, |chain|);
      Extended(chain, headers, b);
      OneMoreHeader(mapped, chain, b);
      GrowthExactIfExact(mapped, heapSize, heapSize + extraSize);
      heapSize := heapSize + extraSize;
      KmapAnon(blk, extraSize);
      headers := headers[blk := Block(true, extraSize - HEADER)];
      chain := chain + [b];
      return blk + HEADER;
    }

    /** `kmalloc` */
    method Kmalloc(size: nat) returns (addr: nat, ghost k: nat)
      requires Valid() && size < 0x4000_0000_0000_0000
      modifies this
      ensures Valid() && Granted(old(chain), chain, size, k)
      ensures forall i :: 0 <= i < |old(chain)| && !old(chain)[i].used && old(chain)[i].size >= size ==>
                && heapSize == old(heapSize) && |chain| == |old(chain)| && k < |chain|
                && !old(chain)[k].used && size <= old(chain)[k].size <= old(chain)[i].size
                && (old(chain)[k].size == old(chain)[i].size ==> k <= i)
      ensures (forall i :: 0 <= i < |old(chain)| ==> old(chain)[i].used || old(chain)[i].size < size) ==>
                && k == |old(chain)| && |chain| == |old(chain)| + 1
                && size + 32 <= heapSize - old(heapSize) < size + 32 + 4096 && (heapSize - old(heapSize)) % 4096 == 0
      ensures forall i :: 0 <= i < |old(chain)| && i != k ==> i < |chain| && chain[i] == old(chain)[i]
      ensures heapSize >= old(heapSize) && Grown(old(mapped), mapped, old(heapSize), heapSize)
      ensures old(Exact()) ==> (Exact() <==> RangeRegular(old(heapSize), heapSize))
      ensures old(Exact()) && heapSize <= 512 * PAGESIZE ==> Exact()
      ensures k < |chain| && addr == Payload(chain, k) && chain[k].used && chain[k].size >= size
      ensures forall n :: !Live(old(chain), addr, n)
      ensures forall a, n :: Live(chain, a, n) <==> Live(old(chain), a, n) || (a == addr && n == chain[k].size)
    {
      hide Live, PageSteps, Chained, Granted, BestOf, NoneOf, At, MappedTo, PageRound, HeadersMapped, Grown,
           RangeRegular;
      ghost var was, size0 := chain, heapSize;
      HeapPages(chain);
      SameSize(mapped, heapSize);
      StartOfChain(chain, size);
      var blk := HEAP_BASE;
      var best := 0;
      ghost var i := 0;
      k := 0;
      while blk < HEAP_BASE + heapSize
        invariant i <= |chain| && blk == Addr(chain, i) && unchanged(this)
        invariant best == 0 ==> NoneOf(chain, i, size)
        invariant best != 0 ==> k < i && BestOf(chain, i, size, k) && best == Addr(chain, k)
        decreases |chain| - i
      {
        Reach(this, i);
        if !Load(blk).used && Load(blk).size >= size {
          if best != 0 {
            Reach(this, k);
          }
          BetterBlock(chain, i, size, best != 0, k);
          if best == 0 || Load(best).size > Load(blk).size {
            best := blk;
            k := i;
          }
        } else {
          NotThisOne(chain, i, size, best != 0, k);
        }
        blk := blk + HEADER + Load(blk).size;
        i := i + 1;
      }
      EndOfChain(chain, i);
      NoneMeans(chain, i, size);
      if best != 0 {
        Reach(this, k);
        BestFacts(chain, size, k);
        Remarked(chain, headers, k, true);
        RemarkedHeaders(mapped, chain, k, true);
        Reused(chain, size, k);
        BestMeans(chain, size, k);
        headers := headers[best := Block(true, Load(best).size)];
        chain := chain[k := Block(true, chain[k].size)];
        addr := best + HEADER;
        return;
      }
      addr := MakeNewBlock(size);
      HeapPages(chain);
      SmallRangeRegular(size0, heapSize);
      k := |was|;
      NewBlock(was, size);
    }

    /** `kfree` of the null pointer or of a live payload. */
    method Kfree(addr: nat, ghost k: nat)
      requires Valid()
      requires addr != 0 ==> k < |chain| && chain[k].used && addr == Payload(chain, k)
      modifies this
      ensures Valid() && chain == if addr == 0 then old(chain) else Released(old(chain), k)
      ensures addr != 0 ==>
                && |chain| <= |old(chain)| && (chain == [] || chain[|chain| - 1].used)
                && (forall i :: 0 <= i < |chain| ==>
                      chain[i] == if i == k then Block(false, old(chain)[k].size) else old(chain)[i])
                && (forall i :: |chain| <= i < |old(chain)| ==> i == k || !old(chain)[i].used)
      ensures heapSize <= old(heapSize) && Cut(old(mapped), mapped, old(heapSize), heapSize)
      ensures old(Exact()) ==> (Exact() <==> RangeRegular(heapSize, old(heapSize)))
      ensures old(Exact()) && old(heapSize) <= 512 * PAGESIZE ==> Exact()
      ensures forall a, n :: Live(chain, a, n) <==> Live(old(chain), a, n) && a != addr
    {
      hide Live, PageSteps, Chained, At, MappedTo, Trim, HeadersMapped, Cut, RangeRegular;
      HeapPages(chain);
      SameSize(mapped, heapSize);
      ghost var size0 := heapSize;
      if addr == 0 {
        NullNotLive(chain);
        return;
      }
      ghost var was := chain;
      Reach(this, k);
      Remarked(chain, headers, k, false);
      RemarkedHeaders(mapped, chain, k, false);
      FreedLive(chain, k);
      var blk := addr - HEADER;
      headers := headers[blk := Block(false, Load(blk).size)];
      chain := chain[k := Block(false, chain[k].size)];
      if addr + Load(blk).size == HEAP_BASE + heapSize {
        ghost var freed := chain;
        Shrink();
        assert forall i :: |chain| <= i < |was| ==> freed[i] == was[i] || i == k;
        HeapPages(chain);
        SmallRangeRegular(heapSize, size0);
      } else {
        StillEndsUsed(was, k);
      }
    }

    /** `shrink`: cuts the heap after its last used block. */
    method Shrink()
      requires PageSteps(chain) && At(chain, |chain|) == heapSize && Chained(headers, chain)
               && HeadersMapped(mapped, chain)
      modifies this
      ensures Valid() && chain == Trim(old(chain))
      ensures heapSize <= old(heapSize) && Cut(old(mapped), mapped, old(heapSize), heapSize)
      ensures old(Exact()) ==> (Exact() <==> RangeRegular(heapSize, old(heapSize)))
    {
      hide PageSteps, Chained, At, MappedTo, PagesOf, Trim, HeadersMapped, PageIter.PagesVisited, RangeRegular;
      StartOfChain(chain, 0);
      var newSize := 0;
      var blk := HEAP_BASE;
      ghost var i, n := 0, 0;
      while blk < HEAP_BASE + heapSize
        invariant i <= |chain| && blk == Addr(chain, i) && unchanged(this)
        invariant n <= i && newSize == At(chain, n) && (n > 0 ==> chain[n - 1].used)
        invariant forall l :: n <= l < i ==> !chain[l].used
        decreases |chain| - i
      {
        Reach(this, i);
        if Load(blk).used {
          newSize := blk + HEADER + Load(blk).size - HEAP_BASE;
          n := i + 1;
        }
        blk := blk + HEADER + Load(blk).size;
        i := i + 1;
      }
      EndOfChain(chain, i);
      TrimIs(chain, n);
      CutAt(chain, headers, mapped, n);
      CutExactIfExact(mapped, heapSize, newSize);
      KunmapAnon(HEAP_BASE + newSize, heapSize - newSize);
      heapSize := newSize;
      chain := chain[..n];
    }
  }

  /** The headers in memory are those of the chain. */
  ghost predicate Chained(headers: map<nat, Block>, chain: seq<Block>) {
    forall i :: 0 <= i < |chain| ==> Addr(chain, i) in headers && headers[Addr(chain, i)] == chain[i]
  }

  /** Exactly the pages below `heapSize` are mapped. */
  ghost predicate MappedTo(mapped: set<nat>, heapSize: nat) {
    forall p: nat :: p in mapped <==> p * PAGESIZE < heapSize
  }

  /** The page an address is on, counted from the heap base. */
  function PageAt(addr: nat): nat
    requires addr >= HEAP_BASE
  {
    (addr - HEAP_BASE) / PAGESIZE
  }

  /** The pages that a walk over a range visits, counted from the heap base. */
  function PagesOf(addr: nat, size: nat): set<nat>
    requires addr >= HEAP_BASE
  {
    PageRun(PageAt(addr), PageIter.PagesVisited(addr, size))
  }

  function PageRun(p: nat, n: nat): (s: set<nat>)
    ensures forall q :: q in s <==> p <= q < p + n
    decreases n
  {
    if n == 0 then {} else PageRun(p, n - 1) + {p + n - 1}
  }

  /** Every header lies in mapped memory. */
  ghost predicate HeadersMapped(mapped: set<nat>, chain: seq<Block>) {
    forall i :: 0 <= i < |chain| ==> At(chain, i) / PAGESIZE in mapped
  }

  /** The walk over the part of the heap between two sizes visits all of it. */
  predicate RangeRegular(from: nat, to: nat) {
    to >= from && PageIter.Regular((HEAP_BASE + from) / PAGESIZE, (to - from + PAGESIZE - 1) / PAGESIZE)
  }

  ghost predicate Grown(mapped: set<nat>, mapped': set<nat>, from: nat, to: nat) {
    to >= from && mapped' == mapped + PagesOf(HEAP_BASE + from, to - from)
  }

  ghost predicate Cut(mapped: set<nat>, mapped': set<nat>, from: nat, to: nat) {
    from >= to && mapped' == mapped - PagesOf(HEAP_BASE + to, from - to)
  }

  // ---- Steps of the loops ----

  /** Stepping on lands on the next block, in mapped memory. */
  lemma Reach(heap: KernelHeap, i: nat)
    requires PageSteps(heap.chain) && At(heap.chain, |heap.chain|) == heap.heapSize
    requires Chained(heap.headers, heap.chain) && HeadersMapped(heap.mapped, heap.chain)
    requires i <= |heap.chain| && (i == |heap.chain| ==> Addr(heap.chain, i) < HEAP_BASE + heap.heapSize)
    ensures i < |heap.chain| && Addr(heap.chain, i) in heap.headers
            && heap.headers[Addr(heap.chain, i)] == heap.chain[i]
    ensures At(heap.chain, i) / PAGESIZE in heap.mapped
    ensures Addr(heap.chain, i + 1) == Addr(heap.chain, i) + HEADER + heap.chain[i].size
  {
    AtNext(heap.chain, i);
  }

  lemma StartOfChain(chain: seq<Block>, size: nat)
    ensures At(chain, 0) == 0 && NoneOf(chain, 0, size)
  {
  }

  lemma EndOfChain(chain: seq<Block>, i: nat)
    requires i <= |chain| && At(chain, i) >= At(chain, |chain|)
    ensures i == |chain|
  {
    if i < |chain| {
      AtMonotone(chain, i, |chain|);
    }
  }

  lemma BetterBlock(chain: seq<Block>, i: nat, size: nat, found: bool, k: nat)
    requires i < |chain| && Suits(chain[i], size)
    requires if found then BestOf(chain, i, size, k) else NoneOf(chain, i, size)
    ensures BestOf(chain, i + 1, size, if !found || chain[k].size > chain[i].size then i else k)
  {
  }

  lemma NotThisOne(chain: seq<Block>, i: nat, size: nat, found: bool, k: nat)
    requires i < |chain| && !Suits(chain[i], size)
    requires if found then BestOf(chain, i, size, k) else NoneOf(chain, i, size)
    ensures if found then BestOf(chain, i + 1, size, k) else NoneOf(chain, i + 1, size)
  {
  }

  lemma TrimIs(chain: seq<Block>, n: nat)
    requires n <= |chain| && EndsUsed(chain[..n]) && forall l :: n <= l < |chain| ==> !chain[l].used
    ensures Trim(chain) == chain[..n]
  {
    var t := Trim(chain);
    assert t == chain[..|t|];
  }

  lemma BestFacts(chain: seq<Block>, size: nat, k: nat)
    requires BestOf(chain, |chain|, size, k)
    ensures k < |chain| && !chain[k].used && chain[k].size >= size
  {
  }

  lemma BestMeans(chain: seq<Block>, size: nat, k: nat)
    requires BestOf(chain, |chain|, size, k)
    ensures k < |chain| && !chain[k].used && chain[k].size >= size
    ensures forall i :: 0 <= i < |chain| && !chain[i].used && chain[i].size >= size ==>
              chain[k].size <= chain[i].size && (chain[k].size == chain[i].size ==> k <= i)
  {
    assert forall i :: 0 <= i < |chain| && !chain[i].used && chain[i].size >= size ==> Suits(chain[i], size);
  }

  lemma NoneMeans(chain: seq<Block>, n: nat, size: nat)
    requires n <= |chain|
    ensures NoneOf(chain, n, size) <==> forall i :: 0 <= i < n ==> chain[i].used || chain[i].size < size
  {
    assert forall i :: 0 <= i < n ==> (Suits(chain[i], size) <==> !(chain[i].used || chain[i].size < size));
  }

  lemma Extended(chain: seq<Block>, headers: map<nat, Block>, b: Block)
    requires PageSteps(chain) && Chained(headers, chain)
    requires (HEADER + b.size) % PAGESIZE == 0 && b.size > 0
    ensures PageSteps(chain + [b]) && At(chain + [b], |chain|) == At(chain, |chain|)
    ensures At(chain + [b], |chain| + 1) == At(chain, |chain|) + HEADER + b.size
    ensures Chained(headers[Addr(chain, |chain|) := b], chain + [b])
  {
    hide At;
    var chain' := chain + [b];
    AtSame(chain, chain', |chain|);
    AtNext(chain', |chain|);
    forall i | 0 <= i < |chain|
      ensures At(chain', i) == At(chain, i) && At(chain, i) < At(chain, |chain|)
    {
      AtSame(chain, chain', i);
      AtMonotone(chain, i, |chain|);
    }
    var headers' := headers[Addr(chain, |chain|) := b];
    forall i | 0 <= i < |chain'|
      ensures Addr(chain', i) in headers' && headers'[Addr(chain', i)] == chain'[i]
    {
      assert i < |chain| ==> Addr(chain', i) == Addr(chain, i);
    }
  }

  lemma RoundUp(size: nat)
    ensures PageRound(size + HEADER) % PAGESIZE == 0 && PageRound(size + HEADER) >= size + HEADER
            && PageRound(size + HEADER) >= PAGESIZE
    ensures size + 32 <= PageRound(size + HEADER) < size + 32 + 4096 && PageRound(size + HEADER) % 4096 == 0
  {
  }

  /** Growth keeps the mapping exact just when the walk visits all of it. */
  lemma GrowthExactIff(mapped: set<nat>, from: nat, to: nat)
    requires MappedTo(mapped, from) && from % PAGESIZE == 0 && to % PAGESIZE == 0 && from <= to
    ensures MappedTo(mapped + PagesOf(HEAP_BASE + from, to - from), to) <==> RangeRegular(from, to)
  {
    hide PageIter.Regular, PageIter.PagesVisited;
    var a, e, n := from / PAGESIZE, to / PAGESIZE, PageIter.PagesVisited(HEAP_BASE + from, to - from);
    assert from == a * PAGESIZE && to == e * PAGESIZE && (to - from + PAGESIZE - 1) / PAGESIZE == e - a;
    var mapped' := mapped + PageRun(a, n);
    assert a + n < e ==> a + n !in mapped' && (a + n) * PAGESIZE < to;
  }

  /** A cut keeps it exact just when the walk visits all that is cut. */
  lemma CutExactIff(mapped: set<nat>, from: nat, to: nat)
    requires MappedTo(mapped, from) && from % PAGESIZE == 0 && to % PAGESIZE == 0 && to <= from
    ensures MappedTo(mapped - PagesOf(HEAP_BASE + to, from - to), to) <==> RangeRegular(to, from)
  {
    hide PageIter.Regular, PageIter.PagesVisited;
    var a, e, n := to / PAGESIZE, from / PAGESIZE, PageIter.PagesVisited(HEAP_BASE + to, from - to);
    assert to == a * PAGESIZE && from == e * PAGESIZE && (from - to + PAGESIZE - 1) / PAGESIZE == e - a;
    var mapped' := mapped - PageRun(a, n);
    assert a + n < e ==> a + n in mapped' && !((a + n) * PAGESIZE < to);
  }

  lemma GrowthExactIfExact(mapped: set<nat>, from: nat, to: nat)
    requires from % PAGESIZE == 0 && to % PAGESIZE == 0 && from <= to
    ensures MappedTo(mapped, from) ==>
              (MappedTo(mapped + PagesOf(HEAP_BASE + from, to - from), to) <==> RangeRegular(from, to))
  {
    hide MappedTo, PagesOf, RangeRegular;
    if MappedTo(mapped, from) {
      GrowthExactIff(mapped, from, to);
    }
  }

  lemma CutExactIfExact(mapped: set<nat>, from: nat, to: nat)
    requires from % PAGESIZE == 0 && to % PAGESIZE == 0 && to <= from
    ensures MappedTo(mapped, from) ==>
              (MappedTo(mapped - PagesOf(HEAP_BASE + to, from - to), to) <==> RangeRegular(to, from))
  {
    hide MappedTo, PagesOf, RangeRegular;
    if MappedTo(mapped, from) {
      CutExactIff(mapped, from, to);
    }
  }

  /** Where nothing grows or shrinks, nothing is mapped or unmapped. */
  lemma SameSize(mapped: set<nat>, size: nat)
    requires size % PAGESIZE == 0
    ensures Grown(mapped, mapped, size, size) && Cut(mapped, mapped, size, size) && RangeRegular(size, size)
  {
    PageIter.VisitsAllIffRegular((HEAP_BASE + size) / PAGESIZE, 0);
    PageIter.EmptyIsRegular((HEAP_BASE + size) / PAGESIZE);
    assert PagesOf(HEAP_BASE + size, 0) == {};
  }

  /** Below 2 MiB every growth and every cut is regular. */
  lemma SmallRangeRegular(from: nat, to: nat)
    requires from % PAGESIZE == 0 && to % PAGESIZE == 0 && from <= to
    ensures to <= 512 * PAGESIZE ==> RangeRegular(from, to)
  {
    hide PageIter.Regular;
    if to <= 512 * PAGESIZE && from < to {
      var a, e := from / PAGESIZE, to / PAGESIZE;
      assert (HEAP_BASE + from) / PAGESIZE % 512 + (e - a) <= 512;
      PageIter.OneTableRegular((HEAP_BASE + from) / PAGESIZE, e - a);
    } else if from == to {
      SameSize({}, from);
    }
  }

  lemma HeapPages(chain: seq<Block>)
    requires PageSteps(chain)
    ensures At(chain, |chain|) % PAGESIZE == 0
  {
    AtPage(chain, |chain|);
  }

  lemma OneMoreHeader(mapped: set<nat>, chain: seq<Block>, b: Block)
    requires PageSteps(chain) && HeadersMapped(mapped, chain) && b.size > 0
    ensures HeadersMapped(mapped + PagesOf(Addr(chain, |chain|), HEADER + b.size), chain + [b])
  {
    hide At;
    var chain' := chain + [b];
    forall i | 0 <= i < |chain'|
      ensures At(chain', i) / PAGESIZE in mapped + PagesOf(Addr(chain, |chain|), HEADER + b.size)
    {
      AtSame(chain, chain', i);
    }
  }

  lemma RemarkedHeaders(mapped: set<nat>, chain: seq<Block>, k: nat, used: bool)
    requires HeadersMapped(mapped, chain) && k < |chain|
    ensures HeadersMapped(mapped, chain[k := Block(used, chain[k].size)])
  {
    hide At;
    var chain' := chain[k := Block(used, chain[k].size)];
    forall i | 0 <= i < |chain'|
      ensures At(chain', i) / PAGESIZE in mapped
    {
      AtSame(chain, chain', i);
    }
  }

  /** Rewriting a header's used bit moves nothing. */
  lemma Remarked(chain: seq<Block>, headers: map<nat, Block>, k: nat, used: bool)
    requires PageSteps(chain) && Chained(headers, chain) && k < |chain|
    ensures var b := Block(used, chain[k].size);
            && PageSteps(chain[k := b]) && Chained(headers[Addr(chain, k) := b], chain[k := b])
            && (forall i :: 0 <= i <= |chain| ==> At(chain[k := b], i) == At(chain, i))
  {
    hide At;
    var b := Block(used, chain[k].size);
    var chain', headers' := chain[k := b], headers[Addr(chain, k) := b];
    forall i | 0 <= i <= |chain|
      ensures At(chain', i) == At(chain, i)
    {
      AtSame(chain, chain', i);
    }
    forall i | 0 <= i < |chain|
      ensures Addr(chain', i) in headers' && headers'[Addr(chain', i)] == chain'[i]
    {
      assert Addr(chain', i) == Addr(chain, i);
      if i != k {
        PayloadsApart(chain, i, k);
      }
    }
  }

  /** No two blocks have the same payload address. */
  lemma PayloadInjective(chain: seq<Block>, i: nat, j: nat)
    requires i < |chain| && j < |chain| && Payload(chain, i) == Payload(chain, j)
    ensures i == j
  {
    if i != j {
      PayloadsApart(chain, i, j);
    }
  }

  lemma Reused(chain: seq<Block>, size: nat, k: nat)
    requires BestOf(chain, |chain|, size, k) && EndsUsed(chain)
    ensures var chain' := chain[k := Block(true, chain[k].size)];
            && Granted(chain, chain', size, k) && EndsUsed(chain') && Payload(chain', k) == Payload(chain, k)
            && (forall n :: !Live(chain, Payload(chain, k), n))
            && (forall a, n :: Live(chain', a, n) <==>
                  Live(chain, a, n) || (a == Payload(chain, k) && n == chain[k].size))
  {
    hide At;
    var chain' := chain[k := Block(true, chain[k].size)];
    forall n
      ensures !Live(chain, Payload(chain, k), n)
    {
      if i :| 0 <= i < |chain| && chain[i].used && Payload(chain, i) == Payload(chain, k) && chain[i].size == n {
        PayloadInjective(chain, i, k);
      }
    }
    SamePayloads(chain, chain');
    forall a, n
      ensures Live(chain', a, n) <==> Live(chain, a, n) || (a == Payload(chain, k) && n == chain[k].size)
    {
      assert chain'[k].used && Payload(chain', k) == Payload(chain, k) && chain'[k].size == chain[k].size;
      if i :| 0 <= i < |chain| && chain[i].used && Payload(chain, i) == a && chain[i].size == n {
        assert chain'[i].used && Payload(chain', i) == a && chain'[i].size == n;
      }
    }
  }

  lemma SamePayloads(chain: seq<Block>, chain': seq<Block>)
    requires |chain'| >= |chain| && forall i :: 0 <= i < |chain| ==> chain'[i].size == chain[i].size
    ensures forall i :: 0 <= i < |chain| ==> Payload(chain', i) == Payload(chain, i)
  {
    forall i | 0 <= i < |chain|
      ensures Payload(chain', i) == Payload(chain, i)
    {
      AtSame(chain, chain', i);
    }
  }

  lemma NewBlock(chain: seq<Block>, size: nat)
    requires NoneOf(chain, |chain|, size)
    ensures var b := Block(true, PageRound(size + HEADER) - HEADER); var chain' := chain + [b];
            && Granted(chain, chain', size, |chain|) && b.size >= size
            && (forall n :: !Live(chain, Payload(chain', |chain|), n))
            && (forall a, n :: Live(chain', a, n) <==>
                  Live(chain, a, n) || (a == Payload(chain', |chain|) && n == b.size))
  {
    hide At, PageRound;
    RoundUp(size);
    var b := Block(true, PageRound(size + HEADER) - HEADER);
    var chain' := chain + [b];
    SamePayloads(chain, chain');
    forall n
      ensures !Live(chain, Payload(chain', |chain|), n)
    {
      if i :| 0 <= i < |chain| && chain[i].used && Payload(chain, i) == Payload(chain', |chain|) && chain[i].size == n {
        PayloadInjective(chain', i, |chain|);
      }
    }
    forall a, n
      ensures Live(chain', a, n) <==> Live(chain, a, n) || (a == Payload(chain', |chain|) && n == b.size)
    {
      assert chain'[|chain|].used && chain'[|chain|].size == b.size;
      if i :| 0 <= i < |chain| && chain[i].used && Payload(chain, i) == a && chain[i].size == n {
        assert chain'[i].used && Payload(chain', i) == a && chain'[i].size == n;
      }
    }
  }

  lemma NullNotLive(chain: seq<Block>)
    ensures forall n :: !Live(chain, 0, n)
  {
  }

  /** After a block is freed and the end trimmed, exactly its payload is no longer live. */
  lemma FreedLive(chain: seq<Block>, k: nat)
    requires k < |chain|
    ensures forall a, n :: Live(Released(chain, k), a, n) <==> Live(chain, a, n) && a != Payload(chain, k)
  {
    hide At;
    var chain1 := chain[k := Block(false, chain[k].size)];
    var t := Trim(chain1);
    SamePayloads(t, chain);
    forall a, n
      ensures Live(t, a, n) <==> Live(chain, a, n) && a != Payload(chain, k)
    {
      if i :| 0 <= i < |chain| && chain[i].used && Payload(chain, i) == a && chain[i].size == n {
        if a != Payload(chain, k) {
          assert chain1[i].used;
          assert t[i].used && Payload(t, i) == a && t[i].size == n;
        }
      }
      if i :| 0 <= i < |t| && t[i].used && Payload(t, i) == a && t[i].size == n {
        assert chain[i].used && Payload(chain, i) == a && chain[i].size == n;
        if a == Payload(chain, k) {
          PayloadInjective(chain, i, k);
        }
      }
    }
  }

  /** Freeing a block that is not the last leaves the last one used. */
  lemma StillEndsUsed(chain: seq<Block>, k: nat)
    requires k < |chain| && EndsUsed(chain) && Payload(chain, k) + chain[k].size != HEAP_BASE + At(chain, |chain|)
    ensures Released(chain, k) == chain[k := Block(false, chain[k].size)]
  {
    hide At;
    if k == |chain| - 1 {
      AtNext(chain, k);
      assert false;
    }
  }

  /** Cutting the chain after block `n` keeps what is before the cut. */
  lemma CutAt(chain: seq<Block>, headers: map<nat, Block>, mapped: set<nat>, n: nat)
    requires PageSteps(chain) && Chained(headers, chain) && HeadersMapped(mapped, chain) && n <= |chain|
    ensures var newSize, heapSize := At(chain, n), At(chain, |chain|);
            && newSize <= heapSize && newSize % PAGESIZE == 0 && heapSize % PAGESIZE == 0
            && PageSteps(chain[..n]) && At(chain[..n], n) == newSize
            && (var gone := PagesOf(HEAP_BASE + newSize, heapSize - newSize);
                && HeadersMapped(mapped - gone, chain[..n])
                && Chained(map a | a in headers && !(a >= HEAP_BASE && PageAt(a) in gone) :: headers[a], chain[..n]))
  {
    hide At, PagesOf, Chained, HeadersMapped;
    AtPage(chain, n);
    AtPage(chain, |chain|);
    if n < |chain| {
      AtMonotone(chain, n, |chain|);
    }
    AtSame(chain, chain[..n], n);
    forall i | 0 <= i < n
      ensures At(chain[..n], i) == At(chain, i) && At(chain, i) / PAGESIZE < At(chain, n) / PAGESIZE
    {
      AtSame(chain, chain[..n], i);
      AtMonotone(chain, i, n);
      AtPage(chain, i);
      PagesBelow(At(chain, i), At(chain, n));
    }
    var gone := PagesOf(HEAP_BASE + At(chain, n), At(chain, |chain|) - At(chain, n));
    BeyondCut(At(chain, n), At(chain, |chain|) - At(chain, n), gone);
    HeadersKept(chain, headers, mapped, n, gone);
  }

  lemma PagesBelow(a: nat, b: nat)
    requires a % PAGESIZE == 0 && b % PAGESIZE == 0 && a < b
    ensures a / PAGESIZE < b / PAGESIZE
  {
  }

  lemma BeyondCut(from: nat, size: nat, gone: set<nat>)
    requires gone == PagesOf(HEAP_BASE + from, size)
    ensures forall p :: p in gone ==> p >= from / PAGESIZE
  {
  }

  lemma HeadersKept(chain: seq<Block>, headers: map<nat, Block>, mapped: set<nat>, n: nat, gone: set<nat>)
    requires Chained(headers, chain) && HeadersMapped(mapped, chain) && n <= |chain|
    requires forall i :: 0 <= i < n ==> At(chain[..n], i) == At(chain, i) && At(chain, i) / PAGESIZE !in gone
    ensures HeadersMapped(mapped - gone, chain[..n])
    ensures Chained(map a | a in headers && !(a >= HEAP_BASE && PageAt(a) in gone) :: headers[a], chain[..n])
  {
    hide At;
    var headers' := map a | a in headers && !(a >= HEAP_BASE && PageAt(a) in gone) :: headers[a];
    forall i | 0 <= i < n
      ensures Addr(chain[..n], i) in headers' && headers'[Addr(chain[..n], i)] == chain[..n][i]
    {
      assert Addr(chain[..n], i) == Addr(chain, i);
    }
  }

  // ---- Where the walk falls short ----

  /** Pages 511 and 512 lie in two page tables, but are counted as one. */
  lemma TwoTables()
    ensures PagesOf(HEAP_BASE + 511 * PAGESIZE, 2 * PAGESIZE) == {511}
    ensures !RangeRegular(511 * PAGESIZE, 513 * PAGESIZE)
  {
    var addr, size := HEAP_BASE + 511 * PAGESIZE, 2 * PAGESIZE;
    assert !PageIter.Regular(addr / PAGESIZE, 2);
    assert PageIter.PagesVisited(addr, size) == 1;
  }

  lemma AllUsed(chain: seq<Block>, chain': seq<Block>, size: nat, k: nat)
    requires Granted(chain, chain', size, k) && forall i :: 0 <= i < |chain| ==> chain[i].used
    ensures k == |chain| && chain' == chain + [Block(true, PageRound(size + HEADER) - HEADER)]
    ensures At(chain', |chain'|) == At(chain, |chain|) + PageRound(size + HEADER)
  {
    hide PageRound;
    AtSame(chain, chain', |chain|);
  }

  /** Growing by two pages that lie in two page tables maps only the first: the second page
      of a live block is not there. */
  method GrowsPastTable() returns (heap: KernelHeap, addr: nat, ghost k: nat)
    ensures heap.Valid() && !heap.Exact()
    ensures k < |heap.chain| && heap.chain[k].used && addr == Payload(heap.chain, k)
    ensures heap.chain == [Block(true, 0x1f_efe0), Block(true, 0x1fe0)] && addr == 0xffff_a000_001f_f020
    ensures PageAt(addr + heap.chain[k].size - 1) !in heap.mapped
  {
    hide At, Granted, Live, PagesOf, RangeRegular, PageSteps, Chained, HeadersMapped, EndsUsed, MappedTo;
    TwoTables();
    AtNone();
    heap := new KernelHeap();
    var first;
    first, k := heap.Kmalloc(511 * PAGESIZE - HEADER);
    AllUsed([], heap.chain, 511 * PAGESIZE - HEADER, k);
    ghost var chain, mapped := heap.chain, heap.mapped;
    Below(mapped, heap.heapSize);
    addr, k := heap.Kmalloc(2 * PAGESIZE - HEADER);
    AllUsed(chain, heap.chain, 2 * PAGESIZE - HEADER, k);
    AtNext(heap.chain, k);
    assert heap.heapSize == 513 * PAGESIZE;
  }

  lemma AtNone()
    ensures At([], 0) == 0
  {
  }

  lemma Below(mapped: set<nat>, size: nat)
    requires MappedTo(mapped, size)
    ensures forall p: nat :: p in mapped <==> p * PAGESIZE < size
  {
  }

  /** Cutting two such pages unmaps only the first: the second stays behind. */
  method CutsPastTable() returns (heap: KernelHeap)
    ensures heap.Valid() && !heap.Exact()
    ensures heap.heapSize == 511 * PAGESIZE && 512 in heap.mapped
  {
    hide At, Granted, Live, PagesOf, RangeRegular, PageSteps, Chained, HeadersMapped, EndsUsed, MappedTo, Trim;
    TwoTables();
    AtNone();
    heap := new KernelHeap();
    var a, b, c;
    ghost var i, j, k;
    a, i := heap.Kmalloc(511 * PAGESIZE - HEADER);
    AllUsed([], heap.chain, 511 * PAGESIZE - HEADER, i);
    ghost var chain1 := heap.chain;
    b, j := heap.Kmalloc(PAGESIZE - HEADER);
    AllUsed(chain1, heap.chain, PAGESIZE - HEADER, j);
    ghost var chain2 := heap.chain;
    c, k := heap.Kmalloc(PAGESIZE - HEADER);
    AllUsed(chain2, heap.chain, PAGESIZE - HEADER, k);
    ghost var chain3, size3 := heap.chain, heap.heapSize;
    FirstOfTable();
    AtSame(chain1, chain3, 1);
    AtSame(chain2, chain3, 1);
    FreeMiddle(chain3);
    SameSize({}, size3);
    heap.Kfree(b, j);
    assert heap.heapSize == 513 * PAGESIZE && heap.Exact();
    Below(heap.mapped, heap.heapSize);
    heap.Kfree(c, k);
    assert heap.heapSize == 511 * PAGESIZE;
  }

  lemma FirstOfTable()
    ensures RangeRegular(512 * PAGESIZE, 513 * PAGESIZE)
  {
    PageIter.OneTableRegular((HEAP_BASE + 512 * PAGESIZE) / PAGESIZE, 1);
  }

  /** Of three used blocks, freeing the second and then the last leaves the first. */
  lemma FreeMiddle(chain: seq<Block>)
    requires |chain| == 3 && forall i :: 0 <= i < 3 ==> chain[i].used
    ensures Released(chain, 1) == chain[1 := Block(false, chain[1].size)] && At(Released(chain, 1), 3) == At(chain, 3)
    ensures Released(Released(chain, 1), 2) == chain[..1] && At(chain[..1], 1) == At(chain, 1)
    ensures Payload(Released(chain, 1), 2) == Payload(chain, 2)
  {
    hide At;
    var freed := Released(chain, 1);
    AtSame(chain, freed, 3);
    AtSame(chain, freed, 2);
    AtSame(chain, chain[..1], 1);
    TrimIs(freed[2 := Block(false, freed[2].size)], 1);
  }
}
