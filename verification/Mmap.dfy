/** The kernel's mapping functions, `src/kernel/mem/mmap.c`. */
module Mmap {
  import opened PageTables
  import opened PageIter
  import Words

  const KPROT_WRITE: bv32 := 2
  const KPROT_EXECUTE: bv32 := 4
  const KPROT_USER: bv32 := 8
  const IO_BASE: nat := 0xffff_c000_0000_0000
  const DIR_FLAGS: Word := 7

  /** `page_prot_flags` */
  function PageProtFlags(prot: bv32, nxMask: Word): Word {
    WriteFlag(prot) | UserFlag(prot) | NxFlag(prot, nxMask)
  }

  function WriteFlag(prot: bv32): Word {
    if prot & KPROT_WRITE != 0 then WRITE else 0
  }

  function UserFlag(prot: bv32): Word {
    if prot & KPROT_USER != 0 then USER else 0
  }

  function NxFlag(prot: bv32, nxMask: Word): Word {
    if prot & KPROT_EXECUTE == 0 then nxMask else 0
  }

  /** The entry gives exactly the rights that `prot` asks for: writable (2), user (8) and
      executable (4), the last as far as the processor can deny it. */
  predicate Allows(e: Word, prot: bv32, nxMask: Word) {
    && (e & 0x2 != 0 <==> prot & 2 != 0)
    && (e & 0x4 != 0 <==> prot & 8 != 0)
    && e & nxMask == if prot & 4 == 0 then nxMask else 0
  }

  /** A present entry for the frame at `at`, with these rights and nothing else. */
  predicate LeafAt(e: Word, at: nat, prot: bv32, nxMask: Word) {
    && Words.Value(e & 0x7fff_ffff_ffff_f000) == at
    && Allows(e, prot, nxMask) && e & 0x1 != 0 && e & 0xff8 == 0
    && (nxMask == 0 ==> e & 0x8000_0000_0000_0000 == 0)
  }

  /** The entry `was` with these rights, and otherwise as it was. */
  predicate RightsSet(was: Word, e: Word, prot: bv32, nxMask: Word) {
    Allows(e, prot, nxMask) && e & !(6 | nxMask) == was & !(6 | nxMask)
  }

  /** Pages `v .. v + n` are mapped with these rights, page by page from the page of `phys`
      on, as far as entries can hold the addresses. */
  ghost predicate MapsTo(mem: Memory, cr3: Frame, v: nat, n: nat, phys: Word, prot: bv32, nxMask: Word) {
    var start := Words.Value(phys) / 4096 * 4096;
    forall w: nat :: v <= w < v + n ==>
      && Translate(mem, cr3, w).Page?
      && (start + 4096 * (w - v) < 0x8000_0000_0000_0000 ==>
            LeafAt(Translate(mem, cr3, w).entry, start + 4096 * (w - v), prot, nxMask))
  }

  predicate NxOk(nxMask: Word) {
    nxMask == 0 || nxMask == NOEXEC
  }

  lemma ProtFlagBits(prot: bv32, nxMask: Word)
    requires NxOk(nxMask)
    ensures var f := PageProtFlags(prot, nxMask);
            && f & MMASK_PHYS == 0 && f & PRESENT == 0 && f & LARGE == 0
            && (PRESENT | f) & MMASK_PHYS == 0 && (PRESENT | f) & PRESENT != 0 && (PRESENT | f) & LARGE == 0
  {
  }

  /** Tables missing among `count` entries of a directory. */
  ghost function MissingIn(mem: Memory, x: Frame, start: nat, count: nat): nat
    requires start + count <= 512
  {
    if count == 0 then 0
    else MissingIn(mem, x, start, count - 1) + if LeadsOn(mem, x, start + count - 1) then 0 else 1
  }

  lemma {:induction false} MissingSame(mem: Memory, mem': Memory, x: Frame, start: nat, count: nat)
    requires start + count <= 512
    requires forall p :: start <= p < start + count ==> LeadsOn(mem', x, p) == LeadsOn(mem, x, p)
    ensures MissingIn(mem', x, start, count) == MissingIn(mem, x, start, count)
  {
    if count > 0 {
      MissingSame(mem, mem', x, start, count - 1);
    }
  }

  lemma {:induction false} MissingInZero(mem: Memory, x: Frame, start: nat, count: nat)
    requires start + count <= 512 && x in mem && mem[x] == ZeroTable()
    ensures MissingIn(mem, x, start, count) == count
  {
    if count > 0 {
      MissingInZero(mem, x, start, count - 1);
      ZeroNotPresent();
    }
  }

  /** Two tables at the same place are the same table. */
  lemma {:induction false} ReachesOnce(mem: Memory, f: Frame, path: Path, g: Frame, h: Frame)
    requires PathOk(path) && Reaches(mem, f, path, g) && Reaches(mem, f, path, h)
    ensures g == h
    decreases |path|
  {
    if path != [] {
      ReachesOnce(mem, FrameOf(mem[f][path[0]]), path[1..], g, h);
    }
  }

  lemma PlaceUnique(mem: Memory, cr3: Frame, places: Places, f: Frame, g: Frame)
    requires TreeOk(mem, cr3, places) && f in places && g in places && places[f] == places[g]
    ensures f == g
  {
    ReachesOnce(mem, cr3, places[f], f, g);
  }

  /** What the translation of a page says about an entry on its way. */
  lemma EntryOnTheWay(mem: Memory, cr3: Frame, places: Places, x: Frame, i: nat, w: nat)
    requires TreeOk(mem, cr3, places) && x in places && i < 512 && places[x] + [i] <= PathOf(w)
    ensures |places[x]| == 3 ==> Translate(mem, cr3, w) == LeafOf(mem[x][i])
    ensures |places[x]| < 3 && Translate(mem, cr3, w).Page? ==> LeadsOn(mem, x, i)
    ensures |places[x]| < 3 && !Translate(mem, cr3, w).Big? && Present(mem[x][i]) ==> LeadsOn(mem, x, i)
  {
    hide Present, Large, FrameOf;
    var p := PathOf(w);
    var rest := p[|places[x]|..];
    assert p == places[x] + rest && rest[0] == i;
    WalkThrough(mem, cr3, places[x], x, rest);
  }

  class Mmu {
    var mem: Memory
    const cr3: Frame
    var nxMask: Word
    var free: set<Frame>
    var ioSize: nat
    ghost var places: Places

    /** The tables are an unaliased tree and no free frame is one of them. */
    ghost predicate Valid()
      reads this`mem, this`nxMask, this`free, this`places
    {
      && TreeOk(mem, cr3, places)
      && free !! places.Keys
      && (forall f :: f in free ==> f in mem && Aligned(f))
      && NxOk(nxMask)
    }

    /** The kernel takes over tables that are a tree already. */
    constructor (mem: Memory, cr3: Frame, nxMask: Word, free: set<Frame>, ghost places: Places)
      requires TreeOk(mem, cr3, places) && free !! places.Keys && (forall f :: f in free ==> f in mem && Aligned(f))
               && NxOk(nxMask)
      ensures Valid() && this.mem == mem && this.cr3 == cr3 && this.nxMask == nxMask && this.free == free
              && this.places == places
    {
      this.mem := mem;
      this.cr3 := cr3;
      this.nxMask := nxMask;
      this.free := free;
      this.places := places;
      ioSize := 0;
    }

    /** `alloc_zero_page`; of `alloc_phys_pages` only that it hands out a free frame. */
    method AllocZeroPage() returns (page: Frame)
      requires Valid() && free != {}
      modifies this`mem, this`free
      ensures Valid() && page in old(free) && free == old(free) - {page}
      ensures mem == old(mem)[page := ZeroTable()]
      ensures forall w: nat :: Translate(mem, cr3, w) == Translate(old(mem), cr3, w)
      ensures Preserved(7, old(mem), places, {page}, mem, places)
    {
      page :| page in free;
      PreservedCleared(7, mem, cr3, places, page);
      ClearFrame(mem, cr3, places, page);
      free := free - {page};
      mem := mem[page := ZeroTable()];
    }

    /** `free_phys_pages` of one page; of it only that the frame is free again. */
    method FreePhysPage(page: Frame)
      requires Valid() && page in mem && Aligned(page) && page !in places && page !in free
      modifies this`free
      ensures Valid() && free == old(free) + {page} && |free| == |old(free)| + 1
    {
      hide TreeOk;
      free := free + {page};
    }

    /** One round of the loops of `kmap` and `kmapanon` over a directory. */
    method EnsureTable(x: Frame, i: nat)
      requires Valid() && x in places && x in mem && |places[x]| < 3 && i < 512
      requires Present(mem[x][i]) ==> !Large(mem[x][i])
      requires !Present(mem[x][i]) ==> free != {}
      modifies this`mem, this`free, this`places
      ensures Valid() && x in mem && LeadsOn(mem, x, i)
      ensures Grown(old(mem), mem, cr3, old(places), places, x)
      ensures LeadsOn(old(mem), x, i) ==> mem == old(mem) && free == old(free) && places == old(places)
      ensures !LeadsOn(old(mem), x, i) ==>
                var n := FrameOf(mem[x][i]);
                && n in old(free) && free == old(free) - {n} && n !in old(places)
                && places == old(places)[n := old(places)[x] + [i]]
                && LinkedAt(old(mem), mem, x, i, n, DIR_FLAGS)
      ensures Preserved(7, old(mem), old(places), old(free), mem, places)
    {
      hide TreeOk, LinksKept, Present, Large, FrameOf, LinkTable, SetEntry, TableEntry, Preserved;
      var tmp := mem[x][i];
      LeadsOnSame(mem, mem, x, i);
      PreservedSelf(7, mem, cr3, places, free);
      GrownSelf(mem, cr3, places, x);
      if !Present(tmp) {
        ghost var mem0, places0, free0 := mem, places, free;
        var n := AllocZeroPage();
        tmp := TableEntry(n, DIR_FLAGS);
        mem := mem[x := mem[x][i := tmp]];
        DirFlagBits();
        LinkTableOk(mem0, cr3, places0, x, i, n, DIR_FLAGS);
        LinkTableIs(mem0, mem, x, i, n, DIR_FLAGS);
        places := places[n := places[x] + [i]];
        GrownLinked(mem0, mem, cr3, places0, places, x, i, n, DIR_FLAGS);
        PreservedLinked(7, mem0, mem, cr3, places0, places, x, i, n, free0);
      }
    }

    /** The loop over a directory. */
    method EnsureTables(x: Frame, start: nat, count: nat)
      requires Valid() && x in places && x in mem && |places[x]| < 3 && start + count <= 512
      requires forall p :: start <= p < start + count && Present(mem[x][p]) ==> !Large(mem[x][p])
      requires |free| >= MissingIn(mem, x, start, count)
      modifies this`mem, this`free, this`places
      ensures Valid() && x in mem
      ensures forall p :: start <= p < start + count ==> LeadsOn(mem, x, p)
      ensures Grown(old(mem), mem, cr3, old(places), places, x)
      ensures |free| == |old(free)| - MissingIn(old(mem), x, start, count) && free <= old(free)
      ensures |places| == |old(places)| + MissingIn(old(mem), x, start, count)
      ensures forall p :: start <= p < start + count && !LeadsOn(old(mem), x, p) ==> EmptyBelow(mem, x, p)
      ensures Preserved(7, old(mem), old(places), old(free), mem, places)
    {
      hide Present, Large, FrameOf, TreeOk, LeadsOn, Reaches, LinksKept, LinkedAt, EmptyBelow, Swept, Grown, Preserved,
           Sweeping;
      ghost var mem0, places0, free0 := mem, places, free;
      SweepStart(mem, cr3, places, free, x, start, start + count);
      for k := start to start + count
        invariant Valid() && free <= free0
        invariant Sweeping(mem0, places0, free0, mem, places, cr3, x, start, k, start + count)
        invariant |free| == |free0| - MissingIn(mem0, x, start, k - start)
        invariant |places| == |places0| + MissingIn(mem0, x, start, k - start)
      {
        MissingMono(mem0, x, start, k + 1 - start, count);
        SweepNext(mem0, places0, free0, mem, places, cr3, x, start, k, start + count);
        ghost var mem1, places1, free1 := mem, places, free;
        EnsureTable(x, k);
        SweepOn(mem0, places0, free0, mem1, places1, free1, mem, places, cr3, x, start, k, start + count);
      }
      SweepEnd(mem0, places0, free0, mem, places, cr3, x, start, start + count);
    }

    // ---- The loops over page_iter_next ----

    /** Between two rounds: `j` reports have been dealt with, the pages of `entries` are
        done, and the iterator can go on. */
    ghost predicate Walking(it: PageIterator, mem0: Memory, v: nat, n: nat, j: nat, entries: seq<Word>)
      reads this, it
    {
      && Valid() && it.Tracks(places) && it.dir[3] == cr3
      && j <= LastPhase(n) && Progress(it.View(), v, n, j) && Way(mem, it.dir, v, n, j)
      && Overlay(mem0, mem, cr3, v, entries) && |entries| == DoneBy(v, n, j)
    }

    /** Tables that still have to be created. */
    ghost function Left(it: PageIterator, v: nat, n: nat, j: nat): nat
      reads this, it
    {
      if Way(mem, it.dir, v, n, j) then Need(mem, it.dir, v, n, j) else 0
    }

    /** Inside a round: the run `start .. start + count` of table `frame` is the `j`-th
        report and is still to be dealt with. */
    ghost predicate Arrived(it: PageIterator, mem0: Memory, v: nat, n: nat, j: nat, entries: seq<Word>,
                            depth: nat, frame: Frame, start: nat, count: int)
      reads this, it
    {
      && Valid() && it.Tracks(places) && it.dir[3] == cr3
      && 1 <= j <= LastPhase(n) && Progress(it.View(), v, n, j) && Way(mem, it.dir, v, n, j - 1)
      && Overlay(mem0, mem, cr3, v, entries) && |entries| == DoneBy(v, n, j - 1)
      && frame in places && frame in mem && depth < 4 && frame == it.dir[depth]
      && Report(v, n, j) == Chunk(depth, places[frame], start, count)
      && count >= 0 && start + count <= 512 && |places[frame]| == 3 - depth
      && (j == 2 ==> n > 0 && frame == FrameOf(mem[it.dir[3]][Offsets(v)[3]]))
      && (j == 3 ==> n > 0 && frame == FrameOf(mem[it.dir[2]][Offsets(v)[2]]))
    }

    method NextRun(it: PageIterator, ghost mem0: Memory, ghost v: nat, ghost n: nat, ghost j: nat,
                   ghost entries: seq<Word>)
        returns (done: bool, depth: nat, frame: Frame, start: nat, count: int)
      requires Walking(it, mem0, v, n, j, entries) && Regular(v, n)
      modifies it
      ensures done <==> j == LastPhase(n)
      ensures !done ==> Arrived(it, mem0, v, n, j + 1, entries, depth, frame, start, count)
      ensures !done ==> depth == if j >= 3 then 0 else 3 - j
      ensures !done ==> Left(it, v, n, j) == old(Left(it, v, n, j))
      ensures done || j >= 3 ==> old(Left(it, v, n, j)) == 0
      ensures done ==> |entries| == n
    {
      hide Step, TreeOk, LeadsOn, Overlay, FrameOf, Progress, PathOf, Report, Need, Way, Translate;
      BeforeNext(it, mem, places, v, n, j);
      NothingLeft(mem, it.dir, v, n, j);
      ghost var dir0 := it.dir;
      done, depth, frame, start, count := it.Next(mem, cr3, places);
      if !done {
        InMemory(mem, cr3, places, frame);
        WayDir(mem, dir0, it.dir, v, n, j);
        if j == 1 || j == 2 {
          EnteredBelow(mem, cr3, places, dir0, v, n, j, frame);
        }
      }
    }

    /** A round of `kmap` or `kmapanon` on a directory: every entry above the range gets a
        table. */
    method DirRun(it: PageIterator, depth: nat, frame: Frame, start: nat, count: int, ghost mem0: Memory,
                  ghost v: nat, ghost n: nat, ghost j: nat)
      requires Regular(v, n) && 1 <= j <= 3 && depth == 4 - j
      requires Arrived(it, mem0, v, n, j, [], depth, frame, start, count)
      requires NoBig(mem0, cr3, v, n)
      requires |free| >= Left(it, v, n, j - 1)
      modifies this`mem, this`free, this`places
      ensures Walking(it, mem0, v, n, j, [])
      ensures |free| == |old(free)| - old(Left(it, v, n, j - 1)) + Left(it, v, n, j)
      ensures |places| == |old(places)| + old(Left(it, v, n, j - 1)) - Left(it, v, n, j)
      ensures free <= old(free) && old(places).Keys <= places.Keys
      ensures Preserved(7, old(mem), old(places), old(free), mem, places)
    {
      hide TreeOk, LeadsOn, FrameOf, Progress, PathOf, Report, Need, Way, Translate, Grown, Overlay, EmptyBelow,
           MissingIn, Preserved;
      ghost var m, pl := mem, places;
      NoLargeAhead(mem0, mem, cr3, places, v, n, j, frame, start, count);
      MissingHere(mem, cr3, places, it.dir, v, n, j, frame, start, count);
      DirPlaces(it, places, v, n, j);
      EnsureTables(frame, start, count);
      TracksMore(it, cr3, pl, places, m, mem, frame);
      AfterDirs(m, mem, cr3, pl, places, it.dir, v, n, j, frame, start, count);
      GrownOverlay(mem0, m, mem, cr3, pl, places, v, frame);
    }

    /** A round on a page table stores one entry at a time. */
    method StoreLeaf(it: PageIterator, frame: Frame, i: nat, e: Word, ghost mem0: Memory,
                     ghost v: nat, ghost n: nat, ghost j: nat, ghost entries: seq<Word>)
      requires Valid() && frame in places && |places[frame]| == 3 && i < 512 && frame in mem
      requires it.Tracks(places) && Way(mem, it.dir, v, n, j) && j >= 3 && Progress(it.View(), v, n, j)
      requires Overlay(mem0, mem, cr3, v, entries) && places[frame] + [i] == PathOf(v + |entries|)
      requires (v + |entries|) / PAGES == v / PAGES
      modifies this`mem
      ensures Valid() && mem == SetEntry(old(mem), frame, i, e)
      ensures Way(mem, it.dir, v, n, j)
      ensures Overlay(mem0, mem, cr3, v, entries + [e])
      ensures Preserved(7, old(mem), places, {}, mem, places)
    {
      hide TreeOk, LeadsOn, PathOf, Translate, Overlay, LeafOf, Way;
      PreservedStored(7, mem, cr3, places, frame, i, e);
      hide Preserved;
      OverlayNext(mem0, mem, cr3, places, v, entries, frame, i, e);
      WayStored(it, mem, places, v, n, j, frame, i, e);
      mem := mem[frame := mem[frame][i := e]];
    }

    /** The round of `kmap` on a page table. */
    method KmapLeaves(it: PageIterator, frame: Frame, start: nat, count: int, phys: Word, flags: Word,
                      ghost mem0: Memory, ghost v: nat, ghost n: nat, ghost j: nat, ghost entries: seq<Word>,
                      ghost p0: Word)
        returns (p: Word, ghost entries': seq<Word>)
      requires Regular(v, n) && j >= 4 && Arrived(it, mem0, v, n, j, entries, 0, frame, start, count)
      requires phys == PhysAt(p0, |entries|)
      requires forall i :: 0 <= i < |entries| ==> entries[i] == KmapEntry(p0, flags, i)
      modifies this`mem
      ensures Walking(it, mem0, v, n, j, entries') && Left(it, v, n, j) == 0
      ensures p == PhysAt(p0, |entries'|)
      ensures forall i :: 0 <= i < |entries'| ==> entries'[i] == KmapEntry(p0, flags, i)
      ensures Preserved(7, old(mem), places, {}, mem, places)
    {
      hide TreeOk, Progress, Report, Way, Translate, LeafOf, Overlay, PathOf, Regular, KmapEntry, PhysAt, DoneBy,
           Preserved;
      p, entries' := phys, entries;
      PreservedSelf(7, mem, cr3, places, {});
      WayOn(mem, it.dir, v, n, j - 1);
      for i := 0 to count
        invariant Valid() && it.Tracks(places) && Progress(it.View(), v, n, j) && Way(mem, it.dir, v, n, j)
        invariant frame in mem && Overlay(mem0, mem, cr3, v, entries') && |entries'| == DoneBy(v, n, j - 1) + i
        invariant p == PhysAt(p0, |entries'|)
        invariant forall i :: 0 <= i < |entries'| ==> entries'[i] == KmapEntry(p0, flags, i)
        invariant Preserved(7, old(mem), places, {}, mem, places)
      {
        ghost var mem1 := mem;
        LeafHere(v, n, j, places[frame], start, count, i);
        var tmp := p | (PRESENT | flags);
        KmapEntryIs(p0, flags, |entries'|, p);
        StoreLeaf(it, frame, start + i, tmp, mem0, v, n, j, entries');
        PreservedOn(7, old(mem), places, {}, mem1, places, {}, mem, places);
        entries' := entries' + [tmp];
        p := p + 4096;
      }
      LeavesDone(v, n, j, places[frame], start, count);
      NothingLeft(mem, it.dir, v, n, j);
    }

    /** Maps a range to consecutive physical pages. */
    method KmapRange(addr: nat, phys: Word, size: nat, prot: bv32)
      requires Valid()
      requires StaysInside(addr, size)
      requires NoBig(mem, cr3, addr / 4096, PagesVisited(addr, size))
      requires |free| >= TablesMissing(mem, cr3, addr / 4096, PagesVisited(addr, size))
      modifies this`mem, this`free, this`places
      ensures Valid()
      ensures var v, n, flags := addr / 4096, PagesVisited(addr, size), PageProtFlags(prot, nxMask);
              forall w: nat :: w / PAGES == v / PAGES ==>
                Translate(mem, cr3, w) ==
                if v <= w < v + n then Page(KmapEntry(PageBase(phys), flags, w - v)) else Translate(old(mem), cr3, w)
      ensures var missing := old(TablesMissing(mem, cr3, addr / 4096, PagesVisited(addr, size)));
              |free| == |old(free)| - missing && |places| == |old(places)| + missing
      ensures Preserved(7, old(mem), old(places), old(free), mem, places)
    {
      hide PageBase, PagesVisited, StaysInside, Valid, Walking, Arrived, Left, Translate, Overlay, Regular, NoBig,
           KmapEntry, TablesMissing, PhysAt, Preserved;
      ghost var v, n, mem0, places0, free0 := addr / 4096, PagesVisited(addr, size), mem, places, free;
      PreservedAtFirst(this);
      var flags := PageProtFlags(prot, nxMask);
      var p := PageBase(phys);
      ghost var p0, need0 := p, TablesMissing(mem, cr3, v, n);
      RootPlace(this);
      var it := new PageIterator(cr3, addr, size, places);
      ghost var j, entries := 0, [];
      StartRange(it, this, addr, size);
      PhysStart(p0);
      while true
        invariant fresh(it) && Walking(it, mem0, v, n, j, entries) && j <= LastPhase(n)
        invariant j < 3 ==> entries == []
        invariant p == PhysAt(p0, |entries|) && free <= free0 && Preserved(7, mem0, places0, free0, mem, places)
        invariant forall i :: 0 <= i < |entries| ==> entries[i] == KmapEntry(p0, flags, i)
        invariant |free| == |old(free)| - need0 + Left(it, v, n, j)
        invariant |places| == |old(places)| + need0 - Left(it, v, n, j)
        decreases LastPhase(n) - j
      {
        WalkingFacts(it, this, mem0, v, n, j, entries);
        var done, depth, frame, start, count := NextRun(it, mem0, v, n, j, entries);
        if done {
          break;
        }
        ghost var mem1, places1, free1 := mem, places, free;
        if depth != 0 {
          DirRun(it, depth, frame, start, count, mem0, v, n, j + 1);
        } else {
          p, entries := KmapLeaves(it, frame, start, count, p, flags, mem0, v, n, j + 1, entries, p0);
          PreservedMore(mem1, places1, free1, mem, places);
        }
        PreservedOn(7, mem0, places0, free0, mem1, places1, free1, mem, places);
        j := j + 1;
        WalkingFacts(it, this, mem0, v, n, j, entries);
      }
      KmapDone(mem0, mem, cr3, v, n, p0, flags, entries);
    }

    /** `io_alloc`: address space behind all that was handed out before. */
    method IoAlloc(size: nat) returns (addr: nat)
      modifies this`ioSize
      ensures addr == IO_BASE + old(ioSize) == 0xffff_c000_0000_0000 + old(ioSize)
      ensures addr + size <= IO_BASE + ioSize
      ensures old(ioSize) % 4096 == 0 ==> ioSize % 4096 == 0 && ioSize < old(ioSize) + size + 4096
    {
      var rounded := (size + 4095) / 4096 * 4096;
      addr := IO_BASE + ioSize;
      ioSize := ioSize + rounded;
    }

    /** Where `kmap` maps to: the null address asks for new address space. */
    function Target(addr: nat): nat
      reads this`ioSize
    {
      if addr == 0 then IO_BASE + ioSize else addr
    }

    /** `kmap` */
    method Kmap(addr: nat, phys: Word, size: nat, prot: bv32) returns (r: nat)
      requires Valid() && StaysInside(Target(addr), size)
      requires NoBig(mem, cr3, Target(addr) / 4096, PagesVisited(Target(addr), size))
      requires |free| >= TablesMissing(mem, cr3, Target(addr) / 4096, PagesVisited(Target(addr), size))
      modifies this`mem, this`free, this`places, this`ioSize
      ensures Valid() && r == old(Target(addr)) && (addr != 0 ==> ioSize == old(ioSize))
      ensures addr == 0 ==> r + size <= IO_BASE + ioSize
      ensures var v, n, flags := r / 4096, PagesVisited(r, size), PageProtFlags(prot, nxMask);
              forall w: nat :: w / PAGES == v / PAGES ==>
                Translate(mem, cr3, w) ==
                if v <= w < v + n then Page(KmapEntry(PageBase(phys), flags, w - v)) else Translate(old(mem), cr3, w)
      ensures MapsTo(mem, cr3, r / 4096, PagesVisited(r, size), phys, prot, nxMask)
      ensures var missing := old(TablesMissing(mem, cr3, Target(addr) / 4096, PagesVisited(Target(addr), size)));
              |free| == |old(free)| - missing && |places| == |old(places)| + missing
      ensures Preserved(7, old(mem), old(places), old(free), mem, places)
    {
      hide PageBase, PagesVisited, StaysInside, Valid, Translate, NoBig, KmapEntry, TablesMissing, Preserved, MapsTo,
           PageProtFlags, Words.Value;
      r := addr;
      if addr == 0 {
        r := IoAlloc(size);
      }
      KmapRange(r, phys, size, prot);
      NxIs(this);
      VisitedInHalf(r, size);
      KmapLeavesAre(mem, cr3, r / 4096, PagesVisited(r, size), phys, prot, nxMask);
    }

    /** One page of the round of `kmapanon` on a page table: a cleared frame of its own. */
    method AnonLeaf(it: PageIterator, frame: Frame, p: nat, flags: Word,
                    ghost mem0: Memory, ghost v: nat, ghost n: nat, ghost j: nat,
                    ghost free0: set<Frame>, ghost frames: seq<Frame>)
        returns (ghost page: Frame)
      requires Valid() && it.Tracks(places) && j >= 3 && Progress(it.View(), v, n, j) && Way(mem, it.dir, v, n, j)
      requires frame in places && frame in mem && |places[frame]| == 3 && p < 512 && free != {}
      requires places[frame] + [p] == PathOf(v + |frames|) && (v + |frames|) / PAGES == v / PAGES
      requires Overlay(mem0, mem, cr3, v, AnonEntries(frames, flags)) && FreshFrames(free0, free, places, mem, frames)
      modifies this`mem, this`free
      ensures Valid() && Way(mem, it.dir, v, n, j) && frame in mem && page in old(free) && free == old(free) - {page}
      ensures Overlay(mem0, mem, cr3, v, AnonEntries(frames + [page], flags))
      ensures FreshFrames(free0, free, places, mem, frames + [page])
      ensures Preserved(7, old(mem), places, old(free), mem, places)
    {
      hide TreeOk, Progress, Way, Translate, LeafOf, Overlay, PathOf, FreshFrames, Preserved;
      ghost var m, fr := mem, free;
      PreservedSelf(7, mem, cr3, places, free);
      var f := AllocZeroPage();
      page := f;
      PreservedOn(7, m, places, fr, m, places, {page}, mem, places);
      WayCleared(it, m, places, v, n, j, page);
      OverlaySame(mem0, m, mem, cr3, v, AnonEntries(frames, flags));
      var tmp := f.addr | (PRESENT | flags);
      ghost var m1 := mem;
      StoreLeaf(it, frame, p, tmp, mem0, v, n, j, AnonEntries(frames, flags));
      PreservedOn(7, m, places, fr, m1, places, {}, mem, places);
      OneMoreFrame(free0, fr, places, m, frames, page, frame, mem);
      AnonNext(frames, page, flags);
    }

    /** The round of `kmapanon` on a page table: a cleared frame for every page. */
    method AnonLeaves(it: PageIterator, frame: Frame, start: nat, count: int, flags: Word,
                      ghost mem0: Memory, ghost v: nat, ghost n: nat, ghost j: nat,
                      ghost free0: set<Frame>, ghost frames: seq<Frame>)
        returns (ghost frames': seq<Frame>)
      requires Regular(v, n) && j >= 4 && flags & PRESENT == 0 && flags & MMASK_PHYS == 0
      requires Arrived(it, mem0, v, n, j, AnonEntries(frames, flags), 0, frame, start, count)
      requires FreshFrames(free0, free, places, mem, frames) && |free| >= n - |frames|
      modifies this`mem, this`free
      ensures Walking(it, mem0, v, n, j, AnonEntries(frames', flags)) && Left(it, v, n, j) == 0
      ensures FreshFrames(free0, free, places, mem, frames')
      ensures |free| + |frames'| == |old(free)| + |frames| && free <= old(free)
      ensures Preserved(7, old(mem), places, old(free), mem, places)
    {
      hide TreeOk, Progress, Report, Way, Translate, LeafOf, Overlay, PathOf, Regular, DoneBy, FreshFrames, Preserved;
      frames' := frames;
      PreservedSelf(7, mem, cr3, places, free);
      WayOn(mem, it.dir, v, n, j - 1);
      for i := 0 to count
        invariant Valid() && it.Tracks(places) && Progress(it.View(), v, n, j) && Way(mem, it.dir, v, n, j)
        invariant frame in mem && Overlay(mem0, mem, cr3, v, AnonEntries(frames', flags))
        invariant |frames'| == DoneBy(v, n, j - 1) + i
        invariant FreshFrames(free0, free, places, mem, frames')
        invariant |free| + |frames'| == |old(free)| + |frames| && free <= old(free)
        invariant Preserved(7, old(mem), places, old(free), mem, places)
      {
        LeafHere(v, n, j, places[frame], start, count, i);
        ghost var m, fr := mem, free;
        ghost var page := AnonLeaf(it, frame, start + i, flags, mem0, v, n, j, free0, frames');
        PreservedOn(7, old(mem), places, old(free), m, places, fr, mem, places);
        frames' := frames' + [page];
      }
      LeavesDone(v, n, j, places[frame], start, count);
      NothingLeft(mem, it.dir, v, n, j);
    }

    /** Maps a range to cleared frames of its own. */
    method Kmapanon(addr: nat, size: nat, prot: bv32) returns (r: nat, ghost frames: seq<Frame>)
      requires Valid()
      requires StaysInside(addr, size)
      requires NoBig(mem, cr3, addr / 4096, PagesVisited(addr, size))
      requires |free| >= TablesMissing(mem, cr3, addr / 4096, PagesVisited(addr, size)) + PagesVisited(addr, size)
      modifies this`mem, this`free, this`places
      ensures Valid() && r == addr
      ensures |frames| == PagesVisited(addr, size) && FreshFrames(old(free), free, places, mem, frames)
      ensures var v, n, flags := addr / 4096, PagesVisited(addr, size), PageProtFlags(prot, nxMask);
              forall w: nat :: w / PAGES == v / PAGES ==>
                Translate(mem, cr3, w) ==
                if v <= w < v + n then Page(AnonEntry(frames[w - v], flags)) else Translate(old(mem), cr3, w)
      ensures var missing := old(TablesMissing(mem, cr3, addr / 4096, PagesVisited(addr, size)));
              |free| == |old(free)| - missing - |frames| && |places| == |old(places)| + missing
      ensures Preserved(7, old(mem), old(places), old(free), mem, places)
      ensures forall w: nat :: addr / 4096 <= w < addr / 4096 + PagesVisited(addr, size) ==>
                && Translate(mem, cr3, w).Page?
                && LeafAt(Translate(mem, cr3, w).entry, Words.Value(frames[w - addr / 4096].addr), prot, nxMask)
    {
      hide PagesVisited, StaysInside, Valid, Walking, Arrived, Left, Translate, Overlay, Regular, NoBig, TablesMissing,
           PageProtFlags, AnonEntry, FreshFrames, Preserved, LeafAt, Words.Value;
      ghost var v, n, mem0, places0, free0 := addr / 4096, PagesVisited(addr, size), mem, places, free;
      PreservedAtFirst(this);
      var flags := PageProtFlags(prot, nxMask);
      FlagsOf(this, prot);
      ghost var need0 := TablesMissing(mem, cr3, v, n);
      RootPlace(this);
      var it := new PageIterator(cr3, addr, size, places);
      ghost var j := 0;
      frames := [];
      StartRange(it, this, addr, size);
      NoFrames(free0, free, places, mem);
      assert AnonEntries([], flags) == [];
      while true
        invariant fresh(it) && Walking(it, mem0, v, n, j, AnonEntries(frames, flags)) && j <= LastPhase(n)
        invariant j < 3 ==> frames == []
        invariant free <= free0 && Preserved(7, mem0, places0, free0, mem, places)
        invariant FreshFrames(free0, free, places, mem, frames)
        invariant |free| == |old(free)| - need0 + Left(it, v, n, j) - |frames|
        invariant |places| == |old(places)| + need0 - Left(it, v, n, j)
        decreases LastPhase(n) - j
      {
        WalkingFacts(it, this, mem0, v, n, j, AnonEntries(frames, flags));
        var done, depth, frame, start, count := NextRun(it, mem0, v, n, j, AnonEntries(frames, flags));
        if done {
          break;
        }
        ghost var mem1, places1, free1 := mem, places, free;
        if depth != 0 {
          DirRun(it, depth, frame, start, count, mem0, v, n, j + 1);
          NoFrames(free0, free, places, mem);
        } else {
          frames := AnonLeaves(it, frame, start, count, flags, mem0, v, n, j + 1, free0, frames);
        }
        PreservedOn(7, mem0, places0, free0, mem1, places1, free1, mem, places);
        j := j + 1;
        WalkingFacts(it, this, mem0, v, n, j, AnonEntries(frames, flags));
      }
      AnonDone(mem0, mem, cr3, v, n, flags, frames);
      VisitedInHalf(addr, size);
      AnonLeavesAre(this, v, n, prot, free0, frames);
      r := addr;
    }

    /** A round of `kunmapanon` or `kmprotect` on a directory does nothing. */
    method PassDirectory(it: PageIterator, ghost depth: nat, ghost frame: Frame, ghost start: nat, ghost count: int,
                         ghost mem0: Memory,
                         ghost v: nat, ghost n: nat, ghost j: nat)
      requires Regular(v, n) && 1 <= j <= 3 && depth == 4 - j
      requires Arrived(it, mem0, v, n, j, [], depth, frame, start, count)
      requires AllMapped(mem0, cr3, v, n)
      ensures Walking(it, mem0, v, n, j, [])
    {
      hide TreeOk, LeadsOn, FrameOf, Progress, PathOf, Report, Way, Translate, Overlay;
      MappedAhead(mem0, mem, cr3, places, v, n, j, frame, start, count);
      DirPlaces(it, places, v, n, j);
      WayPassed(mem, places, it.dir, v, n, j, frame, start, count);
    }

    /** One page of the round of `kunmapanon` on a page table: free its frame, clear its entry. */
    method UnmapLeaf(it: PageIterator, frame: Frame, p: nat,
                     ghost mem0: Memory, ghost v: nat, ghost n: nat, ghost j: nat, ghost free0: set<Frame>,
                     ghost d: nat)
      requires Valid() && it.Tracks(places) && j >= 3 && Progress(it.View(), v, n, j) && Way(mem, it.dir, v, n, j)
      requires frame in places && frame in mem && |places[frame]| == 3 && p < 512
               && places[frame] + [p] == PathOf(v + d)
      requires Regular(v, n) && d < n && (v + d) / PAGES == v / PAGES
      requires AllMapped(mem0, cr3, v, n) && Overlay(mem0, mem, cr3, v, Zeros(d))
      requires free == free0 + LeafFrames(mem0, cr3, v, d) && |free| == |free0| + d
      requires CanFree(mem0, cr3, places, free0, v, n)
      requires Preserved(7, mem0, places, {}, mem, places)
      modifies this`mem, this`free
      ensures Valid() && Way(mem, it.dir, v, n, j) && frame in mem && Overlay(mem0, mem, cr3, v, Zeros(d + 1))
      ensures free == free0 + LeafFrames(mem0, cr3, v, d + 1) && |free| == |free0| + d + 1
      ensures Preserved(7, mem0, places, {}, mem, places)
    {
      hide TreeOk, Progress, Way, Translate, LeafOf, Overlay, PathOf, Regular, AllMapped, LeafFrame, CanFree,
           LeafFrames, FrameOf, Aligned, Preserved;
      MemoryStays(mem0, mem, places);
      ghost var mem1 := mem;
      OldLeaf(mem0, mem, cr3, places, v, n, Zeros(d), frame, p);
      var tmp := FrameOf(mem[frame][p]);
      FreeNext(mem0, cr3, places, free0, free, v, n, d);
      FreePhysPage(tmp);
      StoreLeaf(it, frame, p, 0, mem0, v, n, j, Zeros(d));
      PreservedOn(7, mem0, places, {}, mem1, places, {}, mem, places);
      ZerosNext(d);
    }

    /** The round of `kunmapanon` on a page table. */
    method UnmapLeaves(it: PageIterator, frame: Frame, start: nat, count: int,
                       ghost mem0: Memory, ghost v: nat, ghost n: nat, ghost j: nat,
                       ghost free0: set<Frame>, ghost d0: nat)
        returns (ghost d: nat)
      requires Regular(v, n) && j >= 4 && AllMapped(mem0, cr3, v, n)
      requires Arrived(it, mem0, v, n, j, Zeros(d0), 0, frame, start, count)
      requires d0 <= n && free == free0 + LeafFrames(mem0, cr3, v, d0)
      requires CanFree(mem0, cr3, places, free0, v, n) && |free| == |free0| + d0
      requires Preserved(7, mem0, places, {}, mem, places)
      modifies this`mem, this`free
      ensures d <= n && Walking(it, mem0, v, n, j, Zeros(d))
      ensures free == free0 + LeafFrames(mem0, cr3, v, d)
      ensures |free| == |free0| + d
      ensures Preserved(7, mem0, places, {}, mem, places)
    {
      hide TreeOk, Progress, Report, Way, Translate, LeafOf, Overlay, PathOf, Regular, DoneBy, AllMapped, LeafFrame,
           CanFree, LeafFrames, FrameOf, Aligned, Preserved;
      d := d0;
      WayOn(mem, it.dir, v, n, j - 1);
      for i := 0 to count
        invariant Valid() && it.Tracks(places) && Progress(it.View(), v, n, j) && Way(mem, it.dir, v, n, j)
        invariant frame in mem && Overlay(mem0, mem, cr3, v, Zeros(d)) && d == DoneBy(v, n, j - 1) + i && d <= n
        invariant free == free0 + LeafFrames(mem0, cr3, v, d)
        invariant |free| == |free0| + d
        invariant Preserved(7, mem0, places, {}, mem, places)
      {
        LeafHere(v, n, j, places[frame], start, count, i);
        UnmapLeaf(it, frame, start + i, mem0, v, n, j, free0, d);
        d := d + 1;
      }
      LeavesDone(v, n, j, places[frame], start, count);
    }

    /** Unmaps a range and frees the frame of every page. */
    method Kunmapanon(addr: nat, size: nat)
      requires Valid()
      requires StaysInside(addr, size)
      requires AllMapped(mem, cr3, addr / 4096, PagesVisited(addr, size))
      requires CanFree(mem, cr3, places, free, addr / 4096, PagesVisited(addr, size))
      modifies this`mem, this`free
      ensures Valid()
      ensures var v, n := addr / 4096, PagesVisited(addr, size);
              && (forall w: nat :: w / PAGES == v / PAGES ==>
                    Translate(mem, cr3, w) == if v <= w < v + n then NotMapped else Translate(old(mem), cr3, w))
              && free == old(free) + LeafFrames(old(mem), cr3, v, n)
              && |free| == |old(free)| + n
      ensures Preserved(7, old(mem), places, {}, mem, places)
    {
      hide PagesVisited, StaysInside, Valid, Walking, Arrived, Left, Translate, Overlay, Regular, AllMapped, LeafFrame,
           CanFree, LeafFrames, Preserved;
      PreservedNothing(this);
      ghost var v, n, mem0, free0 := addr / 4096, PagesVisited(addr, size), mem, free;
      RootPlace(this);
      var it := new PageIterator(cr3, addr, size, places);
      ghost var j, d: nat := 0, 0;
      StartRange(it, this, addr, size);
      assert Zeros(0) == [] && LeafFrames(mem0, cr3, v, 0) == {} by { NoLeaves(mem0, cr3, v); }
      while true
        invariant fresh(it) && d <= n && Walking(it, mem0, v, n, j, Zeros(d)) && j <= LastPhase(n)
        invariant j < 3 ==> d == 0
        invariant free == free0 + LeafFrames(mem0, cr3, v, d)
        invariant |free| == |free0| + d
        invariant Preserved(7, mem0, places, {}, mem, places)
        decreases LastPhase(n) - j
      {
        WalkingFacts(it, this, mem0, v, n, j, Zeros(d));
        var done, depth, frame, start, count := NextRun(it, mem0, v, n, j, Zeros(d));
        if done {
          break;
        }
        if depth == 0 {
          d := UnmapLeaves(it, frame, start, count, mem0, v, n, j + 1, free0, d);
        } else {
          PassDirectory(it, depth, frame, start, count, mem0, v, n, j + 1);
        }
        j := j + 1;
        WalkingFacts(it, this, mem0, v, n, j, Zeros(d));
      }
      UnmapDone(mem0, mem, cr3, v, n);
    }

    /** The round of `kmprotect` on a page table. */
    method ProtectLeaves(it: PageIterator, frame: Frame, start: nat, count: int, mask: Word, flags: Word,
                         ghost mem0: Memory, ghost v: nat, ghost n: nat, ghost j: nat, ghost entries: seq<Word>)
        returns (ghost entries': seq<Word>)
      requires Regular(v, n) && j >= 4 && AllMapped(mem0, cr3, v, n)
      requires Arrived(it, mem0, v, n, j, entries, 0, frame, start, count)
      requires Protected(mem0, cr3, v, mask, flags, entries)
      modifies this`mem
      ensures Walking(it, mem0, v, n, j, entries') && Protected(mem0, cr3, v, mask, flags, entries')
      ensures Preserved(7, old(mem), places, {}, mem, places)
    {
      hide TreeOk, Progress, Report, Way, Translate, LeafOf, Overlay, PathOf, Regular, DoneBy, AllMapped, LeafFrame,
           FrameOf, Protected, Preserved;
      PreservedNothing(this);
      entries' := entries;
      WayOn(mem, it.dir, v, n, j - 1);
      for i := 0 to count
        invariant Valid() && it.Tracks(places) && Progress(it.View(), v, n, j) && Way(mem, it.dir, v, n, j)
        invariant frame in mem && Overlay(mem0, mem, cr3, v, entries') && |entries'| == DoneBy(v, n, j - 1) + i
        invariant Protected(mem0, cr3, v, mask, flags, entries') && Preserved(7, old(mem), places, {}, mem, places)
      {
        ghost var mem1 := mem;
        LeafHere(v, n, j, places[frame], start, count, i);
        OldLeaf(mem0, mem, cr3, places, v, n, entries', frame, start + i);
        var tmp := mem[frame][start + i];
        ProtectedNext(mem0, cr3, v, mask, flags, entries', tmp);
        tmp := tmp & mask;
        tmp := tmp | flags;
        StoreLeaf(it, frame, start + i, tmp, mem0, v, n, j, entries');
        PreservedOn(7, old(mem), places, {}, mem1, places, {}, mem, places);
        entries' := entries' + [tmp];
      }
      LeavesDone(v, n, j, places[frame], start, count);
    }

    /** Changes the protection of a mapped range. */
    method Kmprotect(addr: nat, size: nat, prot: bv32)
      requires Valid()
      requires StaysInside(addr, size)
      requires AllMapped(mem, cr3, addr / 4096, PagesVisited(addr, size))
      modifies this`mem
      ensures Valid() && Preserved(7, old(mem), places, {}, mem, places)
      ensures var v, n, flags := addr / 4096, PagesVisited(addr, size), PageProtFlags(prot, nxMask);
              forall w: nat :: w / PAGES == v / PAGES ==>
                var was := Translate(old(mem), cr3, w);
                if v <= w < v + n then
                  was.Page? && Translate(mem, cr3, w) == Page(Reprotect(was.entry, ProtMask(nxMask), flags))
                else Translate(mem, cr3, w) == was
      ensures forall w: nat :: addr / 4096 <= w < addr / 4096 + PagesVisited(addr, size) ==>
                && Translate(mem, cr3, w).Page? && Translate(old(mem), cr3, w).Page?
                && RightsSet(Translate(old(mem), cr3, w).entry, Translate(mem, cr3, w).entry, prot, nxMask)
    {
      hide PagesVisited, StaysInside, Valid, Walking, Arrived, Left, Translate, Overlay, Regular, AllMapped,
           PageProtFlags, ProtMask, Reprotect, Protected, RightsSet, Preserved;
      PreservedNothing(this);
      ghost var v, n, mem0 := addr / 4096, PagesVisited(addr, size), mem;
      var mask := ProtMask(nxMask);
      var flags := PageProtFlags(prot, nxMask);
      RootPlace(this);
      var it := new PageIterator(cr3, addr, size, places);
      ghost var j, entries := 0, [];
      StartRange(it, this, addr, size);
      NoneProtected(mem0, cr3, v, mask, flags);
      while true
        invariant fresh(it) && Walking(it, mem0, v, n, j, entries) && j <= LastPhase(n)
        invariant j < 3 ==> entries == []
        invariant Protected(mem0, cr3, v, mask, flags, entries) && Preserved(7, mem0, places, {}, mem, places)
        decreases LastPhase(n) - j
      {
        WalkingFacts(it, this, mem0, v, n, j, entries);
        var done, depth, frame, start, count := NextRun(it, mem0, v, n, j, entries);
        if done {
          break;
        }
        ghost var mem1 := mem;
        if depth == 0 {
          entries := ProtectLeaves(it, frame, start, count, mask, flags, mem0, v, n, j + 1, entries);
          PreservedOn(7, mem0, places, {}, mem1, places, {}, mem, places);
        } else {
          PassDirectory(it, depth, frame, start, count, mem0, v, n, j + 1);
        }
        j := j + 1;
        WalkingFacts(it, this, mem0, v, n, j, entries);
      }
      ProtectDone(this, mem0, v, n, mask, flags, entries, prot);
      VisitedInHalf(addr, size);
      ProtectedAre(this, mem0, v, n, prot);
    }

    /** `kmapanon` and then `kunmapanon` of an unmapped range: every translation is as it
        was, and of the frames taken only the tables that were missing stay taken. */
    method MapThenUnmap(addr: nat, size: nat, prot: bv32)
      requires Valid()
      requires StaysInside(addr, size)
      requires forall w: nat :: addr / 4096 <= w < addr / 4096 + PagesVisited(addr, size) ==>
                 Translate(mem, cr3, w) == NotMapped
      requires |free| >= TablesMissing(mem, cr3, addr / 4096, PagesVisited(addr, size)) + PagesVisited(addr, size)
      modifies this`mem, this`free, this`places
      ensures Valid()
      ensures forall w: nat :: w / PAGES == addr / 4096 / PAGES ==>
                Translate(mem, cr3, w) == Translate(old(mem), cr3, w)
      ensures var missing := old(TablesMissing(mem, cr3, addr / 4096, PagesVisited(addr, size)));
              |free| == |old(free)| - missing && |places| == |old(places)| + missing
      ensures free <= old(free) && Preserved(7, old(mem), old(places), old(free), mem, places)
    {
      hide PagesVisited, StaysInside, Valid, Translate, Regular, TablesMissing, PageProtFlags, AnonEntry, FreshFrames,
           AllMapped, CanFree, LeafFrames, Preserved, LeafAt, Words.Value;
      PreservedAtFirst(this);
      ghost var v, n, mem0, places0, free0 := addr / 4096, PagesVisited(addr, size), mem, places, free;
      var r, frames := Kmapanon(addr, size, prot);
      ghost var mem1, places1 := mem, places;
      FlagsOf(this, prot);
      AnonCanFree(mem, cr3, places, free0, free, v, n, PageProtFlags(prot, nxMask), frames);
      Kunmapanon(addr, size);
      PreservedOn(7, mem0, places0, free0, mem1, places1, {}, mem, places);
      RangeInHalf(v, n);
    }
  }

  /** Entries `start .. k` of `x` lead on now, to empty tables where they did not before,
      and those up to `end` are as they were. */
  ghost predicate Swept(mem0: Memory, mem: Memory, x: Frame, start: nat, k: nat, end: nat) {
    && start <= k <= end <= 512 && x in mem0 && x in mem
    && (forall p :: start <= p < k ==> LeadsOn(mem, x, p))
    && (forall p :: start <= p < k && !LeadsOn(mem0, x, p) ==> EmptyBelow(mem, x, p))
    && (forall p :: k <= p < end ==> mem[x][p] == mem0[x][p])
  }

  lemma SweptNone(mem: Memory, x: Frame, start: nat, end: nat)
    requires start <= end <= 512 && x in mem
    ensures Swept(mem, mem, x, start, start, end)
  {
  }

  lemma SweptNext(mem0: Memory, mem: Memory, x: Frame, start: nat, k: nat, end: nat)
    requires Swept(mem0, mem, x, start, k, end) && k < end
    ensures x in mem && x in mem0 && mem[x][k] == mem0[x][k]
    ensures LeadsOn(mem, x, k) == LeadsOn(mem0, x, k)
    ensures LeadsOn(mem, x, k) <==> Present(mem[x][k]) && !Large(mem[x][k])
  {
  }

  lemma SweptAll(mem0: Memory, mem: Memory, x: Frame, start: nat, end: nat)
    requires Swept(mem0, mem, x, start, end, end)
    ensures forall p :: start <= p < end ==> LeadsOn(mem, x, p)
    ensures forall p :: start <= p < end && !LeadsOn(mem0, x, p) ==> EmptyBelow(mem, x, p)
  {
  }

  lemma SweptStep(mem0: Memory, mem1: Memory, mem2: Memory, cr3: Frame, places: Places, x: Frame, start: nat, k: nat,
                  end: nat)
    requires TreeOk(mem1, cr3, places) && x in places && |places[x]| < 3
    requires Swept(mem0, mem1, x, start, k, end) && k < end && x in mem2 && LeadsOn(mem2, x, k)
    requires LeadsOn(mem1, x, k) ==> mem2 == mem1
    requires !LeadsOn(mem1, x, k) ==>
               FrameOf(mem2[x][k]) !in places && LinkedAt(mem1, mem2, x, k, FrameOf(mem2[x][k]), DIR_FLAGS)
    ensures Swept(mem0, mem2, x, start, k + 1, end)
  {
    hide Present, Large, FrameOf, Reaches, TreeOk;
    if !LeadsOn(mem1, x, k) {
      forall p | start <= p <= k
        ensures LeadsOn(mem2, x, p) && (!LeadsOn(mem0, x, p) ==> EmptyBelow(mem2, x, p))
      {
        if p != k {
          LeadsOnSame(mem1, mem2, x, p);
        }
        if !LeadsOn(mem0, x, p) {
          StillEmpty(mem1, mem2, cr3, places, x, p, k, FrameOf(mem2[x][k]), DIR_FLAGS);
        }
      }
    }
  }

  /** Only entry `i` of `x` changed, and the cleared frame `n` hangs there now. */
  ghost predicate LinkedAt(mem: Memory, mem': Memory, x: Frame, i: nat, n: Frame, flags: Word) {
    && x in mem && i < 512 && n != x && mem' == LinkTable(mem, x, i, n, flags)
  }

  lemma DirFlagBits()
    ensures DIR_FLAGS & MMASK_PHYS == 0 && DIR_FLAGS & PRESENT != 0 && DIR_FLAGS & LARGE == 0
  {
  }

  lemma LinkTableIs(mem: Memory, mem': Memory, x: Frame, i: nat, n: Frame, flags: Word)
    requires x in mem && i < 512 && n != x
    requires mem' == mem[n := ZeroTable()][x := mem[x][i := TableEntry(n, flags)]]
    ensures LinkedAt(mem, mem', x, i, n, flags) && mem' == LinkTable(mem, x, i, n, flags)
  {
    hide TableEntry, ZeroTable;
  }

  /** The loop over the directory has dealt with entries `start .. k`. */
  ghost predicate Sweeping(mem0: Memory, places0: Places, free0: set<Frame>, mem: Memory, places: Places, cr3: Frame,
                           x: Frame, start: nat, k: nat, end: nat) {
    && x in places0 && x in places && places[x] == places0[x]
    && Swept(mem0, mem, x, start, k, end) && Grown(mem0, mem, cr3, places0, places, x)
    && Preserved(7, mem0, places0, free0, mem, places)
  }

  lemma SweepStart(mem: Memory, cr3: Frame, places: Places, free: set<Frame>, x: Frame, start: nat, end: nat)
    requires TreeOk(mem, cr3, places) && x in places && x in mem && start <= end <= 512
    ensures Sweeping(mem, places, free, mem, places, cr3, x, start, start, end)
  {
    hide TreeOk, Swept, Grown, Preserved;
    PreservedSelf(7, mem, cr3, places, free);
    GrownSelf(mem, cr3, places, x);
    SweptNone(mem, x, start, end);
  }

  lemma SweepNext(mem0: Memory, places0: Places, free0: set<Frame>, mem: Memory, places: Places, cr3: Frame, x: Frame,
                  start: nat, k: nat, end: nat)
    requires Sweeping(mem0, places0, free0, mem, places, cr3, x, start, k, end) && k < end
    ensures x in places0 && x in places && places[x] == places0[x] && end <= 512
    ensures x in mem && x in mem0 && mem[x][k] == mem0[x][k]
    ensures LeadsOn(mem, x, k) == LeadsOn(mem0, x, k)
    ensures LeadsOn(mem, x, k) <==> Present(mem[x][k]) && !Large(mem[x][k])
  {
    hide Grown, Preserved, LeadsOn, Present, Large;
    SweptNext(mem0, mem, x, start, k, end);
  }

  lemma SweepOn(mem0: Memory, places0: Places, free0: set<Frame>, mem1: Memory, places1: Places, free1: set<Frame>,
                mem2: Memory, places2: Places, cr3: Frame, x: Frame, start: nat, k: nat, end: nat)
    requires Sweeping(mem0, places0, free0, mem1, places1, cr3, x, start, k, end) && k < end <= 512
    requires TreeOk(mem1, cr3, places1) && x in places1 && |places1[x]| < 3 && x in mem2 && LeadsOn(mem2, x, k)
    requires LeadsOn(mem1, x, k) ==> mem2 == mem1
    requires !LeadsOn(mem1, x, k) ==>
               FrameOf(mem2[x][k]) !in places1 && LinkedAt(mem1, mem2, x, k, FrameOf(mem2[x][k]), DIR_FLAGS)
    requires Grown(mem1, mem2, cr3, places1, places2, x)
    requires Preserved(7, mem1, places1, free1, mem2, places2) && free1 <= free0
    ensures Sweeping(mem0, places0, free0, mem2, places2, cr3, x, start, k + 1, end)
  {
    hide TreeOk, LinkedAt, LeadsOn, FrameOf, Swept, Preserved;
    PreservedOn(7, mem0, places0, free0, mem1, places1, free1, mem2, places2);
    SweptStep(mem0, mem1, mem2, cr3, places1, x, start, k, end);
    GrownOn(mem0, mem1, mem2, cr3, places0, places1, places2, x);
  }

  lemma SweepEnd(mem0: Memory, places0: Places, free0: set<Frame>, mem: Memory, places: Places, cr3: Frame, x: Frame,
                 start: nat, end: nat)
    requires Sweeping(mem0, places0, free0, mem, places, cr3, x, start, end, end)
    ensures forall p :: start <= p < end ==> LeadsOn(mem, x, p)
    ensures forall p :: start <= p < end && !LeadsOn(mem0, x, p) ==> EmptyBelow(mem, x, p)
    ensures Grown(mem0, mem, cr3, places0, places, x) && Preserved(7, mem0, places0, free0, mem, places) && x in mem
  {
    hide Grown, Preserved, LeadsOn, EmptyBelow;
    SweptAll(mem0, mem, x, start, end);
  }

  // ---- What mapping leaves alone ----

  /** Entry `i` of directory `f` is as it was, or it is new: still zero in a new table, or
      leading on with these rights. */
  ghost predicate DirEntryKept(rights: Word, mem0: Memory, places0: Places, mem: Memory, f: Frame, i: nat)
    requires f in mem && i < 512
  {
    if f in places0 && f in mem0 && mem[f][i] == mem0[f][i] then true
    else mem[f][i] & 0x8000_0000_0000_0fff == rights || (f !in places0 && mem[f][i] == 0)
  }

  /** Tables keep their places and new ones are frames of `taken`; memory that is neither a
      table nor taken is as it was, and so are the directories but for new tables. Those are
      entered with all rights (7: present, writable, user; executable), so that the rights of
      a page are those of its own entry. */
  ghost predicate Preserved(rights: Word, mem0: Memory, places0: Places, taken: set<Frame>, mem: Memory,
                            places: Places) {
    && (forall f :: f in places0 ==> f in places && places[f] == places0[f])
    && (forall f :: f in places ==> f in mem && (f in places0 || f in taken))
    && (forall f :: f in mem0 ==> f in mem && (f !in places0 && f !in taken ==> mem[f] == mem0[f]))
    && (forall f, i :: f in places && |places[f]| < 3 && 0 <= i < 512 ==>
          DirEntryKept(rights, mem0, places0, mem, f, i))
  }

  lemma PreservedSelf(rights: Word, mem: Memory, cr3: Frame, places: Places, taken: set<Frame>)
    requires TreeOk(mem, cr3, places)
    ensures Preserved(rights, mem, places, taken, mem, places)
  {
    hide Reaches;
  }

  lemma PreservedAtFirst(mmu: Mmu)
    requires mmu.Valid()
    ensures Preserved(7, mmu.mem, mmu.places, mmu.free, mmu.mem, mmu.places)
  {
    PreservedSelf(7, mmu.mem, mmu.cr3, mmu.places, mmu.free);
  }

  lemma PreservedNothing(mmu: Mmu)
    requires mmu.Valid()
    ensures Preserved(7, mmu.mem, mmu.places, {}, mmu.mem, mmu.places)
  {
    PreservedSelf(7, mmu.mem, mmu.cr3, mmu.places, {});
  }

  lemma MemoryStays(mem0: Memory, mem: Memory, places: Places)
    requires Preserved(7, mem0, places, {}, mem, places)
    ensures forall f :: f in mem0 ==> f in mem
  {
  }

  lemma PreservedOn(rights: Word, mem0: Memory, places0: Places, taken: set<Frame>, mem1: Memory, places1: Places,
                    taken1: set<Frame>, mem2: Memory, places2: Places)
    requires Preserved(rights, mem0, places0, taken, mem1, places1)
    requires Preserved(rights, mem1, places1, taken1, mem2, places2) && taken1 <= taken
    ensures Preserved(rights, mem0, places0, taken, mem2, places2)
  {
    forall f, i | f in places2 && |places2[f]| < 3 && 0 <= i < 512
      ensures DirEntryKept(rights, mem0, places0, mem2, f, i)
    {
      assert DirEntryKept(rights, mem1, places1, mem2, f, i);
      if f in places1 {
        assert DirEntryKept(rights, mem0, places0, mem1, f, i);
      }
    }
  }

  lemma PreservedMore(mem0: Memory, places0: Places, taken: set<Frame>, mem: Memory, places: Places)
    requires Preserved(7, mem0, places0, {}, mem, places)
    ensures Preserved(7, mem0, places0, taken, mem, places)
  {
  }

  lemma PreservedCleared(rights: Word, mem: Memory, cr3: Frame, places: Places, page: Frame)
    requires TreeOk(mem, cr3, places) && page !in places
    ensures Preserved(rights, mem, places, {page}, mem[page := ZeroTable()], places)
  {
    hide Reaches;
  }

  lemma PreservedStored(rights: Word, mem: Memory, cr3: Frame, places: Places, frame: Frame, i: nat, e: Word)
    requires TreeOk(mem, cr3, places) && frame in places && frame in mem && |places[frame]| == 3 && i < 512
    ensures Preserved(rights, mem, places, {}, mem[frame := mem[frame][i := e]], places)
  {
    hide Reaches;
  }

  lemma PreservedLinked(rights: Word, mem: Memory, mem': Memory, cr3: Frame, places: Places, places': Places,
                        x: Frame, i: nat, n: Frame, taken: set<Frame>)
    requires TreeOk(mem, cr3, places) && x in places && |places[x]| < 3 && i < 512 && n !in places && n in taken
    requires Aligned(n) && LinkedAt(mem, mem', x, i, n, rights) && places' == places[n := places[x] + [i]]
    requires rights & 0x7fff_ffff_ffff_f000 == 0
    ensures Preserved(rights, mem, places, taken, mem', places')
  {
    hide Reaches, TableEntry, Aligned;
    EntryRights(n, rights);
  }

  lemma EntryRights(n: Frame, rights: Word)
    requires Aligned(n) && rights & 0x7fff_ffff_ffff_f000 == 0
    ensures TableEntry(n, rights) & 0x8000_0000_0000_0fff == rights
  {
  }

  /** The table below the entry is empty. */
  ghost predicate EmptyBelow(mem: Memory, x: Frame, i: nat) {
    && x in mem && i < 512 && FrameOf(mem[x][i]) in mem && mem[FrameOf(mem[x][i])] == ZeroTable()
    && FrameOf(mem[x][i]) != x
  }

  lemma KeptOn(mem0: Memory, mem1: Memory, mem2: Memory, places0: Places, places1: Places)
    requires LinksKept(mem0, mem1, places0) && LinksKept(mem1, mem2, places1) && places0.Keys <= places1.Keys
    ensures LinksKept(mem0, mem2, places0)
  {
    forall h, j | h in places0 && 0 <= j < 512 && LeadsOn(mem0, h, j)
      ensures h in mem2 && mem2[h][j] == mem0[h][j]
    {
      assert LeadsOn(mem1, h, j);
    }
  }

  /** The tables below other entries of the directory are as empty as before. */
  lemma StillEmpty(mem: Memory, mem': Memory, cr3: Frame, places: Places, x: Frame, p: nat, k: nat, n: Frame,
                   flags: Word)
    requires TreeOk(mem, cr3, places) && x in places && |places[x]| < 3 && p < 512 && k < 512
    requires LinkedAt(mem, mem', x, k, n, flags) && n !in places
    requires p == k ==> FrameOf(mem'[x][k]) == n
    requires p != k ==> LeadsOn(mem, x, p) && EmptyBelow(mem, x, p)
    ensures EmptyBelow(mem', x, p)
  {
    hide Reaches;
    if p != k {
      assert EntryOk(mem, places, x, p);
    }
  }

  /** Tables were added below directory `x`, and nothing else changed: no translation, no
      entry that led on, no other table. */
  ghost predicate Grown(mem: Memory, mem': Memory, cr3: Frame, places: Places, places': Places, x: Frame) {
    && (forall w: nat :: Translate(mem', cr3, w) == Translate(mem, cr3, w))
    && LinksKept(mem, mem', places)
    && places.Keys <= places'.Keys && (forall f :: f in places ==> places'[f] == places[f])
    && x in places
    && (forall g :: g in places && g != x ==> g in mem && g in mem' && mem'[g] == mem[g])
  }

  lemma GrownSelf(mem: Memory, cr3: Frame, places: Places, x: Frame)
    requires TreeOk(mem, cr3, places) && x in places
    ensures Grown(mem, mem, cr3, places, places, x)
  {
    hide Reaches;
  }

  lemma GrownOn(mem0: Memory, mem1: Memory, mem2: Memory, cr3: Frame, places0: Places, places1: Places, places2: Places,
                x: Frame)
    requires Grown(mem0, mem1, cr3, places0, places1, x) && Grown(mem1, mem2, cr3, places1, places2, x)
    ensures Grown(mem0, mem2, cr3, places0, places2, x) && places2[x] == places0[x]
  {
    hide LinksKept, Translate;
    KeptOn(mem0, mem1, mem2, places0, places1);
  }

  lemma GrownLinked(mem: Memory, mem': Memory, cr3: Frame, places: Places, places': Places, x: Frame, k: nat, n: Frame,
                    flags: Word)
    requires TreeOk(mem, cr3, places) && x in places && k < 512 && n !in places
    requires LinkedAt(mem, mem', x, k, n, flags) && places' == places[n := places[x] + [k]]
    requires LinksKept(mem, mem', places)
    requires forall w: nat :: Translate(mem', cr3, w) == Translate(mem, cr3, w)
    ensures Grown(mem, mem', cr3, places, places', x)
  {
    hide Reaches, LinksKept, Translate;
  }

  lemma LeadsOnSame(mem: Memory, mem': Memory, x: Frame, i: nat)
    requires x in mem && x in mem' && i < 512 && mem[x][i] == mem'[x][i]
    ensures LeadsOn(mem, x, i) == LeadsOn(mem', x, i)
    ensures LeadsOn(mem, x, i) <==> Present(mem[x][i]) && !Large(mem[x][i])
  {
  }

  lemma {:induction false} MissingMono(mem: Memory, x: Frame, start: nat, k: nat, count: nat)
    requires k <= count && start + count <= 512
    ensures MissingIn(mem, x, start, k) <= MissingIn(mem, x, start, count)
    decreases count
  {
    if k < count {
      MissingMono(mem, x, start, k, count - 1);
    }
  }

  // ---- The walk over a range ----

  /** The directory entries above the range that the iterator has passed lead on. */
  ghost predicate Way(mem: Memory, dir: seq<Frame>, v: nat, n: nat, j: nat) {
    && |dir| == 4
    && (n > 0 ==>
          var o := Offsets(v);
          && o[1] + CeilTables(n) <= 512
          && (j >= 1 ==> LeadsOn(mem, dir[3], o[3]))
          && (j >= 2 ==> LeadsOn(mem, dir[2], o[2]))
          && (j >= 3 ==> forall p :: o[1] <= p < o[1] + CeilTables(n) ==> LeadsOn(mem, dir[1], p)))
  }

  /** Pages of the range done after the `j`-th report. */
  ghost function DoneBy(v: nat, n: nat, j: nat): nat {
    if j <= 3 then 0 else Before(v, n, j - 3)
  }

  /** From `v` on, the pages translate by `entries`; every other page of the same half of
      the address space translates as it did in `mem0`. */
  ghost predicate Overlay(mem0: Memory, mem: Memory, cr3: Frame, v: nat, entries: seq<Word>) {
    forall w: nat :: w / PAGES == v / PAGES ==>
      Translate(mem, cr3, w) ==
      if v <= w < v + |entries| then LeafOf(entries[w - v]) else Translate(mem0, cr3, w)
  }

  lemma QuotientChain(v: nat)
    ensures v / 512 / 512 == v / 0x4_0000
    ensures v / 0x4_0000 / 512 == v / 0x800_0000
    ensures v / 0x800_0000 / 512 == v / PAGES
  {
  }

  lemma SameHalfPath(v: nat, w: nat)
    requires v / PAGES == w / PAGES && PathOf(v) == PathOf(w)
    ensures v == w
  {
    QuotientChain(v);
    QuotientChain(w);
    assert PathOf(v)[0] == PathOf(w)[0] && PathOf(v)[1] == PathOf(w)[1];
    assert PathOf(v)[2] == PathOf(w)[2] && PathOf(v)[3] == PathOf(w)[3];
    SameQuotient(v / 0x800_0000, w / 0x800_0000);
    SameQuotient(v / 0x4_0000, w / 0x4_0000);
    SameQuotient(v / 512, w / 512);
    SameQuotient(v, w);
  }

  lemma SameQuotient(v: nat, w: nat)
    requires v / 512 == w / 512 && v % 512 == w % 512
    ensures v == w
  {
  }

  /** Storing the entry of the next page extends the overlay by it. */
  lemma OverlayNext(mem0: Memory, mem: Memory, cr3: Frame, places: Places, v: nat, entries: seq<Word>, x: Frame, i: nat,
                    e: Word)
    requires TreeOk(mem, cr3, places) && x in places && |places[x]| == 3 && i < 512
    requires Overlay(mem0, mem, cr3, v, entries) && places[x] + [i] == PathOf(v + |entries|)
    requires (v + |entries|) / PAGES == v / PAGES
    ensures TreeOk(SetEntry(mem, x, i, e), cr3, places)
    ensures Overlay(mem0, SetEntry(mem, x, i, e), cr3, v, entries + [e])
  {
    hide TreeOk, Translate, LeafOf, PathOf;
    SetLeaf(mem, cr3, places, x, i, e);
    forall w: nat | w / PAGES == v / PAGES && PathOf(w) == PathOf(v + |entries|)
      ensures w == v + |entries|
    {
      SameHalfPath(w, v + |entries|);
    }
  }

  lemma OverlaySame(mem0: Memory, mem: Memory, mem': Memory, cr3: Frame, v: nat, entries: seq<Word>)
    requires Overlay(mem0, mem, cr3, v, entries)
    requires forall w: nat :: Translate(mem', cr3, w) == Translate(mem, cr3, w)
    ensures Overlay(mem0, mem', cr3, v, entries)
  {
    hide Translate;
  }

  /** The iterator can go on: what it will read has been passed. */
  lemma WayCanStep(it: PageIterator, mem: Memory, places: Places, v: nat, n: nat, j: nat)
    requires it.Tracks(places) && Regular(v, n) && j <= LastPhase(n) && Progress(it.View(), v, n, j)
    requires Way(mem, it.dir, v, n, j)
    ensures it.CanStep(mem)
  {
    hide Step, LeadsOn, Progress, Offsets;
    NextReport(it.View(), v, n, j);
    if j < LastPhase(n) {
      RegularReports(v, n, j + 1);
    }
  }

  /** What the iterator will report next, and where it stands. */
  lemma BeforeNext(it: PageIterator, mem: Memory, places: Places, v: nat, n: nat, j: nat)
    requires it.Tracks(places) && Regular(v, n) && j <= LastPhase(n) && Progress(it.View(), v, n, j)
    requires Way(mem, it.dir, v, n, j)
    ensures it.CanStep(mem)
    ensures j == LastPhase(n) ==> Step(it.View()).out == Done
    ensures j < LastPhase(n) ==>
              var r := Report(v, n, j + 1);
              && Step(it.View()).out == r && Progress(Step(it.View()).it, v, n, j + 1)
              && r.Chunk? && |r.dir| == 3 - r.depth && r.depth == (if j <= 2 then 3 - j else 0)
              && r.count >= 0 && r.start + r.count <= 512
              && (j >= 1 ==> n > 0)
              && (j == 1 ==> r.dir == [Offsets(v)[3]])
              && (j == 2 ==> r.dir == [Offsets(v)[3], Offsets(v)[2]])
              && (j == 2 ==> it.dir[2] in places && places[it.dir[2]] == [Offsets(v)[3]])
  {
    hide Step, LeadsOn;
    WayCanStep(it, mem, places, v, n, j);
    NextReport(it.View(), v, n, j);
    if j < LastPhase(n) {
      RegularReports(v, n, j + 1);
    }
  }

  /** Taking the next table changes no directory that the way depends on. */
  lemma WayDir(mem: Memory, dir: seq<Frame>, dir': seq<Frame>, v: nat, n: nat, j: nat)
    requires Way(mem, dir, v, n, j) && |dir'| == 4 && dir'[3] == dir[3]
    requires j >= 2 ==> dir'[2] == dir[2]
    requires j >= 3 ==> dir'[1] == dir[1]
    ensures Way(mem, dir', v, n, j) && Need(mem, dir', v, n, j) == Need(mem, dir, v, n, j)
  {
    hide LeadsOn, MissingIn;
  }

  lemma EnteredBelow(mem: Memory, cr3: Frame, places: Places, dir: seq<Frame>, v: nat, n: nat, j: nat, f: Frame)
    requires TreeOk(mem, cr3, places) && Way(mem, dir, v, n, j) && n > 0 && 1 <= j <= 2 && dir[3] == cr3
    requires j == 2 ==> dir[2] in places && places[dir[2]] == [Offsets(v)[3]]
    requires f in places && places[f] == if j == 1 then [Offsets(v)[3]] else [Offsets(v)[3], Offsets(v)[2]]
    ensures j == 1 ==> f == FrameOf(mem[dir[3]][Offsets(v)[3]])
    ensures j == 2 ==> f == FrameOf(mem[dir[2]][Offsets(v)[2]])
  {
    hide Reaches;
    if j == 1 {
      assert [] + [Offsets(v)[3]] == [Offsets(v)[3]];
      BelowIs(mem, cr3, places, dir[3], Offsets(v)[3], f);
    } else {
      assert [Offsets(v)[3]] + [Offsets(v)[2]] == [Offsets(v)[3], Offsets(v)[2]];
      BelowIs(mem, cr3, places, dir[2], Offsets(v)[2], f);
    }
  }

  lemma RootPlace(mmu: Mmu)
    requires mmu.Valid()
    ensures mmu.cr3 in mmu.places && mmu.places[mmu.cr3] == []
  {
  }

  lemma WalkingFacts(it: PageIterator, mmu: Mmu, mem0: Memory, v: nat, n: nat, j: nat, entries: seq<Word>)
    requires mmu.Walking(it, mem0, v, n, j, entries)
    ensures mmu.Valid() && j <= LastPhase(n) && Overlay(mem0, mmu.mem, mmu.cr3, v, entries)
    ensures j < 3 ==> entries == []
  {
    hide TreeOk, Progress, Way, Overlay;
  }

  lemma InMemory(mem: Memory, cr3: Frame, places: Places, f: Frame)
    requires TreeOk(mem, cr3, places) && f in places
    ensures f in mem
  {
  }

  /** The table at the place below an entry is the one the entry leads to. */
  lemma BelowIs(mem: Memory, cr3: Frame, places: Places, x: Frame, i: nat, f: Frame)
    requires TreeOk(mem, cr3, places) && x in places && |places[x]| < 3 && i < 512 && LeadsOn(mem, x, i)
    requires f in places && places[f] == places[x] + [i]
    ensures f == FrameOf(mem[x][i])
  {
    hide Reaches;
    assert EntryOk(mem, places, x, i);
    PlaceUnique(mem, cr3, places, f, FrameOf(mem[x][i]));
  }

  // ---- How many frames the directories still take ----

  ghost function Need1(mem: Memory, d1: Frame, v: nat, n: nat): nat
    requires Offsets(v)[1] + CeilTables(n) <= 512
  {
    MissingIn(mem, d1, Offsets(v)[1], CeilTables(n))
  }

  ghost function Need2(mem: Memory, d2: Frame, v: nat, n: nat): nat
    requires Offsets(v)[1] + CeilTables(n) <= 512
  {
    var o := Offsets(v)[2];
    if LeadsOn(mem, d2, o) then Need1(mem, FrameOf(mem[d2][o]), v, n) else 1 + CeilTables(n)
  }

  ghost function Need3(mem: Memory, d3: Frame, v: nat, n: nat): nat
    requires Offsets(v)[1] + CeilTables(n) <= 512
  {
    var o := Offsets(v)[3];
    if LeadsOn(mem, d3, o) then Need2(mem, FrameOf(mem[d3][o]), v, n) else 2 + CeilTables(n)
  }

  /** Tables that mapping the range has to create, once `j` reports are dealt with. */
  ghost function Need(mem: Memory, dir: seq<Frame>, v: nat, n: nat, j: nat): nat
    requires Way(mem, dir, v, n, j)
  {
    if n == 0 || j >= 3 then 0
    else if j == 0 then Need3(mem, dir[3], v, n)
    else if j == 1 then Need2(mem, FrameOf(mem[dir[3]][Offsets(v)[3]]), v, n)
    else Need1(mem, FrameOf(mem[dir[2]][Offsets(v)[2]]), v, n)
  }

  /** ... that is, tables missing above the range at the start. */
  ghost function TablesMissing(mem: Memory, cr3: Frame, v: nat, n: nat): nat
    requires Regular(v, n)
  {
    RegularReports(v, n, 1);
    if n == 0 then 0 else Need3(mem, cr3, v, n)
  }

  ghost predicate NoBig(mem: Memory, cr3: Frame, v: nat, n: nat) {
    forall w: nat :: v <= w < v + n ==> !Translate(mem, cr3, w).Big?
  }

  lemma DirPlaces(it: PageIterator, places: Places, v: nat, n: nat, j: nat)
    requires it.Tracks(places) && Progress(it.View(), v, n, j) && 1 <= j <= LastPhase(n)
    ensures j >= 2 ==> n > 0 && it.dir[2] in places && |places[it.dir[2]]| == 1
    ensures j >= 3 ==> it.dir[1] in places && |places[it.dir[1]]| == 2
  {
    if n > 0 {
      PhasePath(it.View(), v, n, j);
    }
  }

  /** No entry of a reported directory is that of a large page. */
  lemma NoLargeAhead(mem0: Memory, mem: Memory, cr3: Frame, places: Places, v: nat, n: nat, j: nat, frame: Frame,
                     start: nat, count: int)
    requires TreeOk(mem, cr3, places) && frame in places && frame in mem && Regular(v, n) && 1 <= j <= 3
             && j <= LastPhase(n)
    requires Report(v, n, j) == Chunk(4 - j, places[frame], start, count) && count >= 0 && start + count <= 512
    requires |places[frame]| < 3
    requires NoBig(mem0, cr3, v, n)
    requires Overlay(mem0, mem, cr3, v, [])
    ensures forall p :: start <= p < start + count && Present(mem[frame][p]) ==> !Large(mem[frame][p])
  {
    hide TreeOk, Present, Large, PathOf, Translate, Report;
    forall p | start <= p < start + count && Present(mem[frame][p])
      ensures !Large(mem[frame][p])
    {
      var d := ReportEntry(v, n, j, p - start);
      SameHalf(v, n, d);
      EntryOnTheWay(mem, cr3, places, frame, p, v + d);
      LeadsOnSame(mem, mem, frame, p);
    }
  }

  lemma SameHalf(v: nat, n: nat, d: nat)
    requires Regular(v, n) && d < n
    ensures (v + d) / PAGES == v / PAGES
  {
    QuotientChain(v);
    QuotientChain(v + d);
    assert (v + d) / 0x4_0000 == v / 0x4_0000;
  }

  lemma MissingHere(mem: Memory, cr3: Frame, places: Places, dir: seq<Frame>, v: nat, n: nat, j: nat, frame: Frame,
                    start: nat, count: int)
    requires TreeOk(mem, cr3, places) && Regular(v, n) && 1 <= j <= 3 && j <= LastPhase(n)
    requires Way(mem, dir, v, n, j - 1) && frame == dir[4 - j]
    requires frame in places
    requires Report(v, n, j) == Chunk(4 - j, places[frame], start, count) && count >= 0 && start + count <= 512
    requires j == 2 ==> n > 0 && frame == FrameOf(mem[dir[3]][Offsets(v)[3]])
    requires j == 3 ==> n > 0 && frame == FrameOf(mem[dir[2]][Offsets(v)[2]])
    ensures MissingIn(mem, frame, start, count) <= Need(mem, dir, v, n, j - 1)
  {
    hide Reaches, LeadsOn;
    RegularReports(v, n, j);
    if n > 0 && j <= 2 {
      assert MissingIn(mem, frame, start, 1) ==
               MissingIn(mem, frame, start, 0) + if LeadsOn(mem, frame, start) then 0 else 1;
    }
  }

  lemma GrownOverlay(mem0: Memory, mem: Memory, mem': Memory, cr3: Frame, places: Places, places': Places, v: nat,
                     x: Frame)
    requires Grown(mem, mem', cr3, places, places', x) && Overlay(mem0, mem, cr3, v, [])
    ensures Overlay(mem0, mem', cr3, v, []) && places.Keys <= places'.Keys
  {
    hide LinksKept, Translate;
  }

  lemma TracksMore(it: PageIterator, cr3: Frame, places: Places, places': Places, mem: Memory, mem': Memory, x: Frame)
    requires it.Tracks(places) && Grown(mem, mem', cr3, places, places', x)
    ensures it.Tracks(places')
  {
    hide LinksKept, Translate;
  }

  lemma WayStored(it: PageIterator, mem: Memory, places: Places, v: nat, n: nat, j: nat, x: Frame, i: nat, e: Word)
    requires it.Tracks(places) && Way(mem, it.dir, v, n, j) && j >= 3 && Progress(it.View(), v, n, j)
    requires x in places && x in mem && |places[x]| == 3 && i < 512
    ensures Way(SetEntry(mem, x, i, e), it.dir, v, n, j)
  {
    hide Present, Large;
    if n > 0 {
      PhasePath(it.View(), v, n, j);
      assert it.dir[1] != x && it.dir[2] != x && it.dir[3] != x;
      forall p | Offsets(v)[1] <= p < Offsets(v)[1] + CeilTables(n)
        ensures LeadsOn(SetEntry(mem, x, i, e), it.dir[1], p)
      {
        assert LeadsOn(mem, it.dir[1], p);
      }
    }
  }

  lemma PhasePath(it: Iter, v: nat, n: nat, j: nat)
    requires Shape(it) && Progress(it, v, n, j) && n > 0
    ensures j >= 2 ==> it.dir[2] == [Offsets(v)[3]]
    ensures j >= 3 ==> it.dir[1] == [Offsets(v)[3], Offsets(v)[2]]
    ensures it.state == (if j <= 3 then j else 4)
  {
  }

  /** After a directory is dealt with, the way is clear one level further, and as many
      tables fewer are needed as were created. */
  lemma AfterDirs(m: Memory, m': Memory, cr3: Frame, places: Places, places': Places, dir: seq<Frame>,
                  v: nat, n: nat, j: nat, frame: Frame, start: nat, count: int)
    requires TreeOk(m, cr3, places) && Grown(m, m', cr3, places, places', frame)
    requires Regular(v, n) && 1 <= j <= 3 && j <= LastPhase(n) && Way(m, dir, v, n, j - 1)
    requires dir[3] == cr3 && frame == dir[4 - j] && frame in places && frame in m && frame in m'
    requires j == 3 ==> dir[2] in places && |places[dir[2]]| == 1 && |places[frame]| == 2
    requires j == 2 ==> |places[frame]| == 1
    requires Report(v, n, j) == Chunk(4 - j, places[frame], start, count) && count >= 0 && start + count <= 512
    requires j == 2 ==> n > 0 && frame == FrameOf(m[dir[3]][Offsets(v)[3]])
    requires j == 3 ==> n > 0 && frame == FrameOf(m[dir[2]][Offsets(v)[2]])
    requires forall p :: start <= p < start + count ==> LeadsOn(m', frame, p)
    requires forall p :: start <= p < start + count && !LeadsOn(m, frame, p) ==> EmptyBelow(m', frame, p)
    ensures Way(m', dir, v, n, j)
    ensures Need(m', dir, v, n, j) + MissingIn(m, frame, start, count) == Need(m, dir, v, n, j - 1)
  {
    hide Reaches, FrameOf, Present, Large, Translate;
    RegularReports(v, n, j);
    if n > 0 {
      if j == 1 {
        AfterRoot(m, m', cr3, places, places', v, n);
      } else if j == 2 {
        AfterSecond(m, m', cr3, places, places', frame, v, n);
      }
    }
  }

  lemma AfterRoot(m: Memory, m': Memory, cr3: Frame, places: Places, places': Places, v: nat, n: nat)
    requires TreeOk(m, cr3, places) && Grown(m, m', cr3, places, places', cr3) && n > 0
    requires Offsets(v)[1] + CeilTables(n) <= 512
    requires var o := Offsets(v)[3]; LeadsOn(m', cr3, o) && (!LeadsOn(m, cr3, o) ==> EmptyBelow(m', cr3, o))
    ensures var o := Offsets(v)[3];
            Need2(m', FrameOf(m'[cr3][o]), v, n) + MissingIn(m, cr3, o, 1) == Need3(m, cr3, v, n)
  {
    hide Reaches, FrameOf, Present, Large, Translate;
    var o, o2 := Offsets(v)[3], Offsets(v)[2];
    assert MissingIn(m, cr3, o, 1) == MissingIn(m, cr3, o, 0) + if LeadsOn(m, cr3, o) then 0 else 1;
    var d2 := FrameOf(m'[cr3][o]);
    if LeadsOn(m, cr3, o) {
      assert EntryOk(m, places, cr3, o);
      if LeadsOn(m, d2, o2) {
        assert EntryOk(m, places, d2, o2);
        MissingSame(m, m', FrameOf(m[d2][o2]), Offsets(v)[1], CeilTables(n));
      }
    } else {
      ZeroNotPresent();
    }
  }

  lemma AfterSecond(m: Memory, m': Memory, cr3: Frame, places: Places, places': Places, d2: Frame, v: nat, n: nat)
    requires TreeOk(m, cr3, places) && Grown(m, m', cr3, places, places', d2) && n > 0 && |places[d2]| == 1
    requires Offsets(v)[1] + CeilTables(n) <= 512
    requires var o := Offsets(v)[2]; LeadsOn(m', d2, o) && (!LeadsOn(m, d2, o) ==> EmptyBelow(m', d2, o))
    ensures var o := Offsets(v)[2];
            Need1(m', FrameOf(m'[d2][o]), v, n) + MissingIn(m, d2, o, 1) == Need2(m, d2, v, n)
  {
    hide Reaches, FrameOf, Present, Large, Translate;
    var o := Offsets(v)[2];
    assert MissingIn(m, d2, o, 1) == MissingIn(m, d2, o, 0) + if LeadsOn(m, d2, o) then 0 else 1;
    var d1 := FrameOf(m'[d2][o]);
    if LeadsOn(m, d2, o) {
      assert EntryOk(m, places, d2, o);
      MissingSame(m, m', d1, Offsets(v)[1], CeilTables(n));
    } else {
      MissingInZero(m', d1, Offsets(v)[1], CeilTables(n));
    }
  }

  const PAGE_BITS: Word := 0xffff_ffff_ffff_f000

  /** `phys & ~0xfff` */
  function PageBase(phys: Word): Word {
    phys & PAGE_BITS
  }

  function PhysAt(p: Word, i: nat): Word {
    if i == 0 then p else PhysAt(p, i - 1) + 4096
  }

  /** The page-table entry `kmap` stores for the `i`-th page. */
  function KmapEntry(p: Word, flags: Word, i: nat): Word {
    PhysAt(p, i) | (PRESENT | flags)
  }

  /** What a present entry has besides its frame. */
  function LeafFlags(flags: Word): Word {
    PRESENT | flags
  }

  /** The entry maps the page to `p + 4096 * i`, when an entry can hold that address, with
      the flags asked for. */
  lemma KmapFrame(p: Word, prot: bv32, nxMask: Word, i: nat)
    requires NxOk(nxMask) && Aligned(Frame(PhysAt(p, i)))
    ensures var e := KmapEntry(p, PageProtFlags(prot, nxMask), i);
            FrameOf(e) == Frame(PhysAt(p, i)) && Present(e)
            && SameUnder(e, LeafFlags(PageProtFlags(prot, nxMask)), !MMASK_PHYS)
            && LeafAt(e, Words.Value(PhysAt(p, i)), prot, nxMask)
  {
    hide PhysAt, PageProtFlags, NxOk, Aligned, FrameOf, Present, SameUnder, LeafFlags, AnonEntry, KmapEntry, LeafAt,
         Words.Value;
    EntryIsLeaf(Frame(PhysAt(p, i)), prot, nxMask);
    AnonEntryBits(Frame(PhysAt(p, i)), prot, nxMask);
    KmapIsAnon(p, PageProtFlags(prot, nxMask), i);
  }

  lemma KmapIsAnon(p: Word, flags: Word, i: nat)
    ensures KmapEntry(p, flags, i) == AnonEntry(Frame(PhysAt(p, i)), flags)
  {
  }

  /** A present entry for `f` has that frame and the flags asked for. */
  lemma AnonEntryBits(f: Frame, prot: bv32, nxMask: Word)
    requires NxOk(nxMask) && Aligned(f)
    ensures var e := AnonEntry(f, PageProtFlags(prot, nxMask));
            FrameOf(e) == f && Present(e) && SameUnder(e, LeafFlags(PageProtFlags(prot, nxMask)), !MMASK_PHYS)
  {
    hide PageProtFlags, NxOk, Aligned, FrameOf, Present, SameUnder, AnonEntry, LeafFlags;
    var flags := PageProtFlags(prot, nxMask);
    ProtFlagBits(prot, nxMask);
    AnonFrame(f, flags);
    AnonPresent(f, flags);
    AnonFlags(f, flags);
  }

  lemma AnonPresent(f: Frame, flags: Word)
    ensures Present(AnonEntry(f, flags))
  {
    PresentSet(f.addr, flags);
  }

  lemma AnonFlags(f: Frame, flags: Word)
    requires Aligned(f)
    ensures SameUnder(AnonEntry(f, flags), LeafFlags(flags), !MMASK_PHYS)
  {
  }

  lemma KmapEntryIs(p: Word, flags: Word, i: nat, at: Word)
    requires at == PhysAt(p, i)
    ensures at | (PRESENT | flags) == KmapEntry(p, flags, i) && at + 4096 == PhysAt(p, i + 1)
  {
  }

  lemma StartWalk(it: PageIterator, mmu: Mmu, v: nat, asked: nat)
    requires mmu.Valid() && it.Tracks(mmu.places) && it.dir[3] == mmu.cr3 && Created(it.View(), v, asked)
             && Ending(v, asked) == Finished
    ensures var n := Visited(v, asked);
            && Regular(v, n) && mmu.Walking(it, mmu.mem, v, n, 0, [])
            && mmu.Left(it, v, n, 0) == TablesMissing(mmu.mem, mmu.cr3, v, n)
  {
    hide TreeOk, Translate, LeadsOn, MissingIn, Visited, Ending;
    var n := Visited(v, asked);
    VisitedIsRegular(v, asked);
    assert Stands(it.View(), v, n, asked, 0);
    if n > 0 {
      RegularReports(v, n, 1);
    }
  }

  lemma StartRange(it: PageIterator, mmu: Mmu, addr: nat, size: nat)
    requires mmu.Valid() && it.Tracks(mmu.places) && it.dir[3] == mmu.cr3 && StaysInside(addr, size)
    requires Created(it.View(), addr / 4096, (size + 4095) / 4096)
    ensures var v, n := addr / 4096, PagesVisited(addr, size);
            && Regular(v, n) && mmu.Walking(it, mmu.mem, v, n, 0, [])
            && mmu.Left(it, v, n, 0) == TablesMissing(mmu.mem, mmu.cr3, v, n)
  {
    hide TreeOk, Translate, LeadsOn, MissingIn, Visited, Ending, Regular, Created, TablesMissing;
    StartWalk(it, mmu, addr / 4096, (size + 4095) / 4096);
  }

  lemma PhysStart(p: Word)
    ensures PhysAt(p, 0) == p
  {
  }

  /** Past the directories no table is needed any more; at the end every page is done. */
  lemma NothingLeft(mem: Memory, dir: seq<Frame>, v: nat, n: nat, j: nat)
    requires Way(mem, dir, v, n, j) && Regular(v, n)
    ensures j >= 3 || j == LastPhase(n) ==> Need(mem, dir, v, n, j) == 0
    ensures j == LastPhase(n) ==> DoneBy(v, n, j) == n
  {
    if n > 0 {
      RegularReports(v, n, 1);
    }
  }

  lemma WayOn(mem: Memory, dir: seq<Frame>, v: nat, n: nat, j: nat)
    requires j >= 3
    ensures Way(mem, dir, v, n, j) == Way(mem, dir, v, n, j + 1)
    ensures Way(mem, dir, v, n, j) ==> Need(mem, dir, v, n, j) == 0 && Need(mem, dir, v, n, j + 1) == 0
  {
    hide LeadsOn;
  }

  /** Which page entry `i` of a reported page table belongs to. */
  lemma LeafHere(v: nat, n: nat, j: nat, place: Path, start: nat, count: int, i: nat)
    requires Regular(v, n) && 4 <= j <= LastPhase(n) && Report(v, n, j) == Chunk(0, place, start, count) && i < count
    ensures |place| == 3 && start + i < 512
    ensures var d := DoneBy(v, n, j - 1) + i;
            d < n && place + [start + i] == PathOf(v + d) && (v + d) / PAGES == v / PAGES
  {
    RegularReports(v, n, j);
    var d := ReportEntry(v, n, j, i);
    SameHalf(v, n, d);
  }

  lemma LeavesDone(v: nat, n: nat, j: nat, place: Path, start: nat, count: int)
    requires Regular(v, n) && 4 <= j <= LastPhase(n) && Report(v, n, j) == Chunk(0, place, start, count)
    ensures DoneBy(v, n, j) == DoneBy(v, n, j - 1) + count
  {
  }

  lemma KmapDone(mem0: Memory, mem: Memory, cr3: Frame, v: nat, n: nat, p: Word, flags: Word, entries: seq<Word>)
    requires Overlay(mem0, mem, cr3, v, entries) && |entries| == n
    requires forall i :: 0 <= i < |entries| ==> entries[i] == KmapEntry(p, flags, i)
    ensures forall w: nat :: w / PAGES == v / PAGES ==>
              Translate(mem, cr3, w) ==
                if v <= w < v + n then Page(KmapEntry(p, flags, w - v)) else Translate(mem0, cr3, w)
  {
    hide Translate, PhysAt;
    forall i: nat
      ensures Present(KmapEntry(p, flags, i))
    {
      PresentSet(PhysAt(p, i), flags);
    }
  }

  lemma PresentSet(a: Word, flags: Word)
    ensures Present(a | (PRESENT | flags))
  {
  }

  // ---- Anonymous mappings ----

  function AnonEntry(f: Frame, flags: Word): Word {
    f.addr | (PRESENT | flags)
  }

  ghost function AnonEntries(frames: seq<Frame>, flags: Word): (r: seq<Word>)
    ensures |r| == |frames|
  {
    seq(|frames|, i requires 0 <= i < |frames| => AnonEntry(frames[i], flags))
  }

  /** Distinct frames, taken from the free ones, still cleared, and no tables. */
  ghost predicate FreshFrames(free0: set<Frame>, free: set<Frame>, places: Places, mem: Memory, frames: seq<Frame>) {
    && free <= free0
    && (forall i :: 0 <= i < |frames| ==>
          && frames[i] in free0 && frames[i] !in free && frames[i] !in places
          && Aligned(frames[i]) && frames[i] in mem && mem[frames[i]] == ZeroTable())
    && (forall i, k :: 0 <= i < k < |frames| ==> frames[i] != frames[k])
  }

  lemma NoFrames(free0: set<Frame>, free: set<Frame>, places: Places, mem: Memory)
    requires free <= free0
    ensures FreshFrames(free0, free, places, mem, [])
  {
  }

  lemma FlagsOf(mmu: Mmu, prot: bv32)
    requires mmu.Valid()
    ensures var f := PageProtFlags(prot, mmu.nxMask); f & PRESENT == 0 && f & MMASK_PHYS == 0
  {
    hide TreeOk;
    ProtFlagBits(prot, mmu.nxMask);
  }

  lemma AnonNext(frames: seq<Frame>, f: Frame, flags: Word)
    ensures AnonEntries(frames + [f], flags) == AnonEntries(frames, flags) + [f.addr | (PRESENT | flags)]
  {
  }

  lemma OneMoreFrame(free0: set<Frame>, free: set<Frame>, places: Places, mem: Memory, frames: seq<Frame>,
                     page: Frame, x: Frame, mem': Memory)
    requires FreshFrames(free0, free, places, mem, frames) && page in free && page !in places && x in places
    requires Aligned(page)
    requires forall f :: f in mem && f != page && f != x ==> f in mem' && mem'[f] == mem[f]
    requires page in mem' && mem'[page] == ZeroTable()
    ensures FreshFrames(free0, free - {page}, places, mem', frames + [page])
  {
    hide Aligned;
  }

  /** Clearing a frame that is no table leaves the way clear. */
  lemma WayCleared(it: PageIterator, mem: Memory, places: Places, v: nat, n: nat, j: nat, page: Frame)
    requires it.Tracks(places) && Way(mem, it.dir, v, n, j) && j >= 3 && Progress(it.View(), v, n, j)
    requires page !in places
    ensures Way(mem[page := ZeroTable()], it.dir, v, n, j)
  {
    hide Present, Large;
    if n > 0 {
      PhasePath(it.View(), v, n, j);
      var mem' := mem[page := ZeroTable()];
      forall p | Offsets(v)[1] <= p < Offsets(v)[1] + CeilTables(n)
        ensures LeadsOn(mem', it.dir[1], p)
      {
        assert LeadsOn(mem, it.dir[1], p);
      }
    }
  }

  lemma AnonDone(mem0: Memory, mem: Memory, cr3: Frame, v: nat, n: nat, flags: Word, frames: seq<Frame>)
    requires Overlay(mem0, mem, cr3, v, AnonEntries(frames, flags)) && |frames| == n
    ensures forall w: nat :: w / PAGES == v / PAGES ==>
              Translate(mem, cr3, w) ==
                if v <= w < v + n then Page(AnonEntry(frames[w - v], flags)) else Translate(mem0, cr3, w)
  {
    hide Translate;
    forall i | 0 <= i < n
      ensures Present(AnonEntry(frames[i], flags))
    {
      PresentSet(frames[i].addr, flags);
    }
  }

  // ---- What the entries stored mean ----

  lemma NxIs(mmu: Mmu)
    requires mmu.Valid()
    ensures NxOk(mmu.nxMask)
  {
    hide TreeOk;
  }

  /** What the flags of a protection are, bit by bit. */
  lemma ProtFlagsAllow(prot: bv32, nxMask: Word)
    requires NxOk(nxMask)
    ensures Allows(PageProtFlags(prot, nxMask), prot, nxMask)
  {
    hide Allows, WriteFlag, UserFlag, NxFlag;
    var w, u, x := WriteFlag(prot), UserFlag(prot), NxFlag(prot, nxMask);
    FlagValues(prot, nxMask, w, u, x);
    ThreeFlagsAllow(w, u, x, nxMask, PageProtFlags(prot, nxMask), prot);
  }

  lemma ThreeFlagsAllow(w: Word, u: Word, x: Word, k: Word, f: Word, prot: bv32)
    requires (w == 2 && prot & 2 != 0) || (w == 0 && prot & 2 == 0)
    requires (u == 4 && prot & 8 != 0) || (u == 0 && prot & 8 == 0)
    requires (x == k && prot & 4 == 0) || (x == 0 && prot & 4 != 0)
    requires NxOk(k) && f == w | u | x
    ensures Allows(f, prot, k)
  {
    hide Allows;
    ThreeBits(w, u, x, k, f);
    BitsAllow(w, u, x, k, f, prot);
  }

  lemma FlagValues(prot: bv32, nxMask: Word, w: Word, u: Word, x: Word)
    requires w == WriteFlag(prot) && u == UserFlag(prot) && x == NxFlag(prot, nxMask)
    ensures (w == 2 && prot & 2 != 0) || (w == 0 && prot & 2 == 0)
    ensures (u == 4 && prot & 8 != 0) || (u == 0 && prot & 8 == 0)
    ensures (x == nxMask && prot & 4 == 0) || (x == 0 && prot & 4 != 0)
  {
  }

  lemma ThreeBits(w: Word, u: Word, x: Word, k: Word, f: Word)
    requires (w == 0 || w == 2) && (u == 0 || u == 4) && (x == 0 || x == k) && (k == 0 || k == 0x8000_0000_0000_0000)
    requires f == w | u | x
    ensures f & 2 == w && f & 4 == u && f & k == x
  {
  }

  lemma BitsAllow(w: Word, u: Word, x: Word, k: Word, f: Word, prot: bv32)
    requires f & 2 == w && f & 4 == u && f & k == x
    requires (w != 0 <==> prot & 2 != 0) && (u != 0 <==> prot & 8 != 0) && x == if prot & 4 == 0 then k else 0
    ensures Allows(f, prot, k)
  {
  }

  /** Two words with the same protection bits give the same rights. */
  lemma SameAllow(f: Word, e: Word, prot: bv32, nxMask: Word)
    requires Allows(f, prot, nxMask) && SameUnder(e, f, ProtBits(nxMask))
    ensures Allows(e, prot, nxMask)
  {
    hide Allows, SameUnder, ProtBits;
    ProtBitsAre(nxMask);
    WithinProt(f, e, nxMask, ProtBits(nxMask));
    SameBitsAllow(f, e, prot, nxMask);
  }

  lemma ProtBitsAre(nxMask: Word)
    ensures ProtBits(nxMask) == 6 | nxMask
  {
  }

  lemma WithinProt(f: Word, e: Word, nxMask: Word, k: Word)
    requires k == 6 | nxMask && SameUnder(e, f, k)
    ensures e & 2 == f & 2 && e & 4 == f & 4 && e & nxMask == f & nxMask
  {
  }

  lemma SameBitsAllow(f: Word, e: Word, prot: bv32, nxMask: Word)
    requires Allows(f, prot, nxMask) && e & 2 == f & 2 && e & 4 == f & 4 && e & nxMask == f & nxMask
    ensures Allows(e, prot, nxMask)
  {
  }

  lemma EntryIsLeaf(f: Frame, prot: bv32, nxMask: Word)
    requires NxOk(nxMask) && Aligned(f)
    ensures LeafAt(AnonEntry(f, PageProtFlags(prot, nxMask)), Words.Value(f.addr), prot, nxMask)
  {
    hide PageProtFlags, NxOk, Allows, Words.Value, AnonEntry, Aligned, ProtBits, SameUnder, FlagsIn, LeafAt;
    var f', e := PageProtFlags(prot, nxMask), AnonEntry(f, PageProtFlags(prot, nxMask));
    ProtFlagsAllow(prot, nxMask);
    FlagsInMask(prot, nxMask);
    AnonProtBits(f, f', e, nxMask);
    SameAllow(f', e, prot, nxMask);
    AnonOtherBits(f, f', e, nxMask);
    LeafAtIs(f, e, prot, nxMask);
  }

  lemma AnonProtBits(f: Frame, flags: Word, e: Word, nxMask: Word)
    requires NxOk(nxMask) && Aligned(f) && e == AnonEntry(f, flags)
    ensures SameUnder(e, flags, ProtBits(nxMask))
  {
  }

  lemma AnonOtherBits(f: Frame, flags: Word, e: Word, nxMask: Word)
    requires NxOk(nxMask) && Aligned(f) && e == AnonEntry(f, flags) && FlagsIn(flags, ProtBits(nxMask))
    ensures e & 0x7fff_ffff_ffff_f000 == f.addr && e & 0x1 != 0 && e & 0xff8 == 0
    ensures nxMask == 0 ==> e & 0x8000_0000_0000_0000 == 0
  {
  }

  lemma LeafAtIs(f: Frame, e: Word, prot: bv32, nxMask: Word)
    requires Allows(e, prot, nxMask) && e & 0x7fff_ffff_ffff_f000 == f.addr && e & 0x1 != 0 && e & 0xff8 == 0
    requires nxMask == 0 ==> e & 0x8000_0000_0000_0000 == 0
    ensures LeafAt(e, Words.Value(f.addr), prot, nxMask)
  {
    hide Allows, Words.Value;
  }

  lemma AnonLeavesAre(mmu: Mmu, v: nat, n: nat, prot: bv32, free0: set<Frame>, frames: seq<Frame>)
    requires mmu.Valid() && FreshFrames(free0, mmu.free, mmu.places, mmu.mem, frames) && |frames| == n
    requires forall w: nat :: v <= w < v + n ==>
               Translate(mmu.mem, mmu.cr3, w) == Page(AnonEntry(frames[w - v], PageProtFlags(prot, mmu.nxMask)))
    ensures forall w: nat :: v <= w < v + n ==>
              && Translate(mmu.mem, mmu.cr3, w).Page?
              && LeafAt(Translate(mmu.mem, mmu.cr3, w).entry, Words.Value(frames[w - v].addr), prot, mmu.nxMask)
  {
    hide Translate, PageProtFlags, LeafAt, AnonEntry, TreeOk, Aligned, NxOk, Words.Value;
    NxIs(mmu);
    forall i | 0 <= i < n
      ensures LeafAt(AnonEntry(frames[i], PageProtFlags(prot, mmu.nxMask)), Words.Value(frames[i].addr), prot,
                     mmu.nxMask)
    {
      EntryIsLeaf(frames[i], prot, mmu.nxMask);
    }
  }

  lemma {:induction false} PhysAtValue(p: Word, i: nat)
    requires Words.Value(p) + 4096 * i < 0x8000_0000_0000_0000
    ensures Words.Value(PhysAt(p, i)) == Words.Value(p) + 4096 * i
    decreases i
  {
    hide Words.Value, PhysAt;
    if i == 0 {
      PhysStart(p);
    } else {
      PhysAtValue(p, i - 1);
      PhysNext(p, i - 1);
      Words.NextPage(PhysAt(p, i - 1), PhysAt(p, i));
    }
  }

  lemma PhysNext(p: Word, i: nat)
    ensures PhysAt(p, i + 1) == PhysAt(p, i) + 4096
  {
  }

  lemma PageBaseValue(phys: Word)
    ensures Words.Value(PageBase(phys)) == Words.Value(phys) / 4096 * 4096
  {
    hide Words.Value;
    Words.PageStart(phys);
  }

  lemma KmapEntryIsLeaf(phys: Word, prot: bv32, nxMask: Word, i: nat, at: nat)
    requires NxOk(nxMask) && at == Words.Value(phys) / 4096 * 4096 + 4096 * i && at < 0x8000_0000_0000_0000
    ensures LeafAt(KmapEntry(PageBase(phys), PageProtFlags(prot, nxMask), i), at, prot, nxMask)
  {
    hide Words.Value, PageProtFlags, LeafAt, NxOk, KmapEntry, PageBase, PhysAt, Aligned;
    var p := PageBase(phys);
    PageBaseValue(phys);
    PhysAtValue(p, i);
    AlignedAt(PhysAt(p, i));
    EntryIsLeaf(Frame(PhysAt(p, i)), prot, nxMask);
    KmapIsAnon(p, PageProtFlags(prot, nxMask), i);
  }

  lemma AlignedAt(a: Word)
    requires Words.Value(a) % 4096 == 0 && Words.Value(a) < 0x8000_0000_0000_0000
    ensures Aligned(Frame(a))
  {
    hide Words.Value;
    Words.PageAligned(a);
  }

  lemma KmapLeavesAre(mem: Memory, cr3: Frame, v: nat, n: nat, phys: Word, prot: bv32, nxMask: Word)
    requires NxOk(nxMask)
    requires forall w: nat :: v <= w < v + n ==>
               Translate(mem, cr3, w) == Page(KmapEntry(PageBase(phys), PageProtFlags(prot, nxMask), w - v))
    ensures MapsTo(mem, cr3, v, n, phys, prot, nxMask)
  {
    hide Translate, Words.Value, PageProtFlags, LeafAt, NxOk, KmapEntry, PageBase;
    var start := Words.Value(phys) / 4096 * 4096;
    forall w: nat | v <= w < v + n && start + 4096 * (w - v) < 0x8000_0000_0000_0000
      ensures LeafAt(Translate(mem, cr3, w).entry, start + 4096 * (w - v), prot, nxMask)
    {
      KmapEntryIsLeaf(phys, prot, nxMask, w - v, start + 4096 * (w - v));
    }
  }

  lemma ReprotectIs(e: Word, prot: bv32, nxMask: Word)
    requires NxOk(nxMask)
    ensures RightsSet(e, Reprotect(e, ProtMask(nxMask), PageProtFlags(prot, nxMask)), prot, nxMask)
  {
    hide PageProtFlags, NxOk, Allows, Reprotect, ProtMask, ProtBits, SameUnder;
    ProtectSetsBits(e, prot, nxMask);
    ProtectKeepsOtherBits(e, prot, nxMask);
  }

  lemma ProtectedAre(mmu: Mmu, mem0: Memory, v: nat, n: nat, prot: bv32)
    requires mmu.Valid() && Regular(v, n)
    requires forall w: nat :: w / PAGES == v / PAGES && v <= w < v + n ==>
               var was := Translate(mem0, mmu.cr3, w);
               was.Page? && Translate(mmu.mem, mmu.cr3, w)
                 == Page(Reprotect(was.entry, ProtMask(mmu.nxMask), PageProtFlags(prot, mmu.nxMask)))
    ensures forall w: nat :: v <= w < v + n ==>
              && Translate(mmu.mem, mmu.cr3, w).Page? && Translate(mem0, mmu.cr3, w).Page?
              && RightsSet(Translate(mem0, mmu.cr3, w).entry, Translate(mmu.mem, mmu.cr3, w).entry, prot, mmu.nxMask)
  {
    hide Translate, TreeOk, Reprotect, ProtMask, PageProtFlags, RightsSet, NxOk;
    NxIs(mmu);
    RangeInHalf(v, n);
    forall w: nat | v <= w < v + n
      ensures Translate(mmu.mem, mmu.cr3, w).Page? && Translate(mem0, mmu.cr3, w).Page?
      ensures RightsSet(Translate(mem0, mmu.cr3, w).entry, Translate(mmu.mem, mmu.cr3, w).entry, prot, mmu.nxMask)
    {
      ReprotectIs(Translate(mem0, mmu.cr3, w).entry, prot, mmu.nxMask);
    }
  }

  // ---- Mapped ranges ----

  ghost predicate AllMapped(mem: Memory, cr3: Frame, v: nat, n: nat) {
    forall w: nat :: v <= w < v + n ==> Translate(mem, cr3, w).Page?
  }

  ghost function LeafFrame(mem: Memory, cr3: Frame, w: nat): Frame {
    var t := Translate(mem, cr3, w);
    if t.Page? then FrameOf(t.entry) else Frame(0)
  }

  ghost function LeafFrames(mem: Memory, cr3: Frame, v: nat, n: nat): set<Frame> {
    set w: nat | v <= w < v + n :: LeafFrame(mem, cr3, w)
  }

  ghost predicate InUse(f: Frame, mem: Memory, places: Places, free: set<Frame>) {
    f in mem && f !in places && f !in free
  }

  /** The frames of the range are in use, each by one page, and none is a table. */
  ghost predicate CanFree(mem: Memory, cr3: Frame, places: Places, free: set<Frame>, v: nat, n: nat) {
    && (forall w: nat :: v <= w < v + n ==> InUse(LeafFrame(mem, cr3, w), mem, places, free))
    && (forall w: nat, u: nat :: v <= w < u < v + n ==> LeafFrame(mem, cr3, w) != LeafFrame(mem, cr3, u))
  }

  ghost function Zeros(d: nat): (r: seq<Word>)
    ensures |r| == d && forall i :: 0 <= i < d ==> r[i] == 0
  {
    seq(d, _ => 0)
  }

  lemma ZerosNext(d: nat)
    ensures Zeros(d) + [0] == Zeros(d + 1)
  {
  }

  /** Above mapped pages every directory entry leads on. */
  lemma MappedAhead(mem0: Memory, mem: Memory, cr3: Frame, places: Places, v: nat, n: nat, j: nat, frame: Frame,
                    start: nat, count: int)
    requires TreeOk(mem, cr3, places) && frame in places && Regular(v, n) && 1 <= j <= 3 && j <= LastPhase(n)
    requires Report(v, n, j) == Chunk(4 - j, places[frame], start, count) && count >= 0 && start + count <= 512
    requires |places[frame]| < 3 && AllMapped(mem0, cr3, v, n) && Overlay(mem0, mem, cr3, v, [])
    ensures forall p :: start <= p < start + count ==> LeadsOn(mem, frame, p)
  {
    hide TreeOk, Present, Large, PathOf, Translate, Report, LeadsOn;
    forall p | start <= p < start + count
      ensures LeadsOn(mem, frame, p)
    {
      var d := ReportEntry(v, n, j, p - start);
      SameHalf(v, n, d);
      EntryOnTheWay(mem, cr3, places, frame, p, v + d);
    }
  }

  lemma WayPassed(mem: Memory, places: Places, dir: seq<Frame>, v: nat, n: nat, j: nat, frame: Frame, start: nat,
                  count: int)
    requires Regular(v, n) && 1 <= j <= 3 && j <= LastPhase(n) && Way(mem, dir, v, n, j - 1) && frame == dir[4 - j]
    requires frame in places && Report(v, n, j) == Chunk(4 - j, places[frame], start, count)
    requires count >= 0 && start + count <= 512
    requires forall p :: start <= p < start + count ==> LeadsOn(mem, frame, p)
    ensures Way(mem, dir, v, n, j)
  {
    hide LeadsOn;
    RegularReports(v, n, j);
  }

  /** An entry not yet dealt with is that of the page's old translation. */
  lemma OldLeaf(mem0: Memory, mem: Memory, cr3: Frame, places: Places, v: nat, n: nat, entries: seq<Word>, x: Frame,
                p: nat)
    requires TreeOk(mem, cr3, places) && x in places && |places[x]| == 3 && p < 512 && x in mem
    requires Overlay(mem0, mem, cr3, v, entries) && |entries| < n && AllMapped(mem0, cr3, v, n)
    requires places[x] + [p] == PathOf(v + |entries|) && (v + |entries|) / PAGES == v / PAGES
    ensures Translate(mem0, cr3, v + |entries|) == Page(mem[x][p])
    ensures FrameOf(mem[x][p]) == LeafFrame(mem0, cr3, v + |entries|)
  {
    hide TreeOk, Translate, PathOf, FrameOf;
    EntryOnTheWay(mem, cr3, places, x, p, v + |entries|);
  }

  lemma FreeNext(mem0: Memory, cr3: Frame, places: Places, free0: set<Frame>, free: set<Frame>, v: nat, n: nat, d: nat)
    requires CanFree(mem0, cr3, places, free0, v, n) && d < n && AllMapped(mem0, cr3, v, n)
    requires free == free0 + LeafFrames(mem0, cr3, v, d)
    ensures var f := LeafFrame(mem0, cr3, v + d);
            && f !in free && f !in places && f in mem0 && Aligned(f)
            && free + {f} == free0 + LeafFrames(mem0, cr3, v, d + 1)
  {
    hide Translate, FrameOf, Aligned, LeafFrame;
    FrameAligned(mem0, cr3, v + d);
    var f, s := LeafFrame(mem0, cr3, v + d), LeafFrames(mem0, cr3, v, d + 1);
    assert LeafFrames(mem0, cr3, v, d) + {f} == s by {
      assert f in s;
    }
  }

  lemma NoLeaves(mem: Memory, cr3: Frame, v: nat)
    ensures Zeros(0) == [] && LeafFrames(mem, cr3, v, 0) == {}
  {
  }

  lemma FrameAligned(mem: Memory, cr3: Frame, w: nat)
    ensures Aligned(LeafFrame(mem, cr3, w))
  {
    hide Translate;
  }

  lemma UnmapDone(mem0: Memory, mem: Memory, cr3: Frame, v: nat, n: nat)
    requires Overlay(mem0, mem, cr3, v, Zeros(n))
    ensures forall w: nat :: w / PAGES == v / PAGES ==>
              Translate(mem, cr3, w) == if v <= w < v + n then NotMapped else Translate(mem0, cr3, w)
  {
    hide Translate;
    ZeroNotPresent();
  }

  // ---- Protection ----

  /** The mask of `kmprotect`: all bits but the three it sets. */
  /** `~k` */
  function Not(k: Word): Word {
    !k
  }

  function ProtMask(nxMask: Word): Word {
    Not(ProtBits(nxMask))
  }

  function ProtBits(nxMask: Word): Word {
    USER | WRITE | nxMask
  }

  function Reprotect(e: Word, mask: Word, flags: Word): Word {
    (e & mask) | flags
  }

  /** The entry is the page's old one with mask and flags applied. */
  ghost predicate ProtectedEntry(was: Translation, mask: Word, flags: Word, e: Word) {
    was.Page? && e == Reprotect(was.entry, mask, flags)
  }

  ghost predicate Protected(mem0: Memory, cr3: Frame, v: nat, mask: Word, flags: Word, entries: seq<Word>) {
    forall i :: 0 <= i < |entries| ==> ProtectedEntry(Translate(mem0, cr3, v + i), mask, flags, entries[i])
  }

  lemma ProtectedNext(mem0: Memory, cr3: Frame, v: nat, mask: Word, flags: Word, entries: seq<Word>, e: Word)
    requires Protected(mem0, cr3, v, mask, flags, entries) && Translate(mem0, cr3, v + |entries|) == Page(e)
    ensures Protected(mem0, cr3, v, mask, flags, entries + [(e & mask) | flags])
  {
    hide Translate, ProtectedEntry;
    assert ProtectedEntry(Page(e), mask, flags, (e & mask) | flags) by { EntryProtected(e, mask, flags); }
  }

  lemma NoneProtected(mem0: Memory, cr3: Frame, v: nat, mask: Word, flags: Word)
    ensures Protected(mem0, cr3, v, mask, flags, [])
  {
  }

  lemma EntryProtected(e: Word, mask: Word, flags: Word)
    ensures ProtectedEntry(Page(e), mask, flags, (e & mask) | flags)
  {
  }

  /** The flags lie in the bits `k`, which are neither address nor presence. */
  predicate FlagsIn(f: Word, k: Word) {
    f & !k == 0 && k & MMASK_PHYS == 0 && k & PRESENT == 0
  }

  /** The two words agree on the bits of the mask. */
  predicate SameUnder(a: Word, b: Word, mask: Word) {
    a & mask == b & mask
  }

  /** Applying mask and flags keeps the frame and presence of the entry ... */
  lemma ProtectBits(e: Word, prot: bv32, nxMask: Word)
    requires NxOk(nxMask)
    ensures var r := Reprotect(e, ProtMask(nxMask), PageProtFlags(prot, nxMask));
            FrameOf(r) == FrameOf(e) && Present(r) == Present(e)
  {
    hide PageProtFlags, Reprotect, FrameOf, Present, NxOk, ProtBits, Not, FlagsIn;
    FlagsInMask(prot, nxMask);
    AddressKept(e, ProtBits(nxMask), PageProtFlags(prot, nxMask));
    PresenceKept(e, ProtBits(nxMask), PageProtFlags(prot, nxMask));
  }

  /** ... and every bit that is not a protection bit ... */
  lemma ProtectKeepsOtherBits(e: Word, prot: bv32, nxMask: Word)
    requires NxOk(nxMask)
    ensures SameUnder(Reprotect(e, ProtMask(nxMask), PageProtFlags(prot, nxMask)), e, ProtMask(nxMask))
    ensures Reprotect(e, ProtMask(nxMask), PageProtFlags(prot, nxMask)) & !(6 | nxMask) == e & !(6 | nxMask)
  {
    hide PageProtFlags, Reprotect, NxOk, ProtMask, SameUnder;
    OtherBitsSame(e, prot, nxMask);
    OthersUnder(Reprotect(e, ProtMask(nxMask), PageProtFlags(prot, nxMask)), e, nxMask);
  }

  lemma OthersUnder(r: Word, e: Word, nxMask: Word)
    requires SameUnder(r, e, ProtMask(nxMask))
    ensures r & !(6 | nxMask) == e & !(6 | nxMask)
  {
  }

  lemma OtherBitsSame(e: Word, prot: bv32, nxMask: Word)
    requires NxOk(nxMask)
    ensures SameUnder(Reprotect(e, ProtMask(nxMask), PageProtFlags(prot, nxMask)), e, ProtMask(nxMask))
  {
    hide PageProtFlags, Reprotect, NxOk, ProtBits, SameUnder, Not, FlagsIn;
    FlagsInMask(prot, nxMask);
    OtherBitsKept(e, ProtBits(nxMask), PageProtFlags(prot, nxMask));
  }

  /** ... and makes the protection bits what was asked for. */
  lemma ProtectSetsBits(e: Word, prot: bv32, nxMask: Word)
    requires NxOk(nxMask)
    ensures SameUnder(Reprotect(e, ProtMask(nxMask), PageProtFlags(prot, nxMask)), PageProtFlags(prot, nxMask),
                      ProtBits(nxMask))
    ensures Allows(Reprotect(e, ProtMask(nxMask), PageProtFlags(prot, nxMask)), prot, nxMask)
  {
    hide PageProtFlags, Reprotect, NxOk, ProtBits, SameUnder, Not, FlagsIn, Allows;
    FlagsInMask(prot, nxMask);
    MaskedBitsSet(e, ProtBits(nxMask), PageProtFlags(prot, nxMask));
    ProtFlagsAllow(prot, nxMask);
    SameAllow(PageProtFlags(prot, nxMask), Reprotect(e, ProtMask(nxMask), PageProtFlags(prot, nxMask)), prot, nxMask);
  }

  lemma FlagsInMask(prot: bv32, nxMask: Word)
    requires NxOk(nxMask)
    ensures FlagsIn(PageProtFlags(prot, nxMask), ProtBits(nxMask))
  {
  }

  lemma AddressKept(e: Word, k: Word, f: Word)
    requires FlagsIn(f, k)
    ensures FrameOf(Reprotect(e, Not(k), f)) == FrameOf(e)
  {
  }

  lemma PresenceKept(e: Word, k: Word, f: Word)
    requires FlagsIn(f, k)
    ensures Present(Reprotect(e, Not(k), f)) == Present(e)
  {
  }

  lemma OtherBitsKept(e: Word, k: Word, f: Word)
    requires FlagsIn(f, k)
    ensures SameUnder(Reprotect(e, Not(k), f), e, Not(k))
  {
  }

  lemma MaskedBitsSet(e: Word, k: Word, f: Word)
    requires FlagsIn(f, k)
    ensures SameUnder(Reprotect(e, Not(k), f), f, k)
  {
  }

  lemma ProtectDone(mmu: Mmu, mem0: Memory, v: nat, n: nat, mask: Word, flags: Word, entries: seq<Word>, prot: bv32)
    requires mmu.Valid() && mask == ProtMask(mmu.nxMask) && flags == PageProtFlags(prot, mmu.nxMask)
    requires Overlay(mem0, mmu.mem, mmu.cr3, v, entries) && |entries| == n
             && Protected(mem0, mmu.cr3, v, mask, flags, entries)
    ensures forall w: nat :: w / PAGES == v / PAGES ==>
              var was := Translate(mem0, mmu.cr3, w);
              if v <= w < v + n then
                was.Page? && Translate(mmu.mem, mmu.cr3, w) == Page(Reprotect(was.entry, mask, flags))
              else Translate(mmu.mem, mmu.cr3, w) == was
  {
    hide TreeOk, Translate, PathOf, PageProtFlags, ProtMask, Reprotect;
    forall i | 0 <= i < n
      ensures Present(entries[i])
    {
      PageIsPresent(mem0, mmu.cr3, v + i);
      assert ProtectedEntry(Translate(mem0, mmu.cr3, v + i), mask, flags, entries[i]);
      ProtectBits(Translate(mem0, mmu.cr3, v + i).entry, prot, mmu.nxMask);
    }
  }

  lemma PageIsPresent(mem: Memory, cr3: Frame, w: nat)
    ensures Translate(mem, cr3, w).Page? ==> Present(Translate(mem, cr3, w).entry)
  {
    if Translate(mem, cr3, w).Page? {
      PagePresent(mem, cr3, PathOf(w));
    }
  }

  /** What a walk ends in is a present entry. */
  lemma {:induction false} PagePresent(mem: Memory, f: Frame, path: Path)
    requires path != [] && PathOk(path) && Walk(mem, f, path).Page?
    ensures Present(Walk(mem, f, path).entry)
    decreases |path|
  {
    if |path| > 1 {
      PagePresent(mem, FrameOf(mem[f][path[0]]), path[1..]);
    }
  }

  /** The frames `kmapanon` took can be freed again by `kunmapanon`. */
  lemma AnonCanFree(mem: Memory, cr3: Frame, places: Places, free0: set<Frame>, free: set<Frame>, v: nat, n: nat,
                    flags: Word, frames: seq<Frame>)
    requires FreshFrames(free0, free, places, mem, frames) && |frames| == n && Regular(v, n)
    requires flags & PRESENT == 0 && flags & MMASK_PHYS == 0
    requires forall w: nat :: w / PAGES == v / PAGES && v <= w < v + n ==>
               Translate(mem, cr3, w) == Page(AnonEntry(frames[w - v], flags))
    ensures AllMapped(mem, cr3, v, n) && CanFree(mem, cr3, places, free, v, n)
    ensures LeafFrames(mem, cr3, v, n) <= free0 && free <= free0
  {
    hide Translate, Aligned, LeafFrame, AnonEntry;
    RangeInHalf(v, n);
    forall w: nat | v <= w < v + n
      ensures LeafFrame(mem, cr3, w) == frames[w - v]
      ensures InUse(LeafFrame(mem, cr3, w), mem, places, free)
    {
      var i := w - v;
      LeafFrameIs(mem, cr3, w, frames[i], flags);
    }
    forall w: nat, u: nat | v <= w < u < v + n
      ensures LeafFrame(mem, cr3, w) != LeafFrame(mem, cr3, u)
    {
      assert LeafFrame(mem, cr3, w) == frames[w - v] && LeafFrame(mem, cr3, u) == frames[u - v];
    }
  }

  lemma LeafFrameIs(mem: Memory, cr3: Frame, w: nat, f: Frame, flags: Word)
    requires Translate(mem, cr3, w) == Page(AnonEntry(f, flags)) && Aligned(f) && flags & MMASK_PHYS == 0
    ensures LeafFrame(mem, cr3, w) == f
  {
    hide Translate;
    AnonFrame(f, flags);
  }

  lemma AnonFrame(f: Frame, flags: Word)
    requires Aligned(f) && flags & MMASK_PHYS == 0
    ensures FrameOf(AnonEntry(f, flags)) == f
  {
  }

  lemma VisitedInHalf(addr: nat, size: nat)
    requires StaysInside(addr, size)
    ensures var v, n := addr / 4096, PagesVisited(addr, size);
            Regular(v, n) && forall w: nat :: v <= w < v + n ==> w / PAGES == v / PAGES
  {
    hide Regular, StaysInside;
    RangeInHalf(addr / 4096, PagesVisited(addr, size));
  }

  lemma RangeInHalf(v: nat, n: nat)
    requires Regular(v, n)
    ensures forall w: nat :: v <= w < v + n ==> w / PAGES == v / PAGES
  {
    forall w: nat | v <= w < v + n
      ensures w / PAGES == v / PAGES
    {
      SameHalf(v, n, w - v);
    }
  }
}
