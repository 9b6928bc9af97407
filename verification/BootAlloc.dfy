/** The bootloader's page allocator and mapper, `src/boot/bootloader/alloc.c`. It walks the
    tables once per page, by code of its own. */
module BootAlloc {
  import opened PageTables
  import opened PageIter
  import opened Mmap
  import Words

  /** The table an entry leads to, as the bootloader masks it. */
  function BootFrameOf(e: Word): Frame {
    Frame(e & 0xffff_ffff_ffff_f000)
  }

  const REGION_COUNT: nat := 32

  datatype Region = Region(base: Word, size: nat)

  /** The frames of a region, in the order in which they are handed out. */
  ghost function Frames(base: Word, k: nat): (r: seq<Frame>)
    ensures |r| == k
    decreases k
  {
    if k == 0 then [] else [Frame(base)] + Frames(base + 4096, k - 1)
  }

  ghost function FreeList(regions: seq<Region>): seq<Frame> {
    if regions == [] then []
    else Frames(regions[0].base, regions[0].size / 4096) + FreeList(regions[1..])
  }

  /** ... 4096 bytes from one to the next. */
  lemma {:induction false} FramesAt(base: Word, k: nat, i: nat)
    requires i < k && Words.Value(base) + 4096 * i < 0x1_0000_0000_0000_0000
    ensures Words.Value(Frames(base, k)[i].addr) == Words.Value(base) + 4096 * i
    decreases k
  {
    hide Words.Value;
    if i > 0 {
      Words.NextPage(base, base + 4096);
      FramesAt(base + 4096, k - 1, i - 1);
    }
  }

  ghost predicate NoDup(s: seq<Frame>) {
    forall i, j :: 0 <= i < j < |s| ==> s[i] != s[j]
  }

  predicate WholePages(regions: seq<Region>) {
    forall i :: 0 <= i < |regions| ==> regions[i].size % 4096 == 0
  }

  /** A region after its first page is taken. */
  function Shorter(r: Region): Region
    requires r.size >= 4096
  {
    Region(r.base + 4096, r.size - 4096)
  }

  lemma PopFrames(r: Region)
    requires r.size > 0 && r.size % 4096 == 0
    ensures r.size >= 4096
    ensures Frames(r.base, r.size / 4096) == [Frame(r.base)] + Frames(Shorter(r).base, Shorter(r).size / 4096)
  {
    assert r.size / 4096 == (r.size - 4096) / 4096 + 1;
  }

  /** Taking the first page of the first region that has one pops the free list. */
  lemma {:induction false} PopRegion(regions: seq<Region>, i: nat)
    requires WholePages(regions) && i < |regions| && regions[i].size > 0
    requires forall k :: 0 <= k < i ==> regions[k].size == 0
    ensures regions[i].size >= 4096
    ensures FreeList(regions) != [] && FreeList(regions)[0] == Frame(regions[i].base)
    ensures FreeList(regions[i := Shorter(regions[i])]) == FreeList(regions)[1..]
    decreases i
  {
    hide Frames, Shorter;
    var r := regions[i];
    PopFrames(r);
    var regions' := regions[i := Shorter(r)];
    if i == 0 {
      assert regions'[1..] == regions[1..];
    } else {
      assert regions'[1..] == regions[1..][i - 1 := Shorter(r)];
      PopRegion(regions[1..], i - 1);
      NoFramesOf(regions[0].base);
      assert FreeList(regions) == [] + FreeList(regions[1..]) && FreeList(regions') == [] + FreeList(regions'[1..]);
      assert FreeList(regions) == FreeList(regions[1..]) && FreeList(regions') == FreeList(regions'[1..]);
    }
  }

  lemma NoFramesOf(base: Word)
    ensures Frames(base, 0) == []
  {
  }

  lemma ShorterWhole(regions: seq<Region>, i: nat)
    requires WholePages(regions) && i < |regions| && regions[i].size >= 4096
    ensures WholePages(regions[i := Shorter(regions[i])])
  {
  }

  lemma {:induction false} EmptyRegions(regions: seq<Region>)
    requires forall k :: 0 <= k < |regions| ==> regions[k].size == 0
    ensures FreeList(regions) == []
  {
    if regions != [] {
      EmptyRegions(regions[1..]);
    }
  }

  /** Directory entries of the boot tables are zero or present, without the top bit. */
  ghost predicate BootEntries(mem: Memory, places: Places) {
    forall f, i :: f in places && f in mem && |places[f]| < 3 && 0 <= i < 512 ==> BootEntry(mem[f][i])
  }

  predicate BootEntry(e: Word) {
    e == 0 || (Present(e) && e & 0x8000_0000_0000_0000 == 0)
  }

  /** The places of the tables a walk to page `v` goes through. */
  ghost function Above(v: nat): set<Path> {
    {PathOf(v)[..1], PathOf(v)[..2], PathOf(v)[..3]}
  }

  /** Those of them at which there is no table yet, `have` being the places of tables. */
  ghost function NewPlaces(have: set<Path>, v: nat): set<Path> {
    Above(v) - have
  }

  /** ... and those above any page of the range. */
  ghost function MissingPlaces(have: set<Path>, v: nat, n: nat): set<Path>
    decreases n
  {
    if n == 0 then {} else NewPlaces(have, v) + MissingPlaces(have, v + 1, n - 1)
  }

  lemma {:induction false} MissingAfter(have: set<Path>, v: nat, n: nat, added: set<Path>)
    ensures MissingPlaces(have + added, v, n) == MissingPlaces(have, v, n) - added
    decreases n
  {
    hide Above;
    if n > 0 {
      MissingAfter(have, v + 1, n - 1, added);
    }
  }

  /** An entry leads on exactly when there is a table at the place below it. */
  lemma LeadsOnIff(mem: Memory, cr3: Frame, places: Places, x: Frame, i: nat)
    requires TreeOk(mem, cr3, places) && x in places && |places[x]| < 3 && i < 512
    ensures LeadsOn(mem, x, i) <==> places[x] + [i] in places.Values
  {
    hide Present, Large, FrameOf;
    var p := places[x] + [i];
    if LeadsOn(mem, x, i) {
      assert EntryOk(mem, places, x, i);
    }
    if p in places.Values {
      var f :| f in places && places[f] == p;
      LastStep(mem, cr3, places[x], x, i, f);
    }
  }

  lemma {:induction false} LastStep(mem: Memory, h: Frame, path: Path, x: Frame, i: nat, f: Frame)
    requires PathOk(path) && i < 512 && Reaches(mem, h, path, x) && Reaches(mem, h, path + [i], f)
    ensures LeadsOn(mem, x, i)
    decreases |path|
  {
    if path == [] {
      assert path + [i] == [i];
    } else {
      assert (path + [i])[1..] == path[1..] + [i];
      LastStep(mem, FrameOf(mem[h][path[0]]), path[1..], x, i, f);
    }
  }

  class Boot {
    var mem: Memory
    const cr3: Frame
    const memFree: array<Region>
    ghost var places: Places

    ghost function Free(): seq<Frame>
      reads this, memFree
    {
      FreeList(memFree[..])
    }

    ghost predicate Valid()
      reads this, memFree
    {
      && memFree.Length == REGION_COUNT && WholePages(memFree[..])
      && TreeOk(mem, cr3, places) && BootEntries(mem, places)
      && FreeOk(Free(), places)
    }

    /** The tables and the free memory as the earlier boot stages leave them. */
    constructor (mem: Memory, cr3: Frame, regions: seq<Region>, ghost places: Places)
      requires |regions| == REGION_COUNT && WholePages(regions)
      requires TreeOk(mem, cr3, places) && BootEntries(mem, places) && FreeOk(FreeList(regions), places)
      ensures Valid() && this.mem == mem && this.cr3 == cr3 && memFree[..] == regions && this.places == places
              && fresh(memFree)
    {
      this.mem := mem;
      this.cr3 := cr3;
      this.places := places;
      memFree := new Region[REGION_COUNT](i requires 0 <= i < |regions| => regions[i]);
      new;
      assert memFree[..] == regions;
    }

    /** `alloc_page_hi`; 0 when no region has memory left. */
    method AllocPageHi() returns (page: Frame)
      requires memFree.Length == REGION_COUNT && WholePages(memFree[..])
      modifies this`mem, memFree
      ensures WholePages(memFree[..])
      ensures old(Free()) == [] ==> page == Frame(0) && Free() == [] && mem == old(mem)
      ensures old(Free()) != [] ==>
                page == old(Free())[0] && Free() == old(Free())[1..] && mem == old(mem)[page := ZeroTable()]
      ensures forall k :: 0 <= k < 32 && old(memFree[..])[k].size != 0 &&
                          (forall l :: 0 <= l < k ==> old(memFree[..])[l].size == 0) ==>
                var r := old(memFree[..])[k];
                page == Frame(r.base) && memFree[..] == old(memFree[..])[k := Region(r.base + 4096, r.size - 4096)]
    {
      hide FreeList, WholePages;
      ghost var regions := memFree[..];
      for i := 0 to REGION_COUNT
        invariant memFree[..] == regions && mem == old(mem)
        invariant forall k :: 0 <= k < i ==> regions[k].size == 0
      {
        if memFree[i].size != 0 {
          PopRegion(regions, i);
          ShorterWhole(regions, i);
          var base := memFree[i].base;
          memFree[i] := Region(memFree[i].base + 4096, memFree[i].size - 4096);
          assert memFree[..] == regions[i := Shorter(regions[i])];
          page := Frame(base);
          mem := mem[page := ZeroTable()];
          return;
        }
      }
      EmptyRegions(regions);
      page := Frame(0);
    }

    /** One level of `map_single`: the table below entry `i` of `x`, created when the entry
        is zero. */
    method NextTable(x: Frame, i: nat) returns (y: Frame)
      requires Valid() && x in places && x in mem && |places[x]| < 3 && i < 512
      requires Present(mem[x][i]) ==> !Large(mem[x][i])
      requires !LeadsOn(mem, x, i) ==> Free() != []
      modifies this`mem, this`places, memFree
      ensures Valid() && y in places && y in mem && places[y] == old(places)[x] + [i]
      ensures Grown(old(mem), mem, cr3, old(places), places, x)
      ensures LeadsOn(old(mem), x, i) ==> places == old(places) && Free() == old(Free()) && mem == old(mem)
      ensures !LeadsOn(old(mem), x, i) ==>
                && old(Free()) != [] && y == old(Free())[0] && Free() == old(Free())[1..]
                && places == old(places)[y := old(places)[x] + [i]] && y !in old(places) && y !in Free()
      ensures Untouched(old(mem), mem, old(places), places, old(Free()))
    {
      hide TreeOk, LinksKept, FreeList, BootEntries, FreeOk, WholePages, FrameOf, Present, Large, BootEntry, LeadsOn,
           Preserved;
      PreservedSelf(3, mem, cr3, places, FrameSet(Free()));
      var tmp2 := mem[x][i];
      EntryKind(mem, places, x, i);
      GrownSelf(mem, cr3, places, x);
      if tmp2 == 0 {
        tmp2 := NewTable(x, i);
      } else {
        BelowExisting(mem, cr3, places, x, i);
      }
      BootEntryTop(tmp2);
      BootFrame(tmp2);
      y := BootFrameOf(tmp2);
    }

    /** `tmp2 = alloc_page_hi() | 3; tmp[i] = tmp2` */
    method NewTable(x: Frame, i: nat) returns (e: Word)
      requires Valid() && x in places && x in mem && |places[x]| < 3 && i < 512
      requires mem[x][i] == 0 && Free() != []
      modifies this`mem, this`places, memFree
      ensures Valid() && BootEntry(e)
      ensures var y := FrameOf(e);
              && y in places && y in mem && places[y] == old(places)[x] + [i]
              && old(Free()) != [] && y == old(Free())[0] && Free() == old(Free())[1..]
              && places == old(places)[y := old(places)[x] + [i]] && y !in old(places) && y !in Free()
      ensures Grown(old(mem), mem, cr3, old(places), places, x)
      ensures Untouched(old(mem), mem, old(places), places, old(Free()))
    {
      hide TreeOk, LinksKept, FreeList, LinkTable, SetEntry, BootEntries, FreeOk, WholePages, Aligned, TableEntry,
           FrameOf, Present, Large, BootEntry, LinkedAt, Untouched;
      ghost var mem0, places0, free0 := mem, places, Free();
      FirstFree(free0, places);
      ZeroNotPresent();
      var n := AllocPageHi();
      e := TableEntry(n, 3);
      mem := mem[x := mem[x][i := e]];
      places := places[n := places[x] + [i]];
      NewTableOk(mem0, mem, cr3, places0, places, x, i, n, free0);
      PopFree(free0, places0, places, n);
    }

    /** `decompose_addr` */
    method DecomposeAddr(virtual: nat) returns (a: nat, b: nat, c: nat, d: nat)
      ensures [a, b, c, d] == PathOf(virtual / 4096) && a < 512 && b < 512 && c < 512 && d < 512
    {
      d := virtual / 0x1000 % 0x200;
      c := virtual / 0x20_0000 % 0x200;
      b := virtual / 0x4000_0000 % 0x200;
      a := virtual / 0x80_0000_0000 % 0x200;
      assert virtual / 0x20_0000 == virtual / 4096 / 512;
      assert virtual / 0x4000_0000 == virtual / 4096 / 0x4_0000;
      assert virtual / 0x80_0000_0000 == virtual / 4096 / 0x800_0000;
    }

    /** Goes one level down, at entry `i` of the table at `path`. */
    method Descend(x: Frame, i: nat, ghost v: nat, ghost path: Path) returns (y: Frame)
      requires Valid() && x in places && x in mem && places[x] == path && |path| < 3 && i < 512
      requires path + [i] <= PathOf(v) && !Translate(mem, cr3, v).Big?
      requires path + [i] !in places.Values ==> Free() != []
      modifies this`mem, this`places, memFree
      ensures Valid() && y in places && y in mem && places[y] == path + [i]
      ensures Descended(old(mem), mem, cr3, old(places), places, old(Free()), Free(), {path + [i]})
    {
      hide TreeOk, FreeList, BootEntries, FreeOk, WholePages, FrameOf, Present, Large, LeadsOn, Translate, Grown,
           Untouched, PathOf, Descended;
      ghost var m, pl, fr := mem, places, Free();
      LeadsOnIff(mem, cr3, places, x, i);
      EntryOnTheWay(mem, cr3, places, x, i, v);
      LeadsOnSame(mem, mem, x, i);
      y := NextTable(x, i);
      if LeadsOn(m, x, i) {
        OldTable(m, mem, cr3, pl, fr, x, path + [i]);
      } else {
        OneTable(m, mem, cr3, pl, places, fr, Free(), x, y, path + [i]);
      }
    }

    /** The three descents of `map_single`, to the page table of page `v`. */
    method LeafTable(a: nat, b: nat, c: nat, ghost v: nat) returns (t: Frame)
      requires Valid() && !Translate(mem, cr3, v).Big?
      requires a < 512 && b < 512 && c < 512 && [a, b, c] <= PathOf(v)
      requires |Free()| >= |NewPlaces(places.Values, v)|
      modifies this`mem, this`places, memFree
      ensures Valid() && t in places && t in mem && places[t] == [a, b, c]
      ensures Descended(old(mem), mem, cr3, old(places), places, old(Free()), Free(), Above(v))
    {
      hide Valid, FreeList, Translate, PathOf, NewPlaces, Descended, Above, TreeOk;
      ghost var mem0, places0, free0 := mem, places, Free();
      BootRoot(this);
      PrefixesOf(v, a, b, c);
      NothingAdded(mem, cr3, places, free0);
      RoomFor(mem0, mem, cr3, places0, places, free0, Free(), {}, [a], v);
      t := Descend(cr3, a, v, []);
      RoomFor(mem0, mem, cr3, places0, places, free0, Free(), {[a]}, [a, b], v);
      ghost var mem1, places1, free1 := mem, places, Free();
      t := Descend(t, b, v, [a]);
      DescendedOn(mem0, mem1, mem, cr3, places0, places1, places, free0, free1, Free(), {[a]}, [a, b]);
      RoomFor(mem0, mem, cr3, places0, places, free0, Free(), {[a], [a, b]}, [a, b, c], v);
      ghost var mem2, places2, free2 := mem, places, Free();
      t := Descend(t, c, v, [a, b]);
      DescendedOn(mem0, mem2, mem, cr3, places0, places2, places, free0, free2, Free(), {[a], [a, b]}, [a, b, c]);
    }

    /** `tmp[d] = alloc_page_hi() | 1` */
    method MapLeaf(t: Frame, d: nat, ghost v: nat) returns (page: Frame)
      requires Valid() && t in places && t in mem && |places[t]| == 3 && d < 512 && places[t] + [d] == PathOf(v)
      requires Free() != []
      modifies this`mem, memFree
      ensures Valid() && old(Free()) != [] && page == old(Free())[0] && Free() == old(Free())[1..]
      ensures forall w: nat :: Translate(mem, cr3, w) ==
                if PathOf(w) == PathOf(v) then Page(BootLeaf(page)) else Translate(old(mem), cr3, w)
      ensures page in mem && mem[page] == ZeroTable() && page !in places && Aligned(page) && page !in Free()
      ensures Untouched(old(mem), mem, old(places), places, old(Free()))
    {
      hide TreeOk, FreeList, BootEntries, FreeOk, WholePages, Translate, PathOf, Aligned, BootLeaf, Untouched;
      ghost var mem0 := mem;
      FirstFree(Free(), places);
      PopFree(Free(), places, places, Free()[0]);
      page := AllocPageHi();
      ClearFrame(mem0, cr3, places, page);
      SetLeaf(mem, cr3, places, t, d, BootLeaf(page));
      BootLeafPresent(page);
      LeafEntries(mem0, mem, cr3, places, page, t, d, old(Free()));
      mem := mem[t := mem[t][d := BootLeaf(page)]];
    }

    /** Maps one page to a fresh cleared frame. */
    method MapSingle(virtual: nat) returns (ghost page: Frame)
      requires Valid() && !Translate(mem, cr3, virtual / 4096).Big?
      requires |Free()| > |NewPlaces(places.Values, virtual / 4096)|
      modifies this`mem, this`places, memFree
      ensures Valid()
      ensures Mapped(old(mem), mem, cr3, old(places), places, old(Free()), Free(), virtual / 4096, page)
    {
      hide Valid, FreeList, Translate, Untouched, PathOf, Aligned, BootLeaf, NewPlaces, Descended, Above, Mapped;
      ghost var v, mem0, places0, free0 := virtual / 4096, mem, places, Free();
      var a, b, c, d := DecomposeAddr(virtual);
      var t := LeafTable(a, b, c, v);
      RoomForPage(mem0, mem, cr3, places0, places, free0, Free(), v);
      ghost var mem1, free1 := mem, Free();
      page := MapLeaf(t, d, v);
      PageMapped(mem0, mem1, mem, cr3, places0, places, free0, free1, Free(), v, page);
    }

    /** `valloc`: maps every page that `size` bytes at `addr` touch. Page counts above 0x80000
        overflow the loop's `i * PAGESIZE`. */
    method Valloc(addr: nat, size: nat) returns (ghost frames: seq<Frame>)
      requires Valid() && addr + size < 0x1_0000_0000_0000_0000
      requires var v, n := addr / 4096, Touched(addr, size);
               && n <= 0x8_0000 && (n > 0 ==> (v + n - 1) / PAGES == v / PAGES)
               && NoBig(mem, cr3, v, n) && |Free()| >= |MissingPlaces(places.Values, v, n)| + n
      modifies this`mem, this`places, memFree
      ensures Valid()
      ensures var v, n := addr / 4096, Touched(addr, size);
              && |frames| == n
              && (forall w: nat :: w / PAGES == v / PAGES ==>
                    Translate(mem, cr3, w) ==
                    if v <= w < v + n then Page(BootLeaf(frames[w - v])) else Translate(old(mem), cr3, w))
              && places.Values == old(places).Values + MissingPlaces(old(places).Values, v, n)
              && Drawn(old(Free()), Free(), |MissingPlaces(old(places).Values, v, n)| + n)
      ensures Handed(old(Free()), Free(), places, mem, frames)
      ensures LeavesAt(mem, cr3, addr / 4096, frames)
      ensures Untouched(old(mem), mem, old(places), places, old(Free()))
    {
      hide Valid, FreeList, Translate, Untouched, PathOf, Drawn, Handed, Overlay, NoBig, Mapped, MissingPlaces,
           NewPlaces, Vallocing, TablesLeft, BootLeaf, LeavesAt;
      ghost var mem0, places0, free0 := mem, places, Free();
      var npages := (addr % 4096 + size + 4095) / 4096;
      var vaddr := addr - addr % 4096;
      ghost var v, n := addr / 4096, Touched(addr, size);
      frames := [];
      StartVallocs(this, v, n);
      for i := 0 to npages
        invariant Valid() && |frames| == i
        invariant Vallocing(mem0, mem, cr3, places0, places, free0, Free(), v, n, frames)
      {
        assert (vaddr + i * 4096) / 4096 == v + i;
        NextPageFits(mem0, mem, cr3, places0, places, free0, Free(), v, n, frames);
        ghost var mem1, places1, free1 := mem, places, Free();
        ghost var page := MapSingle(vaddr + i * 4096);
        PageDone(mem0, mem1, mem, cr3, places0, places1, places, free0, free1, Free(), v, n, frames, page);
        frames := frames + [page];
      }
      VallocDone(mem0, mem, cr3, places0, places, free0, Free(), v, n, frames);
      VallocLeaves(mem, cr3, v, n, frames, free0, Free(), places);
    }
  }

  /** How many pages `size` bytes at `addr` touch; an unaligned empty range counts one. */
  function Touched(addr: nat, size: nat): nat {
    (addr % 4096 + size + 4095) / 4096
  }

  /** Distinct cleared frames that came from the free list and are no tables. */
  ghost predicate Handed(free: seq<Frame>, free': seq<Frame>, places: Places, mem: Memory, frames: seq<Frame>) {
    && (forall i :: 0 <= i < |frames| ==>
          && frames[i] in free && frames[i] !in free' && frames[i] !in places
          && Aligned(frames[i]) && frames[i] in mem && mem[frames[i]] == ZeroTable())
    && (forall i, k :: 0 <= i < k < |frames| ==> frames[i] != frames[k])
  }

  ghost function BootLeaves(frames: seq<Frame>): (r: seq<Word>)
    ensures |r| == |frames|
  {
    seq(|frames|, i requires 0 <= i < |frames| => BootLeaf(frames[i]))
  }

  /** Of the `n` pages from `v` on, the first `|frames|` are mapped, to these frames; there is
      memory for the others. */
  ghost predicate Vallocing(mem0: Memory, mem: Memory, cr3: Frame, places0: Places, places: Places,
                            free0: seq<Frame>, free: seq<Frame>, v: nat, n: nat, frames: seq<Frame>) {
    var i := |frames|;
    && i <= n && (n > 0 ==> (v + n - 1) / PAGES == v / PAGES)
    && NoBig(mem0, cr3, v, n)
    && Overlay(mem0, mem, cr3, v, BootLeaves(frames))
    && Handed(free0, free, places, mem, frames)
    && Untouched(mem0, mem, places0, places, free0)
    && TablesLeft(places0, places, free0, free, v, n, i)
  }

  /** Tables still missing, and what was drawn for those no longer missing. */
  ghost predicate TablesLeft(places0: Places, places: Places, free0: seq<Frame>, free: seq<Frame>, v: nat, n: nat,
                             i: nat)
    requires i <= n
  {
    && places0.Keys <= places.Keys
    && Books(places0.Values, MissingPlaces(places0.Values, v, n), places.Values,
             MissingPlaces(places.Values, v + i, n - i),
             free0, free, i, n - i)
  }

  /** With tables still missing at `left` and `rest` pages to come, the free list has paid
      for the tables of `all` that are no longer missing and for `pages` frames. */
  ghost predicate Books(have0: set<Path>, all: set<Path>, have: set<Path>, left: set<Path>,
                        free0: seq<Frame>, free: seq<Frame>, pages: nat, rest: nat) {
    && SameUnion(have0, all, have, left) && |left| <= |all|
    && Drawn(free0, free, |all| - |left| + pages)
    && |free| >= |left| + rest
  }

  lemma BooksOn(have0: set<Path>, all: set<Path>, have: set<Path>, left: set<Path>, have': set<Path>, left': set<Path>,
                free0: seq<Frame>, free: seq<Frame>, free': seq<Frame>, pages: nat, rest: nat, k: nat)
    requires Books(have0, all, have, left, free0, free, pages, rest) && rest > 0
    requires SameUnion(have, left, have', left') && |left| == k + |left'| && Drawn(free, free', k + 1)
    ensures Books(have0, all, have', left', free0, free', pages + 1, rest - 1)
  {
    hide Drawn, SameUnion;
    SameUnionOn(have0, all, have, left, have', left');
    DrawnOn(free0, free, free', |all| - |left| + pages, k + 1);
    DrawnLength(free, free', k + 1);
  }

  function PageOfByte(a: nat): nat {
    a / 4096
  }

  /** `Touched` pages from that of `addr` on are exactly the pages with a byte of the range. */
  lemma TouchedExactly(addr: nat, size: nat, w: nat)
    requires size > 0
    ensures addr / 4096 <= w < addr / 4096 + Touched(addr, size) <==>
            exists k :: addr <= k < addr + size && PageOfByte(k) == w
  {
    var v, n := addr / 4096, Touched(addr, size);
    if v <= w < v + n {
      var k := if w == v then addr else w * 4096;
      assert w * 4096 <= (v + n - 1) * 4096;
      assert addr <= k < addr + size && PageOfByte(k) == w;
    }
    forall k | addr <= k < addr + size
      ensures v <= PageOfByte(k) < v + n
    {
      assert k <= addr + size - 1 < (v + n) * 4096;
    }
  }

  ghost predicate SameUnion<T>(a: set<T>, b: set<T>, c: set<T>, d: set<T>) {
    a + b == c + d
  }

  lemma StartVallocs(boot: Boot, v: nat, n: nat)
    requires boot.Valid() && (n > 0 ==> (v + n - 1) / PAGES == v / PAGES)
    requires NoBig(boot.mem, boot.cr3, v, n) && |boot.Free()| >= |MissingPlaces(boot.places.Values, v, n)| + n
    ensures Vallocing(boot.mem, boot.mem, boot.cr3, boot.places, boot.places, boot.Free(), boot.Free(), v, n, [])
  {
    hide TreeOk, Translate, BootEntries, FreeOk, FreeList, MissingPlaces, NoBig, Preserved;
    PreservedSelf(3, boot.mem, boot.cr3, boot.places, FrameSet(boot.Free()));
  }

  lemma NextPageFits(mem0: Memory, mem: Memory, cr3: Frame, places0: Places, places: Places,
                     free0: seq<Frame>, free: seq<Frame>, v: nat, n: nat, frames: seq<Frame>)
    requires Vallocing(mem0, mem, cr3, places0, places, free0, free, v, n, frames) && |frames| < n
    ensures !Translate(mem, cr3, v + |frames|).Big? && |free| > |NewPlaces(places.Values, v + |frames|)|
  {
    hide Translate, Handed, Untouched, Drawn, NewPlaces, Overlay, NoBig, MissingPlaces, TablesLeft;
    var i := |frames|;
    NotBigYet(mem0, mem, cr3, v, n, frames);
    LeftRoom(places0, places, free0, free, v, n, i);
  }

  lemma LeftRoom(places0: Places, places: Places, free0: seq<Frame>, free: seq<Frame>, v: nat, n: nat, i: nat)
    requires i < n && TablesLeft(places0, places, free0, free, v, n, i)
    ensures |free| > |NewPlaces(places.Values, v + i)|
  {
    hide MissingPlaces, NewPlaces, Drawn, SameUnion, Above;
    NextMissing(places.Values, v + i, n - i);
  }

  lemma NotBigYet(mem0: Memory, mem: Memory, cr3: Frame, v: nat, n: nat, frames: seq<Frame>)
    requires Overlay(mem0, mem, cr3, v, BootLeaves(frames)) && NoBig(mem0, cr3, v, n)
    requires |frames| < n && (v + n - 1) / PAGES == v / PAGES
    ensures !Translate(mem, cr3, v + |frames|).Big?
  {
    hide Translate;
    var w := v + |frames|;
    Between(v, w, v + n - 1);
    assert Translate(mem, cr3, w) == Translate(mem0, cr3, w);
  }

  lemma Between(v: nat, w: nat, u: nat)
    requires v <= w <= u && v / PAGES == u / PAGES
    ensures w / PAGES == v / PAGES
  {
  }

  lemma NextMissing(have: set<Path>, v: nat, n: nat)
    requires n > 0
    ensures |MissingPlaces(have, v, n)| == |NewPlaces(have, v)| + |MissingPlaces(have + Above(v), v + 1, n - 1)|
    ensures SameUnion(have, MissingPlaces(have, v, n), have + Above(v), MissingPlaces(have + Above(v), v + 1, n - 1))
  {
    hide Above, MissingPlaces;
    MissingAfter(have, v + 1, n - 1, Above(v));
    MissingAreNew(have, v + 1, n - 1);
    MissingStep(have, v, n);
    Moved(have, Above(v), MissingPlaces(have, v + 1, n - 1));
  }

  lemma {:induction false} MissingAreNew(have: set<Path>, v: nat, n: nat)
    ensures MissingPlaces(have, v, n) !! have
    decreases n
  {
    hide Above;
    if n > 0 {
      MissingAreNew(have, v + 1, n - 1);
    }
  }

  lemma MissingStep(have: set<Path>, v: nat, n: nat)
    requires n > 0
    ensures MissingPlaces(have, v, n) == Above(v) - have + MissingPlaces(have, v + 1, n - 1)
  {
    hide Above;
  }

  lemma Moved<T>(s: set<T>, above: set<T>, rest: set<T>)
    requires rest !! s
    ensures SameUnion(s, above - s + rest, s + above, rest - above)
    ensures |above - s + rest| == |above - s| + |rest - above|
  {
    assert above - s + rest == above - s + (rest - above);
  }

  lemma PageDone(mem0: Memory, mem: Memory, mem': Memory, cr3: Frame, places0: Places, places: Places, places': Places,
                 free0: seq<Frame>, free: seq<Frame>, free': seq<Frame>, v: nat, n: nat, frames: seq<Frame>,
                 page: Frame)
    requires Vallocing(mem0, mem, cr3, places0, places, free0, free, v, n, frames) && |frames| < n
    requires Mapped(mem, mem', cr3, places, places', free, free', v + |frames|, page)
    ensures Vallocing(mem0, mem', cr3, places0, places', free0, free', v, n, frames + [page])
  {
    hide Translate, Handed, Untouched, Drawn, NewPlaces, Overlay, NoBig, TablesLeft, Mapped;
    var i := |frames|;
    Between(v, v + i, v + n - 1);
    PageOverlay(mem0, mem, mem', cr3, places, places', free, free', v, frames, page);
    PageCounted(mem, mem', cr3, places0, places, places', free0, free, free', v, n, i, page);
    PageHanded(mem, mem', cr3, places, places', free0, free, free', v + i, frames, page, |free0| - |free|) by {
      LeftDrawn(places0, places, free0, free, v, n, i);
    }
    UntouchedMore(mem0, mem, mem', cr3, places0, places, places', free0, free, free', v + i, page,
                  |free0| - |free|) by {
      LeftDrawn(places0, places, free0, free, v, n, i);
    }
  }

  lemma LeftDrawn(places0: Places, places: Places, free0: seq<Frame>, free: seq<Frame>, v: nat, n: nat, i: nat)
    requires i <= n && TablesLeft(places0, places, free0, free, v, n, i)
    ensures |free| <= |free0| && Drawn(free0, free, |free0| - |free|)
  {
    hide MissingPlaces;
  }

  lemma PageOverlay(mem0: Memory, mem: Memory, mem': Memory, cr3: Frame, places: Places, places': Places,
                    free: seq<Frame>, free': seq<Frame>, v: nat, frames: seq<Frame>, page: Frame)
    requires Overlay(mem0, mem, cr3, v, BootLeaves(frames)) && (v + |frames|) / PAGES == v / PAGES
    requires Mapped(mem, mem', cr3, places, places', free, free', v + |frames|, page)
    ensures Overlay(mem0, mem', cr3, v, BootLeaves(frames + [page]))
  {
    hide Translate, PathOf, LeafOf, BootLeaf, Drawn, Untouched, TablesFrom, NewPlaces, Above, Aligned;
    BootLeafPresent(page);
    assert BootLeaves(frames + [page]) == BootLeaves(frames) + [BootLeaf(page)];
    forall w: nat | w / PAGES == v / PAGES && PathOf(w) == PathOf(v + |frames|)
      ensures w == v + |frames|
    {
      SameHalfPath(w, v + |frames|);
    }
  }

  lemma PageCounted(mem: Memory, mem': Memory, cr3: Frame, places0: Places, places: Places, places': Places,
                    free0: seq<Frame>, free: seq<Frame>, free': seq<Frame>, v: nat, n: nat, i: nat, page: Frame)
    requires i < n && TablesLeft(places0, places, free0, free, v, n, i)
    requires Mapped(mem, mem', cr3, places, places', free, free', v + i, page)
    ensures TablesLeft(places0, places', free0, free', v, n, i + 1)
  {
    hide Translate, PathOf, BootLeaf, Untouched, TablesFrom, Above, Aligned, MissingPlaces, Drawn, NewPlaces,
         TablesLeft, SameUnion, Mapped;
    MappedCounts(mem, mem', cr3, places, places', free, free', v + i, page);
    NextMissing(places.Values, v + i, n - i);
    assert v + i + 1 == v + (i + 1) && n - i - 1 == n - (i + 1);
    CountOn(places0, places, places', free0, free, free', v, n, i, |NewPlaces(places.Values, v + i)|,
            MissingPlaces(places'.Values, v + (i + 1), n - (i + 1)));
  }

  lemma MappedCounts(mem: Memory, mem': Memory, cr3: Frame, places: Places, places': Places,
                     free: seq<Frame>, free': seq<Frame>, v: nat, page: Frame)
    requires Mapped(mem, mem', cr3, places, places', free, free', v, page)
    ensures places.Keys <= places'.Keys && places'.Values == places.Values + Above(v)
    ensures Drawn(free, free', |NewPlaces(places.Values, v)| + 1)
  {
    hide Translate, PathOf, BootLeaf, Untouched, TablesFrom, Above, Aligned, Drawn, NewPlaces;
  }

  lemma CountOn(places0: Places, places: Places, places': Places, free0: seq<Frame>, free: seq<Frame>,
                free': seq<Frame>, v: nat, n: nat, i: nat, k: nat, left': set<Path>)
    requires i < n && TablesLeft(places0, places, free0, free, v, n, i)
    requires left' == MissingPlaces(places'.Values, v + (i + 1), n - (i + 1))
    requires |MissingPlaces(places.Values, v + i, n - i)| == k + |left'|
    requires SameUnion(places.Values, MissingPlaces(places.Values, v + i, n - i), places'.Values, left')
    requires places.Keys <= places'.Keys && Drawn(free, free', k + 1)
    ensures TablesLeft(places0, places', free0, free', v, n, i + 1)
  {
    hide MissingPlaces, Drawn, SameUnion, Books;
    BooksOn(places0.Values, MissingPlaces(places0.Values, v, n), places.Values,
            MissingPlaces(places.Values, v + i, n - i),
            places'.Values, left', free0, free, free', i, n - i, k);
  }

  lemma SameUnionOn<T>(a: set<T>, b: set<T>, c: set<T>, d: set<T>, e: set<T>, f: set<T>)
    requires SameUnion(a, b, c, d) && SameUnion(c, d, e, f)
    ensures SameUnion(a, b, e, f)
  {
  }

  lemma DrawnLength(free: seq<Frame>, free': seq<Frame>, k: nat)
    requires Drawn(free, free', k)
    ensures |free'| == |free| - k
  {
  }

  lemma PageHanded(mem: Memory, mem': Memory, cr3: Frame, places: Places, places': Places,
                   free0: seq<Frame>, free: seq<Frame>, free': seq<Frame>, v: nat, frames: seq<Frame>, page: Frame,
                   k: nat)
    requires Handed(free0, free, places, mem, frames) && Drawn(free0, free, k)
    requires Mapped(mem, mem', cr3, places, places', free, free', v, page)
    ensures Handed(free0, free', places', mem', frames + [page])
  {
    hide Translate, PathOf, BootLeaf, Above, Aligned, NewPlaces, Drawn;
    DrawnOn(free0, free, free', k, |NewPlaces(places.Values, v)| + 1);
  }

  lemma UntouchedMore(mem0: Memory, mem: Memory, mem': Memory, cr3: Frame, places0: Places, places: Places,
                      places': Places, free0: seq<Frame>, free: seq<Frame>, free': seq<Frame>, v: nat, page: Frame,
                      k: nat)
    requires Untouched(mem0, mem, places0, places, free0) && Drawn(free0, free, k)
    requires Mapped(mem, mem', cr3, places, places', free, free', v, page)
    ensures Untouched(mem0, mem', places0, places', free0)
  {
    hide Translate, PathOf, BootLeaf, Above, Aligned, NewPlaces, Drawn, TablesFrom, Untouched;
    DrawnOn(free0, free, free', k, |NewPlaces(places.Values, v)| + 1);
    UntouchedOn(mem0, mem, mem', places0, places, places', free0, free);
  }

  lemma VallocDone(mem0: Memory, mem: Memory, cr3: Frame, places0: Places, places: Places,
                   free0: seq<Frame>, free: seq<Frame>, v: nat, n: nat, frames: seq<Frame>)
    requires Vallocing(mem0, mem, cr3, places0, places, free0, free, v, n, frames) && |frames| == n
    ensures forall w: nat :: w / PAGES == v / PAGES ==>
              Translate(mem, cr3, w) ==
              if v <= w < v + n then Page(BootLeaf(frames[w - v])) else Translate(mem0, cr3, w)
    ensures places.Values == places0.Values + MissingPlaces(places0.Values, v, n)
    ensures Drawn(free0, free, |MissingPlaces(places0.Values, v, n)| + n)
    ensures Handed(free0, free, places, mem, frames) && Untouched(mem0, mem, places0, places, free0)
  {
    hide Translate, PathOf, BootLeaf, Handed, Untouched, Drawn, NewPlaces, TablesLeft, Overlay, NoBig, LeafOf,
         MissingPlaces;
    NoneLeftOver(places0, places, free0, free, v, n);
    OverlayPages(mem0, mem, cr3, v, frames);
  }

  lemma NoneLeftOver(places0: Places, places: Places, free0: seq<Frame>, free: seq<Frame>, v: nat, n: nat)
    requires TablesLeft(places0, places, free0, free, v, n, n)
    ensures places.Values == places0.Values + MissingPlaces(places0.Values, v, n)
    ensures Drawn(free0, free, |MissingPlaces(places0.Values, v, n)| + n)
  {
    hide Drawn, SameUnion, MissingPlaces, Books;
    NoneMissing(places.Values, v + n);
    BooksClosed(places0.Values, MissingPlaces(places0.Values, v, n), places.Values, free0, free, n);
  }

  lemma BooksClosed(have0: set<Path>, all: set<Path>, have: set<Path>, free0: seq<Frame>, free: seq<Frame>, pages: nat)
    requires Books(have0, all, have, {}, free0, free, pages, 0)
    ensures have == have0 + all && Drawn(free0, free, |all| + pages)
  {
    hide Drawn, SameUnion;
    EmptyUnion(have0, all, have);
  }

  lemma NoneMissing(have: set<Path>, v: nat)
    ensures MissingPlaces(have, v, 0) == {}
  {
  }

  lemma EmptyUnion<T>(a: set<T>, b: set<T>, c: set<T>)
    requires SameUnion(a, b, c, {})
    ensures c == a + b
  {
    assert c + {} == c;
  }

  lemma OverlayPages(mem0: Memory, mem: Memory, cr3: Frame, v: nat, frames: seq<Frame>)
    requires Overlay(mem0, mem, cr3, v, BootLeaves(frames))
    ensures forall w: nat :: w / PAGES == v / PAGES ==>
              Translate(mem, cr3, w) ==
              if v <= w < v + |frames| then Page(BootLeaf(frames[w - v])) else Translate(mem0, cr3, w)
  {
    hide Translate, BootLeaf, LeafOf;
    forall k | 0 <= k < |frames|
      ensures LeafOf(BootLeaf(frames[k])) == Page(BootLeaf(frames[k]))
    {
      BootLeafPresent(frames[k]);
    }
  }

  /** The page-table entry `map_single` stores. */
  function BootLeaf(page: Frame): Word {
    page.addr | 1
  }

  lemma BootLeafPresent(page: Frame)
    ensures LeafOf(BootLeaf(page)) == Page(BootLeaf(page))
  {
  }

  /** The entry maps the page to that very frame, and says nothing else but that it is
      present: a page that the processor may read and execute, in supervisor mode. */
  lemma BootLeafFrame(page: Frame)
    requires Aligned(page)
    ensures Present(BootLeaf(page)) && FrameOf(BootLeaf(page)) == page
    ensures BootLeaf(page) & 0x7fff_ffff_ffff_f000 == page.addr && BootLeaf(page) & 0x8000_0000_0000_0fff == 1
  {
  }

  /** Pages from `v` on are mapped to these frames, each present and nothing else. */
  ghost predicate LeavesAt(mem: Memory, cr3: Frame, v: nat, frames: seq<Frame>) {
    forall k :: 0 <= k < |frames| ==>
      && Translate(mem, cr3, v + k).Page?
      && var e := Translate(mem, cr3, v + k).entry;
         e & 0x7fff_ffff_ffff_f000 == frames[k].addr && e & 0x8000_0000_0000_0fff == 1
  }

  lemma VallocLeaves(mem: Memory, cr3: Frame, v: nat, n: nat, frames: seq<Frame>, free0: seq<Frame>,
                     free: seq<Frame>, places: Places)
    requires Handed(free0, free, places, mem, frames) && |frames| == n && (n > 0 ==> (v + n - 1) / PAGES == v / PAGES)
    requires forall w: nat :: w / PAGES == v / PAGES && v <= w < v + n ==>
               Translate(mem, cr3, w) == Page(BootLeaf(frames[w - v]))
    ensures LeavesAt(mem, cr3, v, frames)
  {
    hide Translate, BootLeaf, Aligned;
    forall k | 0 <= k < n
      ensures Translate(mem, cr3, v + k) == Page(BootLeaf(frames[k]))
      ensures var e := BootLeaf(frames[k]);
              e & 0x7fff_ffff_ffff_f000 == frames[k].addr && e & 0x8000_0000_0000_0fff == 1
    {
      Between(v, v + k, v + n - 1);
      assert frames[k] == frames[v + k - v];
      BootLeafFrame(frames[k]);
    }
  }

  lemma BootRoot(boot: Boot)
    requires boot.Valid()
    ensures TreeOk(boot.mem, boot.cr3, boot.places)
    ensures boot.cr3 in boot.places && boot.cr3 in boot.mem && boot.places[boot.cr3] == []
  {
  }

  lemma AddValue(places: Places, y: Frame, p: Path)
    requires y !in places
    ensures places[y := p].Values == places.Values + {p}
  {
    var places' := places[y := p];
    assert places'[y] == p;
    forall q | q in places.Values
      ensures q in places'.Values
    {
      var f :| f in places && places[f] == q;
      assert places'[f] == q;
    }
  }

  /** Tables were added at those of `added` that had none, from the front of the free list:
      no translation changed, and nothing else was touched. */
  ghost predicate Descended(mem: Memory, mem': Memory, cr3: Frame, places: Places, places': Places,
                            free: seq<Frame>, free': seq<Frame>, added: set<Path>) {
    && (forall w: nat :: Translate(mem', cr3, w) == Translate(mem, cr3, w))
    && places.Keys <= places'.Keys && places'.Values == places.Values + added
    && Drawn(free, free', |added - places.Values|)
    && TablesFrom(places, places', free, free')
    && Untouched(mem, mem', places, places', free)
  }

  /** New tables are frames taken from the free list. */
  ghost predicate TablesFrom(places: Places, places': Places, free: seq<Frame>, free': seq<Frame>) {
    forall f :: f in places' && f !in places ==> f in free && f !in free'
  }

  lemma TablesOn(places0: Places, places1: Places, places2: Places, free0: seq<Frame>, free1: seq<Frame>,
                 free2: seq<Frame>)
    requires TablesFrom(places0, places1, free0, free1) && TablesFrom(places1, places2, free1, free2)
    requires forall f :: f in free2 ==> f in free1
    requires forall f :: f in free1 ==> f in free0
    ensures TablesFrom(places0, places2, free0, free2)
  {
  }

  /** The first `k` frames of the free list were taken. */
  ghost predicate Drawn(free: seq<Frame>, free': seq<Frame>, k: nat) {
    k <= |free| && free' == free[k..]
  }

  lemma NothingAdded(mem: Memory, cr3: Frame, places: Places, free: seq<Frame>)
    requires TreeOk(mem, cr3, places)
    ensures Descended(mem, mem, cr3, places, places, free, free, {})
  {
    hide Translate, Preserved, TreeOk;
    PreservedSelf(3, mem, cr3, places, FrameSet(free));
    assert {} - places.Values == {};
  }

  lemma OldTable(mem: Memory, mem': Memory, cr3: Frame, places: Places, free: seq<Frame>, x: Frame, p: Path)
    requires Grown(mem, mem', cr3, places, places, x) && Untouched(mem, mem', places, places, free)
             && p in places.Values
    ensures Descended(mem, mem', cr3, places, places, free, free, {p})
  {
    hide Translate, Untouched, LinksKept;
    assert {p} - places.Values == {};
  }

  lemma OneTable(mem: Memory, mem': Memory, cr3: Frame, places: Places, places': Places, free: seq<Frame>,
                 free': seq<Frame>, x: Frame, y: Frame, p: Path)
    requires Grown(mem, mem', cr3, places, places', x) && Untouched(mem, mem', places, places', free)
             && p !in places.Values
    requires places' == places[y := p] && y !in places && free != [] && y == free[0] && free' == free[1..]
             && y !in free'
    ensures Descended(mem, mem', cr3, places, places', free, free', {p})
  {
    hide Translate, Untouched, LinksKept;
    AddValue(places, y, p);
    assert {p} - places.Values == {p};
  }

  lemma PrefixesOf(v: nat, a: nat, b: nat, c: nat)
    requires [a, b, c] <= PathOf(v)
    ensures Above(v) == {[a], [a, b], [a, b, c]}
    ensures [] + [a] == [a] <= PathOf(v) && [a] + [b] == [a, b] <= PathOf(v) && [a, b] + [c] == [a, b, c]
    ensures {} + {[a]} == {[a]} && {[a]} + {[a, b]} == {[a], [a, b]} && {[a], [a, b]} + {[a, b, c]} == Above(v)
  {
    hide PathOf;
    var p := PathOf(v);
    assert p[..1] == [a] && p[..2] == [a, b] && p[..3] == [a, b, c];
  }

  lemma OneMore<T>(had: set<T>, has: set<T>, added: set<T>, p: T)
    requires has == had + added
    ensures |added + {p} - had| == |added - had| + |{p} - has|
  {
    var new1, new2 := added - had, added + {p} - had;
    if p in has {
      NoneLeft(p, has);
      assert new2 == new1;
    } else {
      AllLeft(p, has);
      assert new2 == new1 + {p};
    }
  }

  lemma Regroup<T>(a: set<T>, b: set<T>, c: set<T>)
    ensures a + b + c == a + (b + c)
  {
  }

  lemma NoneLeft<T>(p: T, s: set<T>)
    requires p in s
    ensures |{p} - s| == 0
  {
    assert {p} - s == {};
  }

  lemma AllLeft<T>(p: T, s: set<T>)
    requires p !in s
    ensures |{p} - s| == 1
  {
    assert {p} - s == {p};
  }

  /** There is a frame for a table at `p`, when one is still missing there. */
  lemma RoomFor(mem: Memory, mem': Memory, cr3: Frame, places: Places, places': Places, free: seq<Frame>,
                free': seq<Frame>, added: set<Path>, p: Path, v: nat)
    requires Descended(mem, mem', cr3, places, places', free, free', added)
    requires added <= Above(v) && p in Above(v) && |free| >= |NewPlaces(places.Values, v)|
             && !Translate(mem, cr3, v).Big?
    ensures p !in places'.Values ==> free' != []
    ensures !Translate(mem', cr3, v).Big?
  {
    hide Translate, Untouched, Above, TablesFrom, NewPlaces;
    NewPlacesIs(places, v);
    if p !in places'.Values {
      RoomLeft(places.Values, places'.Values, added, Above(v), p);
    }
  }

  lemma RoomLeft<T>(have: set<T>, have': set<T>, added: set<T>, above: set<T>, p: T)
    requires have' == have + added && added <= above && p in above && p !in have'
    ensures |added - have| < |above - have|
  {
    var had, all := added - have, above - have;
    assert had <= all - {p};
    Smaller(had, all - {p});
  }

  lemma Smaller<T>(s: set<T>, t: set<T>)
    requires s <= t
    ensures |s| <= |t|
  {
    assert t == s + (t - s);
  }

  lemma RoomForPage(mem: Memory, mem': Memory, cr3: Frame, places: Places, places': Places, free: seq<Frame>,
                    free': seq<Frame>, v: nat)
    requires Descended(mem, mem', cr3, places, places', free, free', Above(v)) && |free| > |NewPlaces(places.Values, v)|
    ensures free' != [] && Drawn(free, free', |NewPlaces(places.Values, v)|)
  {
    hide Translate, Untouched, Above, TablesFrom;
  }

  lemma DescendedOn(mem0: Memory, mem1: Memory, mem2: Memory, cr3: Frame, places0: Places, places1: Places,
                    places2: Places,
                    free0: seq<Frame>, free1: seq<Frame>, free2: seq<Frame>, added: set<Path>, p: Path)
    requires Descended(mem0, mem1, cr3, places0, places1, free0, free1, added)
    requires Descended(mem1, mem2, cr3, places1, places2, free1, free2, {p})
    ensures Descended(mem0, mem2, cr3, places0, places2, free0, free2, added + {p})
  {
    hide Translate, Untouched, Drawn, TablesFrom;
    var k, k' := |added - places0.Values|, |{p} - places1.Values|;
    OneMore(places0.Values, places1.Values, added, p);
    Regroup(places0.Values, added, {p});
    DrawnOn(free0, free1, free2, k, k');
    assert k + k' == |added + {p} - places0.Values|;
    TablesOn(places0, places1, places2, free0, free1, free2);
    UntouchedOn(mem0, mem1, mem2, places0, places1, places2, free0, free1);
  }

  lemma NewPlacesIs(places: Places, v: nat)
    ensures NewPlaces(places.Values, v) == Above(v) - places.Values
  {
  }

  lemma NoTables(places: Places, free: seq<Frame>, free': seq<Frame>)
    ensures TablesFrom(places, places, free, free')
  {
  }

  lemma DrawnOne(free: seq<Frame>, free': seq<Frame>)
    requires free != [] && free' == free[1..]
    ensures Drawn(free, free', 1)
  {
  }

  lemma DrawnOn(free0: seq<Frame>, free1: seq<Frame>, free2: seq<Frame>, k: nat, k': nat)
    requires Drawn(free0, free1, k) && Drawn(free1, free2, k')
    ensures Drawn(free0, free2, k + k')
    ensures |free1| <= |free0| && free1 == free0[|free0| - |free1|..]
    ensures forall f :: f in free2 ==> f in free1
    ensures forall f :: f in free1 ==> f in free0
  {
    assert free0[k..][k'..] == free0[k + k'..];
  }

  lemma UntouchedOn(mem0: Memory, mem1: Memory, mem2: Memory, places0: Places, places1: Places, places2: Places,
                    free0: seq<Frame>, free1: seq<Frame>)
    requires Untouched(mem0, mem1, places0, places1, free0) && Untouched(mem1, mem2, places1, places2, free1)
    requires |free1| <= |free0| && free1 == free0[|free0| - |free1|..]
    ensures Untouched(mem0, mem2, places0, places2, free0)
  {
    hide Preserved;
    PreservedOn(3, mem0, places0, FrameSet(free0), mem1, places1, FrameSet(free1), mem2, places2);
  }

  /** Page `v` alone changed: it now has frame `page`, cleared; the frame and the missing
      tables above the page came from the front of the free list. */
  ghost predicate Mapped(mem: Memory, mem': Memory, cr3: Frame, places: Places, places': Places,
                         free: seq<Frame>, free': seq<Frame>, v: nat, page: Frame) {
    && (forall w: nat :: Translate(mem', cr3, w) ==
          if PathOf(w) == PathOf(v) then Page(BootLeaf(page)) else Translate(mem, cr3, w))
    && places.Keys <= places'.Keys && places'.Values == places.Values + Above(v)
    && Drawn(free, free', |NewPlaces(places.Values, v)| + 1)
    && TablesFrom(places, places', free, free')
    && page in free && page !in free' && page !in places' && Aligned(page)
    && page in mem' && mem'[page] == ZeroTable()
    && Untouched(mem, mem', places, places', free)
  }

  lemma PageMapped(mem0: Memory, mem1: Memory, mem2: Memory, cr3: Frame, places: Places, places': Places,
                   free0: seq<Frame>, free1: seq<Frame>, free2: seq<Frame>, v: nat, page: Frame)
    requires Descended(mem0, mem1, cr3, places, places', free0, free1, Above(v))
    requires forall w: nat :: Translate(mem2, cr3, w) ==
               if PathOf(w) == PathOf(v) then Page(BootLeaf(page)) else Translate(mem1, cr3, w)
    requires free1 != [] && page == free1[0] && free2 == free1[1..] && page !in free2
    requires page in mem2 && mem2[page] == ZeroTable() && page !in places' && Aligned(page)
    requires Untouched(mem1, mem2, places', places', free1)
    ensures Mapped(mem0, mem2, cr3, places, places', free0, free2, v, page)
  {
    hide Translate, Untouched, Drawn, PathOf, BootLeaf, Aligned, Above, TablesFrom, NewPlaces;
    NewPlacesIs(places, v);
    var k := |NewPlaces(places.Values, v)|;
    assert Drawn(free1, free2, 1) by { DrawnOne(free1, free2); }
    DrawnOn(free0, free1, free2, k, 1);
    assert TablesFrom(places, places', free0, free2) by {
      NoTables(places', free1, free2);
      TablesOn(places, places', places', free0, free1, free2);
    }
    assert Untouched(mem0, mem2, places, places', free0) by {
      UntouchedOn(mem0, mem1, mem2, places, places', places', free0, free1);
    }
  }

  lemma LeafEntries(mem: Memory, mem1: Memory, cr3: Frame, places: Places, page: Frame, t: Frame, d: nat,
                    free: seq<Frame>)
    requires TreeOk(mem, cr3, places) && TreeOk(mem1, cr3, places) && page in free
    requires BootEntries(mem, places) && page !in places && t in places && t in mem1 && |places[t]| == 3 && d < 512
    requires mem1 == mem[page := ZeroTable()]
    ensures BootEntries(SetEntry(mem1, t, d, BootLeaf(page)), places)
    ensures Untouched(mem, SetEntry(mem1, t, d, BootLeaf(page)), places, places, free)
  {
    hide BootLeaf, BootEntry, TreeOk, Preserved;
    PreservedCleared(3, mem, cr3, places, page);
    PreservedStored(3, mem1, cr3, places, t, d, BootLeaf(page));
    PreservedOn(3, mem, places, FrameSet(free), mem, places, {page}, mem1, places) by {
      PreservedSelf(3, mem, cr3, places, FrameSet(free));
    }
    PreservedOn(3, mem, places, FrameSet(free), mem1, places, {}, SetEntry(mem1, t, d, BootLeaf(page)), places);
  }

  lemma NewTableOk(mem: Memory, mem': Memory, cr3: Frame, places: Places, places': Places, x: Frame, i: nat, n: Frame,
                   free: seq<Frame>)
    requires TreeOk(mem, cr3, places) && BootEntries(mem, places) && x in places && x in mem && |places[x]| < 3
             && i < 512
    requires !Present(mem[x][i]) && n !in places && Aligned(n) && BootEntry(TableEntry(n, 3))
    requires mem' == mem[n := ZeroTable()][x := mem[x][i := TableEntry(n, 3)]]
             && places' == places[n := places[x] + [i]]
    ensures TreeOk(mem', cr3, places') && BootEntries(mem', places') && Grown(mem, mem', cr3, places, places', x)
    ensures FrameOf(TableEntry(n, 3)) == n
    ensures n in free ==> Untouched(mem, mem', places, places', free)
  {
    hide TreeOk, LinksKept, LinkTable, SetEntry, BootEntries, Aligned, TableEntry, FrameOf, Present, Large, BootEntry,
         LinkedAt, Preserved;
    BootFlagBits();
    EntryBits(n, 3);
    LinkTableOk(mem, cr3, places, x, i, n, 3);
    LinkTableIs(mem, mem', x, i, n, 3);
    GrownLinked(mem, mem', cr3, places, places', x, i, n, 3);
    if n in free {
      PreservedLinked(3, mem, mem', cr3, places, places', x, i, n, FrameSet(free));
    }
    LinkedEntries(mem, mem', places, places', x, i, n);
  }

  lemma BootFlagBits()
    ensures 3 & 0x7fff_ffff_ffff_f000 == (0 as Word)
    ensures 3 & MMASK_PHYS == (0 as Word) && 3 & PRESENT != (0 as Word) && 3 & LARGE == (0 as Word)
  {
  }

  ghost function FrameSet(free: seq<Frame>): set<Frame> {
    set f | f in free
  }

  /** Memory that is neither a table nor still free is untouched, and so are the directories
      but for new tables, which are entered as present and writable (3). */
  ghost predicate Untouched(mem: Memory, mem': Memory, places: Places, places': Places, free: seq<Frame>) {
    Preserved(3, mem, places, FrameSet(free), mem', places')
  }

  /** An entry that is not zero leads on, unless it is that of a large page. */
  lemma EntryKind(mem: Memory, places: Places, x: Frame, i: nat)
    requires BootEntries(mem, places) && x in places && x in mem && |places[x]| < 3 && i < 512
    requires Present(mem[x][i]) ==> !Large(mem[x][i])
    ensures mem[x][i] == 0 <==> !LeadsOn(mem, x, i)
    ensures mem[x][i] == 0 <==> !Present(mem[x][i])
    ensures BootEntry(mem[x][i])
  {
    assert BootEntry(mem[x][i]);
    ZeroNotPresent();
  }

  /** Without the top bit, the boot mask gives the same frame. */
  lemma BootFrame(e: Word)
    requires e & 0x8000_0000_0000_0000 == 0
    ensures BootFrameOf(e) == FrameOf(e)
  {
    BootMaskSame(e);
  }

  lemma BootMaskSame(e: Word)
    requires e & 0x8000_0000_0000_0000 == 0
    ensures e & 0xffff_ffff_ffff_f000 == e & 0x7fff_ffff_ffff_f000
  {
  }

  lemma BootEntryTop(e: Word)
    requires BootEntry(e)
    ensures e & 0x8000_0000_0000_0000 == 0
  {
  }

  lemma BelowExisting(mem: Memory, cr3: Frame, places: Places, x: Frame, i: nat)
    requires TreeOk(mem, cr3, places) && x in places && |places[x]| < 3 && i < 512 && LeadsOn(mem, x, i)
    ensures FrameOf(mem[x][i]) in places && FrameOf(mem[x][i]) in mem && places[FrameOf(mem[x][i])] == places[x] + [i]
  {
    hide Reaches;
    assert EntryOk(mem, places, x, i);
  }

  lemma FirstFree(free: seq<Frame>, places: Places)
    requires FreeOk(free, places) && free != []
    ensures Aligned(free[0]) && free[0] !in places && BootEntry(TableEntry(free[0], 3))
  {
  }

  lemma PopFree(free: seq<Frame>, places: Places, places': Places, n: Frame)
    requires FreeOk(free, places) && free != [] && n == free[0] && places'.Keys <= places.Keys + {n}
    ensures FreeOk(free[1..], places') && n !in free[1..]
  {
    hide Aligned;
    forall k | 0 <= k < |free[1..]|
      ensures free[1..][k] != n
    {
      assert free[1..][k] == free[k + 1];
    }
  }

  lemma LinkedEntries(mem: Memory, mem': Memory, places: Places, places': Places, x: Frame, i: nat, n: Frame)
    requires BootEntries(mem, places) && x in places && x in mem && |places[x]| < 3 && i < 512 && n !in places
    requires LinkedAt(mem, mem', x, i, n, 3) && places' == places[n := places[x] + [i]]
    requires BootEntry(TableEntry(n, 3))
    ensures BootEntries(mem', places')
  {
    hide Present, TableEntry, BootEntry;
    assert forall i :: 0 <= i < 512 ==> BootEntry(ZeroTable()[i]) by { ZeroIsBoot(); }
  }

  lemma ZeroIsBoot()
    ensures BootEntry(0)
  {
  }

  /** The frames still to be handed out are distinct, well formed and no tables. */
  ghost predicate FreeOk(free: seq<Frame>, places: Places) {
    && NoDup(free)
    && (forall i :: 0 <= i < |free| ==> Aligned(free[i]) && free[i] !in places)
  }
}
