/** Four-level page tables, as section 4.5 (4-level paging) of the Paging chapter of the
    Intel SDM volume 3A lays them out: what an address translates to, and the invariant
    that the tables form a tree in which no table is shared. */
module PageTables {

  type Word = bv64
  type Table = t: seq<Word> | |t| == 512 witness seq(512, _ => 0)

  /** The physical address of a 4 KiB frame. */
  datatype Frame = Frame(addr: Word)

  /** Physical memory, 512 entries per frame. */
  type Memory = map<Frame, Table>

  /** Table indices from the root down: at most PML4, PDPT, PD and PT. */
  type Path = seq<nat>

  const PRESENT: Word := 0x01
  const WRITE: Word := 0x02
  const USER: Word := 0x04
  const LARGE: Word := 0x80
  const NOEXEC: Word := 0x8000_0000_0000_0000
  const MMASK_PHYS: Word := 0x7fff_ffff_ffff_f000

  predicate Present(e: Word) {
    e & 0x01 != 0
  }

  predicate Large(e: Word) {
    e & 0x80 != 0
  }

  function FrameOf(e: Word): Frame {
    Frame(e & 0x7fff_ffff_ffff_f000)
  }

  /** A frame address has no bits outside the address field of an entry. */
  predicate Aligned(f: Frame) {
    f.addr & 0x7fff_ffff_ffff_f000 == f.addr
  }

  function ZeroTable(): (t: Table)
    ensures forall i :: 0 <= i < 512 ==> t[i] == 0
  {
    seq(512, _ => 0)
  }

  datatype Translation = NotMapped | Page(entry: Word) | Big(level: nat, entry: Word) | Stray

  predicate PathOk(path: Path) {
    forall i :: 0 <= i < |path| ==> path[i] < 512
  }

  /** The hardware walk from table `f` along `path`. */
  function Walk(mem: Memory, f: Frame, path: Path): Translation
    requires path != [] && PathOk(path)
    decreases |path|
  {
    if f !in mem then Stray
    else
      var e := mem[f][path[0]];
      if !Present(e) then NotMapped
      else if |path| == 1 then Page(e)
      else if Large(e) then Big(|path| - 1, e)
      else Walk(mem, FrameOf(e), path[1..])
  }

  const PAGES: nat := 0x10_0000_0000

  /** The four indices of a virtual page number. */
  function PathOf(v: nat): (p: Path)
    ensures |p| == 4 && PathOk(p)
  {
    [v / 0x800_0000 % 512, v / 0x4_0000 % 512, v / 512 % 512, v % 512]
  }

  function Translate(mem: Memory, cr3: Frame, v: nat): Translation {
    Walk(mem, cr3, PathOf(v))
  }

  /** Entry `e` is present, no large page, and leads to a table in memory: that at `Below(e)`. */
  predicate Leads(mem: Memory, e: Word) {
    e & 0x01 != 0 && e & 0x80 == 0 && Below(e) in mem
  }

  function Below(e: Word): Frame {
    Frame(e & 0x7fff_ffff_ffff_f000)
  }

  /** A page translates to an entry just when the four levels of nine address bits each lead
      there. */
  lemma FourLevels(mem: Memory, cr3: Frame, v: nat, e: Word)
    ensures Translate(mem, cr3, v) == Page(e) <==>
              && cr3 in mem && var e4 := mem[cr3][v / 0x800_0000 % 512];
              Leads(mem, e4) && var e3 := mem[Below(e4)][v / 0x4_0000 % 512];
              Leads(mem, e3) && var e2 := mem[Below(e3)][v / 512 % 512];
              Leads(mem, e2) && e == mem[Below(e2)][v % 512] && e & 0x01 != 0
  {
    hide Present, Large, FrameOf, Below, Walk;
    var p := PathOf(v);
    assert p[1..] == [p[1], p[2], p[3]] && p[1..][1..] == [p[2], p[3]] && p[1..][1..][1..] == [p[3]];
    OneLevel(mem, cr3, p, e);
    if cr3 in mem {
      var f3 := Below(mem[cr3][p[0]]);
      OneLevel(mem, f3, p[1..], e);
      if f3 in mem {
        var f2 := Below(mem[f3][p[1]]);
        OneLevel(mem, f2, p[1..][1..], e);
        if f2 in mem {
          LastLevel(mem, Below(mem[f2][p[2]]), [p[3]], e);
        }
      }
    }
  }

  lemma OneLevel(mem: Memory, f: Frame, path: Path, e: Word)
    requires |path| > 1 && PathOk(path)
    ensures Walk(mem, f, path) == Page(e) <==>
              && f in mem && Leads(mem, mem[f][path[0]])
              && Walk(mem, Below(mem[f][path[0]]), path[1..]) == Page(e)
  {
  }

  lemma LastLevel(mem: Memory, f: Frame, path: Path, e: Word)
    requires |path| == 1 && PathOk(path)
    ensures Walk(mem, f, path) == Page(e) <==> f in mem && e == mem[f][path[0]] && e & 0x01 != 0
  {
  }

  /** Distinct pages of the 48-bit address space have distinct paths. */
  lemma PathInjective(v: nat, w: nat)
    requires v < PAGES && w < PAGES && PathOf(v) == PathOf(w)
    ensures v == w
  {
    Recompose(v);
    Recompose(w);
    assert PathOf(v)[0] == PathOf(w)[0] && PathOf(v)[1] == PathOf(w)[1];
    assert PathOf(v)[2] == PathOf(w)[2] && PathOf(v)[3] == PathOf(w)[3];
  }

  function PageNumber(a: nat, b: nat, c: nat, d: nat): nat {
    ((a * 512 + b) * 512 + c) * 512 + d
  }

  lemma Recompose(v: nat)
    requires v < PAGES
    ensures var p := PathOf(v); v == PageNumber(p[0], p[1], p[2], p[3])
  {
    var q := v / 512;
    var r := q / 512;
    assert v / 0x4_0000 == r && v / 0x800_0000 == r / 512;
  }

  // ---- The tree ----

  /** Where each table hangs: the path of indices that leads to it. */
  type Places = map<Frame, Path>

  ghost predicate EntryOk(mem: Memory, places: Places, f: Frame, i: nat)
    requires f in places && f in mem && i < 512
  {
    var e := mem[f][i];
    Present(e) && !Large(e) ==> FrameOf(e) in places && places[FrameOf(e)] == places[f] + [i]
  }

  /** An entry of a directory that leads on to a table. */
  predicate LeadsOn(mem: Memory, f: Frame, i: nat)
    requires i < 512
  {
    f in mem && Present(mem[f][i]) && !Large(mem[f][i])
  }

  /** Walking `path` from `f` arrives at table `g`. */
  predicate Reaches(mem: Memory, f: Frame, path: Path, g: Frame)
    requires PathOk(path)
    decreases |path|
  {
    if path == [] then f == g
    else LeadsOn(mem, f, path[0]) && Reaches(mem, FrameOf(mem[f][path[0]]), path[1..], g)
  }

  /** Every table has one place and is reached there, and a present entry leads to the
      table at the place below it: no table is reached twice. */
  ghost predicate TreeOk(mem: Memory, cr3: Frame, places: Places) {
    && cr3 in places && places[cr3] == []
    && (forall f :: f in places ==> f in mem && |places[f]| <= 3 && PathOk(places[f]))
    && (forall f, i :: f in places && |places[f]| < 3 && 0 <= i < 512 ==> EntryOk(mem, places, f, i))
    && (forall f :: f in places ==> Reaches(mem, cr3, places[f], f))
  }

  /** An empty root table is a tree by itself, and maps nothing. */
  lemma EmptyTree(cr3: Frame)
    ensures TreeOk(map[cr3 := ZeroTable()], cr3, map[cr3 := []])
    ensures forall w: nat :: Translate(map[cr3 := ZeroTable()], cr3, w) == NotMapped
  {
    ZeroNotPresent();
  }

  lemma {:induction false} ReachesSnoc(mem: Memory, f: Frame, path: Path, g: Frame, i: nat)
    requires PathOk(path)
    requires i < 512 && Reaches(mem, f, path, g) && LeadsOn(mem, g, i)
    ensures Reaches(mem, f, path + [i], FrameOf(mem[g][i]))
    decreases |path|
  {
    if path == [] {
      assert path + [i] == [i];
    } else {
      ReachesSnoc(mem, FrameOf(mem[f][path[0]]), path[1..], g, i);
      assert (path + [i])[1..] == path[1..] + [i];
    }
  }

  /** A walk goes through the table it reaches. */
  lemma {:induction false} WalkThrough(mem: Memory, f: Frame, path: Path, g: Frame, rest: Path)
    requires PathOk(path)
    requires rest != [] && PathOk(rest)
    requires Reaches(mem, f, path, g)
    ensures Walk(mem, f, path + rest) == Walk(mem, g, rest)
    decreases |path|
  {
    if path == [] {
      assert path + rest == rest;
    } else {
      WalkThrough(mem, FrameOf(mem[f][path[0]]), path[1..], g, rest);
      assert (path + rest)[1..] == path[1..] + rest;
    }
  }

  // ---- Changing one entry ----

  /** `mem'` is `mem` with entry `i` of frame `x` set to `e`. */
  function SetEntry(mem: Memory, x: Frame, i: nat, e: Word): Memory
    requires x in mem && i < 512
  {
    mem[x := mem[x][i := e]]
  }

  /** A walk whose path does not pass the changed entry is unchanged. */
  lemma {:induction false} WalkFrame(mem: Memory, mem': Memory, cr3: Frame, places: Places, x: Frame, i: nat, f: Frame,
                                     path: Path)
    requires TreeOk(mem, cr3, places) && x in places && i < 512 && f in places
    requires path != [] && |places[f]| + |path| == 4 && PathOk(path)
    requires !(places[x] + [i] <= places[f] + path)
    requires forall g :: g in places ==>
               g in mem' && (forall j :: 0 <= j < 512 && (g != x || j != i) ==> mem'[g][j] == mem[g][j])
    ensures Walk(mem', f, path) == Walk(mem, f, path)
    decreases |path|
  {
    hide Reaches, Present, Large, FrameOf;
    var e := mem[f][path[0]];
    assert places[f] + [path[0]] <= places[f] + path;
    if Present(e) && |path| > 1 && !Large(e) {
      assert EntryOk(mem, places, f, path[0]);
      assert places[f] + [path[0]] + path[1..] == places[f] + path;
      WalkFrame(mem, mem', cr3, places, x, i, FrameOf(e), path[1..]);
    }
  }

  /** What an entry of a page table maps its page to. */
  function LeafOf(e: Word): Translation {
    if Present(e) then Page(e) else NotMapped
  }

  /** Storing an entry of a page table changes the translation of that one page. */
  lemma SetLeaf(mem: Memory, cr3: Frame, places: Places, x: Frame, i: nat, e: Word)
    requires TreeOk(mem, cr3, places) && x in places && |places[x]| == 3 && i < 512
    ensures TreeOk(SetEntry(mem, x, i, e), cr3, places)
    ensures forall w: nat :: Translate(SetEntry(mem, x, i, e), cr3, w) ==
              if PathOf(w) == places[x] + [i] then LeafOf(e) else Translate(mem, cr3, w)
  {
    var mem' := SetEntry(mem, x, i, e);
    forall f | f in places
      ensures Reaches(mem', cr3, places[f], f)
    {
      ReachesKept(mem, mem', cr3, places, x, f);
    }
    forall f, j | f in places && |places[f]| < 3 && 0 <= j < 512
      ensures EntryOk(mem', places, f, j)
    {
      assert EntryOk(mem, places, f, j);
    }
    forall w: nat
      ensures Translate(mem', cr3, w) == if PathOf(w) == places[x] + [i] then LeafOf(e) else Translate(mem, cr3, w)
    {
      if PathOf(w) == places[x] + [i] {
        WalkThrough(mem', cr3, places[x], x, [i]);
      } else {
        assert places[cr3] + PathOf(w) == PathOf(w);
        WalkFrame(mem, mem', cr3, places, x, i, cr3, PathOf(w));
      }
    }
  }

  /** Reaching tables never depends on the entries of a page table. */
  lemma ReachesKept(mem: Memory, mem': Memory, cr3: Frame, places: Places, x: Frame, f: Frame)
    requires TreeOk(mem, cr3, places) && x in places && |places[x]| == 3 && f in places
    requires forall g :: g in places && g != x ==> g in mem' && mem'[g] == mem[g]
    ensures Reaches(mem', cr3, places[f], f)
  {
    ReachesBelow(mem, mem', cr3, places, x, cr3, places[f], f);
  }

  lemma {:induction false} ReachesBelow(mem: Memory, mem': Memory, cr3: Frame, places: Places, x: Frame, h: Frame,
                                        path: Path, f: Frame)
    requires TreeOk(mem, cr3, places) && x in places && |places[x]| == 3 && h in places
    requires PathOk(path) && |places[h]| + |path| <= 3 && Reaches(mem, h, path, f)
    requires forall g :: g in places && g != x ==> g in mem' && mem'[g] == mem[g]
    ensures Reaches(mem', h, path, f)
    decreases |path|
  {
    if path != [] {
      assert EntryOk(mem, places, h, path[0]);
      ReachesBelow(mem, mem', cr3, places, x, FrameOf(mem[h][path[0]]), path[1..], f);
    }
  }

  /** The entries that lead on, of every table, are kept. */
  ghost predicate LinksKept(mem: Memory, mem': Memory, places: Places) {
    forall h, j :: h in places && 0 <= j < 512 && LeadsOn(mem, h, j) ==> h in mem' && mem'[h][j] == mem[h][j]
  }

  lemma {:induction false} ReachesOn(mem: Memory, mem': Memory, cr3: Frame, places: Places, h: Frame, path: Path,
                                     f: Frame)
    requires TreeOk(mem, cr3, places) && h in places && LinksKept(mem, mem', places)
    requires PathOk(path) && |places[h]| + |path| <= 3 && Reaches(mem, h, path, f)
    ensures Reaches(mem', h, path, f)
    decreases |path|
  {
    if path != [] {
      assert EntryOk(mem, places, h, path[0]);
      ReachesOn(mem, mem', cr3, places, FrameOf(mem[h][path[0]]), path[1..], f);
    }
  }

  /** Clearing a frame that is no table changes no translation. */
  lemma ClearFrame(mem: Memory, cr3: Frame, places: Places, n: Frame)
    requires TreeOk(mem, cr3, places) && n !in places
    ensures TreeOk(mem[n := ZeroTable()], cr3, places)
    ensures forall w: nat :: Translate(mem[n := ZeroTable()], cr3, w) == Translate(mem, cr3, w)
  {
    var mem' := mem[n := ZeroTable()];
    forall f | f in places
      ensures Reaches(mem', cr3, places[f], f)
    {
      ReachesOn(mem, mem', cr3, places, cr3, places[f], f);
    }
    forall f, j | f in places && |places[f]| < 3 && 0 <= j < 512
      ensures EntryOk(mem', places, f, j)
    {
      assert EntryOk(mem, places, f, j);
    }
    forall w: nat
      ensures Translate(mem', cr3, w) == Translate(mem, cr3, w)
    {
      WalkSame(mem, mem', cr3, places, cr3, PathOf(w));
    }
  }

  lemma {:induction false} WalkSame(mem: Memory, mem': Memory, cr3: Frame, places: Places, f: Frame, path: Path)
    requires TreeOk(mem, cr3, places) && f in places
    requires path != [] && |places[f]| + |path| == 4 && PathOk(path)
    requires forall g :: g in places ==> g in mem' && mem'[g] == mem[g]
    ensures Walk(mem', f, path) == Walk(mem, f, path)
    decreases |path|
  {
    var e := mem[f][path[0]];
    if Present(e) && |path| > 1 && !Large(e) {
      assert EntryOk(mem, places, f, path[0]);
      WalkSame(mem, mem', cr3, places, FrameOf(e), path[1..]);
    }
  }

  /** `mem` after hanging the cleared frame `n` below entry `i` of directory `x`. */
  function LinkTable(mem: Memory, x: Frame, i: nat, n: Frame, flags: Word): Memory
    requires x in mem && i < 512 && n != x
  {
    SetEntry(mem[n := ZeroTable()], x, i, TableEntry(n, flags))
  }

  /** The entry that leads on to a table. */
  function TableEntry(n: Frame, flags: Word): Word {
    n.addr | flags
  }

  lemma EntryBits(n: Frame, flags: Word)
    requires Aligned(n) && flags & MMASK_PHYS == 0 && flags & PRESENT != 0 && flags & LARGE == 0
    ensures var e := TableEntry(n, flags); Present(e) && !Large(e) && FrameOf(e) == n
  {
  }

  /** Hanging an empty table below an entry that was not present changes no translation
      and keeps the tables a tree. */
  lemma LinkTableOk(mem: Memory, cr3: Frame, places: Places, x: Frame, i: nat, n: Frame, flags: Word)
    requires TreeOk(mem, cr3, places) && x in places && |places[x]| < 3 && i < 512
    requires !Present(mem[x][i]) && n !in places && Aligned(n)
    requires flags & MMASK_PHYS == 0 && flags & PRESENT != 0 && flags & LARGE == 0
    ensures var mem' := LinkTable(mem, x, i, n, flags);
            && LeadsOn(mem', x, i) && FrameOf(mem'[x][i]) == n
            && TreeOk(mem', cr3, places[n := places[x] + [i]])
            && LinksKept(mem, mem', places)
            && (forall w: nat :: Translate(mem', cr3, w) == Translate(mem, cr3, w))
  {
    hide TableEntry;
    var mem' := LinkTable(mem, x, i, n, flags);
    EntryBits(n, flags);
    LinkTableTree(mem, cr3, places, x, i, n, mem');
    forall w: nat
      ensures Translate(mem', cr3, w) == Translate(mem, cr3, w)
    {
      LinkTableWalk(mem, cr3, places, x, i, n, mem', PathOf(w));
    }
  }

  lemma LinkTableTree(mem: Memory, cr3: Frame, places: Places, x: Frame, i: nat, n: Frame, mem': Memory)
    requires TreeOk(mem, cr3, places) && x in places && |places[x]| < 3 && i < 512
    requires !Present(mem[x][i]) && n !in places && n in mem' && mem'[n] == ZeroTable()
    requires forall g :: g in places ==>
               g in mem' && (forall j :: 0 <= j < 512 && (g != x || j != i) ==> mem'[g][j] == mem[g][j])
    requires LeadsOn(mem', x, i) && FrameOf(mem'[x][i]) == n
    ensures TreeOk(mem', cr3, places[n := places[x] + [i]])
    ensures LinksKept(mem, mem', places)
  {
    hide Present, Large, FrameOf;
    var places' := places[n := places[x] + [i]];
    forall f | f in places
      ensures Reaches(mem', cr3, places[f], f)
    {
      ReachesOn(mem, mem', cr3, places, cr3, places[f], f);
    }
    ReachesSnoc(mem', cr3, places[x], x, i);
    forall f, j | f in places' && |places'[f]| < 3 && 0 <= j < 512
      ensures EntryOk(mem', places', f, j)
    {
      if f == n {
        ZeroNotPresent();
      } else {
        assert EntryOk(mem, places, f, j);
      }
    }
  }

  lemma ZeroNotPresent()
    ensures !Present(0)
  {
  }

  lemma LinkTableWalk(mem: Memory, cr3: Frame, places: Places, x: Frame, i: nat, n: Frame, mem': Memory, path: Path)
    requires TreeOk(mem, cr3, places) && x in places && |places[x]| < 3 && i < 512
    requires !Present(mem[x][i]) && n !in places && n in mem' && mem'[n] == ZeroTable()
    requires forall g :: g in places ==>
               g in mem' && (forall j :: 0 <= j < 512 && (g != x || j != i) ==> mem'[g][j] == mem[g][j])
    requires LeadsOn(mem', x, i) && FrameOf(mem'[x][i]) == n
    requires |path| == 4 && PathOk(path)
    ensures Walk(mem', cr3, path) == Walk(mem, cr3, path)
  {
    hide Present, Large, FrameOf;
    assert places[cr3] + path == path;
    var d := |places[x]|;
    if places[x] + [i] <= path {
      ReachesOn(mem, mem', cr3, places, cr3, places[x], x);
      assert path[d..][0] == i;
      NewTableWalk(mem, mem', cr3, places[x], x, n, path[d..]);
      assert path == places[x] + path[d..];
    } else {
      WalkFrame(mem, mem', cr3, places, x, i, cr3, path);
    }
  }

  /** Before, the walk stopped at the missing entry; now it stops in the empty table. */
  lemma NewTableWalk(mem: Memory, mem': Memory, cr3: Frame, place: Path, x: Frame, n: Frame, rest: Path)
    requires PathOk(place) && PathOk(rest) && |rest| > 1
    requires Reaches(mem, cr3, place, x) && Reaches(mem', cr3, place, x)
    requires x in mem && !Present(mem[x][rest[0]]) && LeadsOn(mem', x, rest[0]) && FrameOf(mem'[x][rest[0]]) == n
    requires n in mem' && mem'[n] == ZeroTable()
    ensures Walk(mem', cr3, place + rest) == Walk(mem, cr3, place + rest)
  {
    hide Present, Large, FrameOf, Reaches;
    WalkThrough(mem, cr3, place, x, rest);
    WalkThrough(mem', cr3, place, x, rest);
    ZeroNotPresent();
  }
}
