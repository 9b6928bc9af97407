/** The resumable page iterator of `src/kernel/mem/mmap.c`, and exactly which ranges it
    walks correctly. */
module PageIter {
  import opened PageTables

  /** The fields of the iterator, with each directory named by the path that leads to it. */
  datatype Iter = Iter(dir: seq<Path>, offset: seq<nat>, len: seq<int>, cur: seq<int>, index: seq<int>, state: nat)

  /** What one call of `page_iter_next` does: report a run of entries, finish, or read a
      directory entry beyond the end of its table. */
  datatype Out = Chunk(depth: nat, dir: Path, start: nat, count: int) | Done | Beyond

  datatype Stepped = Stepped(it: Iter, out: Out)

  predicate Shape(it: Iter) {
    |it.dir| == 4 && |it.offset| == 4 && |it.len| == 4 && |it.cur| == 4 && |it.index| == 4
  }

  /** `iter_compute_len` */
  function ClipLen(len: int, offset: int): int {
    (if len + offset > 512 then 512 else len + offset) - offset
  }

  function Dec(s: seq<int>, i: nat, d: int): (r: seq<int>)
    requires i < |s|
    ensures |r| == |s|
  {
    s[i := s[i] - d]
  }

  // The three loop heads of `page_iter_next`. Each either enters its body, which reports
  // the table below, or falls out into the increment part of the loop around it.

  function Loop3(it: Iter): (r: Stepped)
    requires Shape(it)
    ensures Shape(r.it)
  {
    if it.index[3] < it.len[3] then Descend(it, 3) else Stepped(it, Done)
  }

  function Loop2(it: Iter): (r: Stepped)
    requires Shape(it)
    ensures Shape(r.it)
  {
    if it.index[2] < it.len[2] then Descend(it, 2)
    else Loop3(it.(len := Dec(it.len, 2, it.cur[2]), offset := it.offset[2 := 0], index := Dec(it.index, 3, -1)))
  }

  function Loop1(it: Iter): (r: Stepped)
    requires Shape(it)
    ensures Shape(r.it)
  {
    if it.index[1] < it.len[1] then Descend(it, 1)
    else Loop2(it.(len := Dec(it.len, 1, it.cur[1]), offset := it.offset[1 := 0], index := Dec(it.index, 2, -1)))
  }

  /** Take the table below entry `offset[k] + index[k]` and report its part of the range. */
  function Descend(it: Iter, k: nat): (r: Stepped)
    requires Shape(it) && 1 <= k <= 3
    ensures Shape(r.it)
  {
    var pos := it.offset[k] + it.index[k];
    if !(0 <= pos < 512) then Stepped(it, Beyond)
    else
      var below := it.dir[k] + [pos];
      var cur := ClipLen(it.len[k - 1], it.offset[k - 1]);
      Stepped(it.(dir := it.dir[k - 1 := below], cur := it.cur[k - 1 := cur], state := 5 - k),
              Chunk(k - 1, below, it.offset[k - 1], cur))
  }

  /** One call of `page_iter_next`. */
  function Step(it: Iter): (r: Stepped)
    requires Shape(it)
    ensures Shape(r.it)
  {
    if it.state == 0 then Stepped(it.(state := 1), Chunk(3, it.dir[3], it.offset[3], it.len[3]))
    else if it.state == 1 then Loop3(it.(index := it.index[3 := 0]))
    else if it.state == 2 then Loop2(it.(index := it.index[2 := 0]))
    else if it.state == 3 then Loop1(it.(index := it.index[1 := 0]))
    else if it.state == 4 then
      Loop1(it.(len := Dec(it.len, 0, it.cur[0]), offset := it.offset[0 := 0], index := Dec(it.index, 1, -1)))
    else Stepped(it, Done)
  }

  // ---- Ranges ----

  /** Page `v` to page `v + n - 1`. The range is regular when it stays inside one 1 GiB
      region and touches as many page tables as it would if it began on one. */
  predicate Regular(v: nat, n: nat) {
    n == 0 || (v / 0x4_0000 == (v + n - 1) / 0x4_0000 && Tables(v, n) == CeilTables(n))
  }

  /** Page tables the range touches. */
  function Tables(v: nat, n: nat): nat
    requires n > 0
  {
    (v + n - 1) / 512 - v / 512 + 1
  }

  function CeilTables(n: nat): nat {
    (n + 511) / 512
  }

  /** Pages of the range in its first `k` page tables. */
  function Before(v: nat, n: nat, k: nat): nat {
    if k == 0 then 0
    else if 512 * k - v % 512 < n then 512 * k - v % 512
    else n
  }

  /** The iterator after `page_iter_create`. */
  ghost predicate Created(it: Iter, v: nat, n: nat) {
    && Shape(it) && it.state == 0 && it.dir[3] == [] && it.offset == Offsets(v)
    && it.len == Lens(n)
  }

  function Offsets(v: nat): (r: seq<nat>)
    ensures |r| == 4
  {
    [v % 512, v / 512 % 512, v / 0x4_0000 % 512, v / 0x800_0000 % 512]
  }

  function Lens(n: nat): (r: seq<int>)
    ensures |r| == 4
  {
    [n, (n + 511) / 512, (n + 0x3_ffff) / 0x4_0000, (n + 0x7ff_ffff) / 0x800_0000]
  }

  /** Where the iterator stands after reporting for the `j`-th time, on a range of at
      least one page: three directory reports, then page table after page table. */
  ghost predicate AtPhase(it: Iter, v: nat, n: nat, j: nat) {
    && Shape(it)
    && (var o := Offsets(v);
        && it.offset[1..] == o[1..] && it.len[1..] == Lens(n)[1..]
        && it.dir[3] == []
        && (j <= 3 ==> it.offset[0] == o[0] && it.len[0] == n && it.state == j)
        && (j >= 2 ==> it.dir[2] == [o[3]] && it.index[3] == 0)
        && (j >= 3 ==> it.dir[1] == [o[3], o[2]] && it.index[2] == 0)
        && (j >= 4 ==> it.state == 4 && it.index[1] == j - 4
                       && it.offset[0] == (if j == 4 then o[0] else 0)
                       && it.len[0] == n - Before(v, n, j - 4)
                       && it.cur[0] == Before(v, n, j - 3) - Before(v, n, j - 4)))
  }

  /** The `j`-th report. */
  function Report(v: nat, n: nat, j: nat): Out
    requires j >= 1
  {
    var o := Offsets(v);
    if j == 1 then Chunk(3, [], o[3], Lens(n)[3])
    else if j == 2 then Chunk(2, [o[3]], o[2], ClipLen(Lens(n)[2], o[2]))
    else if j == 3 then Chunk(1, [o[3], o[2]], o[1], ClipLen(Lens(n)[1], o[1]))
    else Chunk(0, [o[3], o[2], o[1] + (j - 4)], if j == 4 then o[0] else 0, Before(v, n, j - 3) - Before(v, n, j - 4))
  }

  /** The first three reports happen whatever the range. */
  lemma StepDirectories(it: Iter, v: nat, n: nat, j: nat)
    requires n > 0 && j < 3 && AtPhase(it, v, n, j)
    ensures Step(it).out == Report(v, n, j + 1) && AtPhase(Step(it).it, v, n, j + 1)
  {
    var o, l := Offsets(v), Lens(n);
    assert it.offset[1..][0] == o[1] && it.offset[1..][1] == o[2] && it.offset[1..][2] == o[3];
    assert it.len[1..][0] == l[1] && it.len[1..][1] == l[2] && it.len[1..][2] == l[3];
    assert l[1] >= 1 && l[2] >= 1 && l[3] >= 1;
    assert [] + [o[3]] == [o[3]] && [o[3]] + [o[2]] == [o[3], o[2]];
  }

  /** Then come the page tables, as long as there are any left and they lie in the same
      directory. */
  lemma StepTables(it: Iter, v: nat, n: nat, j: nat)
    requires n > 0 && j >= 3 && AtPhase(it, v, n, j)
    ensures var o := Offsets(v); var k := j - 3;
            if k < CeilTables(n) && o[1] + k < 512 then
              Step(it).out == Report(v, n, j + 1) && AtPhase(Step(it).it, v, n, j + 1)
            else if k < CeilTables(n) then Step(it).out == Beyond
            else n <= 0x4_0000 ==> Step(it).out == Done
  {
    var o, l := Offsets(v), Lens(n);
    assert it.offset[1..][0] == o[1] && it.offset[1..][1] == o[2] && it.offset[1..][2] == o[3];
    assert it.len[1..][0] == l[1] && it.len[1..][1] == l[2] && it.len[1..][2] == l[3];
    var k := j - 3;
    assert [o[3], o[2]] + [o[1] + k] == [o[3], o[2], o[1] + k];
    assert n <= 0x4_0000 ==> l[2] == 1 && l[3] == 1;
  }

  // ---- Whole iterations ----

  datatype Status = Running | Finished | OutOfTable
  datatype Run = Run(pages: seq<nat>, status: Status)

  function Range(v: nat, n: nat): (r: seq<nat>)
    ensures |r| == n && forall i :: 0 <= i < n ==> r[i] == v + i
  {
    seq(n, i requires i >= 0 => v + i)
  }

  /** The pages whose page-table entries a report covers. */
  function PagesOf(out: Out): seq<nat> {
    if out.Chunk? && out.depth == 0 && |out.dir| == 3 && out.count >= 0 then
      Range(PageNumber(out.dir[0], out.dir[1], out.dir[2], out.start), out.count)
    else []
  }

  /** Calling the iterator up to `k` times: the pages reported, in order. */
  function Collect(it: Iter, k: nat): Run
    requires Shape(it)
    decreases k
  {
    if k == 0 then Run([], Running)
    else
      var s := Step(it);
      match s.out
      case Done => Run([], Finished)
      case Beyond => Run([], OutOfTable)
      case Chunk(_, _, _, _) =>
        var rest := Collect(s.it, k - 1);
        Run(PagesOf(s.out) + rest.pages, rest.status)
  }

  /** The entries of the `j`-th report are those of consecutive pages of the range. */
  lemma ReportPages(v: nat, n: nat, j: nat)
    requires v < PAGES && n > 0 && j >= 4
    requires j - 4 < CeilTables(n)
    ensures PagesOf(Report(v, n, j)) == Range(v + Before(v, n, j - 4), Before(v, n, j - 3) - Before(v, n, j - 4))
  {
    hide CeilTables, Before, PageNumber, PagesOf, Report, Offsets, Range;
    var o, k := Offsets(v), j - 4;
    OffsetsCompose(v);
    StartOfTable(v, n, k);
    BeforeGrows(v, n, k, k + 1);
    TableReportPages(v, n, j);
    EntriesOn(o[3], o[2], o[1], 0, o[0]);
    EntriesOn(o[3], o[2], o[1], k, if k == 0 then o[0] else 0);
    OffsetIs(v);
  }

  lemma OffsetIs(v: nat)
    ensures Offsets(v)[0] == v % 512
  {
  }

  lemma TableReportPages(v: nat, n: nat, j: nat)
    requires j >= 4 && Before(v, n, j - 3) >= Before(v, n, j - 4)
    ensures var o := Offsets(v);
            PagesOf(Report(v, n, j)) == Range(PageNumber(o[3], o[2], o[1] + (j - 4), if j == 4 then o[0] else 0),
                                              Before(v, n, j - 3) - Before(v, n, j - 4))
  {
    hide Before, Range, PageNumber;
  }

  /** Page numbers go on by 512 from one page table of a directory to the next. */
  lemma EntriesOn(a: nat, b: nat, c: nat, k: nat, d: nat)
    ensures PageNumber(a, b, c + k, d) == PageNumber(a, b, c, 0) + 512 * k + d
  {
  }

  lemma OffsetsCompose(v: nat)
    requires v < PAGES
    ensures var o := Offsets(v); |o| == 4 && v == PageNumber(o[3], o[2], o[1], o[0])
  {
    Recompose(v);
  }

  lemma StartOfTable(v: nat, n: nat, k: nat)
    requires n > 0 && k < CeilTables(n)
    ensures Before(v, n, k) == if k == 0 then 0 else 512 * k - v % 512
  {
  }

  lemma CollectStep(it: Iter, k: nat)
    requires Shape(it) && k > 0
    ensures var s := Step(it); var r := Collect(it, k);
            match s.out
            case Done => r == Run([], Finished)
            case Beyond => r == Run([], OutOfTable)
            case Chunk(_, _, _, _) => r == Run(PagesOf(s.out) + Collect(s.it, k - 1).pages, Collect(s.it, k - 1).status)
  {
    hide Step;
  }

  /** Page tables the walk gets through: those it counts, as far as the directory goes. */
  function WalkedTables(v: nat, n: nat): (k: nat)
    ensures n > 0 ==> 0 < k <= CeilTables(n)
  {
    if Offsets(v)[1] + CeilTables(n) <= 512 then CeilTables(n) else 512 - Offsets(v)[1]
  }

  /** How many pages of the range the iterator gets to. */
  function Visited(v: nat, n: nat): nat {
    if n == 0 then 0 else Before(v, n, WalkedTables(v, n))
  }

  /** How the iteration ends: the loop may leave its directory. */
  function Ending(v: nat, n: nat): Status {
    if n == 0 || Offsets(v)[1] + CeilTables(n) <= 512 then Finished else OutOfTable
  }

  /** The rest of an iteration, from its `j`-th report on. */
  lemma {:induction false} RestOfRun(it: Iter, v: nat, n: nat, j: nat, fuel: nat)
    requires v < PAGES && n > 0 && j >= 3 && j - 3 <= WalkedTables(v, n) && Shape(it) && AtPhase(it, v, n, j)
    ensures var r, k := Collect(it, fuel), j - 3;
            && Before(v, n, k) <= Visited(v, n)
            && (r.status != Running ==> r == Run(Range(v + Before(v, n, k), Visited(v, n) - Before(v, n, k)),
                                                 Ending(v, n)))
            && (fuel > WalkedTables(v, n) - k ==> r.status != Running)
    decreases fuel
  {
    hide Step, AtPhase, PagesOf, Before, Collect, Range;
    var m, k := WalkedTables(v, n), j - 3;
    BeforeGrows(v, n, k, m);
    if fuel > 0 {
      StepTables(it, v, n, j);
      CollectStep(it, fuel);
      var s := Step(it);
      if k < m {
        ReportPages(v, n, j + 1);
        RestOfRun(s.it, v, n, j + 1, fuel - 1);
        JoinRanges(v + Before(v, n, k), Before(v, n, k + 1) - Before(v, n, k), Visited(v, n) - Before(v, n, k + 1));
      } else {
        assert m == CeilTables(n) ==> n <= 0x4_0000;
        NothingMore(v + Before(v, n, k));
      }
    } else {
      NoFuel(it);
    }
  }

  lemma NothingMore(v: nat)
    ensures Range(v, 0) == []
  {
  }

  lemma NoFuel(it: Iter)
    requires Shape(it)
    ensures Collect(it, 0) == Run([], Running)
  {
  }

  lemma BeforeGrows(v: nat, n: nat, k: nat, m: nat)
    requires k <= m
    ensures Before(v, n, k) <= Before(v, n, m) && (k < m ==> Before(v, n, k) <= Before(v, n, k + 1) <= Before(v, n, m))
  {
  }

  lemma JoinRanges(v: nat, a: nat, b: nat)
    ensures Range(v, a) + Range(v + a, b) == Range(v, a + b)
  {
  }

  /** A range is regular exactly when its page tables are counted right and lie in one
      directory. */
  lemma RegularIff(v: nat, n: nat)
    requires n > 0
    ensures Regular(v, n) <==> Before(v, n, CeilTables(n)) == n && Offsets(v)[1] + CeilTables(n) <= 512
  {
    hide Before, Tables, CeilTables;
    OneRegionIff(v, n);
    CountedRightIff(v, n);
  }

  lemma OneRegionIff(v: nat, n: nat)
    requires n > 0
    ensures v / 0x4_0000 == (v + n - 1) / 0x4_0000 <==> v / 512 % 512 + Tables(v, n) <= 512
  {
    var q, r := v / 512, (v + n - 1) / 512;
    assert v / 0x4_0000 == q / 512 && (v + n - 1) / 0x4_0000 == r / 512;
  }

  lemma CountedRightIff(v: nat, n: nat)
    requires n > 0
    ensures Tables(v, n) == CeilTables(n) <==> Before(v, n, CeilTables(n)) == n
  {
    assert (v + n - 1) / 512 == v / 512 + (v % 512 + n - 1) / 512;
  }

  /** The directory reports add no pages. */
  lemma {:induction false} FirstReports(it: Iter, v: nat, n: nat, j: nat, fuel: nat)
    requires v < PAGES && n > 0 && j <= 3 && Shape(it) && AtPhase(it, v, n, j)
    ensures var r := Collect(it, fuel);
            && (r.status != Running ==> r == Run(Range(v, Visited(v, n)), Ending(v, n)))
            && (fuel > WalkedTables(v, n) + 3 - j ==> r.status != Running)
    decreases 3 - j
  {
    hide Step, AtPhase, Collect, Offsets, WalkedTables, Visited, Ending, Range;
    if j == 3 {
      RestOfRun(it, v, n, 3, fuel);
    } else if fuel > 0 {
      StepDirectories(it, v, n, j);
      CollectStep(it, fuel);
      FirstReports(Step(it).it, v, n, j + 1, fuel - 1);
      assert PagesOf(Report(v, n, j + 1)) == [];
    } else {
      NoFuel(it);
    }
  }

  lemma EmptyRun(it: Iter, v: nat, k: nat)
    requires Created(it, v, 0)
    ensures Collect(it, k) == Run([], if k < 2 then Running else Finished)
  {
    var s := Step(it);
    NoFuel(it);
    NoFuel(s.it);
    if k > 0 {
      CollectStep(it, k);
      if k > 1 {
        CollectStep(s.it, k - 1);
      }
    }
  }

  /** What the iterator does on any range whatever: it ends, and reports, each once and in
      order, exactly the first `Visited(v, n)` pages (as numbers of the 48-bit space). */
  lemma VisitsExactly(it: Iter, v: nat, n: nat)
    requires Created(it, v, n)
    ensures forall k :: Collect(it, k).status != Running ==>
              Collect(it, k) == Run(Range(v % PAGES, Visited(v, n)), Ending(v, n))
    ensures exists k :: Collect(it, k).status != Running
  {
    hide Collect, Visited, Ending;
    var fuel := WalkedTables(v, n) + 4;
    forall k: nat
      ensures Collect(it, k).status != Running ==> Collect(it, k) == Run(Range(v % PAGES, Visited(v, n)), Ending(v, n))
      ensures k == fuel ==> Collect(it, k).status != Running
    {
      SameIn48Bits(v, n);
      RunOf(it, v % PAGES, n, k);
    }
    assert Collect(it, fuel).status != Running;
  }

  /** The iterator sees no more than the 48 bits of the address. */
  lemma SameIn48Bits(v: nat, n: nat)
    ensures Offsets(v % PAGES) == Offsets(v)
    ensures Visited(v % PAGES, n) == Visited(v, n) && Ending(v % PAGES, n) == Ending(v, n)
    ensures WalkedTables(v % PAGES, n) == WalkedTables(v, n)
  {
    hide CeilTables;
    OffsetsMod(v);
  }

  lemma OffsetsMod(v: nat)
    ensures Offsets(v % PAGES) == Offsets(v)
    ensures v % PAGES % 512 == v % 512
  {
    var q, r := v / PAGES, v % PAGES;
    LowBits(q * 0x800_0000, r);
    MiddleBits(q, r);
    UpperBits(q, r);
    TopBits(q, r);
  }

  lemma LowBits(q: nat, r: nat)
    ensures (512 * q + r) % 512 == r % 512
  {
  }

  lemma MiddleBits(q: nat, r: nat)
    ensures (q * PAGES + r) / 512 % 512 == r / 512 % 512
  {
    assert (q * PAGES + r) / 512 == 512 * (q * 0x4_0000) + r / 512;
    LowBits(q * 0x4_0000, r / 512);
  }

  lemma UpperBits(q: nat, r: nat)
    ensures (q * PAGES + r) / 0x4_0000 % 512 == r / 0x4_0000 % 512
  {
    assert (q * PAGES + r) / 0x4_0000 == 512 * (q * 512) + r / 0x4_0000;
    LowBits(q * 512, r / 0x4_0000);
  }

  lemma TopBits(q: nat, r: nat)
    ensures (q * PAGES + r) / 0x800_0000 % 512 == r / 0x800_0000 % 512
  {
    assert (q * PAGES + r) / 0x800_0000 == 512 * q + r / 0x800_0000;
    LowBits(q, r / 0x800_0000);
  }

  lemma RunOf(it: Iter, v: nat, n: nat, k: nat)
    requires v < PAGES && Created(it, v, n)
    ensures var r := Collect(it, k);
            && (r.status != Running ==> r == Run(Range(v, Visited(v, n)), Ending(v, n)))
            && (k > WalkedTables(v, n) + 3 ==> r.status != Running)
  {
    hide Collect, WalkedTables, Range;
    if n == 0 {
      EmptyRun(it, v, k);
      NothingMore(v);
    } else {
      FirstReports(it, v, n, 0, k);
    }
  }

  /** ... which are all of them exactly when the range is regular, and then the loop never
      leaves its directory. */
  lemma VisitsAllIffRegular(v: nat, n: nat)
    ensures Visited(v, n) <= n && (Regular(v, n) <==> Visited(v, n) == n)
    ensures Regular(v, n) ==> Ending(v, n) == Finished
    ensures n > 0 ==> Visited(v, n) > 0
  {
    hide Regular, Before, CeilTables;
    if n > 0 {
      RegularIff(v, n);
      PartOfRange(v, n, WalkedTables(v, n));
    } else {
      EmptyIsRegular(v);
    }
  }

  lemma EmptyIsRegular(v: nat)
    ensures Regular(v, 0)
  {
  }

  lemma PartOfRange(v: nat, n: nat, m: nat)
    requires n > 0
    ensures Before(v, n, m) <= n && (m > 0 ==> Before(v, n, m) > 0) && (m < CeilTables(n) ==> Before(v, n, m) < n)
  {
  }

  /** The main result about the iterator: it ends, never leaves a table, and reports the
      entries of exactly the pages of the range, each once and in order, as a plain loop
      over the pages would, if and only if the range is regular. */
  lemma IteratesExactlyIffRegular(it: Iter, v: nat, n: nat)
    requires Created(it, v, n)
    ensures Regular(v, n) <==> exists k :: Collect(it, k) == Run(Range(v % PAGES, n), Finished)
  {
    hide Collect, Visited, Ending, Regular;
    VisitsExactly(it, v, n);
    VisitsAllIffRegular(v, n);
    if Regular(v, n) {
      var k :| Collect(it, k).status != Running;
      assert Collect(it, k) == Run(Range(v % PAGES, n), Finished);
    } else {
      assert |Range(v % PAGES, n)| != |Range(v % PAGES, Visited(v, n))|;
    }
  }

  /** Two pages that lie in two page tables are counted as one: only the first is visited. */
  lemma SkipsSecondTable(it: Iter)
    requires Created(it, 511, 2)
    ensures Collect(it, 6) == Run([511], Finished)
  {
    hide Collect;
    RunOf(it, 511, 2, 6);
    assert Range(511, 1) == [511];
  }

  // ---- Report by report ----

  function LastPhase(n: nat): nat {
    if n == 0 then 1 else 3 + CeilTables(n)
  }

  /** The iterator was created for `asked` pages from `v` on, of which it will visit `n`,
      and has reported `j` times. */
  ghost predicate Stands(it: Iter, v: nat, n: nat, asked: nat, j: nat) {
    && Visited(v, asked) == n && Ending(v, asked) == Finished && Shape(it)
    && (if asked > 0 then AtPhase(it, v, asked, j)
        else if j == 0 then Created(it, v, asked) else it.state == 1 && it.len[3] == 0)
  }

  ghost predicate Progress(it: Iter, v: nat, n: nat, j: nat) {
    exists asked: nat :: Stands(it, v, n, asked, j)
  }

  /** When the walk stays in its directory, the pages it visits are a regular range, and
      asking for just them gives the same reports. */
  lemma VisitedIsRegular(v: nat, asked: nat)
    requires Ending(v, asked) == Finished
    ensures var n := Visited(v, asked);
            && Regular(v, n) && CeilTables(n) == CeilTables(asked) && (n == 0 <==> asked == 0)
            && Lens(n)[1..] == Lens(asked)[1..]
            && (forall k: nat {:trigger Before(v, n, k)} :: k <= CeilTables(n) ==>
                  Before(v, n, k) == Before(v, asked, k))
  {
    hide Before, Regular, Lens, CeilTables;
    var n := Visited(v, asked);
    if asked > 0 {
      WholeTables(v, asked);
      RegularIff(v, n);
      SameLens(v, asked, n);
    } else {
      EmptyIsRegular(v);
      NoTablesBefore(v);
    }
  }

  lemma NoTablesBefore(v: nat)
    ensures CeilTables(0) == 0 && Before(v, 0, 0) == 0
  {
  }

  lemma WholeTables(v: nat, asked: nat)
    requires asked > 0
    ensures var L := CeilTables(asked); var n := Before(v, asked, L);
            && 0 < n && CeilTables(n) == L && Before(v, n, L) == n
            && (forall k: nat {:trigger Before(v, n, k)} :: k <= L ==> Before(v, n, k) == Before(v, asked, k))
  {
  }

  lemma SameLens(v: nat, asked: nat, n: nat)
    requires asked > 0 && n > 0 && CeilTables(n) == CeilTables(asked) <= 512
    ensures Lens(n)[1..] == Lens(asked)[1..]
  {
    assert n <= 0x4_0000 && asked <= 0x4_0000;
    assert Lens(n)[2] == 1 && Lens(asked)[2] == 1 && Lens(n)[3] == 1 && Lens(asked)[3] == 1;
  }

  lemma SameReports(v: nat, asked: nat, j: nat)
    requires Ending(v, asked) == Finished && j >= 1 && j <= LastPhase(Visited(v, asked))
    ensures LastPhase(Visited(v, asked)) == LastPhase(asked)
    ensures Report(v, Visited(v, asked), j) == Report(v, asked, j)
  {
    hide Before, Visited, Ending, Regular, CeilTables, Offsets, Lens;
    var n := Visited(v, asked);
    VisitedIsRegular(v, asked);
    assert Lens(n)[1..][0] == Lens(asked)[1..][0] && Lens(n)[1..][1] == Lens(asked)[1..][1]
           && Lens(n)[1..][2] == Lens(asked)[1..][2];
  }

  /** The calls give exactly the reports 1 to `LastPhase(n)` for the pages visited. */
  lemma NextReport(it: Iter, v: nat, n: nat, j: nat)
    requires j <= LastPhase(n) && Shape(it) && Progress(it, v, n, j)
    ensures if j < LastPhase(n) then Step(it).out == Report(v, n, j + 1) && Progress(Step(it).it, v, n, j + 1)
            else Step(it).out == Done
  {
    hide Step, Ending, Visited, Report;
    var asked: nat :| Stands(it, v, n, asked, j);
    VisitedIsRegular(v, asked);
    StepAsked(it, v, asked, j);
    if j < LastPhase(n) {
      SameReports(v, asked, j + 1);
      assert Stands(Step(it).it, v, n, asked, j + 1);
    }
  }

  lemma StepAsked(it: Iter, v: nat, asked: nat, j: nat)
    requires Stands(it, v, Visited(v, asked), asked, j) && j <= LastPhase(asked)
    ensures if j < LastPhase(asked)
            then Step(it).out == Report(v, asked, j + 1) && Stands(Step(it).it, v, Visited(v, asked), asked, j + 1)
            else Step(it).out == Done
  {
    if asked > 0 {
      hide Step, AtPhase, Report, Before;
      if j < 3 {
        StepDirectories(it, v, asked, j);
      } else {
        StepTables(it, v, asked, j);
      }
    }
  }

  // ---- Ranges of bytes ----

  /** The walk over `size` bytes at `addr` stays in one directory of page tables. */
  predicate StaysInside(addr: nat, size: nat) {
    Ending(addr / 4096, (size + 4095) / 4096) == Finished
  }

  /** How many pages of the range it visits: all of them exactly when the range is regular. */
  function PagesVisited(addr: nat, size: nat): (n: nat)
    ensures n <= (size + 4095) / 4096 && (size > 0 ==> n > 0)
    ensures n == (size + 4095) / 4096 <==> Regular(addr / 4096, (size + 4095) / 4096)
    ensures StaysInside(addr, size) ==> Regular(addr / 4096, n)
  {
    VisitedFacts(addr / 4096, (size + 4095) / 4096);
    Visited(addr / 4096, (size + 4095) / 4096)
  }

  lemma VisitedFacts(v: nat, asked: nat)
    ensures Visited(v, asked) <= asked && (asked > 0 ==> Visited(v, asked) > 0)
    ensures Visited(v, asked) == asked <==> Regular(v, asked)
    ensures Ending(v, asked) == Finished ==> Regular(v, Visited(v, asked))
  {
    VisitsAllIffRegular(v, asked);
    if Ending(v, asked) == Finished {
      VisitedIsRegular(v, asked);
    }
  }

  /** A range that lies in one page table is regular. */
  lemma OneTableRegular(v: nat, n: nat)
    requires v % 512 + n <= 512
    ensures Regular(v, n)
  {
    if n > 0 {
      assert (v + n - 1) / 512 == v / 512;
      assert v / 0x4_0000 == v / 512 / 512 && (v + n - 1) / 0x4_0000 == (v + n - 1) / 512 / 512;
    }
  }

  // ---- Reports on a regular range ----

  lemma RegularReports(v: nat, n: nat, j: nat)
    requires Regular(v, n) && 1 <= j <= LastPhase(n)
    ensures var o := Offsets(v); var r := Report(v, n, j);
            && (forall i :: 0 <= i < 4 ==> o[i] < 512)
            && r.start + r.count <= 512 && r.count >= 0
            && (j == 1 ==> r == Chunk(3, [], o[3], if n == 0 then 0 else 1))
            && (j == 2 ==> r == Chunk(2, [o[3]], o[2], 1))
            && (j == 3 ==> r == Chunk(1, [o[3], o[2]], o[1], CeilTables(n)))
            && (j >= 4 ==> r.depth == 0 && r.dir == [o[3], o[2], o[1] + (j - 4)] && o[1] + (j - 4) < 512
                           && r.count == Before(v, n, j - 3) - Before(v, n, j - 4))
            && (n > 0 ==> o[1] + CeilTables(n) <= 512 && Before(v, n, CeilTables(n)) == n)
  {
    if n > 0 {
      RegularIff(v, n);
    }
  }

  /** Entry `i` of the `j`-th report, for a page table, is that of one page of the range;
      for a directory, it is on the way of one. */
  lemma ReportEntry(v: nat, n: nat, j: nat, i: nat) returns (d: nat)
    requires Regular(v, n) && 1 <= j <= LastPhase(n) && i < Report(v, n, j).count
    ensures var r := Report(v, n, j); d < n && r.dir + [r.start + i] <= PathOf(v + d)
    ensures j >= 4 ==> d == Before(v, n, j - 4) + i
  {
    hide Regular, Before, CeilTables;
    RegularReports(v, n, j);
    if j < 3 {
      d := 0;
      OnePage(v, n, j, i);
    } else if j == 3 {
      d := Before(v, n, i);
      FirstOfTable(v, n, i);
    } else {
      d := Before(v, n, j - 4) + i;
      EntryOfTable(v, n, j - 4, i);
    }
    InRegion(v, n, d);
    SameRegion(v, d);
  }

  lemma OnePage(v: nat, n: nat, j: nat, i: nat)
    requires 1 <= j <= LastPhase(n) && j < 3 && i < Report(v, n, j).count
    ensures n > 0
  {
  }

  lemma FirstOfTable(v: nat, n: nat, i: nat)
    requires n > 0 && i < CeilTables(n)
    ensures Before(v, n, i) < n && (v % 512 + Before(v, n, i)) / 512 == i
  {
  }

  lemma EntryOfTable(v: nat, n: nat, k: nat, i: nat)
    requires n > 0 && i < Before(v, n, k + 1) - Before(v, n, k)
    ensures Before(v, n, k) + i < n && (v % 512 + Before(v, n, k) + i) / 512 == k
    ensures (v % 512 + Before(v, n, k) + i) % 512 == (if k == 0 then v % 512 else 0) + i
  {
  }

  lemma InRegion(v: nat, n: nat, d: nat)
    requires Regular(v, n) && d < n
    ensures (v + d) / 0x4_0000 == v / 0x4_0000
  {
  }

  lemma SameRegion(v: nat, d: nat)
    requires (v + d) / 0x4_0000 == v / 0x4_0000
    ensures var o := Offsets(v);
            && PathOf(v + d)[0] == o[3] && PathOf(v + d)[1] == o[2]
            && PathOf(v + d)[2] == (v / 512 % 512) + (v % 512 + d) / 512
            && PathOf(v + d)[3] == (v % 512 + d) % 512
  {
    assert v / 0x4_0000 / 512 == v / 0x800_0000 && (v + d) / 0x4_0000 / 512 == (v + d) / 0x800_0000;
    assert v / 512 / 512 == v / 0x4_0000 && (v + d) / 512 / 512 == (v + d) / 0x4_0000;
    assert (v + d) / 512 == v / 512 + (v % 512 + d) / 512;
  }

  // ---- The iterator as the program keeps it ----

  class PageIterator {
    var dir: seq<Frame>
    var offset: seq<nat>
    var len: seq<int>
    var cur: seq<int>
    var index: seq<int>
    var state: nat
    ghost var path: seq<Path>

    ghost function View(): Iter
      reads this
    {
      Iter(path, offset, len, cur, index, state)
    }

    /** The directories it has taken so far are tables of the tree. */
    ghost predicate Tracks(places: Places)
      reads this
    {
      && |dir| == 4 && Shape(View()) && state <= 4
      && (forall k :: 0 <= k < 4 && k + state >= 4 ==>
            dir[k] in places && places[dir[k]] == path[k] && |path[k]| == 3 - k)
      && dir[3] in places && places[dir[3]] == path[3] == []
    }

    /** `page_iter_create` */
    constructor (cr3: Frame, vaddr: nat, size: nat, ghost places: Places)
      requires cr3 in places && places[cr3] == []
      ensures Created(View(), vaddr / 4096, (size + 4095) / 4096)
      ensures Tracks(places) && dir[3] == cr3
    {
      var vpage, vlen := vaddr / 4096, (size + 4095) / 4096;
      offset := [vpage % 512, vpage / 512 % 512, vpage / 0x4_0000 % 512, vpage / 0x800_0000 % 512];
      len := [vlen, (vlen + 511) / 512, (vlen + 0x3_ffff) / 0x4_0000, (vlen + 0x7ff_ffff) / 0x800_0000];
      dir := [cr3, cr3, cr3, cr3];
      cur := [0, 0, 0, 0];
      index := [0, 0, 0, 0];
      state := 0;
      path := [[], [], [], []];
    }

    /** What is about to be reported is a table that an entry leads on to. */
    ghost predicate CanEnter(out: Out, mem: Memory)
      reads this
    {
      && |dir| == 4 && out != Beyond
      && (out.Chunk? && out.depth < 3 ==>
            out.dir != [] && out.dir[|out.dir| - 1] < 512 && LeadsOn(mem, dir[out.depth + 1], out.dir[|out.dir| - 1]))
    }

    /** The next call will read only entries that lead on to a table. */
    ghost predicate CanStep(mem: Memory)
      reads this
    {
      Shape(View()) && CanEnter(Step(View()).out, mem)
    }

    /** The call that was to end with `was` has ended: nothing more, or a run of entries
        `start .. start + count` of table `frame` at `depth`. */
    ghost predicate Ended(was: Stepped, places: Places, done: bool, depth: nat, frame: Frame, start: nat, count: int)
      reads this
    {
      && |dir| == 4 && View() == was.it
      && (done <==> was.out == Done)
      && (!done ==> depth < 4 && frame == dir[depth] && frame in places
                    && was.out == Chunk(depth, places[frame], start, count))
    }

    /** `page_iter_next`: true when there is nothing more. */
    method Next(mem: Memory, ghost cr3: Frame, ghost places: Places)
        returns (done: bool, depth: nat, frame: Frame, start: nat, count: int)
      requires TreeOk(mem, cr3, places) && Tracks(places) && CanStep(mem)
      modifies this
      ensures Tracks(places) && Ended(Step(old(View())), places, done, depth, frame, start, count)
      ensures done || depth == 3 ==> dir == old(dir)
      ensures !done && depth < 3 ==> dir == old(dir)[depth := frame]
    {
      hide Loop1, Loop2, Loop3, Descend, TreeOk;
      if state == 0 {
        done, depth, frame, start, count := false, 3, dir[3], offset[3], len[3];
        state := 1;
      } else if state == 1 {
        index := index[3 := 0];
        done, depth, frame, start, count := Head3(mem, cr3, places);
      } else if state == 2 {
        index := index[2 := 0];
        done, depth, frame, start, count := Head2(mem, cr3, places);
      } else if state == 3 {
        index := index[1 := 0];
        done, depth, frame, start, count := Head1(mem, cr3, places);
      } else {
        len := len[0 := len[0] - cur[0]];
        offset := offset[0 := 0];
        index := index[1 := index[1] + 1];
        done, depth, frame, start, count := Head1(mem, cr3, places);
      }
    }

    method Head1(mem: Memory, ghost cr3: Frame, ghost places: Places)
        returns (done: bool, depth: nat, frame: Frame, start: nat, count: int)
      requires TreeOk(mem, cr3, places) && Tracks(places) && state >= 3 && CanEnter(Loop1(View()).out, mem)
      modifies this
      ensures Tracks(places) && Ended(Loop1(old(View())), places, done, depth, frame, start, count)
      ensures done ==> dir == old(dir)
      ensures !done ==> depth < 3 && dir == old(dir)[depth := frame]
    {
      hide Loop2, Loop3, TreeOk;
      if index[1] < len[1] {
        done := false;
        depth, frame, start, count := Enter(1, mem, cr3, places);
      } else {
        len := len[1 := len[1] - cur[1]];
        offset := offset[1 := 0];
        index := index[2 := index[2] + 1];
        done, depth, frame, start, count := Head2(mem, cr3, places);
      }
    }

    method Head2(mem: Memory, ghost cr3: Frame, ghost places: Places)
        returns (done: bool, depth: nat, frame: Frame, start: nat, count: int)
      requires TreeOk(mem, cr3, places) && Tracks(places) && state >= 2 && CanEnter(Loop2(View()).out, mem)
      modifies this
      ensures Tracks(places) && Ended(Loop2(old(View())), places, done, depth, frame, start, count)
      ensures done ==> dir == old(dir)
      ensures !done ==> depth < 3 && dir == old(dir)[depth := frame]
    {
      hide Loop1, Loop3, TreeOk;
      if index[2] < len[2] {
        done := false;
        depth, frame, start, count := Enter(2, mem, cr3, places);
      } else {
        len := len[2 := len[2] - cur[2]];
        offset := offset[2 := 0];
        index := index[3 := index[3] + 1];
        done, depth, frame, start, count := Head3(mem, cr3, places);
      }
    }

    method Head3(mem: Memory, ghost cr3: Frame, ghost places: Places)
        returns (done: bool, depth: nat, frame: Frame, start: nat, count: int)
      requires TreeOk(mem, cr3, places) && Tracks(places) && CanEnter(Loop3(View()).out, mem)
      modifies this
      ensures Tracks(places) && Ended(Loop3(old(View())), places, done, depth, frame, start, count)
      ensures done ==> dir == old(dir)
      ensures !done ==> depth < 3 && dir == old(dir)[depth := frame]
    {
      hide Loop1, Loop2, TreeOk;
      done, depth, frame, start, count := true, 0, dir[3], 0, 0;
      if index[3] < len[3] {
        done := false;
        depth, frame, start, count := Enter(3, mem, cr3, places);
      }
    }

    /** The common body of the three loops. */
    method Enter(k: nat, mem: Memory, ghost cr3: Frame, ghost places: Places)
        returns (depth: nat, frame: Frame, start: nat, count: int)
      requires TreeOk(mem, cr3, places) && 1 <= k <= 3 && |dir| == 4 && Shape(View())
      requires dir[k] in places && places[dir[k]] == path[k] && |path[k]| == 3 - k
      requires 0 <= offset[k] + index[k] < 512 && LeadsOn(mem, dir[k], offset[k] + index[k])
      modifies this
      ensures |dir| == 4 && Shape(View()) && dir == old(dir)[k - 1 := frame]
      ensures Stepped(View(), Chunk(depth, path[k - 1], start, count)) == Descend(old(View()), k)
      ensures depth == k - 1 && frame in places && places[frame] == path[k - 1]
    {
      var pos := offset[k] + index[k];
      assert EntryOk(mem, places, dir[k], pos);
      frame := FrameOf(mem[dir[k]][pos]);
      path := path[k - 1 := path[k] + [pos]];
      dir := dir[k - 1 := frame];
      cur := cur[k - 1 := ClipLen(len[k - 1], offset[k - 1])];
      depth, start, count := k - 1, offset[k - 1], cur[k - 1];
      state := 5 - k;
    }
  }
}
