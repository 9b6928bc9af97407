/** The whole of `tools/mkvolume.c`: from a file list to a volume, and on to the bootloader. */
module Mkvolume {
  import opened Bytes
  import opened MfsFormat
  import opened MfsVolume
  import opened MfsDir
  import opened MfsTree
  import opened MfsBuilder
  import opened MfsCopy
  import SpecParser
  import MfsReader

  type Text = SpecParser.Text

  /** The copies that the records of a list ask for, `disk` giving what each source file
      holds. */
  function CopiesOf(specs: seq<SpecParser.Spec>, disk: map<Text, seq<Byte>>): (cs: seq<Copy>)
    requires forall i :: 0 <= i < |specs| ==> specs[i].src in disk
    ensures |cs| == |specs| && forall i :: 0 <= i < |specs| ==> cs[i] == Copy(specs[i].dst, disk[specs[i].src])
  {
    seq(|specs|, i requires 0 <= i < |specs| => Copy(specs[i].dst, disk[specs[i].src]))
  }

  /** Every record fits the buffers it is read into, and its source file exists. */
  predicate Readable(specs: seq<SpecParser.Spec>, disk: map<Text, seq<Byte>>) {
    forall i :: 0 <= i < |specs| ==>
      SpecParser.FitsBuffers(specs[i]) && specs[i].src in disk && |Strip(specs[i].dst)| <= NAME_MAX
  }

  /** The volume has enough pages for all the copies. */
  predicate Large(size: nat, cs: seq<Copy>) {
    && size + 4095 < 0x8000_0000 && (size + 4095) / 4096 > RESERVED_PAGES + 1
    && RESERVED_PAGES + NextInodes(1, RunCost(cs)) < (size + 4095) / 4096
  }

  /** The main program: makes a volume and copies every file of the list to it. Unless it
      exits over a file that is too large, the volume it leaves is sound and holds the tree
      of the run; if the paths are fresh and in order, that is exactly the listed files. */
  method BuildVolume(f: SpecParser.SpecFile, disk: map<Text, seq<Byte>>, size: nat, now: nat)
      returns (ok: bool, volume: Volume, ghost l: Layout)
    requires f.Valid() && Readable(SpecParser.ParseAll(f.stream), disk)
    requires var cs := CopiesOf(SpecParser.ParseAll(f.stream), disk); FreshLandings(cs) && Large(size, cs)
    modifies f
    ensures fresh(volume) && fresh(volume.pages)
    ensures var cs := CopiesOf(SpecParser.ParseAll(old(f.stream)), disk);
            && (ok <==> RunFits(cs))
            && (ok ==> Valid(volume, l) && l.tree == RunTree(JobsOf(cs)))
            && (ok && FreshPaths(JobsOf(cs)) && InOrder(JobsOf(cs)) ==>
                  HoldsJobs(l.tree, JobsOf(cs)) && NamesAsAsked(l.tree, JobsOf(cs))
                  && forall k, p: Path :: 0 <= k < |cs| && PathOk(p) && cs[k].dst == [SLASH] + Join(p) ==>
                       p in l.tree.files && l.tree.files[p] == cs[k].data)
  {
    hide SpecParser.ParseAll, SpecParser.ParseSpec, SpecParser.FitsBuffers, Running, FreshLandings, Strip, NextInodes,
         RunCost, RunFits, RunTree;
    hide Valid, HoldsJobs, NamesAsAsked, FreshPaths, InOrder, JobsOf;
    ghost var all := SpecParser.ParseAll(f.stream);
    ghost var cs := CopiesOf(all, disk);
    ghost var k := 0;
    volume, l := MakeVolume(size, now);
    StartRun(volume, l, cs);
    while true
      invariant f.Valid() && fresh(volume) && fresh(volume.pages) && k <= |all|
      invariant SpecParser.ParseAll(f.stream) == all[k..] && Running(volume, l, cs, k)
      decreases SpecParser.Left(f.stream)
    {
      SpecParser.ParseAllStep(f.stream);
      assert SpecParser.ParseSpec(f.stream).Got? ==> k < |all| && SpecParser.ParseSpec(f.stream).spec == all[k..][0];
      var p := f.ParseNext();
      if p.End? { break; }
      var more;
      more, l := CopyNext(volume, p.spec.dst, disk[p.spec.src], l, cs, k);
      if !more {
        return false, volume, l;
      }
      k := k + 1;
    }
    EndRun(volume, l, cs);
    if FreshPaths(JobsOf(cs)) && InOrder(JobsOf(cs)) {
      ListedHeld(l.tree, cs);
    }
    ok := true;
  }

  lemma StartRun(volume: Volume, l: Layout, cs: seq<Copy>)
    requires Valid(volume, l) && l.tree == EMPTY && volume.nextInode == 1
    requires RESERVED_PAGES + NextInodes(1, RunCost(cs)) < volume.pages.Length
    ensures Running(volume, l, cs, 0)
  {
    hide Valid;
    EmptyRun(cs);
  }

  lemma EndRun(volume: Volume, l: Layout, cs: seq<Copy>)
    requires Running(volume, l, cs, |cs|)
    ensures Valid(volume, l) && l.tree == RunTree(JobsOf(cs)) && RunFits(cs)
    ensures FreshPaths(JobsOf(cs)) && InOrder(JobsOf(cs)) ==>
              HoldsJobs(l.tree, JobsOf(cs)) && NamesAsAsked(l.tree, JobsOf(cs))
  {
    hide Valid, RunTree, RunFits, RunCost, FreshPaths, InOrder, HoldsJobs, NamesAsAsked, JobsOf;
    assert cs[..|cs|] == cs;
    if FreshPaths(JobsOf(cs)) && InOrder(JobsOf(cs)) {
      RunHoldsExactlyTheJobs(JobsOf(cs));
    }
  }

  /** A record that names `/p` has put its source file at `p`. */
  lemma ListedHeld(t: Tree, cs: seq<Copy>)
    requires HoldsJobs(t, JobsOf(cs))
    ensures forall k, p: Path :: 0 <= k < |cs| && PathOk(p) && cs[k].dst == [SLASH] + Join(p) ==>
              p in t.files && t.files[p] == cs[k].data
  {
    hide HoldsJobs, JobOf, Join;
    forall k, p: Path | 0 <= k < |cs| && PathOk(p) && cs[k].dst == [SLASH] + Join(p)
      ensures p in t.files && t.files[p] == cs[k].data
    {
      PathsMeant(p, cs[k].data);
      assert cs[k] == Copy([SLASH] + Join(p), cs[k].data);
      JobHeld(t, JobsOf(cs), k);
    }
  }

  lemma JobHeld(t: Tree, jobs: seq<Job>, k: nat)
    requires HoldsJobs(t, jobs) && k < |jobs|
    ensures jobs[k].path in t.files && t.files[jobs[k].path] == jobs[k].data
  {
  }

  /** The directory `q` of the run fits in a page. */
  predicate OnePage(jobs: seq<Job>, q: Path) {
    DirSize(Siblings(jobs, q)) <= PAGE_SIZE
  }

  /** `/boot/initram` */
  const BOOT_INITRAM: Text := [47, 98, 111, 111, 116, 47, 105, 110, 105, 116, 114, 97, 109]

  lemma BootInitram(data: seq<Byte>)
    ensures JobOf(Copy(BOOT_INITRAM, data)) == Job([MfsReader.BOOT, MfsReader.INITRAM], data)
  {
    hide Split;
    var p: Path := [MfsReader.BOOT, MfsReader.INITRAM];
    assert [SLASH] + Join(p) == BOOT_INITRAM;
    PathsMeant(p, data);
  }

  /** From a printed list to the bootloader: of a list whose paths are fresh and in order,
      with `/boot/initram` among them, the bootloader reads back that source file's bytes,
      zero-padded, whatever else the list holds. */
  method ListThenBoot(lines: seq<SpecParser.Line>, ends: seq<Byte>, disk: map<Text, seq<Byte>>, size: nat, now: nat,
                      ghost k: nat)
      returns (ok: bool, length: nat, initram: seq<Byte>)
    requires SpecParser.LinesOk(lines) && SpecParser.EndsOk(lines, ends) && !lines[|lines| - 1].Blank?
             && Readable(SpecParser.Records(lines), disk)
    requires var jobs := JobsOf(CopiesOf(SpecParser.Records(lines), disk));
             && FreshPaths(jobs) && InOrder(jobs) && OnePage(jobs, []) && OnePage(jobs, [MfsReader.BOOT])
             && k < |jobs| && SpecParser.Records(lines)[k].dst == BOOT_INITRAM
    requires Large(size, CopiesOf(SpecParser.Records(lines), disk))
    ensures ok <==> RunFits(CopiesOf(SpecParser.Records(lines), disk))
    ensures ok ==> var data := disk[SpecParser.Records(lines)[k].src];
              && length == |data| <= |initram| < |data| + 4096 && |initram| % 4096 == 0 && initram[..|data|] == data
              && forall i :: |data| <= i < |initram| ==> initram[i] == 0
  {
    hide SpecParser.ParseAll, SpecParser.Print, Large, RunFits, FreshLandings, FreshPaths, InOrder, HoldsJobs,
         NamesAsAsked;
    hide Valid, OnePage, RunTree, Strip, Split;
    SpecParser.RoundTripIff(lines, ends);
    ghost var cs := CopiesOf(SpecParser.Records(lines), disk);
    InOrderIsFresh(cs);
    var f := new SpecParser.SpecFile(SpecParser.Print(lines, ends));
    var volume;
    ghost var l;
    ok, volume, l := BuildVolume(f, disk, size, now);
    if !ok {
      return false, 0, [];
    }
    BootInitram(cs[k].data);
    assert JobsOf(cs)[k] == JobOf(cs[k]);
    BootFile(l.tree, JobsOf(cs), k);
    var r := new MfsReader.Reader(volume.pages[..]);
    length, initram := MfsReader.InitramInit(r, volume, l);
  }

  lemma BootFile(t: Tree, jobs: seq<Job>, k: nat)
    requires HoldsJobs(t, jobs) && NamesAsAsked(t, jobs) && OnePage(jobs, []) && OnePage(jobs, [MfsReader.BOOT])
    requires k < |jobs| && jobs[k].path == [MfsReader.BOOT, MfsReader.INITRAM]
    ensures jobs[k].path in t.files && t.files[jobs[k].path] == jobs[k].data
    ensures [] in t.dirs && DirSize(t.dirs[[]]) <= PAGE_SIZE
    ensures [MfsReader.BOOT] in t.dirs && DirSize(t.dirs[[MfsReader.BOOT]]) <= PAGE_SIZE
  {
    hide DirSize, Siblings;
    var p := jobs[k].path;
    assert Exists(t, p) && Parent(p) == [MfsReader.BOOT];
    assert NamesIn(t, []) == Siblings(jobs, []) && NamesIn(t, [MfsReader.BOOT]) == Siblings(jobs, [MfsReader.BOOT]);
  }
}
