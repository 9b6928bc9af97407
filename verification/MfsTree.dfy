/** The tree a volume stands for: directories with their names in record order, and
    files with their bytes, both keyed by path. */
module MfsTree {
  import opened Bytes
  import opened MfsDir

  type Path = seq<Name>

  datatype Tree = Tree(dirs: map<Path, seq<Name>>, files: map<Path, seq<Byte>>)

  const EMPTY: Tree := Tree(map[[] := []], map[])

  predicate Exists(t: Tree, p: Path) {
    p in t.dirs || p in t.files
  }

  function Parent(p: Path): Path
    requires p != []
  {
    p[..|p| - 1]
  }

  function Last(p: Path): Name
    requires p != []
  {
    p[|p| - 1]
  }

  ghost predicate Distinct(names: seq<Name>) {
    forall i, j :: 0 <= i < j < |names| ==> names[i] != names[j]
  }

  /** Every record leads to a node and every node but the root has one record. */
  ghost predicate WellFormed(t: Tree) {
    && [] in t.dirs
    && t.dirs.Keys !! t.files.Keys
    && (forall p :: p in t.dirs ==> Distinct(t.dirs[p]))
    && (forall p, i :: p in t.dirs && 0 <= i < |t.dirs[p]| ==> Exists(t, p + [t.dirs[p][i]]))
    && (forall p :: Exists(t, p) && p != [] ==> Parent(p) in t.dirs && Last(p) in t.dirs[Parent(p)])
  }

  // ---- The reference meaning of inserting a file at an exact path ----

  function AddDir(t: Tree, p: Path): Tree
    requires p != [] && Parent(p) in t.dirs
  {
    t.(dirs := t.dirs[Parent(p) := t.dirs[Parent(p)] + [Last(p)]][p := []])
  }

  function AddFile(t: Tree, p: Path, data: seq<Byte>): Tree
    requires p != [] && Parent(p) in t.dirs
  {
    t.(dirs := t.dirs[Parent(p) := t.dirs[Parent(p)] + [Last(p)]], files := t.files[p := data])
  }

  /** Creates the directory `p` and its missing ancestors. */
  function MakeDirs(t: Tree, p: Path): (r: Tree)
    requires [] in t.dirs
    ensures p in r.dirs && [] in r.dirs
    decreases |p|
  {
    if p in t.dirs then t else AddDir(MakeDirs(t, Parent(p)), p)
  }

  function Insert(t: Tree, p: Path, data: seq<Byte>): Tree
    requires [] in t.dirs && p != []
  {
    AddFile(MakeDirs(t, Parent(p)), p, data)
  }

  ghost predicate NoFileAbove(t: Tree, p: Path) {
    forall k :: 0 <= k <= |p| ==> p[..k] !in t.files
  }

  lemma SplitPath(p: Path)
    requires p != []
    ensures Parent(p) + [Last(p)] == p && |Parent(p)| == |p| - 1
    ensures forall k :: 0 <= k < |p| ==> p[..k] == Parent(p)[..k]
  {
  }

  lemma SnocPath(p: Path, n: Name)
    ensures p + [n] != [] && Parent(p + [n]) == p && Last(p + [n]) == n
  {
  }

  lemma AddNodeWellFormed(t: Tree, t': Tree, p: Path)
    requires WellFormed(t) && p != [] && Parent(p) in t.dirs && !Exists(t, p)
    requires t' == AddDir(t, p) || exists data :: t' == AddFile(t, p, data)
    ensures WellFormed(t')
  {
    var d := Parent(p);
    SplitPath(p);
    forall q, i | q in t'.dirs && 0 <= i < |t'.dirs[q]|
      ensures Exists(t', q + [t'.dirs[q][i]])
    {
      if q in t.dirs && i < |t.dirs[q]| {
        assert Exists(t, q + [t.dirs[q][i]]);
      }
    }
    assert Last(p) !in t.dirs[d] by {
      forall i | 0 <= i < |t.dirs[d]|
        ensures t.dirs[d][i] != Last(p)
      {
        assert Exists(t, d + [t.dirs[d][i]]);
      }
    }
    assert p !in t.dirs;
    forall q | Exists(t', q) && q != []
      ensures Parent(q) in t'.dirs && Last(q) in t'.dirs[Parent(q)]
    {
      if q == p {
        assert t'.dirs[d][|t.dirs[d]|] == Last(p);
      } else {
        assert Exists(t, q);
        var i :| 0 <= i < |t.dirs[Parent(q)]| && t.dirs[Parent(q)][i] == Last(q);
        assert t'.dirs[Parent(q)][i] == Last(q);
      }
    }
  }

  /** `MakeDirs` adds exactly the missing ancestors, each name after the old ones. */
  lemma {:induction false} MakeDirsExact(t: Tree, p: Path)
    requires WellFormed(t) && NoFileAbove(t, p)
    ensures var r := MakeDirs(t, p);
            && WellFormed(r) && r.files == t.files
            && (forall q :: q in r.dirs <==> q in t.dirs || q <= p)
            && (forall q :: q in t.dirs ==> q in r.dirs && t.dirs[q] <= r.dirs[q])
    decreases |p|
  {
    if p in t.dirs {
      AncestorsExist(t, p);
    } else {
      SplitPath(p);
      assert p[..|p|] == p;
      forall k | 0 <= k <= |Parent(p)|
        ensures Parent(p)[..k] !in t.files
      {
        assert p[..k] == Parent(p)[..k];
      }
      MakeDirsExact(t, Parent(p));
      var r0 := MakeDirs(t, Parent(p));
      assert !(p <= Parent(p));
      AddNodeWellFormed(r0, AddDir(r0, p), p);
      forall q
        ensures q in AddDir(r0, p).dirs <==> q in t.dirs || q <= p
      {
        if q <= p && q != p {
          assert q == p[..|q|] == Parent(p)[..|q|];
        }
      }
    }
  }

  lemma {:induction false} AncestorsExist(t: Tree, p: Path)
    requires WellFormed(t) && Exists(t, p)
    ensures forall q :: q <= p && q != p ==> q in t.dirs
    decreases |p|
  {
    if p != [] {
      SplitPath(p);
      AncestorsExist(t, Parent(p));
      forall q | q <= p && q != p
        ensures q in t.dirs
      {
        assert q == p[..|q|] == Parent(p)[..|q|];
      }
    }
  }

  /** A path at which a file can be created: nothing is there and no ancestor is a file. */
  ghost predicate Fresh(t: Tree, p: Path) {
    p != [] && !Exists(t, p) && NoFileAbove(t, p)
  }

  /** Inserting at a fresh path adds that one file and the missing ancestors and leaves
      every other file, and the order of every directory's old names, alone. */
  lemma InsertExact(t: Tree, p: Path, data: seq<Byte>)
    requires WellFormed(t) && Fresh(t, p)
    ensures var r := Insert(t, p, data);
            && WellFormed(r) && r.files == t.files[p := data]
            && (forall q :: q in r.dirs <==> q in t.dirs || (q <= p && q != p))
            && (forall q :: q in t.dirs ==> q in r.dirs && t.dirs[q] <= r.dirs[q])
  {
    SplitPath(p);
    assert forall k :: 0 <= k <= |Parent(p)| ==> Parent(p)[..k] == p[..k];
    MakeDirsExact(t, Parent(p));
    var r0 := MakeDirs(t, Parent(p));
    assert !(p <= Parent(p));
    AddNodeWellFormed(r0, AddFile(r0, p, data), p);
    forall q
      ensures q in r0.dirs <==> q in t.dirs || (q <= p && q != p)
    {
      if q <= p && q != p {
        assert q == p[..|q|] == Parent(p)[..|q|];
      }
    }
  }

  /** The names of directory `q` after a node at `p` was added to them: where `p` goes
      through `q` by a new name, that name comes last. */
  function NextNames(names: seq<Name>, q: Path, p: Path): seq<Name> {
    if |q| < |p| && q <= p && p[|q|] !in names then names + [p[|q|]] else names
  }

  function NamesIn(t: Tree, q: Path): seq<Name> {
    if q in t.dirs then t.dirs[q] else []
  }

  lemma {:induction false} MakeDirsOrder(t: Tree, p: Path)
    requires WellFormed(t) && NoFileAbove(t, p)
    ensures forall q :: q in MakeDirs(t, p).dirs ==> MakeDirs(t, p).dirs[q] == NextNames(NamesIn(t, q), q, p)
    decreases |p|
  {
    if p in t.dirs {
      NamesThere(t, p);
    } else {
      SplitPath(p);
      assert p[..|p|] == p;
      NoFileAboveParent(t, p);
      MakeDirsExact(t, Parent(p));
      MakeDirsOrder(t, Parent(p));
      NodeOrder(t, MakeDirs(t, Parent(p)), AddDir(MakeDirs(t, Parent(p)), p), p);
    }
  }

  lemma NoFileAboveParent(t: Tree, p: Path)
    requires p != [] && NoFileAbove(t, p)
    ensures NoFileAbove(t, Parent(p))
  {
    SplitPath(p);
    forall k | 0 <= k <= |Parent(p)|
      ensures Parent(p)[..k] !in t.files
    {
      assert p[..k] == Parent(p)[..k];
    }
  }

  /** A path that is there goes through its directories by names they have. */
  lemma NamesThere(t: Tree, p: Path)
    requires WellFormed(t) && Exists(t, p)
    ensures forall q :: q in t.dirs ==> NextNames(t.dirs[q], q, p) == t.dirs[q]
  {
    AncestorsExist(t, p);
    forall q | q in t.dirs && |q| < |p| && q <= p
      ensures p[|q|] in t.dirs[q]
    {
      var r := p[..|q| + 1];
      assert r <= p && (r != p ==> r in t.dirs);
      assert Exists(t, r) && Parent(r) == q && Last(r) == p[|q|];
    }
  }

  /** Adding the node `p` below the directories made for its parent. */
  lemma NodeOrder(t: Tree, r0: Tree, r: Tree, p: Path)
    requires WellFormed(t) && p != [] && !Exists(t, p)
    requires Parent(p) in r0.dirs && forall q :: q in r0.dirs ==> r0.dirs[q] == NextNames(NamesIn(t, q), q, Parent(p))
    requires r.dirs == r0.dirs[Parent(p) := r0.dirs[Parent(p)] + [Last(p)]]
             || r.dirs == r0.dirs[Parent(p) := r0.dirs[Parent(p)] + [Last(p)]][p := []]
    ensures forall q :: q in r.dirs ==> r.dirs[q] == NextNames(NamesIn(t, q), q, p)
  {
    SplitPath(p);
    var d := Parent(p);
    forall i | 0 <= i < |NamesIn(t, d)|
      ensures NamesIn(t, d)[i] != Last(p)
    {
      assert Exists(t, d + [t.dirs[d][i]]);
    }
    forall q | q in r.dirs
      ensures r.dirs[q] == NextNames(NamesIn(t, q), q, p)
    {
      if q != p && q != d {
        if q <= p {
          assert q == p[..|q|] == d[..|q|] && |q| < |d| && p[|q|] == d[|q|];
        }
      }
    }
  }

  /** Inserting appends to every directory on the way the name it did not have. */
  lemma InsertOrder(t: Tree, p: Path, data: seq<Byte>)
    requires WellFormed(t) && Fresh(t, p)
    ensures forall q :: q in Insert(t, p, data).dirs ==> Insert(t, p, data).dirs[q] == NextNames(NamesIn(t, q), q, p)
  {
    NoFileAboveParent(t, p);
    MakeDirsOrder(t, Parent(p));
    MakeDirsExact(t, Parent(p));
    NodeOrder(t, MakeDirs(t, Parent(p)), Insert(t, p, data), p);
  }

  // ---- Where `copy_file` really puts a file: names match by prefix ----

  /** The path at which walking `c` down from directory `p` ends, when each component
      but the last follows the first stored name that is a prefix of it. */
  function Landing(t: Tree, p: Path, c: Path): Path
    requires c != []
    decreases |c|
  {
    if |c| == 1 || p !in t.dirs then p + c
    else
      var i := FirstPrefix(t.dirs[p], c[0]);
      if i == |t.dirs[p]| then p + c
      else Landing(t, p + [t.dirs[p][i]], c[1..])
  }

  /** Each component but the last finds nothing, or a name equal to it first. */
  predicate FollowsExactly(t: Tree, p: Path, c: Path)
    requires c != []
    decreases |c|
  {
    if |c| == 1 || p !in t.dirs then true
    else
      var i := FirstPrefix(t.dirs[p], c[0]);
      i == |t.dirs[p]| || (t.dirs[p][i] == c[0] && FollowsExactly(t, p + [c[0]], c[1..]))
  }

  lemma {:induction false} LandingExtends(t: Tree, p: Path, c: Path)
    requires c != []
    ensures p <= Landing(t, p, c) && |Landing(t, p, c)| == |p| + |c|
    decreases |c|
  {
    if |c| > 1 && p in t.dirs {
      var i := FirstPrefix(t.dirs[p], c[0]);
      if i < |t.dirs[p]| {
        LandingExtends(t, p + [t.dirs[p][i]], c[1..]);
      }
    }
  }

  /** The file lands at the path that was asked for exactly when the walk never meets,
      before the exact name, a stored name that is a proper prefix of a component. */
  lemma {:induction false} LandsWhereAskedIff(t: Tree, p: Path, c: Path)
    requires c != []
    ensures Landing(t, p, c) == p + c <==> FollowsExactly(t, p, c)
    decreases |c|
  {
    if |c| > 1 && p in t.dirs {
      var i := FirstPrefix(t.dirs[p], c[0]);
      if i < |t.dirs[p]| {
        var n := t.dirs[p][i];
        LandsWhereAskedIff(t, p + [n], c[1..]);
        LandingExtends(t, p + [n], c[1..]);
        assert p + [n] + c[1..] == p + ([n] + c[1..]);
        if n == c[0] {
          assert c == [n] + c[1..];
        } else {
          assert (p + [n])[|p|] == Landing(t, p, c)[|p|];
          assert (p + c)[|p|] == c[0];
        }
      }
    }
  }

  /** The failure is real: after `/a/x`, copying to `/ab/y` puts the file at `/a/y`. */
  lemma PrefixCapture(x: Byte, y: Byte, data: seq<Byte>)
    ensures var t := Insert(EMPTY, [[97], [x]], data);
            Landing(t, [], [[97, 98], [y]]) == [[97], [y]]
  {
    var p: Path := [[97], [x]];
    assert Parent(p) == [[97]] && Last(p) == [x];
    assert Parent([[97]]) == [] && Last([[97]]) == [97];
    var t1 := MakeDirs(EMPTY, [[97]]);
    assert MakeDirs(EMPTY, []) == EMPTY;
    assert t1 == AddDir(EMPTY, [[97]]);
    var t := AddFile(t1, p, data);
    assert t.dirs[[]] == [[97]];
    var c: Path := [[97, 98], [y]];
    assert [97] <= c[0];
    assert FirstPrefix(t.dirs[[]], c[0]) == 0;
    assert [] + [[97]] == [[97]] && c[1..] == [[y]];
    assert Landing(t, [[97]], [[y]]) == [[97]] + [[y]];
  }

  /** ... and a file can be walked into: after the file `/a`, copying to `/ab/y` walks into
      that file. */
  lemma FileCapture(y: Byte, data: seq<Byte>)
    ensures var t := Insert(EMPTY, [[97]], data);
            [[97]] in t.files && Landing(t, [], [[97, 98], [y]]) == [[97], [y]]
  {
    var p: Path := [[97]];
    assert Parent(p) == [] && Last(p) == [97];
    assert MakeDirs(EMPTY, []) == EMPTY;
    var t := AddFile(EMPTY, p, data);
    assert t.dirs[[]] == [[97]];
    var c: Path := [[97, 98], [y]];
    assert [97] <= c[0];
    assert FirstPrefix(t.dirs[[]], c[0]) == 0;
    assert [] + [[97]] == p && c[1..] == [[y]];
    assert Landing(t, p, [[y]]) == p + [[y]];
  }

  // ---- Whole runs ----

  datatype Job = Job(path: Path, data: seq<Byte>)

  /** One copy: the file goes where the walk lands. */
  function CopyInto(t: Tree, job: Job): (r: Tree)
    requires [] in t.dirs && job.path != []
    ensures [] in r.dirs
  {
    LandingExtends(t, [], job.path);
    MakeDirsKeepsRoot(t, Parent(Landing(t, [], job.path)));
    Insert(t, Landing(t, [], job.path), job.data)
  }

  /** The tree after copying every job in order into an empty volume. */
  function RunTree(jobs: seq<Job>): (t: Tree)
    requires forall i :: 0 <= i < |jobs| ==> jobs[i].path != []
    ensures [] in t.dirs
  {
    if jobs == [] then EMPTY else CopyInto(RunTree(jobs[..|jobs| - 1]), jobs[|jobs| - 1])
  }

  lemma MakeDirsKeepsRoot(t: Tree, p: Path)
    requires [] in t.dirs
    ensures [] in MakeDirs(t, p).dirs
  {
  }

  /** Neither path is the other or above it. */
  predicate Unrelated(q: Path, p: Path) {
    !(q <= p) && !(p <= q)
  }

  predicate FreshPaths(jobs: seq<Job>) {
    && (forall i :: 0 <= i < |jobs| ==> jobs[i].path != [])
    && (forall i, j :: 0 <= i < j < |jobs| ==> Unrelated(jobs[i].path, jobs[j].path))
  }

  /** The names that the jobs ask for in directory `q`, in the order in which they come up. */
  function Siblings(jobs: seq<Job>, q: Path): seq<Name> {
    if jobs == [] then []
    else NextNames(Siblings(jobs[..|jobs| - 1], q), q, jobs[|jobs| - 1].path)
  }

  /** At component `k` of `p`, the first earlier name that is a prefix of it is that name
      itself, or there is none. */
  predicate MeetsOwnName(jobs: seq<Job>, p: Path, k: nat)
    requires k < |p|
  {
    var s := Siblings(jobs, p[..k]);
    var i := FirstPrefix(s, p[k]);
    i == |s| || s[i] == p[k]
  }

  predicate MeetsOwnNames(jobs: seq<Job>, p: Path) {
    forall k :: 0 <= k < |p| - 1 ==> MeetsOwnName(jobs, p, k)
  }

  /** The order of the jobs lets each of them meet its own names only. */
  ghost predicate InOrder(jobs: seq<Job>) {
    forall j :: 0 <= j < |jobs| ==> MeetsOwnNames(jobs[..j], jobs[j].path)
  }

  /** Every job lands where it was asked to. */
  ghost predicate AllLand(jobs: seq<Job>)
    requires FreshPaths(jobs)
  {
    forall j :: 0 <= j < |jobs| ==> Landing(RunTree(jobs[..j]), [], jobs[j].path) == jobs[j].path
  }

  /** The tree holds exactly these files, and only the directories they need. */
  ghost predicate HoldsJobs(t: Tree, jobs: seq<Job>) {
    && WellFormed(t)
    && (forall i :: 0 <= i < |jobs| ==> jobs[i].path in t.files && t.files[jobs[i].path] == jobs[i].data)
    && (forall q :: q in t.files ==> IsJob(q, jobs))
    && (forall q :: q in t.dirs ==> q == [] || IsAboveJob(q, jobs))
  }

  ghost predicate IsJob(q: Path, jobs: seq<Job>) {
    exists i :: 0 <= i < |jobs| && q == jobs[i].path
  }

  ghost predicate IsAboveJob(q: Path, jobs: seq<Job>) {
    exists i :: 0 <= i < |jobs| && q <= jobs[i].path && q != jobs[i].path
  }

  lemma NodeOfJob(t: Tree, jobs: seq<Job>, q: Path) returns (i: nat)
    requires HoldsJobs(t, jobs) && Exists(t, q) && q != []
    ensures i < |jobs| && q <= jobs[i].path
  {
    if q in t.files {
      assert IsJob(q, jobs);
      i :| 0 <= i < |jobs| && q == jobs[i].path;
    } else {
      assert IsAboveJob(q, jobs);
      i :| 0 <= i < |jobs| && q <= jobs[i].path && q != jobs[i].path;
    }
  }

  /** The directories have the names the jobs asked for, in that order. */
  ghost predicate NamesAsAsked(t: Tree, jobs: seq<Job>) {
    forall q :: NamesIn(t, q) == Siblings(jobs, q)
  }

  /** The walk of `p` from component `k` on follows exactly just when `p` meets its own
      names from there on. */
  lemma {:induction false} FollowsIffMeets(t: Tree, jobs: seq<Job>, p: Path, k: nat)
    requires WellFormed(t) && NamesAsAsked(t, jobs) && k < |p|
    ensures FollowsExactly(t, p[..k], p[k..]) <==> forall m :: k <= m < |p| - 1 ==> MeetsOwnName(jobs, p, m)
    decreases |p| - k
  {
    hide WellFormed;
    var d, c := p[..k], p[k..];
    assert NamesIn(t, d) == Siblings(jobs, d);
    if |c| > 1 && d in t.dirs {
      var i := FirstPrefix(t.dirs[d], c[0]);
      assert c[0] == p[k] && p[..k + 1] == d + [c[0]] && p[k + 1..] == c[1..];
      if i == |t.dirs[d]| {
        NotBelow(t, d, c[0]);
        NothingToMeet(t, jobs, p, k + 1);
      } else if t.dirs[d][i] == c[0] {
        FollowsIffMeets(t, jobs, p, k + 1);
      } else {
        assert !MeetsOwnName(jobs, p, k);
      }
    } else if |c| > 1 {
      NothingToMeet(t, jobs, p, k);
    }
  }

  lemma NotBelow(t: Tree, d: Path, n: Name)
    requires WellFormed(t) && d in t.dirs && FirstPrefix(t.dirs[d], n) == |t.dirs[d]|
    ensures d + [n] !in t.dirs
  {
    SnocPath(d, n);
    assert n <= n;
    assert n !in t.dirs[d];
  }

  /** Below a directory that is not there, no name comes up. */
  lemma {:induction false} NothingToMeet(t: Tree, jobs: seq<Job>, p: Path, k: nat)
    requires WellFormed(t) && NamesAsAsked(t, jobs) && k < |p| && p[..k] !in t.dirs
    ensures forall m :: k <= m < |p| - 1 ==> MeetsOwnName(jobs, p, m)
    decreases |p| - k
  {
    assert NamesIn(t, p[..k]) == Siblings(jobs, p[..k]) == [];
    if k < |p| - 1 {
      assert p[..k + 1] == p[..k] + [p[k]];
      SnocPath(p[..k], p[k]);
      assert p[..k + 1] !in t.dirs by {
        if p[..k + 1] in t.dirs {
          assert Exists(t, p[..k + 1]);
        }
      }
      NothingToMeet(t, jobs, p, k + 1);
      assert MeetsOwnName(jobs, p, k);
    }
  }

  lemma UnrelatedIsFresh(t: Tree, jobs: seq<Job>, p: Path)
    requires HoldsJobs(t, jobs) && p != [] && forall i :: 0 <= i < |jobs| ==> Unrelated(jobs[i].path, p)
    ensures Fresh(t, p)
  {
    forall k | 0 <= k <= |p|
      ensures p[..k] !in t.files
    {
      forall i | 0 <= i < |jobs|
        ensures jobs[i].path != p[..k]
      {
        assert Unrelated(jobs[i].path, p);
      }
    }
    if Exists(t, p) {
      var i := NodeOfJob(t, jobs, p);
      assert false;
    }
  }

  lemma FreshPrefix(jobs: seq<Job>, k: nat)
    requires FreshPaths(jobs) && k < |jobs|
    ensures FreshPaths(jobs[..k]) && jobs[k].path != []
    ensures forall i :: 0 <= i < k ==> Unrelated(jobs[..k][i].path, jobs[k].path)
  {
    hide Unrelated;
  }

  lemma EmptyHolds()
    ensures HoldsJobs(EMPTY, []) && WellFormed(EMPTY) && NamesAsAsked(EMPTY, [])
  {
  }

  /** While every job has landed where it was asked to, the tree holds exactly the copied
      files at their paths, with their bytes, and the names in the order asked for. */
  lemma {:induction false} LandedRunHolds(jobs: seq<Job>)
    requires FreshPaths(jobs) && AllLand(jobs)
    ensures HoldsJobs(RunTree(jobs), jobs) && NamesAsAsked(RunTree(jobs), jobs)
    decreases |jobs|
  {
    hide Unrelated, CopyInto, HoldsJobs, Landing, Fresh, NamesAsAsked, WellFormed;
    if jobs == [] {
      EmptyHolds();
    } else {
      var n := |jobs| - 1;
      FreshPrefix(jobs, n);
      LandedPrefix(jobs, n);
      LandedRunHolds(jobs[..n]);
      OneMoreJob(RunTree(jobs[..n]), jobs[..n], jobs[n]);
      assert jobs[..n] + [jobs[n]] == jobs;
    }
  }

  lemma LandedPrefix(jobs: seq<Job>, k: nat)
    requires FreshPaths(jobs) && k <= |jobs| && FreshPaths(jobs[..k])
    requires forall j :: 0 <= j < k ==> Landing(RunTree(jobs[..j]), [], jobs[j].path) == jobs[j].path
    ensures AllLand(jobs[..k])
  {
    hide Landing, RunTree;
    forall j | 0 <= j < k
      ensures Landing(RunTree(jobs[..k][..j]), [], jobs[..k][j].path) == jobs[..k][j].path
    {
      assert jobs[..k][..j] == jobs[..j];
    }
  }

  lemma OneMoreJob(t: Tree, before: seq<Job>, job: Job)
    requires HoldsJobs(t, before) && NamesAsAsked(t, before) && job.path != [] && Landing(t, [], job.path) == job.path
    requires forall i :: 0 <= i < |before| ==> Unrelated(before[i].path, job.path)
    ensures HoldsJobs(CopyInto(t, job), before + [job]) && NamesAsAsked(CopyInto(t, job), before + [job])
  {
    hide Unrelated, Insert, Landing, Siblings, NextNames;
    var p := job.path;
    UnrelatedIsFresh(t, before, p);
    InsertExact(t, p, job.data);
    InsertOrder(t, p, job.data);
    InsertedJob(t, before, job);
    forall q
      ensures NamesIn(CopyInto(t, job), q) == Siblings(before + [job], q)
    {
      SiblingsSnoc(before, job, q);
      InsertNames(t, p, job.data, q);
    }
  }

  lemma InsertNames(t: Tree, p: Path, data: seq<Byte>, q: Path)
    requires WellFormed(t) && Fresh(t, p)
    ensures NamesIn(Insert(t, p, data), q) == NextNames(NamesIn(t, q), q, p)
  {
    InsertExact(t, p, data);
    InsertOrder(t, p, data);
    if q !in Insert(t, p, data).dirs {
      assert !(|q| < |p| && q <= p);
    }
  }

  lemma SiblingsSnoc(jobs: seq<Job>, job: Job, q: Path)
    ensures Siblings(jobs + [job], q) == NextNames(Siblings(jobs, q), q, job.path)
  {
    assert (jobs + [job])[..|jobs|] == jobs;
  }

  /** One job of a run that went right so far. */
  lemma LandsIffMeets(jobs: seq<Job>, k: nat)
    requires FreshPaths(jobs) && k < |jobs| && AllLand(jobs[..k]) && FreshPaths(jobs[..k])
    ensures Landing(RunTree(jobs[..k]), [], jobs[k].path) == jobs[k].path <==> MeetsOwnNames(jobs[..k], jobs[k].path)
    ensures Fresh(RunTree(jobs[..k]), jobs[k].path)
  {
    hide Landing, FollowsExactly, RunTree, Siblings, AllLand, Unrelated, NamesAsAsked, MeetsOwnName;
    var t, p := RunTree(jobs[..k]), jobs[k].path;
    FreshPrefix(jobs, k);
    LandedRunHolds(jobs[..k]);
    UnrelatedIsFresh(t, jobs[..k], p);
    assert p[..0] == [] && p[0..] == p && [] + p == p;
    LandsWhereAskedIff(t, [], p);
    FollowsIffMeets(t, jobs[..k], p, 0);
  }

  /** The main result about whole runs: of jobs with fresh paths, all land where they were
      asked to if and only if, for every job and every component but its last, the first
      earlier name in that directory that is a prefix of the component is the component
      itself, or there is none. */
  lemma RunLandsIff(jobs: seq<Job>)
    requires FreshPaths(jobs)
    ensures AllLand(jobs) <==> InOrder(jobs)
  {
    hide MeetsOwnNames, Landing, RunTree, Unrelated, FreshPaths;
    if AllLand(jobs) {
      forall j | 0 <= j < |jobs|
        ensures MeetsOwnNames(jobs[..j], jobs[j].path)
      {
        FreshPrefix(jobs, j);
        LandedPrefix(jobs, j);
        LandsIffMeets(jobs, j);
      }
    }
    if InOrder(jobs) {
      InOrderLands(jobs, |jobs|);
    }
  }

  lemma {:induction false} InOrderLands(jobs: seq<Job>, n: nat)
    requires FreshPaths(jobs) && InOrder(jobs) && n <= |jobs|
    ensures forall j :: 0 <= j < n ==> Landing(RunTree(jobs[..j]), [], jobs[j].path) == jobs[j].path
    decreases n
  {
    hide MeetsOwnNames, Landing, RunTree, Unrelated, FreshPaths;
    if n > 0 {
      InOrderLands(jobs, n - 1);
      FreshPrefix(jobs, n - 1);
      LandedPrefix(jobs, n - 1);
      LandsIffMeets(jobs, n - 1);
    }
  }

  /** ... and then the tree holds exactly the copied files, at their paths. */
  lemma RunHoldsExactlyTheJobs(jobs: seq<Job>)
    requires FreshPaths(jobs) && InOrder(jobs)
    ensures HoldsJobs(RunTree(jobs), jobs) && NamesAsAsked(RunTree(jobs), jobs)
    ensures forall k :: 0 <= k < |jobs| ==> Fresh(RunTree(jobs[..k]), Landing(RunTree(jobs[..k]), [], jobs[k].path))
  {
    hide MeetsOwnNames, Landing, RunTree, Unrelated, HoldsJobs, NamesAsAsked, Fresh;
    RunLandsIff(jobs);
    LandedRunHolds(jobs);
    forall k | 0 <= k < |jobs|
      ensures Fresh(RunTree(jobs[..k]), Landing(RunTree(jobs[..k]), [], jobs[k].path))
    {
      FreshPrefix(jobs, k);
      LandedPrefix(jobs, k);
      LandsIffMeets(jobs, k);
    }
  }

  /** A run is in order when, in every directory, no name is a proper prefix of another. */
  lemma PrefixFreeInOrder(jobs: seq<Job>)
    requires forall i, j, k: nat :: 0 <= i < j < |jobs| && PartAt(jobs[i].path, jobs[j].path, k) ==>
               !(jobs[i].path[k] <= jobs[j].path[k])
    ensures InOrder(jobs)
  {
    hide MeetsOwnName;
    forall j, k | 0 <= j < |jobs| && 0 <= k < |jobs[j].path| - 1
      ensures MeetsOwnName(jobs[..j], jobs[j].path, k)
    {
      PrefixFreeMeets(jobs, j, k);
    }
  }

  /** After `/ab/z`, the shorter name of `/a/x` does no harm to `/ab/y`. */
  lemma ShorterNameLater(x: Byte, y: Byte, z: Byte, data: seq<Byte>)
    ensures var jobs := [Job([[97, 98], [z]], data), Job([[97], [x]], data), Job([[97, 98], [y]], data)];
            MeetsOwnNames(jobs[..2], jobs[2].path)
  {
    var jobs := [Job([[97, 98], [z]], data), Job([[97], [x]], data), Job([[97, 98], [y]], data)];
    var p := jobs[2].path;
    assert Siblings([], []) == [];
    hide Siblings;
    SiblingsSnoc([], jobs[0], []);
    SiblingsSnoc([jobs[0]], jobs[1], []);
    assert jobs[..2] == [jobs[0]] + [jobs[1]] && [] + [jobs[0]] == [jobs[0]];
    assert Siblings(jobs[..2], []) == [[97, 98], [97]];
    assert p[..0] == [] && MeetsOwnName(jobs[..2], p, 0);
  }

  /** The paths part at component `k`. */
  predicate PartAt(q: Path, p: Path, k: nat) {
    k < |q| && k < |p| && q[..k] == p[..k] && q[k] != p[k]
  }

  lemma PrefixFreeMeets(jobs: seq<Job>, j: nat, k: nat)
    requires forall i, j, k: nat :: 0 <= i < j < |jobs| && PartAt(jobs[i].path, jobs[j].path, k) ==>
               !(jobs[i].path[k] <= jobs[j].path[k])
    requires j < |jobs| && k < |jobs[j].path|
    ensures MeetsOwnName(jobs[..j], jobs[j].path, k)
  {
    var p := jobs[j].path;
    var s := Siblings(jobs[..j], p[..k]);
    var i := FirstPrefix(s, p[k]);
    if i < |s| && s[i] != p[k] {
      var m := SiblingOf(jobs[..j], p[..k], i);
      assert false;
    }
  }

  lemma {:induction false} SiblingOf(jobs: seq<Job>, q: Path, i: nat) returns (m: nat)
    requires i < |Siblings(jobs, q)|
    ensures m < |jobs| && |q| < |jobs[m].path| && q <= jobs[m].path && jobs[m].path[|q|] == Siblings(jobs, q)[i]
    decreases |jobs|
  {
    var n := |jobs| - 1;
    if i < |Siblings(jobs[..n], q)| {
      m := SiblingOf(jobs[..n], q, i);
    } else {
      m := n;
    }
  }

  lemma InsertedJob(t: Tree, before: seq<Job>, job: Job)
    requires HoldsJobs(t, before) && Fresh(t, job.path)
    requires var r := Insert(t, job.path, job.data);
             && WellFormed(r) && r.files == t.files[job.path := job.data]
             && (forall q :: q in r.dirs <==> q in t.dirs || (q <= job.path && q != job.path))
    ensures HoldsJobs(Insert(t, job.path, job.data), before + [job])
  {
    hide Insert, NoFileAbove;
    var jobs, r := before + [job], Insert(t, job.path, job.data);
    assert jobs[|before|] == job;
    forall i | 0 <= i < |jobs|
      ensures jobs[i].path in r.files && r.files[jobs[i].path] == jobs[i].data
    {
      if i < |before| {
        assert jobs[i] == before[i];
      }
    }
    forall q | q in r.dirs && q != []
      ensures IsAboveJob(q, jobs)
    {
      if q in t.dirs {
        assert IsAboveJob(q, before);
        var i :| 0 <= i < |before| && q <= before[i].path && q != before[i].path;
        assert jobs[i] == before[i];
      }
    }
    forall q | q in r.files
      ensures IsJob(q, jobs)
    {
      if q != job.path {
        assert IsJob(q, before);
        var i :| 0 <= i < |before| && q == before[i].path;
        assert jobs[i] == before[i];
      }
    }
  }
}
