/** The volume writer, `tools/mkvolume.c`: making a volume and copying files by path. */
module MfsCopy {
  import opened Bytes
  import opened MfsFormat
  import opened MfsVolume
  import opened MfsDir
  import opened MfsTree
  import opened MfsBuilder

  // ---- Paths ----

  /** The components of a path: the parts between slashes. */
  function Split(s: seq<Byte>): (r: Path)
    ensures r != []
    decreases |s|
  {
    var i := FindSlash(s);
    if i == |s| then [s] else [s[..i]] + Split(s[i + 1..])
  }

  function FindSlash(s: seq<Byte>): (i: nat)
    ensures i <= |s| && (i < |s| ==> s[i] == SLASH)
    ensures forall j :: 0 <= j < i ==> s[j] != SLASH
  {
    if s == [] || s[0] == SLASH then 0 else 1 + FindSlash(s[1..])
  }

  /** A single leading slash is skipped. */
  function Strip(path: seq<Byte>): seq<Byte> {
    if path != [] && path[0] == SLASH then path[1..] else path
  }

  /** The components with slashes between them. */
  function Join(p: Path): seq<Byte>
    requires p != []
  {
    if |p| == 1 then p[0] else p[0] + [SLASH] + Join(p[1..])
  }

  /** Names between slashes hold none. */
  predicate PathOk(p: Path) {
    p != [] && forall n :: n in p ==> SLASH !in n
  }

  lemma {:induction false} SplitJoin(p: Path)
    requires PathOk(p)
    ensures Split(Join(p)) == p
  {
    var n := p[0];
    assert n in p;
    if |p| == 1 {
      SplitLast(n);
    } else {
      SplitJoin(p[1..]);
      var s := Join(p);
      assert s[..|n|] == n && s[|n| + 1..] == Join(p[1..]);
      assert forall j :: 0 <= j < |n| ==> s[j] == n[j];
      SplitAtSlash(s, |n|);
    }
  }

  /** A path with a slash in front always means its components, one without as long as it
      does not itself begin with an empty one. */
  lemma PathsMeant(p: Path, data: seq<Byte>)
    requires PathOk(p)
    ensures JobOf(Copy([SLASH] + Join(p), data)) == Job(p, data)
    ensures JobOf(Copy(Join(p), data)).path == p <==> p[0] != [] || |p| == 1
  {
    hide Split;
    var s := Join(p);
    SplitJoin(p);
    assert ([SLASH] + s)[1..] == s;
    assert p[0] in p;
    if p[0] != [] {
      assert s[0] == p[0][0];
    } else if |p| > 1 {
      SplitJoin(p[1..]);
      assert s[1..] == Join(p[1..]);
    }
  }

  lemma SplitAtSlash(s: seq<Byte>, i: nat)
    requires i < |s| && s[i] == SLASH && forall j :: 0 <= j < i ==> s[j] != SLASH
    ensures Split(s) == [s[..i]] + Split(s[i + 1..])
  {
    assert FindSlash(s) == i;
  }

  lemma SplitLast(s: seq<Byte>)
    requires SLASH !in s
    ensures Split(s) == [s]
  {
    assert FindSlash(s) == |s|;
  }

  // ---- The meaning of one component of the walk ----

  function StepPath(t: Tree, p: Path, n: Name): Path
    requires p in t.dirs
  {
    var i := FirstPrefix(t.dirs[p], n);
    if i < |t.dirs[p]| then p + [t.dirs[p][i]] else p + [n]
  }

  function StepTree(t: Tree, p: Path, n: Name): Tree
    requires p in t.dirs
  {
    SnocPath(p, n);
    if FirstPrefix(t.dirs[p], n) < |t.dirs[p]| then t else AddDir(t, p + [n])
  }

  function DirSize(names: seq<Name>): nat {
    if names == [] then 0 else DirSize(names[..|names| - 1]) + RECORD_SIZE + |names[|names| - 1]|
  }

  lemma {:induction false} DirSizeIs(es: seq<Entry>)
    ensures |Encode(es)| == DirSize(Names(es))
  {
    if es != [] {
      var n := |es| - 1;
      DirSizeIs(es[..n]);
      assert Names(es)[..n] == Names(es[..n]);
    }
  }

  /** Pages taken by creating a missing directory and its record. */
  function StepCost(t: Tree, p: Path, n: Name): nat
    requires p in t.dirs
  {
    if FirstPrefix(t.dirs[p], n) < |t.dirs[p]| then 0
    else 1 + WriteCost(DirSize(t.dirs[p]), RECORD_SIZE + |n|)
  }

  predicate RecordFits(t: Tree, p: Path, n: Name)
    requires p in t.dirs
  {
    DirSize(t.dirs[p]) + RECORD_SIZE + |n| <= 4096 * MAX_PAGES
  }

  predicate StepFits(t: Tree, p: Path, n: Name)
    requires p in t.dirs
  {
    FirstPrefix(t.dirs[p], n) < |t.dirs[p]| || RecordFits(t, p, n)
  }

  /** Bytes that the node at `p` holds on the volume. */
  function NodeSize(t: Tree, p: Path): nat {
    if p in t.dirs then DirSize(t.dirs[p]) else if p in t.files then |t.files[p]| else 0
  }

  /** Pages that copying `len` bytes to `c`, from directory `p` on, takes in all. */
  function CopyCost(t: Tree, p: Path, c: Path, len: nat): nat
    requires c != []
    decreases |c|
  {
    if |c| == 1 then 1 + WriteCost(0, len) + WriteCost(NodeSize(t, p), RECORD_SIZE + |c[0]|)
    else if p !in t.dirs then 0
    else StepCost(t, p, c[0]) + CopyCost(StepTree(t, p, c[0]), StepPath(t, p, c[0]), c[1..], len)
  }

  /** No file or directory on the way grows beyond what its pointers can reach. */
  predicate CopyFits(t: Tree, p: Path, c: Path, len: nat)
    requires c != []
    decreases |c|
  {
    if |c| == 1 then len <= 4096 * MAX_PAGES && NodeSize(t, p) + RECORD_SIZE + |c[0]| <= 4096 * MAX_PAGES
    else if p !in t.dirs then false
    else StepFits(t, p, c[0]) && CopyFits(StepTree(t, p, c[0]), StepPath(t, p, c[0]), c[1..], len)
  }

  /** The walk from `t0` has reached the node `p` of `t`: nothing was created yet, or the
      directory `p` was just created and is empty. */
  ghost predicate Walking(t0: Tree, t: Tree, p: Path) {
    && [] in t0.dirs && WellFormed(t) && t.files == t0.files
    && ((t == t0 && Exists(t, p))
        || (t == MakeDirs(t0, p) && p in t.dirs && t.dirs[p] == [] && p !in t0.dirs && p !in t0.files))
  }

  /** No component but the last is searched for inside a file. */
  ghost predicate InDirs(t: Tree, target: Path) {
    forall k :: 0 <= k <= |target| - 2 ==> target[..k] !in t.files
  }

  lemma ChildExists(t: Tree, p: Path, i: nat)
    requires WellFormed(t) && p in t.dirs && i < |t.dirs[p]|
    ensures Exists(t, p + [t.dirs[p][i]])
  {
  }

  /** A name no stored name is a prefix of is not in the directory. */
  lemma NotFoundIsFree(t: Tree, p: Path, n: Name)
    requires WellFormed(t) && p in t.dirs && FirstPrefix(t.dirs[p], n) == |t.dirs[p]|
    ensures !Exists(t, p + [n])
  {
    SnocPath(p, n);
    assert n <= n;
    assert n !in t.dirs[p];
  }

  lemma ChildNeedsParent(t: Tree, p: Path, n: Name)
    requires WellFormed(t) && p !in t.dirs
    ensures p + [n] !in t.dirs
  {
    SnocPath(p, n);
    var there := Exists(t, p + [n]);
  }

  lemma WalkStep(t0: Tree, t: Tree, p: Path, c: Path)
    requires WellFormed(t0) && Walking(t0, t, p) && p in t.dirs && |c| > 1 && InDirs(t0, Landing(t, p, c))
    ensures var t', p' := StepTree(t, p, c[0]), StepPath(t, p, c[0]);
            && Walking(t0, t', p') && Landing(t', p', c[1..]) == Landing(t, p, c)
            && (|c| > 2 ==> p' in t'.dirs)
    ensures FirstPrefix(t.dirs[p], c[0]) == |t.dirs[p]| ==> !Exists(t, p + [c[0]])
  {
    hide Walking, WellFormed, InDirs, MakeDirs, AddDir, Landing, StepTree, StepPath, FirstPrefix;
    if FirstPrefix(t.dirs[p], c[0]) < |t.dirs[p]| {
      FoundStep(t0, t, p, c);
    } else {
      NewDirStep(t0, t, p, c[0]);
      NewDirLanding(StepTree(t, p, c[0]), t, p, c);
    }
  }

  lemma NewDirLanding(t': Tree, t: Tree, p: Path, c: Path)
    requires |c| > 1 && p in t.dirs && FirstPrefix(t.dirs[p], c[0]) == |t.dirs[p]|
    requires p + [c[0]] in t'.dirs && t'.dirs[p + [c[0]]] == []
    ensures Landing(t', p + [c[0]], c[1..]) == Landing(t, p, c)
  {
    hide Landing, FirstPrefix;
    EmptyLanding(t', p + [c[0]], c[1..]);
    NotFoundLanding(t, p, c);
    PathAssoc(p, c);
  }

  lemma PathAssoc(p: Path, c: Path)
    requires c != []
    ensures p + [c[0]] + c[1..] == p + c
  {
  }

  lemma NotFoundLanding(t: Tree, p: Path, c: Path)
    requires |c| > 1 && p in t.dirs && FirstPrefix(t.dirs[p], c[0]) == |t.dirs[p]|
    ensures Landing(t, p, c) == p + c
  {
    hide FirstPrefix;
  }

  lemma EmptyLanding(t: Tree, p: Path, c: Path)
    requires p in t.dirs && t.dirs[p] == [] && c != []
    ensures Landing(t, p, c) == p + c
  {
  }

  lemma FoundStep(t0: Tree, t: Tree, p: Path, c: Path)
    requires WellFormed(t0) && Walking(t0, t, p) && p in t.dirs && |c| > 1 && InDirs(t0, Landing(t, p, c))
    requires FirstPrefix(t.dirs[p], c[0]) < |t.dirs[p]|
    ensures t == t0 == StepTree(t, p, c[0]) && Walking(t0, t, StepPath(t, p, c[0]))
    ensures Landing(t, StepPath(t, p, c[0]), c[1..]) == Landing(t, p, c)
    ensures |c| > 2 ==> StepPath(t, p, c[0]) in t.dirs
  {
    hide WellFormed, MakeDirs;
    var p' := StepPath(t, p, c[0]);
    ChildExists(t, p, FirstPrefix(t.dirs[p], c[0]));
    LandingExtends(t, p', c[1..]);
    assert Landing(t, p, c) == Landing(t, p', c[1..]);
    assert Landing(t, p, c)[..|p'|] == p';
  }

  lemma NewDirStep(t0: Tree, t: Tree, p: Path, n: Name)
    requires WellFormed(t0) && Walking(t0, t, p) && p in t.dirs && FirstPrefix(t.dirs[p], n) == |t.dirs[p]|
    ensures !Exists(t, p + [n])
    ensures StepTree(t, p, n) == MakeDirs(t0, p + [n]) && StepPath(t, p, n) == p + [n]
    ensures var t' := StepTree(t, p, n); Walking(t0, t', p + [n]) && p + [n] in t'.dirs && t'.dirs[p + [n]] == []
  {
    hide WellFormed, FirstPrefix;
    var q := p + [n];
    SnocPath(p, n);
    NotFoundIsFree(t, p, n);
    AddNodeWellFormed(t, AddDir(t, q), q);
    if t != t0 {
      ChildNeedsParent(t0, p, n);
    }
    assert MakeDirs(t0, p) == t;
    assert MakeDirs(t0, q) == AddDir(t, q);
  }

  /** Where a copy leaves the tree before it places its file below the node `d`. */
  function DirsMade(t: Tree, d: Path): Tree
    requires [] in t.dirs
  {
    if d in t.files then t else MakeDirs(t, d)
  }

  lemma WalkEnd(t0: Tree, t: Tree, p: Path, n: Name, data: seq<Byte>)
    requires WellFormed(t0) && Walking(t0, t, p)
    ensures p + [n] != [] && Parent(p + [n]) == p && Last(p + [n]) == n
    ensures t == DirsMade(t0, p) && t.files == t0.files && Exists(t, p) && (p in t.files <==> p in t0.files)
    ensures Fresh(t0, p + [n]) ==>
              p in t.dirs && !Exists(t, p + [n]) && AddFile(t, p + [n], data) == Insert(t0, p + [n], data)
  {
    SnocPath(p, n);
    if Fresh(t0, p + [n]) {
      assert (p + [n])[..|p|] == p;
    }
  }

  // ---- The writer ----

  /** The volume is sound and holds the tree of `l`; its metadata page describes it, and the
      headers say what is a directory and what a file. */
  ghost predicate Valid(volume: Volume, l: Layout)
    reads volume, volume.pages
  {
    && volume.Ok() && volume.AllTight()
    && Holds(volume.files, volume.root, l)
    && MetadataOk(volume.pages[..], volume.root)
    && StampsOk(volume.pages[..], l, volume.now)
  }

  /** "Meow", version 1, the number of pages, and the root. */
  ghost predicate MetadataOk(img: Image, root: nat) {
    && 63 < |img| && img[63][..4] == [77, 101, 111, 119] && FromLe(img[63][4..8]) == 0x100_0000
    && Field(img[63], 8) == |img| && Field(img[63], 16) == root
  }

  /** Directories and files of the tree have the mode of their kind, and times `now`. */
  ghost predicate StampsOk(img: Image, l: Layout, now: nat) {
    forall p :: p in l.node ==> Stamped(At(img, l.node[p]), if p in l.tree.files then 0x0_01a4 else 0x1_01ed, now)
  }

  lemma NodeHeld(files: Files, root: nat, l: Layout, p: Path)
    requires Holds(files, root, l) && p in l.node
    ensures l.node[p] in files
  {
    hide ContentOf, WellFormed;
  }

  lemma StampsStay(img: Image, img': Image, files: Files, root: nat, l: Layout, now: nat)
    requires Holds(files, root, l) && StampsSame(img, img', files) && StampsOk(img, l, now)
    ensures StampsOk(img', l, now)
  {
    hide Stamped, SameStamp, Holds;
    forall p | p in l.node
      ensures Stamped(At(img', l.node[p]), if p in l.tree.files then 0x0_01a4 else 0x1_01ed, now)
    {
      NodeHeld(files, root, l, p);
      StillStamped(At(img, l.node[p]), At(img', l.node[p]), if p in l.tree.files then 0x0_01a4 else 0x1_01ed, now);
    }
  }

  lemma StampsAdded(img: Image, img': Image, files: Files, l: Layout, t': Tree, p: Path, n: nat, now: nat)
    requires StampsOk(img', l, now) && p !in l.node && n in files && StampsSame(img, img', files)
    requires p != [] && Parent(p) in l.tree.dirs && WellFormed(l.tree) && NodesOk(l)
    requires t' == AddDir(l.tree, p) || exists data :: t' == AddFile(l.tree, p, data)
    requires Stamped(At(img, n), if p in t'.files then 0x0_01a4 else 0x1_01ed, now)
    ensures StampsOk(img', Layout(t', l.node[p := n]), now)
  {
    hide Stamped, SameStamp, WellFormed;
    StillStamped(At(img, n), At(img', n), if p in t'.files then 0x0_01a4 else 0x1_01ed, now);
  }

  /** What a caller of the functions below may still rely on when the volume is sound. */
  lemma DirFacts(volume: Volume, l: Layout, p: Path)
    requires Valid(volume, l) && p in l.tree.dirs
    ensures WellFormed(l.tree) && NodesOk(l)
    ensures p in l.node && l.node[p] in volume.files && EntriesOk(Entries(l, p))
    ensures volume.files[l.node[p]] == Encode(Entries(l, p)) && Names(Entries(l, p)) == l.tree.dirs[p]
    ensures |volume.files[l.node[p]]| == DirSize(l.tree.dirs[p]) <= 4096 * MAX_PAGES
  {
    hide VolumeOk, Encode, Tight;
    HeldEntriesOk(volume.files, volume.root, l, p);
    DirSizeIs(Entries(l, p));
    SizeField(volume.pages[..], volume.nextInode, volume.owner, volume.files, l.node[p]);
  }

  /** The first child whose name is a prefix of `n` is the one `find_file_dir` returns. */
  lemma FoundChild(files: Files, root: nat, l: Layout, p: Path, n: Name)
    requires Holds(files, root, l) && p in l.tree.dirs
    ensures var i := FirstPrefix(l.tree.dirs[p], n); var r := FoundInode(Entries(l, p), n);
            if i < |l.tree.dirs[p]| then StepPath(l.tree, p, n) in l.node && r == l.node[StepPath(l.tree, p, n)] != 0
            else r == 0
  {
    hide ContentOf, FirstPrefix;
    var i := FirstPrefix(l.tree.dirs[p], n);
    if i < |l.tree.dirs[p]| {
      ChildExists(l.tree, p, i);
    }
  }

  lemma FreshInode(volume: Volume, inode: nat)
    requires volume.Ok() && inode in volume.files
    ensures 0 < inode < U64_LIMIT
  {
    assert Allocated(inode, volume.nextInode);
  }

  /** What was there keeps its inode. */
  ghost predicate NodesKept(l: Layout, l': Layout) {
    forall q :: q in l.node ==> q in l'.node && l'.node[q] == l.node[q]
  }

  /** The body of the walk in `copy_file`: follow a component, creating the directory
      when no stored name is a prefix of it. */
  method EnterDir(volume: Volume, dirInode: nat, name: Name, ghost l: Layout, ghost p: Path)
      returns (ok: bool, inode: nat, ghost l': Layout)
    requires Valid(volume, l) && p in l.tree.dirs && p in l.node && l.node[p] == dirInode
    requires |name| <= NAME_MAX && volume.Room(StepCost(l.tree, p, name))
    requires FirstPrefix(l.tree.dirs[p], name) == |l.tree.dirs[p]| ==> !Exists(l.tree, p + [name])
    modifies volume`nextInode, volume`owner, volume`files, volume.pages
    ensures ok <==> StepFits(l.tree, p, name)
    ensures ok ==> Valid(volume, l') && l'.tree == StepTree(l.tree, p, name)
    ensures ok ==> StepPath(l.tree, p, name) in l'.node && l'.node[StepPath(l.tree, p, name)] == inode
    ensures ok ==> NodesKept(l, l')
    ensures ok ==> volume.nextInode == NextInodes(old(volume.nextInode), StepCost(l.tree, p, name))
  {
    hide VolumeOk, Tight, Holds, Encode, NextInodes, FirstPrefix, Field, WriteCost, AddDir, DirSize, FoundInode,
         StampsOk, MetadataOk;
    l' := l;
    DirFacts(volume, l, p);
    FoundChild(volume.files, volume.root, l, p, name);
    inode := FindFileDir(volume, dirInode, name, Entries(l, p));
    if inode == 0 {
      ok, inode, l' := NewDir(volume, dirInode, name, l, p);
    } else {
      assert NextInodes(volume.nextInode, 0) == volume.nextInode by { ZeroCost(0, volume.nextInode); }
      ok := true;
    }
  }

  method NewDir(volume: Volume, dirInode: nat, name: Name, ghost l: Layout, ghost p: Path)
      returns (ok: bool, inode: nat, ghost l': Layout)
    requires Valid(volume, l) && p in l.tree.dirs && p in l.node && l.node[p] == dirInode
    requires |name| <= NAME_MAX && !Exists(l.tree, p + [name])
    requires volume.Room(1 + WriteCost(DirSize(l.tree.dirs[p]), RECORD_SIZE + |name|))
    modifies volume`nextInode, volume`owner, volume`files, volume.pages
    ensures ok <==> RecordFits(l.tree, p, name)
    ensures p + [name] != [] && Parent(p + [name]) == p
    ensures ok ==> Valid(volume, l') && l'.tree == AddDir(l.tree, p + [name])
    ensures ok ==> p + [name] in l'.node && l'.node[p + [name]] == inode
    ensures ok ==> NodesKept(l, l')
    ensures ok ==> volume.nextInode ==
                   NextInodes(old(volume.nextInode), 1 + WriteCost(DirSize(l.tree.dirs[p]), RECORD_SIZE + |name|))
  {
    hide VolumeOk, Tight, Holds, Encode, EncodeEntry, NextInodes, Field, WriteCost, AddDir, DirSize, StampsSame,
         Stamped, StampsOk, MetadataOk;
    ghost var files0, root, img0 := volume.files, volume.root, volume.pages[..];
    ghost var cost := WriteCost(DirSize(l.tree.dirs[p]), RECORD_SIZE + |name|);
    SnocPath(p, name);
    DirFacts(volume, l, p);
    NextInodesAdd(volume.nextInode, 1, cost);
    OneAlloc(volume.nextInode);
    inode := volume.CreateFileRaw(MODE_DIR);
    ghost var img1, files1 := volume.pages[..], volume.files;
    FreshInode(volume, inode);
    ok := AppendDir(volume, dirInode, name, inode);
    if ok {
      AddNodeHolds(files0, root, l, AddDir(l.tree, p + [name]), p + [name], inode, []);
      l' := Layout(AddDir(l.tree, p + [name]), l.node[p + [name] := inode]);
      NoFileThere(l.tree, p + [name]);
      NewStamp(img0, img1, volume.pages[..], files0, files1, root, l, AddDir(l.tree, p + [name]), p + [name], inode,
               volume.now);
      MetadataStays(img0, img1, volume.pages[..], root);
    } else {
      l' := l;
    }
  }

  lemma NoFileThere(t: Tree, p: Path)
    requires p != [] && Parent(p) in t.dirs && !Exists(t, p)
    ensures p !in AddDir(t, p).files
  {
  }

  /** A node was created and its record appended: its header and all others are stamped. */
  lemma NewStamp(img0: Image, img1: Image, img2: Image, files0: Files, files1: Files, root: nat, l: Layout, t': Tree,
                 p: Path, n: nat, now: nat)
    requires Holds(files0, root, l) && StampsOk(img0, l, now) && p != [] && Parent(p) in l.tree.dirs
    requires !Exists(l.tree, p) && (t' == AddDir(l.tree, p) || exists data :: t' == AddFile(l.tree, p, data))
    requires StampsSame(img0, img1, files0) && StampsSame(img1, img2, files1) && files0.Keys <= files1.Keys
    requires n in files1 && Stamped(At(img1, n), if p in t'.files then 0x0_01a4 else 0x1_01ed, now)
    ensures StampsOk(img2, Layout(t', l.node[p := n]), now)
  {
    hide Stamped, StampsSame, StampsOk, WellFormed, Exists;
    StampsOn(img0, img1, img2, files0, files1);
    StampsStay(img0, img2, files0, root, l, now);
    StampsAdded(img1, img2, files1, l, t', p, n, now);
  }

  lemma MetadataStays(img0: Image, img1: Image, img2: Image, root: nat)
    requires MetadataOk(img0, root) && |img2| == |img1| == |img0| && img1[63] == img0[63] && img2[63] == img1[63]
    ensures MetadataOk(img2, root)
  {
    hide Field;
  }

  const BUFFER_SIZE: nat := 4096

  /** The fread/file_write loop of `copy_file`, on a file just created. */
  method WriteFile(volume: Volume, inode: nat, data: seq<Byte>) returns (ok: bool)
    requires volume.Ok() && volume.AllTight() && inode in volume.files && volume.files[inode] == []
    requires volume.Room(WriteCost(0, |data|))
    modifies volume`nextInode, volume`owner, volume`files, volume.pages
    ensures ok <==> |data| <= 4096 * MAX_PAGES
    ensures ok ==> volume.Ok() && volume.AllTight() && volume.ReservedKept()
    ensures ok ==> volume.files == old(volume.files)[inode := data]
    ensures ok ==> volume.nextInode == NextInodes(old(volume.nextInode), WriteCost(0, |data|))
  {
    hide VolumeOk, Tight, NextInodes, WriteCost, StampsSame;
    ghost var next, img0, files0 := volume.nextInode, volume.pages[..], volume.files;
    StampsSelf(img0, files0);
    var f := new OpenFile(inode);
    var done := 0;
    ZeroCost(0, next);
    while done < |data|
      invariant 0 <= done <= |data| && done <= 4096 * MAX_PAGES
      invariant volume.Ok() && volume.AllTight() && volume.ReservedKept()
      invariant f.pos == done && volume.files == old(volume.files)[inode := data[..done]]
      invariant volume.nextInode == NextInodes(next, WriteCost(0, done))
    {
      var tmp := if |data| - done < BUFFER_SIZE then |data| - done else BUFFER_SIZE;
      TwoWrites(next, 0, done, tmp);
      TwoWrites(next, 0, done + tmp, |data| - done - tmp);
      ghost var img1, files1 := volume.pages[..], volume.files;
      var more := volume.FileWrite(data[done..done + tmp], f);
      if !more {
        return false;
      }
      StampsOn(img0, img1, volume.pages[..], files0, files1);
      assert data[..done] + data[done..done + tmp] == data[..done + tmp];
      done := done + tmp;
    }
    assert data[..done] == data;
    ok := true;
  }

  lemma StampStays(img: Image, img': Image, files: Files, f: nat, mode: nat, now: nat)
    requires StampsSame(img, img', files) && f in files && Stamped(At(img, f), mode, now)
    ensures Stamped(At(img', f), mode, now)
  {
    hide Stamped, SameStamp;
    StillStamped(At(img, f), At(img', f), mode, now);
  }

  /** The end of `copy_file`: create the file, fill it, and append its record to whatever
      the walk has led to. */
  method PlaceFile(volume: Volume, dirInode: nat, name: Name, data: seq<Byte>) returns (ok: bool, inode: nat)
    requires volume.Ok() && volume.AllTight() && dirInode in volume.files
             && |volume.files[dirInode]| <= 4096 * MAX_PAGES
    requires volume.Room(1 + WriteCost(0, |data|) + WriteCost(|volume.files[dirInode]|, RECORD_SIZE + |name|))
    modifies volume`nextInode, volume`owner, volume`files, volume.pages
    ensures ok <==>
              |data| <= 4096 * MAX_PAGES && |old(volume.files)[dirInode]| + RECORD_SIZE + |name| <= 4096 * MAX_PAGES
    ensures ok ==> volume.Ok() && volume.AllTight() && volume.ReservedKept()
    ensures ok ==> inode !in old(volume.files) && 0 < inode < U64_LIMIT
    ensures ok ==> Stamped(At(volume.pages[..], inode), 0x0_01a4, volume.now)
    ensures ok ==> var files0 := old(volume.files);
                   volume.files == files0[inode := data][dirInode := files0[dirInode] + EncodeEntry(Entry(inode, name))]
    ensures ok ==> volume.nextInode == NextInodes(old(volume.nextInode),
                     1 + WriteCost(0, |data|) + WriteCost(|old(volume.files)[dirInode]|, RECORD_SIZE + |name|))
  {
    hide VolumeOk, Tight, Encode, EncodeEntry, NextInodes, Field, WriteCost, StampsSame, Stamped;
    ghost var files0, img0 := volume.files, volume.pages[..];
    ghost var fill, cost := WriteCost(0, |data|), WriteCost(|volume.files[dirInode]|, RECORD_SIZE + |name|);
    NextInodesAdd(volume.nextInode, 1, fill);
    NextInodesAdd(volume.nextInode, 1 + fill, cost);
    NextInodesAdd(volume.nextInode, 1, fill + cost);
    OneAlloc(volume.nextInode);
    inode := volume.CreateFileRaw(MODE_FILE);
    ghost var img1, files1 := volume.pages[..], volume.files;
    FreshInode(volume, inode);
    ok := WriteFile(volume, inode, data);
    if ok {
      ghost var img2, files2 := volume.pages[..], volume.files;
      assert volume.files == files0[inode := data];
      ok := AppendDir(volume, dirInode, name, inode);
      if ok {
        StampsOn(img1, img2, volume.pages[..], files1, files2);
        StampsOn(img0, img1, volume.pages[..], files0, files1);
        StampStays(img1, volume.pages[..], files1, inode, 0x0_01a4, volume.now);
      }
    }
  }

  /** What a copy does to the files of a volume: the missing directories were made, which
      gave `walked` and `mid`; then a new file came, and its record at the end of `d`. */
  ghost predicate Placed(root: nat, l: Layout, walked: Layout, mid: Files, files: Files, target: Path, inode: nat,
                         data: seq<Byte>)
    requires target != [] && [] in l.tree.dirs
  {
    var d := Parent(target);
    && Holds(mid, root, walked) && walked.tree == DirsMade(l.tree, d) && NodesKept(l, walked)
    && d in walked.node && walked.node[d] in mid && inode !in mid
    && files == mid[inode := data][walked.node[d] := mid[walked.node[d]] + EncodeEntry(Entry(inode, Last(target)))]
  }

  /** Every file of the tree still has its bytes. */
  ghost predicate FilesKept(l: Layout, files: Files) {
    forall q :: q in l.tree.files && q in l.node ==> l.node[q] in files && files[l.node[q]] == l.tree.files[q]
  }

  /** A copy leaves the bytes of every file alone exactly when the walk does not end at a
      file; if it does, the new record is appended to that file's bytes. */
  lemma FilesKeptIff(root: nat, l: Layout, walked: Layout, mid: Files, files: Files, target: Path, inode: nat,
                     data: seq<Byte>)
    requires target != [] && WellFormed(l.tree) && NodesOk(l)
             && Placed(root, l, walked, mid, files, target, inode, data)
    requires walked.tree.files == l.tree.files
    ensures FilesKept(l, files) <==> Parent(target) !in l.tree.files
    ensures Parent(target) in l.tree.files ==>
              var d := Parent(target);
              d in l.node && l.node[d] in files
              && files[l.node[d]] == l.tree.files[d] + EncodeEntry(Entry(inode, Last(target)))
  {
    hide WellFormed, EncodeEntry, DirsMade, Encode, NamesOk, Parent, Last;
    var d := Parent(target);
    forall q | q in l.tree.files
      ensures q in l.node && q in walked.node && walked.node[q] == l.node[q] && l.node[q] in mid
              && mid[l.node[q]] == l.tree.files[q]
    {
      assert Exists(l.tree, q);
      assert walked.node[q] in mid && mid[walked.node[q]] == ContentOf(walked, q);
    }
    if d in l.tree.files {
      RecordNotEmpty(Entry(inode, Last(target)));
      assert files[l.node[d]] == l.tree.files[d] + EncodeEntry(Entry(inode, Last(target)));
      assert |files[l.node[d]]| != |l.tree.files[d]|;
    } else {
      forall q | q in l.tree.files
        ensures l.node[q] in files && files[l.node[q]] == l.tree.files[q]
      {
        assert walked.node[q] != walked.node[d];
      }
    }
  }

  lemma RecordNotEmpty(e: Entry)
    ensures |EncodeEntry(e)| > 0
  {
  }

  /** `copy_file`, for a path that no component but the last searches for inside a file. At
      a fresh landing it refines the insertion of one file into the tree. */
  method CopyFile(volume: Volume, path: seq<Byte>, data: seq<Byte>, ghost l: Layout)
      returns (ok: bool, ghost l': Layout, ghost walked: Layout, ghost mid: Files, ghost inode: nat)
    requires Valid(volume, l) && |Strip(path)| <= NAME_MAX
    requires InDirs(l.tree, Landing(l.tree, [], Split(Strip(path))))
    requires volume.Room(CopyCost(l.tree, [], Split(Strip(path)), |data|))
    modifies volume`nextInode, volume`owner, volume`files, volume.pages
    ensures ok <==> CopyFits(l.tree, [], Split(Strip(path)), |data|)
    ensures [] in l.tree.dirs && Landing(l.tree, [], Split(Strip(path))) != []
    ensures ok ==> volume.Ok() && volume.AllTight()
    ensures ok ==> Placed(old(volume.root), l, walked, mid, volume.files, Landing(l.tree, [], Split(Strip(path))),
                          inode, data)
    ensures ok ==> (FilesKept(l, volume.files) <==> Parent(Landing(l.tree, [], Split(Strip(path)))) !in l.tree.files)
    ensures ok && Fresh(l.tree, Landing(l.tree, [], Split(Strip(path)))) ==>
              Valid(volume, l') && l'.tree == CopyInto(l.tree, Job(Split(Strip(path)), data))
    ensures ok ==> volume.nextInode ==
                   NextInodes(old(volume.nextInode), CopyCost(l.tree, [], Split(Strip(path)), |data|))
  {
    hide VolumeOk, Tight, ContentsHeld, NextInodes, FirstPrefix, Field, Landing, Insert, Split, CopyCost, CopyFits,
         WellFormed, Walking, Fresh;
    hide StepTree, StepPath, StepCost, StepFits, NamesOk, InodesOk, AddDir, AddFile, RecordFits, WriteCost, InDirs,
         EncodeEntry, DirsMade, FilesKept, StampsSame, Stamped, StampsOk, MetadataOk;
    hide Exists;
    var nameBuf := Strip(path);
    var e, i, dirInode := 0, 0, volume.root;
    ghost var c, target, next := Split(nameBuf), Landing(l.tree, [], Split(nameBuf)), volume.nextInode;
    ghost var total, root := CopyCost(l.tree, [], c, |data|), volume.root;
    ghost var p: Path := [];
    LandingExtends(l.tree, [], c);
    StartWalk(l.tree, volume.files, volume.root, l);
    l', walked, mid, inode := l, l, volume.files, 0;
    assert nameBuf[0..] == nameBuf;
    while i < |nameBuf|
      invariant 0 <= e <= i <= |nameBuf| && SLASH !in nameBuf[e..i]
      invariant Valid(volume, l') && volume.root == root && p in l'.node && l'.node[p] == dirInode && NodesKept(l, l')
      invariant |Split(nameBuf[e..])| > 1 ==> p in l'.tree.dirs
      invariant Walking(l.tree, l'.tree, p) && Landing(l'.tree, p, Split(nameBuf[e..])) == target
      invariant NextInodes(volume.nextInode, CopyCost(l'.tree, p, Split(nameBuf[e..]), |data|)) ==
                  NextInodes(next, total)
      invariant CopyFits(l'.tree, p, Split(nameBuf[e..]), |data|) == CopyFits(l.tree, [], c, |data|)
    {
      if nameBuf[i] == SLASH {
        ghost var rest := Split(nameBuf[e..]);
        var name := nameBuf[e..i];
        SplitStep(nameBuf, e, i);
        WalkStep(l.tree, l'.tree, p, rest);
        CostStep(l'.tree, p, rest, |data|, volume.nextInode);
        ghost var t, was := l'.tree, l';
        var more;
        more, dirInode, l' := EnterDir(volume, dirInode, name, l', p);
        if !more {
          return false, l, l, mid, 0;
        }
        NodesKeptOn(l, was, l');
        p := StepPath(t, p, name);
        e := i + 1;
      }
      i := i + 1;
    }
    assert nameBuf[e..i] == nameBuf[e..];
    SplitLast(nameBuf[e..]);
    var name := nameBuf[e..];
    LastCost(l'.tree, p, name, |data|);
    WalkEnd(l.tree, l'.tree, p, name, data);
    NodeFacts(volume, l', p);
    walked, mid := l', volume.files;
    ghost var img1 := volume.pages[..];
    ok, inode := PlaceFile(volume, dirInode, name, data);
    if ok {
      CopyPlaced(root, l, walked, mid, volume.files, p, name, inode, data);
      if Fresh(l.tree, target) {
        AddNodeHolds(mid, root, walked, AddFile(walked.tree, target, data), target, inode, data);
        l' := Layout(AddFile(walked.tree, target, data), walked.node[target := inode]);
        PlacedStamp(img1, volume.pages[..], mid, root, walked, target, data, inode, volume.now);
        MetadataStays(img1, img1, volume.pages[..], root);
      }
    }
  }

  lemma PlacedStamp(img: Image, img': Image, files: Files, root: nat, l: Layout, p: Path, data: seq<Byte>, n: nat,
                    now: nat)
    requires Holds(files, root, l) && StampsOk(img, l, now) && StampsSame(img, img', files)
    requires p != [] && Parent(p) in l.tree.dirs && !Exists(l.tree, p) && Stamped(At(img', n), 0x0_01a4, now)
    ensures StampsOk(img', Layout(AddFile(l.tree, p, data), l.node[p := n]), now)
  {
    hide Stamped, StampsSame, WellFormed;
    StampsStay(img, img', files, root, l, now);
  }

  lemma NodesKeptOn(l0: Layout, l1: Layout, l2: Layout)
    requires NodesKept(l0, l1) && NodesKept(l1, l2)
    ensures NodesKept(l0, l2)
  {
  }

  /** What the volume holds for a node of its tree. */
  lemma NodeFacts(volume: Volume, l: Layout, p: Path)
    requires Valid(volume, l) && Exists(l.tree, p)
    ensures p in l.node && l.node[p] in volume.files
            && |volume.files[l.node[p]]| == NodeSize(l.tree, p) <= 4096 * MAX_PAGES
  {
    hide VolumeOk, Encode, Tight;
    if p in l.tree.dirs {
      DirFacts(volume, l, p);
    } else {
      SizeField(volume.pages[..], volume.nextInode, volume.owner, volume.files, l.node[p]);
    }
  }

  lemma CopyPlaced(root: nat, l: Layout, walked: Layout, mid: Files, files: Files, p: Path, n: Name, inode: nat,
                   data: seq<Byte>)
    requires [] in l.tree.dirs && WellFormed(l.tree) && NodesOk(l)
    requires Holds(mid, root, walked) && walked.tree == DirsMade(l.tree, p) && NodesKept(l, walked)
    requires walked.tree.files == l.tree.files && p in walked.node && walked.node[p] in mid && inode !in mid
    requires files == mid[inode := data][walked.node[p] := mid[walked.node[p]] + EncodeEntry(Entry(inode, n))]
    ensures p + [n] != [] && [] in l.tree.dirs && Placed(root, l, walked, mid, files, p + [n], inode, data)
    ensures FilesKept(l, files) <==> Parent(p + [n]) !in l.tree.files
  {
    hide WellFormed, EncodeEntry, DirsMade, Holds, NodesOk, FilesKept;
    SnocPath(p, n);
    FilesKeptIff(root, l, walked, mid, files, p + [n], inode, data);
  }

  lemma StartWalk(t: Tree, files: Files, root: nat, l: Layout)
    requires Holds(files, root, l) && t == l.tree
    ensures WellFormed(t) && Walking(t, t, []) && [] in t.dirs && [] in l.node && l.node[[]] == root
  {
    assert Exists(l.tree, []);
  }

  lemma SplitStep(s: seq<Byte>, e: nat, i: nat)
    requires e <= i < |s| && s[i] == SLASH && SLASH !in s[e..i]
    ensures var r := Split(s[e..]); |r| > 1 && r[0] == s[e..i] && r[1..] == Split(s[i + 1..])
    ensures SLASH !in s[i + 1..i + 1]
  {
    var u := s[e..];
    forall j | 0 <= j < i - e
      ensures u[j] != SLASH
    {
      assert u[j] == s[e..i][j];
    }
    SplitAtSlash(u, i - e);
    assert u[..i - e] == s[e..i] && u[i - e + 1..] == s[i + 1..];
  }

  lemma CostStep(t: Tree, p: Path, c: Path, len: nat, next: nat)
    requires p in t.dirs && |c| > 1
    ensures var t', p' := StepTree(t, p, c[0]), StepPath(t, p, c[0]);
            && NextInodes(next, StepCost(t, p, c[0])) <= NextInodes(next, CopyCost(t, p, c, len))
            && NextInodes(NextInodes(next, StepCost(t, p, c[0])), CopyCost(t', p', c[1..], len)) ==
                 NextInodes(next, CopyCost(t, p, c, len))
            && (CopyFits(t, p, c, len) <==> StepFits(t, p, c[0]) && CopyFits(t', p', c[1..], len))
  {
    hide StepCost, StepTree, StepPath, StepFits;
    var t', p' := StepTree(t, p, c[0]), StepPath(t, p, c[0]);
    NextInodesAdd(next, StepCost(t, p, c[0]), CopyCost(t', p', c[1..], len));
  }

  lemma LastCost(t: Tree, p: Path, n: Name, len: nat)
    ensures CopyCost(t, p, [n], len) == 1 + WriteCost(0, len) + WriteCost(NodeSize(t, p), RECORD_SIZE + |n|)
    ensures CopyFits(t, p, [n], len) <==>
              len <= 4096 * MAX_PAGES && NodeSize(t, p) + RECORD_SIZE + |n| <= 4096 * MAX_PAGES
    ensures Landing(t, p, [n]) == p + [n]
  {
  }

  // ---- A whole run ----

  /** The metadata page lies outside the inodes: writing it changes no file. */
  lemma MetadataFrame(img: Image, next: nat, owner: Owners, files: Files, p: Page)
    requires VolumeOk(img, next, owner, files)
    ensures METADATA_PAGE < |img| && VolumeOk(img[METADATA_PAGE := p], next, owner, files)
    ensures forall f :: f in files ==> SameShape(img, img[METADATA_PAGE := p], f)
  {
    hide Field, PageOf, ZeroPage, HasBit, FileOk, DataInode;
    var img' := img[METADATA_PAGE := p];
    assert forall i: nat :: At(img', i) == At(img, i);
    assert forall i: nat :: BitmapBit(img', i) == BitmapBit(img, i);
    forall f | f in files
      ensures FileOk(img', owner, f, files[f]) && SameShape(img, img', f)
    {
      FileFrame(img, owner, img', owner, f, files[f]);
    }
    forall i | i in owner
      ensures Linked(img', files, i, owner[i])
    {
      assert Linked(img, files, i, owner[i]);
    }
  }

  lemma VolumeSize(img: Image, next: nat, owner: Owners, files: Files)
    requires VolumeOk(img, next, owner, files)
    ensures RESERVED_PAGES + next < |img|
  {
  }

  /** "Meow" */
  const MAGIC: seq<Byte> := [77, 101, 111, 119]

  method WriteMetadata(volume: Volume, off: nat, b: seq<Byte>)
    requires volume.Ok() && volume.AllTight() && off + |b| <= 4096
    modifies volume.pages
    ensures volume.Ok() && volume.AllTight() && METADATA_PAGE < volume.pages.Length
    ensures forall i :: 0 <= i < volume.pages.Length && i != METADATA_PAGE ==> volume.pages[i] == old(volume.pages[i])
    ensures volume.pages[METADATA_PAGE] == Splice(old(volume.pages[..])[METADATA_PAGE], off, b)
  {
    hide VolumeOk, Field, DataInode, Splice;
    ghost var img := volume.pages[..];
    VolumeSize(img, volume.nextInode, volume.owner, volume.files);
    ghost var p := Splice(img[METADATA_PAGE], off, b);
    MetadataFrame(img, volume.nextInode, volume.owner, volume.files, p);
    volume.pages[METADATA_PAGE] := Splice(volume.pages[METADATA_PAGE], off, b);
    assert volume.pages[..] == img[METADATA_PAGE := p];
    forall f | f in volume.files
      ensures Tight(volume.pages[..], f, volume.files[f])
    {
      assert SameShape(img, volume.pages[..], f) && Tight(img, f, volume.files[f]);
    }
  }

  method MakeVolume(size: nat, now: nat) returns (volume: Volume, ghost l: Layout)
    requires size + 4095 < 0x8000_0000 && (size + 4095) / 4096 > RESERVED_PAGES + 1
    ensures fresh(volume) && fresh(volume.pages) && Valid(volume, l) && l.tree == EMPTY
    ensures volume.pages.Length == (size + 4095) / 4096 && volume.nextInode == 1
  {
    hide VolumeOk, Field, Splice, Tight, Le, Stamped, StampsSame, MetadataOk;
    var npages := (size + PAGE_SIZE - 1) / PAGE_SIZE;
    volume := new Volume(npages, now);
    assert NextInodes(0, 1) == NextInode(0) == 1 by { OneAlloc(0); }
    ghost var p := volume.pages[METADATA_PAGE];
    WriteMetadata(volume, 0, MAGIC);
    WriteMetadata(volume, 4, Le(0x100_0000, 4));
    WriteMetadata(volume, 8, Le(npages, 8));
    var root := volume.CreateFileRaw(MODE_DIR);
    ghost var header := volume.pages[RESERVED_PAGES + root];
    WriteMetadata(volume, OFF_META_ROOT, Le(root, 8));
    MetadataWritten(volume.pages[..], p, npages, root);
    assert At(volume.pages[..], root) == header;
    volume.root := root;
    l := Layout(EMPTY, map[[] := root]);
    EmptyHolds();
    EmptyVolumeHolds(root);
  }

  lemma MetadataWritten(img: Image, p: Page, npages: nat, root: nat)
    requires METADATA_PAGE < |img| == npages < 0x8_0001 && root < U64_LIMIT
    requires img[METADATA_PAGE] == Splice(Splice(Splice(Splice(p, 0, MAGIC), 4, Le(0x100_0000, 4)), 8, Le(npages, 8)),
                                          OFF_META_ROOT, Le(root, 8))
    ensures MetadataOk(img, root)
  {
    hide Le, Splice;
    var q := img[METADATA_PAGE];
    assert q[..4] == MAGIC && q[4..8] == Le(0x100_0000, 4);
    assert q[8..16] == Le(npages, 8) && q[16..24] == Le(root, 8);
    Pow256Words();
    LeRoundTrip(0x100_0000, 4);
    LeRoundTrip(npages, 8);
    LeRoundTrip(root, 8);
  }

  lemma EmptyVolumeHolds(root: nat)
    requires 0 < root < U64_LIMIT && WellFormed(EMPTY)
    ensures Holds(map[root := []], root, Layout(EMPTY, map[[] := root]))
  {
    var l := Layout(EMPTY, map[[] := root]);
    assert NodesOk(l);
    assert Entries(l, []) == [];
    assert l.node[[]] == root;
  }

  /** One line of the spec file: where to copy to, and the bytes of the source file. */
  datatype Copy = Copy(dst: seq<Byte>, data: seq<Byte>)

  function JobOf(c: Copy): (j: Job)
    ensures j.path != []
  {
    Job(Split(Strip(c.dst)), c.data)
  }

  function JobsOf(cs: seq<Copy>): (js: seq<Job>)
    ensures |js| == |cs| && forall i :: 0 <= i < |cs| ==> js[i] == JobOf(cs[i])
  {
    seq(|cs|, i requires 0 <= i < |cs| => JobOf(cs[i]))
  }

  /** Pages taken by a whole run, and whether no file grows too large in it. */
  function RunCost(cs: seq<Copy>): nat {
    if cs == [] then 0
    else
      var n := |cs| - 1;
      RunCost(cs[..n]) + CopyCost(RunTree(JobsOf(cs[..n])), [], JobOf(cs[n]).path, |cs[n].data|)
  }

  predicate RunFits(cs: seq<Copy>) {
    if cs == [] then true
    else
      var n := |cs| - 1;
      RunFits(cs[..n]) && CopyFits(RunTree(JobsOf(cs[..n])), [], JobOf(cs[n]).path, |cs[n].data|)
  }

  lemma {:induction false} RunCostPrefix(cs: seq<Copy>, k: nat)
    requires k <= |cs|
    ensures RunCost(cs[..k]) <= RunCost(cs)
    ensures RunFits(cs) ==> RunFits(cs[..k])
    decreases |cs|
  {
    hide CopyCost, CopyFits, RunTree, JobsOf, Split, Strip;
    if k == |cs| {
      assert cs[..k] == cs;
    } else {
      var n := |cs| - 1;
      RunCostPrefix(cs[..n], k);
      assert cs[..n][..k] == cs[..k];
    }
  }

  lemma RunCostNext(cs: seq<Copy>, k: nat)
    requires k < |cs|
    ensures var t := RunTree(JobsOf(cs[..k])); var j := JobOf(cs[k]);
            && RunCost(cs[..k + 1]) == RunCost(cs[..k]) + CopyCost(t, [], j.path, |j.data|) <= RunCost(cs)
            && (RunFits(cs[..k + 1]) <==> RunFits(cs[..k]) && CopyFits(t, [], j.path, |j.data|))
            && RunTree(JobsOf(cs[..k + 1])) == CopyInto(t, j)
    ensures JobsOf(cs[..k]) == JobsOf(cs)[..k]
  {
    hide CopyCost, CopyFits, CopyInto, JobOf, RunCost, RunFits, RunTree;
    RunCostPrefix(cs, k + 1);
    RunUnfold(cs[..k + 1]);
    assert cs[..k + 1][..k] == cs[..k] && cs[..k + 1][k] == cs[k];
  }

  lemma RunUnfold(cs: seq<Copy>)
    requires cs != []
    ensures var n := |cs| - 1; var t := RunTree(JobsOf(cs[..n])); var j := JobOf(cs[n]);
            && RunCost(cs) == RunCost(cs[..n]) + CopyCost(t, [], j.path, |j.data|)
            && (RunFits(cs) <==> RunFits(cs[..n]) && CopyFits(t, [], j.path, |j.data|))
            && RunTree(JobsOf(cs)) == CopyInto(t, j)
  {
    hide CopyCost, CopyFits, CopyInto, Split, Strip;
    assert JobsOf(cs)[..|cs| - 1] == JobsOf(cs[..|cs| - 1]);
  }

  /** Every copy of the run lands where nothing is yet, in a directory. */
  ghost predicate FreshLandings(cs: seq<Copy>) {
    forall k :: 0 <= k < |cs| ==>
      var t := RunTree(JobsOf(cs[..k]));
      Fresh(t, Landing(t, [], JobOf(cs[k]).path))
  }

  lemma InOrderIsFresh(cs: seq<Copy>)
    requires FreshPaths(JobsOf(cs)) && InOrder(JobsOf(cs))
    ensures FreshLandings(cs) && HoldsJobs(RunTree(JobsOf(cs)), JobsOf(cs))
  {
    hide Fresh, Landing, RunTree, InOrder, HoldsJobs, JobOf;
    RunHoldsExactlyTheJobs(JobsOf(cs));
    forall k | 0 <= k < |cs|
      ensures var t := RunTree(JobsOf(cs[..k])); Fresh(t, Landing(t, [], JobOf(cs[k]).path))
    {
      assert JobsOf(cs)[..k] == JobsOf(cs[..k]);
    }
  }

  lemma FreshInDirs(t: Tree, target: Path)
    requires Fresh(t, target)
    ensures InDirs(t, target)
  {
  }

  /** The first `k` copies of the run were made, and there is room for the rest. */
  ghost predicate Running(volume: Volume, l: Layout, cs: seq<Copy>, k: nat)
    reads volume, volume.pages
  {
    && k <= |cs| && Valid(volume, l) && l.tree == RunTree(JobsOf(cs[..k])) && RunFits(cs[..k])
    && volume.nextInode == NextInodes(1, RunCost(cs[..k]))
    && RESERVED_PAGES + NextInodes(1, RunCost(cs)) < volume.pages.Length
  }

  /** The next copy of a run. */
  method CopyNext(volume: Volume, dst: seq<Byte>, data: seq<Byte>, ghost l: Layout, ghost cs: seq<Copy>, ghost k: nat)
      returns (ok: bool, ghost l': Layout)
    requires Running(volume, l, cs, k) && k < |cs| && cs[k] == Copy(dst, data) && |Strip(dst)| <= NAME_MAX
             && FreshLandings(cs)
    modifies volume`nextInode, volume`owner, volume`files, volume.pages
    ensures ok ==> Running(volume, l', cs, k + 1)
    ensures !ok ==> !RunFits(cs)
  {
    hide Valid, NextInodes, RunCost, RunFits, RunTree, CopyInto, CopyCost, CopyFits, Landing, Fresh, Split, Strip,
         JobsOf;
    hide InDirs, Placed, FilesKept;
    RunCostNext(cs, k);
    JobIs(cs[k]);
    FreshInDirs(l.tree, Landing(l.tree, [], JobOf(cs[k]).path));
    ghost var cost := CopyCost(l.tree, [], JobOf(cs[k]).path, |data|);
    NextInodesAdd(1, RunCost(cs[..k]), cost);
    NextInodesAdd(1, RunCost(cs[..k]) + cost, RunCost(cs) - RunCost(cs[..k]) - cost);
    ghost var walked, mid, inode;
    ok, l', walked, mid, inode := CopyFile(volume, dst, data, l);
    if !ok {
      RunCostPrefix(cs, k + 1);
    }
  }

  lemma JobIs(c: Copy)
    ensures JobOf(c) == Job(Split(Strip(c.dst)), c.data)
  {
  }

  lemma EmptyRun(cs: seq<Copy>)
    ensures RunTree(JobsOf(cs[..0])) == EMPTY && RunCost(cs[..0]) == 0 && RunFits(cs[..0])
    ensures NextInodes(1, RunCost(cs[..0])) == 1
  {
    assert cs[..0] == [];
    ZeroCost(0, 1);
  }
}
