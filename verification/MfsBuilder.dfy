/** The volume writer, `tools/mkvolume.c`: directories and the copying of files by path. */
module MfsBuilder {
  import opened Bytes
  import opened MfsFormat
  import opened MfsVolume
  import opened MfsDir
  import opened MfsTree

  const SLASH: Byte := 47
  const MODE_DIR: nat := 0x1_01ed
  const MODE_FILE: nat := 0x0_01a4
  const NAME_MAX: nat := 1023

  /** A tree together with the inode of each of its nodes. */
  datatype Layout = Layout(tree: Tree, node: map<Path, nat>)

  ghost function Entries(l: Layout, p: Path): (r: seq<Entry>)
    requires p in l.tree.dirs && WellFormed(l.tree) && NodesOk(l)
    ensures |r| == |l.tree.dirs[p]| && Names(r) == l.tree.dirs[p]
  {
    var names := l.tree.dirs[p];
    assert forall i :: 0 <= i < |names| ==> Exists(l.tree, p + [names[i]]);
    seq(|names|, i requires 0 <= i < |names| => Entry(l.node[p + [names[i]]], names[i]))
  }

  ghost predicate NodesOk(l: Layout) {
    forall p :: p in l.node <==> Exists(l.tree, p)
  }

  ghost function ContentOf(l: Layout, p: Path): seq<Byte>
    requires WellFormed(l.tree) && NodesOk(l) && Exists(l.tree, p)
  {
    if p in l.tree.files then l.tree.files[p] else Encode(Entries(l, p))
  }

  ghost predicate InodesOk(l: Layout) {
    && (forall p :: p in l.node ==> 0 < l.node[p] < U64_LIMIT)
    && (forall p, q :: p in l.node && q in l.node && l.node[p] == l.node[q] ==> p == q)
  }

  ghost predicate NamesOk(t: Tree) {
    forall p, i :: p in t.dirs && 0 <= i < |t.dirs[p]| ==> |t.dirs[p][i]| <= NAME_MAX
  }

  /** The files of a volume are exactly the nodes of the layout, and each holds what the
      tree says: its bytes, or the records of its children. */
  ghost predicate Holds(files: Files, root: nat, l: Layout) {
    && WellFormed(l.tree) && NodesOk(l) && InodesOk(l) && NamesOk(l.tree)
    && l.node[[]] == root
    && ContentsHeld(files, l)
    && (forall f :: f in files ==> f in l.node.Values)
  }

  ghost predicate EntriesOk(es: seq<Entry>) {
    forall i :: 0 <= i < |es| ==> EntryOk(es[i]) && |es[i].name| <= NAME_MAX
  }

  lemma HeldEntriesOk(files: Files, root: nat, l: Layout, p: Path)
    requires Holds(files, root, l) && p in l.tree.dirs
    ensures EntriesOk(Entries(l, p)) && p in l.node && l.node[p] in files
    ensures files[l.node[p]] == Encode(Entries(l, p))
  {
    var names := l.tree.dirs[p];
    assert Exists(l.tree, p);
    forall i | 0 <= i < |names|
      ensures EntryOk(Entries(l, p)[i]) && |names[i]| <= NAME_MAX
    {
      assert Exists(l.tree, p + [names[i]]);
    }
  }

  /** Adding one node: its own file, and one record at the end of its parent. */
  lemma AddNodeHolds(files: Files, root: nat, l: Layout, t': Tree, p: Path, n: nat, data: seq<Byte>)
    requires Holds(files, root, l) && p != [] && Parent(p) in l.tree.dirs && !Exists(l.tree, p)
    requires (t' == AddDir(l.tree, p) && data == []) || t' == AddFile(l.tree, p, data)
    requires n !in files && 0 < n < U64_LIMIT && |Last(p)| <= NAME_MAX
    ensures Parent(p) in l.node && l.node[Parent(p)] in files
    ensures var d := l.node[Parent(p)];
            Holds(files[n := data][d := files[d] + EncodeEntry(Entry(n, Last(p)))], root, Layout(t', l.node[p := n]))
  {
    hide Encode, EncodeEntry, AddDir, AddFile, WellFormed, NamesOk, OneMore, Entries, ContentOf, Parent, Last;
    var parent := Parent(p);
    var l' := Layout(t', l.node[p := n]);
    AddNodeShape(l, t', p, n, data);
    AddNodeWellFormed(l.tree, t', p);
    assert Exists(l.tree, parent);
    var d := l.node[parent];
    var files' := files[n := data][d := files[d] + EncodeEntry(Entry(n, Last(p)))];
    assert n !in l.node.Values && p !in l.node;
    AddNodeContents(files, files', l, l', p, n, data);
    MoreValues(l.node, p, n);
  }

  /** Every node's file holds the node's contents. */
  ghost predicate ContentsHeld(files: Files, l: Layout)
    requires WellFormed(l.tree) && NodesOk(l)
  {
    forall p :: p in l.node ==> l.node[p] in files && files[l.node[p]] == ContentOf(l, p)
  }

  lemma AddNodeContents(files: Files, files': Files, l: Layout, l': Layout, p: Path, n: nat, data: seq<Byte>)
    requires WellFormed(l.tree) && NodesOk(l) && WellFormed(l'.tree) && NodesOk(l') && InodesOk(l)
    requires OneMore(l.tree, l'.tree, p, data) && l'.node == l.node[p := n] && n !in l.node.Values
    requires ContentsHeld(files, l) && Parent(p) in l.node && l.node[Parent(p)] in files
    requires var d := l.node[Parent(p)];
             files' == files[n := data][d := files[d] + EncodeEntry(Entry(n, Last(p)))]
    ensures ContentsHeld(files', l')
  {
    hide Encode, EncodeEntry, WellFormed, Entries, ContentOf, OneMore, Parent, Last;
    forall q | q in l'.node
      ensures l'.node[q] in files' && files'[l'.node[q]] == ContentOf(l', q)
    {
      NodeContent(l, l', p, n, data, q);
      assert q != p ==> l.node[q] in l.node.Values;
    }
  }

  lemma MoreValues(node: map<Path, nat>, p: Path, n: nat)
    requires p !in node
    ensures node[p := n].Values == node.Values + {n}
  {
    var node' := node[p := n];
    assert node'[p] == n;
    forall f | f in node.Values
      ensures f in node'.Values
    {
      var q :| q in node && node[q] == f;
      assert node'[q] == f;
    }
  }

  lemma NodeContent(l: Layout, l': Layout, p: Path, n: nat, data: seq<Byte>, q: Path)
    requires WellFormed(l.tree) && NodesOk(l) && WellFormed(l'.tree) && NodesOk(l')
    requires OneMore(l.tree, l'.tree, p, data) && l'.node == l.node[p := n] && Exists(l'.tree, q)
    ensures q != p ==> Exists(l.tree, q)
    ensures ContentOf(l', q) == if q == p then data
                                else if q == Parent(p) then ContentOf(l, q) + EncodeEntry(Entry(n, Last(p)))
                                else ContentOf(l, q)
  {
    hide Encode, EncodeEntry, ContentOf;
    if q == p {
      NewContent(l, l', p, n, data);
    } else if q == Parent(p) {
      ParentContent(l, l', p, n);
    } else {
      OtherContent(l, l', p, n, q);
    }
  }

  /** What adding the node `p` does to the two maps of a tree. */
  ghost predicate OneMore(t: Tree, t': Tree, p: Path, data: seq<Byte>)
  {
    && p != [] && Parent(p) in t.dirs && !Exists(t, p)
    && (forall q :: q in t.dirs && q != Parent(p) ==> q in t'.dirs && t'.dirs[q] == t.dirs[q])
    && Parent(p) in t'.dirs && t'.dirs[Parent(p)] == t.dirs[Parent(p)] + [Last(p)]
    && (forall q :: q in t.files ==> q in t'.files && t'.files[q] == t.files[q])
    && (forall q :: q in t'.files && q != p ==> q in t.files)
    && (forall q :: q in t'.dirs && q != p ==> q in t.dirs)
    && ((p in t'.dirs && p !in t'.files && t'.dirs[p] == [] && data == [])
        || (p in t'.files && p !in t'.dirs && t'.files[p] == data))
  }

  lemma AddNodeShape(l: Layout, t': Tree, p: Path, n: nat, data: seq<Byte>)
    requires WellFormed(l.tree) && NodesOk(l) && InodesOk(l) && NamesOk(l.tree)
    requires p != [] && Parent(p) in l.tree.dirs && !Exists(l.tree, p)
    requires (t' == AddDir(l.tree, p) && data == []) || t' == AddFile(l.tree, p, data)
    requires n !in l.node.Values && 0 < n < U64_LIMIT && |Last(p)| <= NAME_MAX
    ensures OneMore(l.tree, t', p, data)
    ensures var l' := Layout(t', l.node[p := n]); NodesOk(l') && InodesOk(l') && NamesOk(t')
    ensures t' == AddDir(l.tree, p) || exists d :: t' == AddFile(l.tree, p, d)
  {
    SplitPath(p);
    assert p !in l.node;
    forall q, i | q in t'.dirs && 0 <= i < |t'.dirs[q]|
      ensures |t'.dirs[q][i]| <= NAME_MAX
    {
      if q in l.tree.dirs && i < |l.tree.dirs[q]| {
        assert |l.tree.dirs[q][i]| <= NAME_MAX;
      }
    }
  }

  lemma NewContent(l: Layout, l': Layout, p: Path, n: nat, data: seq<Byte>)
    requires WellFormed(l'.tree) && NodesOk(l') && OneMore(l.tree, l'.tree, p, data)
    ensures Exists(l'.tree, p) && ContentOf(l', p) == data
  {
  }

  lemma ParentContent(l: Layout, l': Layout, p: Path, n: nat)
    requires WellFormed(l.tree) && NodesOk(l) && WellFormed(l'.tree) && NodesOk(l')
    requires exists data :: OneMore(l.tree, l'.tree, p, data)
    requires l'.node == l.node[p := n]
    ensures Exists(l.tree, Parent(p)) && Exists(l'.tree, Parent(p))
    ensures ContentOf(l', Parent(p)) == ContentOf(l, Parent(p)) + EncodeEntry(Entry(n, Last(p)))
  {
    hide Encode, EncodeEntry;
    var d := Parent(p);
    SplitPath(p);
    var names := l.tree.dirs[d];
    assert forall i :: 0 <= i < |names| ==> l'.tree.dirs[d][i] == names[i] && Exists(l.tree, d + [names[i]]);
    assert Entries(l', d) == Entries(l, d) + [Entry(n, Last(p))];
    EncodeSnoc(Entries(l, d), Entry(n, Last(p)));
  }

  lemma OtherContent(l: Layout, l': Layout, p: Path, n: nat, q: Path)
    requires WellFormed(l.tree) && NodesOk(l) && WellFormed(l'.tree) && NodesOk(l')
    requires exists data :: OneMore(l.tree, l'.tree, p, data)
    requires l'.node == l.node[p := n] && Exists(l.tree, q) && q != p && q != Parent(p)
    ensures Exists(l'.tree, q) && ContentOf(l', q) == ContentOf(l, q)
  {
    hide Encode;
    if q in l.tree.dirs {
      var names := l.tree.dirs[q];
      assert forall i :: 0 <= i < |names| ==> Exists(l.tree, q + [names[i]]);
      assert Entries(l', q) == Entries(l, q);
    }
  }

  // ---- Searching and extending one directory ----

  /** What `find_file_dir` returns: the inode of the first record whose name is a prefix
      of the name searched for, 0 when there is none. */
  function FoundInode(es: seq<Entry>, name: Name): nat {
    var i := FirstPrefix(Names(es), name);
    if i < |es| then es[i].inode else 0
  }

  method FindFileDir(volume: Volume, dirInode: nat, name: Name, ghost es: seq<Entry>) returns (inode: nat)
    requires volume.Ok() && dirInode in volume.files
    requires volume.files[dirInode] == Encode(es) && EntriesOk(es)
    modifies volume`nextInode, volume`owner, volume.pages
    ensures volume.pages[..] == old(volume.pages[..])
    ensures volume.nextInode == old(volume.nextInode) && volume.owner == old(volume.owner)
    ensures inode == FoundInode(es, name)
  {
    hide VolumeOk, Field, Encode, EncodeEntry, Le;
    var f := new OpenFile(dirInode);
    ghost var content := volume.files[dirInode];
    ghost var k := 0;
    SizeField(volume.pages[..], volume.nextInode, volume.owner, volume.files, dirInode);
    OwnedInRange(volume.pages[..], volume.nextInode, volume.owner, volume.files, dirInode);
    FirstOffset(es);
    while true
      invariant 0 <= k <= |es| && f.pos == Offset(es, k)
      invariant volume.pages[..] == old(volume.pages[..])
      invariant volume.nextInode == old(volume.nextInode) && volume.owner == old(volume.owner)
      invariant HeaderSize(volume.pages[RESERVED_PAGES + dirInode]) == |content|
      invariant forall j :: 0 <= j < k ==> !(es[j].name <= name)
      decreases |es| - k
    {
      OffsetBelowEnd(es, k);
      if f.pos == HeaderSize(volume.pages[RESERVED_PAGES + dirInode]) {
        FirstPrefixIs(Names(es), name, |es|);
        return 0;
      }
      RecordAt(es, k);
      RecordFields(es, k);
      DecodeEntry(es[k]);
      var entry := volume.FileRead(f, RECORD_SIZE);
      var entryInode, namelen := FromLe(entry[..8]), FromLe(entry[8..12]);
      var nameBuf := volume.FileRead(f, namelen);
      assert volume.pages[..][RESERVED_PAGES + dirInode] == volume.pages[RESERVED_PAGES + dirInode];
      if nameBuf <= name {
        FirstPrefixIs(Names(es), name, k);
        return entryInode;
      }
      k := k + 1;
    }
  }

  lemma FirstOffset(es: seq<Entry>)
    ensures Offset(es, 0) == 0
  {
  }

  lemma OffsetBelowEnd(es: seq<Entry>, k: nat)
    requires k <= |es|
    ensures Offset(es, k) <= |Encode(es)| && (Offset(es, k) == |Encode(es)| <==> k == |es|)
  {
    if k == |es| {
      OffsetEnd(es);
    } else {
      RecordAt(es, k);
    }
  }

  /** Where the fields of record `k` are in the bytes of the directory. */
  lemma RecordFields(es: seq<Entry>, k: nat)
    requires k < |es|
    ensures Offset(es, k) + RECORD_SIZE + |es[k].name| <= |Encode(es)|
    ensures var off := Offset(es, k); var s := EncodeEntry(es[k]);
            && Encode(es)[off..off + RECORD_SIZE][..8] == s[..8]
            && Encode(es)[off..off + RECORD_SIZE][8..12] == s[8..12]
            && Encode(es)[off + RECORD_SIZE..off + RECORD_SIZE + |es[k].name|] == s[12..]
  {
    hide Encode, EncodeEntry;
    RecordAt(es, k);
    var off := Offset(es, k);
    var s, end := Encode(es), Offset(es, k + 1);
    SliceOfSlice(s, off, end, 0, 8);
    SliceOfSlice(s, off, end, 8, 12);
    SliceOfSlice(s, off, end, 12, end - off);
    SliceOfSlice(s, off, off + RECORD_SIZE, 0, 8);
    SliceOfSlice(s, off, off + RECORD_SIZE, 8, 12);
  }

  lemma {:induction false} FirstPrefixIs(names: seq<Name>, name: Name, k: nat)
    requires k <= |names| && (k < |names| ==> names[k] <= name)
    requires forall j :: 0 <= j < k ==> !(names[j] <= name)
    ensures FirstPrefix(names, name) == k
  {
  }

  method AppendDir(volume: Volume, dirInode: nat, name: Name, fileInode: nat) returns (ok: bool)
    requires volume.Ok() && volume.AllTight() && dirInode in volume.files
    requires |volume.files[dirInode]| <= 4096 * MAX_PAGES
    requires volume.Room(WriteCost(|volume.files[dirInode]|, RECORD_SIZE + |name|))
    modifies volume`nextInode, volume`owner, volume`files, volume.pages
    ensures ok <==> |old(volume.files)[dirInode]| + RECORD_SIZE + |name| <= 4096 * MAX_PAGES
    ensures ok ==> volume.Ok() && volume.AllTight() && volume.ReservedKept()
    ensures ok ==> var files0 := old(volume.files);
                   volume.files == files0[dirInode := files0[dirInode] + EncodeEntry(Entry(fileInode, name))]
    ensures ok ==> volume.nextInode ==
                   NextInodes(old(volume.nextInode), WriteCost(|old(volume.files)[dirInode]|, RECORD_SIZE + |name|))
  {
    hide VolumeOk, Tight, NextInodes, WriteCost, Le, StampsSame;
    ghost var img0, files0 := volume.pages[..], volume.files;
    ghost var content, next := volume.files[dirInode], volume.nextInode;
    var f := new OpenFile(dirInode);
    SizeField(volume.pages[..], volume.nextInode, volume.owner, volume.files, dirInode);
    OwnedInRange(volume.pages[..], volume.nextInode, volume.owner, volume.files, dirInode);
    f.pos := HeaderSize(volume.pages[RESERVED_PAGES + dirInode]);
    var entry := Le(fileInode, 8) + Le(|name|, 4);
    TwoWrites(next, |content|, RECORD_SIZE, |name|);
    ok := volume.FileWrite(entry, f);
    if ok {
      ghost var img1, files1 := volume.pages[..], volume.files;
      ok := volume.FileWrite(name, f);
      if ok {
        StampsOn(img0, img1, volume.pages[..], files0, files1);
      }
      assert content + entry + name == content + EncodeEntry(Entry(fileInode, name));
    }
  }

  /** The room for two writes, one after the other, is the room for both. */
  lemma TwoWrites(next: nat, size: nat, a: nat, b: nat)
    requires size <= 4096 * MAX_PAGES
    ensures NextInodes(next, WriteCost(size, a)) <= NextInodes(next, WriteCost(size, a + b))
    ensures size + a <= 4096 * MAX_PAGES ==>
              NextInodes(NextInodes(next, WriteCost(size, a)), WriteCost(size + a, b)) ==
                NextInodes(next, WriteCost(size, a + b))
  {
    if size + a <= 4096 * MAX_PAGES {
      WriteCostSplit(size, a, b);
      NextInodesAdd(next, WriteCost(size, a), WriteCost(size + a, b));
    } else {
      assert WriteCost(size, a) == WriteCost(size, a + b);
    }
  }
}
