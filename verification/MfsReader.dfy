/** The bootloader's reader of the same format, `src/boot/bootloader/mfs.c`. It shares no
    code with the writer: it sees only the pages of the disk. */
module MfsReader {
  import opened Bytes
  import opened MfsFormat
  import opened MfsVolume
  import opened MfsDir
  import opened MfsTree
  import opened MfsBuilder
  import opened MfsCopy

  /** The disk holds `content` as the file of `inode`. */
  ghost predicate HoldsFile(disk: Image, inode: nat, content: seq<Byte>) {
    && RESERVED_PAGES + inode < |disk|
    && HeaderSize(At(disk, inode)) == |content| <= 4096 * MAX_PAGES
    && (PageCount(|content|) > DATA_POINTERS ==>
          HeaderIdata(At(disk, inode)) != 0 && RESERVED_PAGES + HeaderIdata(At(disk, inode)) < |disk|)
    && forall k :: 0 <= k < PageCount(|content|) ==> PageHeld(disk, inode, content, k)
  }

  ghost predicate PageHeld(disk: Image, inode: nat, content: seq<Byte>, k: nat) {
    && k < MAX_PAGES && RESERVED_PAGES + DataInode(disk, inode, k) < |disk|
    && At(disk, DataInode(disk, inode, k)) == PageOf(content, k)
  }

  /** What the writer maintains is all the reader needs. */
  lemma WriterSatisfiesReader(img: Image, next: nat, owner: Owners, files: Files, f: nat)
    requires VolumeOk(img, next, owner, files) && f in files
    ensures HoldsFile(img, f, files[f])
  {
    hide Field, PageOf, ZeroPage, DataInode, BitmapBit;
    var content := files[f];
    OwnedInRange(img, next, owner, files, f);
    assert FileOk(img, owner, f, content);
    forall k | 0 <= k < PageCount(|content|)
      ensures PageHeld(img, f, content, k)
    {
      assert PointerOk(img, owner, f, content, k);
    }
    if PageCount(|content|) > DATA_POINTERS {
      assert PointerOk(img, owner, f, content, DATA_POINTERS);
      assert HeaderIdata(At(img, f)) != 0 by { PastDirect(img, f); }
    }
  }

  lemma PastDirect(img: Image, f: nat)
    ensures DataInode(img, f, DATA_POINTERS) != 0 ==> HeaderIdata(At(img, f)) != 0
  {
  }

  /** The first name equal to `name`, or the number of names. */
  function FirstExact(names: seq<Name>, name: Name): (i: nat)
    ensures i <= |names| && (i < |names| ==> names[i] == name)
    ensures forall j :: 0 <= j < i ==> names[j] != name
  {
    if names == [] || names[0] == name then 0 else 1 + FirstExact(names[1..], name)
  }

  /** The writer's search by prefix and the reader's exact search agree on a name exactly
      when no earlier record is a proper prefix of it. */
  lemma SearchesAgreeIff(names: seq<Name>, name: Name)
    ensures FirstPrefix(names, name) == FirstExact(names, name)
            <==> forall j :: 0 <= j < FirstExact(names, name) ==> !(names[j] <= name)
  {
    var i, k := FirstExact(names, name), FirstPrefix(names, name);
    if k < i {
      assert names[k] <= name;
    }
  }

  /** The contents padded with zeros to a whole number of pages. */
  function Padded(content: seq<Byte>): seq<Byte> {
    content + seq(4096 * PageCount(|content|) - |content|, _ => 0)
  }

  lemma PaddedIs(content: seq<Byte>)
    ensures var p := Padded(content);
            && |content| <= |p| < |content| + 4096 && |p| % 4096 == 0 && p[..|content|] == content
            && forall i :: |content| <= i < |p| ==> p[i] == 0
  {
  }

  function PagesUpTo(content: seq<Byte>, n: nat): (s: seq<Byte>)
    ensures |s| == 4096 * n
  {
    if n == 0 then [] else PagesUpTo(content, n - 1) + PageOf(content, n - 1)
  }

  lemma {:induction false} PagesUpToAt(content: seq<Byte>, n: nat, i: nat)
    requires i < 4096 * n
    ensures PagesUpTo(content, n)[i] == if i < |content| then content[i] else 0
  {
    if i < 4096 * (n - 1) {
      PagesUpToAt(content, n - 1, i);
    }
  }

  lemma PagesArePadded(content: seq<Byte>)
    ensures PagesUpTo(content, PageCount(|content|)) == Padded(content)
  {
    var n := PageCount(|content|);
    forall i | 0 <= i < 4096 * n
      ensures PagesUpTo(content, n)[i] == Padded(content)[i]
    {
      PagesUpToAt(content, n, i);
    }
  }

  class Reader {
    const disk: Image
    var metadata: Page
    var page0: Page
    var page1: Page

    constructor (disk: Image)
      ensures this.disk == disk
    {
      this.disk := disk;
      metadata, page0, page1 := ZeroPage(), ZeroPage(), ZeroPage();
    }

    method ReadPage(inode: nat) returns (page: Page)
      requires RESERVED_PAGES + inode < |disk|
      ensures page == At(disk, inode)
    {
      page := disk[RESERVED_PAGES + inode];
    }

    method Init()
      requires METADATA_PAGE < |disk|
      modifies this`metadata
      ensures metadata == disk[METADATA_PAGE]
    {
      metadata := disk[METADATA_PAGE];
    }

    /** Scans the first page of a directory for an exact name. The source loops without
        bound, so the name must be there. */
    method LookupAt(inode: nat, name: Name, ghost es: seq<Entry>) returns (r: nat)
      requires HoldsFile(disk, inode, Encode(es)) && EntriesOk(es) && |Encode(es)| <= PAGE_SIZE
      requires name in Names(es)
      modifies this`page0
      ensures FirstExact(Names(es), name) < |es|
      ensures r == es[FirstExact(Names(es), name)].inode
    {
      hide Field, Encode, EncodeEntry, Le, FirstExact, PageOf, DataInode, Offset, FromLe, HoldsFile;
      ghost var content, n := Encode(es), FirstExact(Names(es), name);
      ExactIsThere(Names(es), name);
      RecordAt(es, n);
      OffsetBelowEnd(es, n);
      FirstPage(disk, inode, content);
      page0 := ReadPage(inode);
      page0 := ReadPage(HeaderData(page0, 0));
      var dir, nameLen := 0, |name|;
      ghost var k := 0;
      FirstOffset(es);
      while true
        invariant 0 <= k <= n && dir == Offset(es, k) && page0 == PageOf(content, 0)
        decreases n - k
      {
        RecordAt(es, k);
        ReadRecord(page0, es, k);
        var entryLen := FromLe(page0[dir + 8..dir + 12]);
        if entryLen == nameLen && page0[dir + 12..dir + 12 + nameLen] == name {
          ExactIsFirst(Names(es), name, k);
          return FromLe(page0[dir..dir + 8]);
        }
        assert es[k].name != name;
        dir := dir + RECORD_SIZE + entryLen;
        k := k + 1;
      }
    }

    method LookupRoot(name: Name, ghost es: seq<Entry>) returns (r: nat)
      requires HoldsFile(disk, Field(metadata, OFF_META_ROOT), Encode(es))
      requires EntriesOk(es) && |Encode(es)| <= PAGE_SIZE && name in Names(es)
      modifies this`page0
      ensures FirstExact(Names(es), name) < |es|
      ensures r == es[FirstExact(Names(es), name)].inode
    {
      r := LookupAt(Field(metadata, OFF_META_ROOT), name, es);
    }

    method FileSize(inode: nat) returns (size: nat)
      requires RESERVED_PAGES + inode < |disk|
      modifies this`page0
      ensures page0 == At(disk, inode) && size == HeaderSize(page0)
    {
      page0 := ReadPage(inode);
      size := HeaderSize(page0);
    }

    method ReadData(dst: seq<Byte>, count: nat, ghost inode: nat, ghost content: seq<Byte>) returns (dst': seq<Byte>)
      requires HoldsFile(disk, inode, content) && page0 == At(disk, inode)
      requires count <= DATA_POINTERS && count <= PageCount(|content|) && dst == []
      ensures dst' == PagesUpTo(content, count)
    {
      hide Field, PageOf;
      dst' := dst;
      for i := 0 to count
        invariant dst' == PagesUpTo(content, i)
      {
        assert PageHeld(disk, inode, content, i);
        var page := ReadPage(HeaderData(page0, i));
        dst' := dst' + page;
      }
    }

    method ReadIdata(dst: seq<Byte>, count: nat, ghost inode: nat, ghost content: seq<Byte>) returns (dst': seq<Byte>)
      requires HoldsFile(disk, inode, content) && HeaderIdata(At(disk, inode)) != 0
      requires page1 == At(disk, HeaderIdata(At(disk, inode)))
      requires DATA_POINTERS + count <= PageCount(|content|) && count <= IDATA_POINTERS
      requires dst == PagesUpTo(content, DATA_POINTERS)
      ensures dst' == PagesUpTo(content, DATA_POINTERS + count)
    {
      hide Field, PageOf;
      dst' := dst;
      for i := 0 to count
        invariant dst' == PagesUpTo(content, DATA_POINTERS + i)
      {
        assert PageHeld(disk, inode, content, DATA_POINTERS + i);
        var page := ReadPage(IndirectEntry(page1, i));
        dst' := dst' + page;
      }
    }

    /** Reads a whole file: its bytes, padded with zeros to a page boundary. */
    method Read(inode: nat, ghost content: seq<Byte>) returns (dst: seq<Byte>)
      requires HoldsFile(disk, inode, content)
      modifies this`page0, this`page1
      ensures dst == Padded(content)
    {
      hide Field, PageOf, PageHeld, PagesUpTo, Padded;
      PagesArePadded(content);
      dst := [];
      var size := FileSize(inode);
      var npages := (size + PAGE_SIZE - 1) / PAGE_SIZE;
      if npages == 0 {
        NoPages(content);
        return;
      }
      page0 := ReadPage(inode);
      var tmp := if npages > DATA_POINTERS then DATA_POINTERS else npages;
      dst := ReadData(dst, tmp, inode, content);
      npages := npages - tmp;
      if npages == 0 {
        return;
      }
      page1 := ReadPage(HeaderIdata(page0));
      tmp := if npages > IDATA_POINTERS then IDATA_POINTERS else npages;
      dst := ReadIdata(dst, tmp, inode, content);
    }
  }

  lemma NoPages(content: seq<Byte>)
    requires PageCount(|content|) == 0
    ensures PagesUpTo(content, 0) == []
  {
  }

  lemma ExactIsThere(names: seq<Name>, name: Name)
    requires name in names
    ensures FirstExact(names, name) < |names| && names[FirstExact(names, name)] == name
  {
  }

  lemma ExactIsFirst(names: seq<Name>, name: Name, k: nat)
    requires k <= FirstExact(names, name) && k < |names| && names[k] == name
    ensures FirstExact(names, name) == k
  {
  }

  lemma FirstPage(disk: Image, inode: nat, content: seq<Byte>)
    requires HoldsFile(disk, inode, content) && 0 < |content| <= PAGE_SIZE
    ensures RESERVED_PAGES + inode < |disk| && RESERVED_PAGES + HeaderData(At(disk, inode), 0) < |disk|
    ensures At(disk, HeaderData(At(disk, inode), 0)) == PageOf(content, 0)
  {
    hide Field, PageOf;
    assert PageHeld(disk, inode, content, 0);
  }

  /** What the reader decodes at the place of record `k`. */
  lemma ReadRecord(page: Page, es: seq<Entry>, k: nat)
    requires EntriesOk(es) && k < |es| && |Encode(es)| <= PAGE_SIZE && page == PageOf(Encode(es), 0)
    ensures var off := Offset(es, k);
            && off + RECORD_SIZE + |es[k].name| <= PAGE_SIZE
            && FromLe(page[off..off + 8]) == es[k].inode
            && FromLe(page[off + 8..off + 12]) == |es[k].name|
            && page[off + 12..off + 12 + |es[k].name|] == es[k].name
  {
    hide Encode, EncodeEntry, PageOf, FromLe;
    RecordAt(es, k);
    RecordFields(es, k);
    DecodeEntry(es[k]);
    RecordInPage(Encode(es), Offset(es, k), |es[k].name|);
  }

  /** A record that lies in the contents lies at the same place in the first page. */
  lemma RecordInPage(content: seq<Byte>, off: nat, len: nat)
    requires off + RECORD_SIZE + len <= |content| <= PAGE_SIZE
    ensures var p := PageOf(content, 0);
            && p[off..off + 8] == content[off..off + RECORD_SIZE][..8]
            && p[off + 8..off + 12] == content[off..off + RECORD_SIZE][8..12]
            && p[off + 12..off + 12 + len] == content[off + RECORD_SIZE..off + RECORD_SIZE + len]
  {
    var p := PageOf(content, 0);
    assert p[..|content|] == content;
    SliceOfSlice(content, off, off + RECORD_SIZE, 0, 8);
    SliceOfSlice(content, off, off + RECORD_SIZE, 8, 12);
  }

  // ---- From the writer's tree to what the bootloader reads ----

  /** In a volume, each node's file is readable, and the exact search of a directory finds
      the child of that name. */
  lemma NodeReadable(volume: Volume, l: Layout, p: Path)
    requires Valid(volume, l) && Exists(l.tree, p)
    ensures WellFormed(l.tree) && NodesOk(l) && p in l.node
    ensures HoldsFile(volume.pages[..], l.node[p], ContentOf(l, p))
  {
    hide VolumeOk, Tight, HoldsFile, ContentOf;
    WriterSatisfiesReader(volume.pages[..], volume.nextInode, volume.owner, volume.files, l.node[p]);
  }

  lemma ExactChild(volume: Volume, l: Layout, p: Path, name: Name)
    requires Valid(volume, l) && p in l.tree.dirs && Exists(l.tree, p + [name])
    ensures WellFormed(l.tree) && NodesOk(l) && name in Names(Entries(l, p))
    ensures var es := Entries(l, p); var i := FirstExact(Names(es), name);
            i < |es| && es[i].inode == l.node[p + [name]]
  {
    hide VolumeOk, Tight, ContentOf;
    SnocPath(p, name);
    ExactIsThere(Names(Entries(l, p)), name);
  }

  const BOOT: Name := [98, 111, 111, 116]
  const INITRAM: Name := [105, 110, 105, 116, 114, 97, 109]

  /** `initram_init` of the bootloader: whatever volume the writer left, if it has a file
      `/boot/initram` and the two directories fit in a page, the bootloader ends up with
      exactly that file's bytes, padded with zeros. */
  method InitramInit(r: Reader, ghost volume: Volume, ghost l: Layout) returns (size: nat, initram: seq<Byte>)
    requires Valid(volume, l) && r.disk == volume.pages[..]
    requires [BOOT, INITRAM] in l.tree.files
    requires [] in l.tree.dirs && DirSize(l.tree.dirs[[]]) <= PAGE_SIZE
    requires [BOOT] in l.tree.dirs && DirSize(l.tree.dirs[[BOOT]]) <= PAGE_SIZE
    modifies r
    ensures var data := l.tree.files[[BOOT, INITRAM]];
            && size == |data| <= |initram| < |data| + 4096 && |initram| % 4096 == 0 && initram[..|data|] == data
            && forall i :: |data| <= i < |initram| ==> initram[i] == 0
  {
    hide Valid, Field, HoldsFile, Encode, DirSize, Padded, FirstExact, WellFormed;
    var root: Path := [];
    assert root + [BOOT] == [BOOT] && [BOOT] + [INITRAM] == [BOOT, INITRAM];
    DiskFacts(volume, l);
    ReadableDir(volume, l, [], BOOT);
    ReadableDir(volume, l, [BOOT], INITRAM);
    ReadableFile(volume, l, [BOOT, INITRAM]);
    r.Init();
    var inode := r.LookupRoot(BOOT, Entries(l, []));
    inode := r.LookupAt(inode, INITRAM, Entries(l, [BOOT]));
    HeldRange(r.disk, inode, l.tree.files[[BOOT, INITRAM]]);
    size := r.FileSize(inode);
    initram := r.Read(inode, l.tree.files[[BOOT, INITRAM]]);
    PaddedIs(l.tree.files[[BOOT, INITRAM]]);
  }

  lemma HeldRange(disk: Image, inode: nat, content: seq<Byte>)
    requires HoldsFile(disk, inode, content)
    ensures RESERVED_PAGES + inode < |disk| && HeaderSize(At(disk, inode)) == |content|
  {
  }

  lemma DiskFacts(volume: Volume, l: Layout)
    requires Valid(volume, l)
    ensures METADATA_PAGE < |volume.pages[..]| && WellFormed(l.tree) && NodesOk(l) && [] in l.node
    ensures Field(volume.pages[..][METADATA_PAGE], OFF_META_ROOT) == volume.root == l.node[[]]
  {
    hide VolumeOk, Tight, ContentOf, Field;
    assert Exists(l.tree, []);
  }

  lemma ReadableDir(volume: Volume, l: Layout, p: Path, name: Name)
    requires Valid(volume, l) && p in l.tree.dirs && Exists(l.tree, p + [name])
    ensures WellFormed(l.tree) && NodesOk(l) && p in l.node && p + [name] in l.node
    ensures HoldsFile(volume.pages[..], l.node[p], Encode(Entries(l, p)))
    ensures EntriesOk(Entries(l, p)) && |Encode(Entries(l, p))| == DirSize(l.tree.dirs[p])
    ensures name in Names(Entries(l, p))
    ensures var es := Entries(l, p); var i := FirstExact(Names(es), name);
            i < |es| && es[i].inode == l.node[p + [name]]
  {
    hide VolumeOk, Tight, Encode, HoldsFile, Field, DirSize, FirstExact;
    DirFacts(volume, l, p);
    NodeReadable(volume, l, p);
    ExactChild(volume, l, p, name);
  }

  lemma ReadableFile(volume: Volume, l: Layout, p: Path)
    requires Valid(volume, l) && p in l.tree.files
    ensures p in l.node && HoldsFile(volume.pages[..], l.node[p], l.tree.files[p])
  {
    hide VolumeOk, Tight, HoldsFile, Field;
    NodeReadable(volume, l, p);
  }
}
