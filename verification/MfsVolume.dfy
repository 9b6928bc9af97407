/** The volume writer, `tools/mkvolume.c`: page allocation and file contents. */
module MfsVolume {
  import opened Bytes
  import opened MfsFormat

  /** An open file: the position moves as it is read and written. */
  class OpenFile {
    const inode: nat
    var pos: nat

    constructor (inode: nat)
      ensures this.inode == inode && pos == 0
    {
      this.inode := inode;
      pos := 0;
    }
  }

  /** Pages that `ptr_from_data_index` must allocate to reach page `k`. */
  ghost function PointerCost(img: Image, f: nat, k: nat): nat
    requires k < MAX_PAGES
  {
    if DataInode(img, f, k) != 0 then 0
    else if k >= DATA_POINTERS && HeaderIdata(At(img, f)) == 0 then 2
    else 1
  }

  lemma OneAlloc(next: nat)
    ensures NextInodes(next, 0) == next && NextInodes(next, 1) == NextInode(next)
    ensures NextInodes(next, 2) == NextInode(NextInode(next))
    ensures NextInode(next) <= NextInodes(next, 2)
  {
    assert NextInodes(NextInode(next), 1) == NextInodes(NextInode(NextInode(next)), 0);
  }

  /** The pages that the header of `f` leads to lie inside the volume. */
  lemma OwnedInRange(img: Image, next: nat, owner: Owners, files: Files, f: nat)
    requires VolumeOk(img, next, owner, files) && f in files
    ensures RESERVED_PAGES + f < |img| && RESERVED_PAGES + HeaderIdata(At(img, f)) < |img|
    ensures RESERVED_PAGES + next < |img|
    ensures forall k :: 0 <= k < MAX_PAGES ==> RESERVED_PAGES + DataInode(img, f, k) < |img|
  {
    hide Field, DataInode, ZeroPage, PageOf, BitmapBit;
    assert Allocated(f, next) && FileOk(img, owner, f, files[f]);
    var ind := HeaderIdata(At(img, f));
    assert ind != 0 ==> Allocated(ind, next);
    forall k | 0 <= k < MAX_PAGES
      ensures RESERVED_PAGES + DataInode(img, f, k) < |img|
    {
      assert PointerOk(img, owner, f, files[f], k);
      var p := DataInode(img, f, k);
      assert p != 0 ==> Allocated(p, next);
    }
  }

  /** The pages that appending `len` bytes to a file of `size` bytes takes, up to the
      point where the file has become too large. */
  function WriteCost(size: nat, len: nat): nat {
    if size + len <= 4096 * MAX_PAGES then PagesOwned(size + len) - PagesOwned(size)
    else if size <= 4096 * MAX_PAGES then PagesOwned(4096 * MAX_PAGES) - PagesOwned(size)
    else 0
  }

  lemma WriteCostSplit(size: nat, a: nat, b: nat)
    requires size + a <= 4096 * MAX_PAGES
    ensures WriteCost(size, a + b) == WriteCost(size, a) + WriteCost(size + a, b)
  {
  }

  lemma RoundCost(size: nat, len: nat)
    requires size < 4096 * MAX_PAGES && 0 < len <= 4096 - size % 4096
    ensures WriteCost(size, len) == if size % 4096 != 0 then 0 else if size / 4096 == DATA_POINTERS then 2 else 1
  {
    var k := size / 4096;
    assert PageCount(size + len) == k + 1;
    assert PageCount(size) == if size % 4096 == 0 then k else k + 1;
  }

  /** In a tight file the page at the end is missing exactly when the size is a multiple
      of the page size, and the indirect page exactly when page 16 is the first missing. */
  lemma TightCost(img: Image, next: nat, owner: Owners, files: Files, f: nat)
    requires VolumeOk(img, next, owner, files) && f in files && Tight(img, f, files[f])
    requires |files[f]| < 4096 * MAX_PAGES
    ensures var size := |files[f]|;
            PointerCost(img, f, size / 4096)
            == if size % 4096 != 0 then 0 else if size / 4096 == DATA_POINTERS then 2 else 1
  {
    hide Field, PageOf, ZeroPage, AllocOk;
    var size := |files[f]|;
    var k := size / 4096;
    assert FileOk(img, owner, f, files[f]) && PointerOk(img, owner, f, files[f], k);
    if k > DATA_POINTERS {
      assert PointerOk(img, owner, f, files[f], DATA_POINTERS);
    }
  }

  class Volume {
    const pages: array<Page>
    const now: nat
    var nextInode: nat
    var root: nat
    ghost var owner: Owners
    ghost var files: Files

    /** A zeroed volume of `npages` pages, before its first allocation. */
    constructor (npages: nat, now: nat)
      requires RESERVED_PAGES < npages <= 0x80000
      ensures pages.Length == npages && fresh(pages) && nextInode == 0 && this.now == now
      ensures Ok() && owner == map[] && files == map[]
    {
      hide HasBit, Field;
      pages := new Page[npages](_ => ZeroPage());
      this.now := now;
      nextInode := 0;
      owner := map[];
      files := map[];
      new;
      assert forall i: nat :: At(pages[..], i) == ZeroPage();
      forall i: nat
        ensures !BitmapBit(pages[..], i)
      {
        ZeroBits(i % BITMAP_SIZE % 8);
      }
    }

    ghost predicate Ok()
      reads this, pages
    {
      VolumeOk(pages[..], nextInode, owner, files)
    }

    ghost predicate AllTight()
      reads this, pages
    {
      forall f :: f in files ==> Tight(pages[..], f, files[f])
    }

    /** There is room for `k` more pages. */
    ghost predicate Room(k: nat)
      reads this
    {
      RESERVED_PAGES + NextInodes(nextInode, k) < pages.Length
    }

    /** The reserved pages are as they were, and so are modes and times of the files. */
    twostate predicate ReservedKept()
      reads this, pages
    {
      && (forall i :: 0 <= i < RESERVED_PAGES && i < pages.Length ==> pages[i] == old(pages[i]))
      && StampsSame(old(pages[..]), pages[..], old(files))
    }

    method AllocPage(ghost role: Role) returns (inode: nat)
      requires AllocOk(pages[..], nextInode, owner) && Room(1)
      modifies this`nextInode, this`owner, pages
      ensures inode == nextInode == NextInode(old(nextInode))
      ensures RESERVED_PAGES + inode < pages.Length
      ensures pages[..] == MarkAllocated(old(pages[..]), inode)
      ensures owner == old(owner)[inode := role]
    {
      OneAlloc(nextInode);
      nextInode := nextInode + 1;
      if nextInode % BITMAP_SIZE == 0 {
        nextInode := nextInode + 1;
      }
      var bit := nextInode % BITMAP_SIZE;
      var bitmap := nextInode / BITMAP_SIZE * BITMAP_SIZE;
      pages[RESERVED_PAGES + bitmap] := MarkBit(pages[RESERVED_PAGES + bitmap], bit);
      owner := owner[nextInode := role];
      inode := nextInode;
    }

    /** The page holding page `index` of file `f`, allocated when it is missing.
        `ok` is false where the program exits because the file is too large. */
    method PtrFromDataIndex(f: nat, index: nat) returns (ok: bool, inode: nat)
      requires Ok() && f in files
      requires index < MAX_PAGES ==> Room(PointerCost(pages[..], f, index))
      modifies this`nextInode, this`owner, pages
      ensures ok <==> index < MAX_PAGES
      ensures !ok ==> pages[..] == old(pages[..]) && nextInode == old(nextInode)
      ensures ok ==> Ok() && ReservedKept() && inode != 0 && DataInode(pages[..], f, index) == inode
      ensures ok ==> forall j :: 0 <= j < MAX_PAGES && j != index ==>
                DataInode(pages[..], f, j) == DataInode(old(pages[..]), f, j)
      ensures ok && index < DATA_POINTERS ==> HeaderIdata(At(pages[..], f)) == HeaderIdata(At(old(pages[..]), f))
      ensures ok ==> forall g :: g in files && g != f ==> SameShape(old(pages[..]), pages[..], g)
      ensures ok ==> nextInode == NextInodes(old(nextInode), PointerCost(old(pages[..]), f, index))
      ensures ok && DataInode(old(pages[..]), f, index) != 0 ==> pages[..] == old(pages[..]) && owner == old(owner)
    {
      hide AllocOk, FilesOk, Field, ZeroPage, MarkBit, NextInodes, NextInode;
      OwnedInRange(pages[..], nextInode, owner, files, f);
      OneAlloc(nextInode);
      if index < DATA_POINTERS {
        inode := HeaderData(pages[RESERVED_PAGES + f], index);
        if inode == 0 {
          inode := LinkDirectPage(f, index);
        }
        ok := true;
      } else if index < IDATA_POINTERS + DATA_POINTERS {
        inode := HeaderIdata(pages[RESERVED_PAGES + f]);
        if inode == 0 {
          inode := LinkIndirectPage(f);
          OneAlloc(nextInode);
        }
        var page := inode;
        OwnedInRange(pages[..], nextInode, owner, files, f);
        inode := IndirectEntry(pages[RESERVED_PAGES + page], index - DATA_POINTERS);
        if inode == 0 {
          inode := LinkEntryPage(f, page, index);
        }
        ok := true;
      } else {
        ok, inode := false, 0;
      }
    }

    /** `file->data[index] = alloc_page(volume)` */
    method LinkDirectPage(f: nat, index: nat) returns (inode: nat)
      requires Ok() && f in files && index < DATA_POINTERS && DataInode(pages[..], f, index) == 0 && Room(1)
      modifies this`nextInode, this`owner, pages
      ensures Ok() && ReservedKept() && inode != 0
      ensures HeaderIdata(At(pages[..], f)) == HeaderIdata(At(old(pages[..]), f))
      ensures Grown(old(pages[..]), pages[..], f, index, inode)
      ensures forall g :: g in files && g != f ==> SameShape(old(pages[..]), pages[..], g)
      ensures nextInode == NextInode(old(nextInode))
    {
      hide AllocOk, FilesOk, DataInode, Field, ZeroPage, SameShape, Grown, MarkBit, NextInodes, Splice, Le, WithData,
           WithEntry;
      ghost var img := pages[..];
      OneAlloc(nextInode);
      LinkDirectOk(img, nextInode, owner, files, f, index);
      LinkDirectStamps(img, nextInode, owner, files, f, index);
      inode := AllocPage(Data(f, index));
      pages[RESERVED_PAGES + f] := WithData(pages[RESERVED_PAGES + f], index, inode);
      assert pages[..] == LinkDirect(img, f, index, inode);
    }

    /** `file->idata = alloc_page(volume)` */
    method LinkIndirectPage(f: nat) returns (inode: nat)
      requires Ok() && f in files && HeaderIdata(At(pages[..], f)) == 0 && Room(1)
      modifies this`nextInode, this`owner, pages
      ensures Ok() && ReservedKept() && HeaderIdata(At(pages[..], f)) == inode != 0
      ensures forall j :: 0 <= j < MAX_PAGES ==> DataInode(pages[..], f, j) == DataInode(old(pages[..]), f, j)
      ensures forall g :: g in files && g != f ==> SameShape(old(pages[..]), pages[..], g)
      ensures nextInode == NextInode(old(nextInode))
    {
      hide AllocOk, FilesOk, DataInode, Field, ZeroPage, SameShape, MarkBit, NextInodes, Splice, Le, WithIdata;
      ghost var img := pages[..];
      OneAlloc(nextInode);
      LinkIndirectOk(img, nextInode, owner, files, f);
      LinkIndirectStamps(img, nextInode, owner, files, f);
      inode := AllocPage(Indirect(f));
      pages[RESERVED_PAGES + f] := WithIdata(pages[RESERVED_PAGES + f], inode);
      assert pages[..] == LinkIndirect(img, f, inode);
    }

    /** `page->inodes[index - 16] = alloc_page(volume)` */
    method LinkEntryPage(f: nat, page: nat, index: nat) returns (inode: nat)
      requires Ok() && f in files && HeaderIdata(At(pages[..], f)) == page != 0 && Room(1)
      requires DATA_POINTERS <= index < MAX_PAGES && DataInode(pages[..], f, index) == 0
      modifies this`nextInode, this`owner, pages
      ensures Ok() && ReservedKept() && inode != 0
      ensures HeaderIdata(At(pages[..], f)) == page
      ensures Grown(old(pages[..]), pages[..], f, index, inode)
      ensures forall g :: g in files && g != f ==> SameShape(old(pages[..]), pages[..], g)
      ensures nextInode == NextInode(old(nextInode))
    {
      hide AllocOk, FilesOk, DataInode, Field, ZeroPage, SameShape, Grown, MarkBit, NextInodes, Splice, Le, WithData,
           WithEntry;
      ghost var img := pages[..];
      OneAlloc(nextInode);
      LinkEntryOk(img, nextInode, owner, files, f, index);
      LinkEntryStamps(img, nextInode, owner, files, f, index);
      inode := AllocPage(Data(f, index));
      pages[RESERVED_PAGES + page] := WithEntry(pages[RESERVED_PAGES + page], index - DATA_POINTERS, inode);
      assert pages[..] == LinkEntry(img, f, index, inode);
    }

    /** One round of the loop of `file_write`: store `chunk` at the end of the file. */
    method WriteRound(f: OpenFile, chunk: seq<Byte>) returns (ok: bool)
      requires Ok() && AllTight() && f.inode in files && f.pos == |files[f.inode]|
      requires chunk != [] && f.pos % 4096 + |chunk| <= 4096
      requires f.pos < 4096 * MAX_PAGES ==> Room(WriteCost(f.pos, |chunk|))
      modifies this`nextInode, this`owner, this`files, pages, f`pos
      ensures ok <==> old(f.pos) < 4096 * MAX_PAGES
      ensures ok ==> Ok() && AllTight() && ReservedKept() && f.pos == old(f.pos) + |chunk|
      ensures ok ==> files == old(files)[f.inode := old(files)[f.inode] + chunk]
      ensures ok ==> nextInode == NextInodes(old(nextInode), WriteCost(old(f.pos), |chunk|))
    {
      hide VolumeOk, Field, NextInodes, DataInode, PointerCost, WriteCost, Tight, SameShape, StampsSame;
      ghost var img0, files0 := pages[..], files;
      if f.pos < 4096 * MAX_PAGES {
        TightCost(img0, nextInode, owner, files, f.inode);
        RoundCost(f.pos, |chunk|);
      }
      var pageIndex := f.pos / PAGE_SIZE;
      var inode;
      ok, inode := PtrFromDataIndex(f.inode, pageIndex);
      if !ok {
        return;
      }
      ghost var img := pages[..];
      StoreChunk(f, inode, chunk);
      StampsOn(img0, img, pages[..], files0, files0);
      GrownTight(img0, img, pages[..], old(files), f.inode, chunk);
    }

    /** The memcpy into the data page and the updates of position and size. */
    method StoreChunk(f: OpenFile, inode: nat, chunk: seq<Byte>)
      requires Ok() && f.inode in files && f.pos == |files[f.inode]| < 4096 * MAX_PAGES
      requires f.pos % 4096 + |chunk| <= 4096
      requires inode == DataInode(pages[..], f.inode, f.pos / 4096) != 0
      modifies this`files, pages, f`pos
      ensures Ok() && ReservedKept() && f.pos == old(f.pos) + |chunk|
      ensures files == old(files)[f.inode := old(files)[f.inode] + chunk]
      ensures forall g :: g in files ==> SameShape(old(pages[..]), pages[..], g)
    {
      hide AllocOk, FilesOk, Field, ZeroPage, PageOf, Splice, Le, WithSize, DataInode, SameShape, StampsSame;
      ghost var img := pages[..];
      AppendOk(img, nextInode, owner, files, f.inode, chunk);
      AppendStamps(img, nextInode, owner, files, f.inode, f.pos / 4096, f.pos, chunk);
      SizeField(img, nextInode, owner, files, f.inode);
      DataIsNotHeader(img, owner, files, f.inode, f.pos / 4096);
      var h := RESERVED_PAGES + f.inode;
      pages[RESERVED_PAGES + inode] := Splice(pages[RESERVED_PAGES + inode], f.pos % PAGE_SIZE, chunk);
      pages[h] := WithSize(pages[h], HeaderSize(pages[h]) + |chunk|);
      assert pages[..] == Appended(img, f.inode, inode, f.pos, chunk);
      f.pos := f.pos + |chunk|;
      files := files[f.inode := files[f.inode] + chunk];
    }

    method FileWrite(buf: seq<Byte>, f: OpenFile) returns (ok: bool)
      requires Ok() && AllTight() && f.inode in files && f.pos == |files[f.inode]|
      requires |files[f.inode]| <= 4096 * MAX_PAGES && Room(WriteCost(f.pos, |buf|))
      modifies this`nextInode, this`owner, this`files, pages, f`pos
      ensures ok <==> old(f.pos) + |buf| <= 4096 * MAX_PAGES
      ensures ok ==> Ok() && AllTight() && ReservedKept() && f.pos == old(f.pos) + |buf|
      ensures ok ==> files == old(files)[f.inode := old(files)[f.inode] + buf]
      ensures ok ==> nextInode == NextInodes(old(nextInode), WriteCost(old(f.pos), |buf|))
    {
      hide VolumeOk, Tight, NextInodes, WriteCost, StampsSame;
      ghost var size, content := f.pos, files[f.inode];
      StampsSelf(pages[..], files);
      var res := 0;
      assert WriteCost(size, 0) == 0 && NextInodes(nextInode, 0) == nextInode by { ZeroCost(size, nextInode); }
      assert content + buf[..0] == content;
      while res < |buf|
        invariant 0 <= res <= |buf|
        invariant Ok() && AllTight() && ReservedKept()
        invariant f.pos == size + res <= 4096 * MAX_PAGES
        invariant files == old(files)[f.inode := content + buf[..res]]
        invariant nextInode == NextInodes(old(nextInode), WriteCost(size, res))
      {
        var tmp := PAGE_SIZE - f.pos % PAGE_SIZE;
        if tmp > |buf| - res {
          tmp := |buf| - res;
        }
        var chunk := buf[res..res + tmp];
        if f.pos < 4096 * MAX_PAGES {
          RoomLeft(old(nextInode), size, res, tmp, |buf|);
        }
        ghost var img1, files1 := pages[..], files;
        var more := WriteRound(f, chunk);
        if !more {
          return false;
        }
        StampsOn(old(pages[..]), img1, pages[..], old(files), files1);
        assert buf[..res + tmp] == buf[..res] + chunk;
        assert content + buf[..res] + chunk == content + buf[..res + tmp];
        res := res + tmp;
      }
      assert buf[..res] == buf;
      ok := true;
    }

    /** Reads up to `len` bytes; the volume is only read, never allocated in. */
    method FileRead(f: OpenFile, len: nat) returns (buf: seq<Byte>)
      requires Ok() && f.inode in files && f.pos <= |files[f.inode]|
      modifies this`nextInode, this`owner, pages, f`pos
      ensures pages[..] == old(pages[..]) && nextInode == old(nextInode) && owner == old(owner)
      ensures f.pos == old(f.pos) + |buf|
      ensures f.pos == if old(f.pos) + len <= |files[f.inode]| then old(f.pos) + len else |files[f.inode]|
      ensures buf == files[f.inode][old(f.pos)..f.pos]
    {
      hide VolumeOk, Field, ZeroPage, PageOf, DataInode, NextInodes, SameShape, Splice, StampsSame;
      ghost var content := files[f.inode];
      var left: nat := len;
      buf := [];
      SizeField(pages[..], nextInode, owner, files, f.inode);
      OwnedInRange(pages[..], nextInode, owner, files, f.inode);
      while left != 0 && f.pos != HeaderSize(pages[RESERVED_PAGES + f.inode])
        invariant pages[..] == old(pages[..]) && nextInode == old(nextInode) && owner == old(owner)
        invariant HeaderSize(pages[RESERVED_PAGES + f.inode]) == |content|
        invariant |buf| + left == len && f.pos == old(f.pos) + |buf| <= |content|
        invariant buf == content[old(f.pos)..f.pos]
        decreases left
      {
        var size := HeaderSize(pages[RESERVED_PAGES + f.inode]);
        var pageIndex, pageOffset := f.pos / PAGE_SIZE, f.pos % PAGE_SIZE;
        PageHolds(pages[..], nextInode, owner, files, f.inode, f.pos);
        var ok, src := PtrFromDataIndex(f.inode, pageIndex);
        assert pages[RESERVED_PAGES + f.inode] == pages[..][RESERVED_PAGES + f.inode];
        var tmp := PAGE_SIZE - pageOffset;
        if tmp > left {
          tmp := left;
        }
        if tmp + f.pos > size {
          tmp := size - f.pos;
        }
        PageSlice(content, f.pos, tmp);
        assert content[old(f.pos)..f.pos] + content[f.pos..f.pos + tmp] == content[old(f.pos)..f.pos + tmp];
        buf := buf + pages[RESERVED_PAGES + src][pageOffset..pageOffset + tmp];
        f.pos := f.pos + tmp;
        left := left - tmp;
      }
    }

    method CreateFileRaw(mode: nat) returns (inode: nat)
      requires Ok() && AllTight() && Room(1)
      modifies this`nextInode, this`owner, this`files, pages
      ensures Ok() && AllTight() && ReservedKept()
      ensures inode == nextInode == NextInode(old(nextInode)) && inode !in old(files) && inode != 0
      ensures files == old(files)[inode := []]
      ensures mode < U32_LIMIT ==> Stamped(At(pages[..], inode), mode, now)
    {
      hide FilesOk, Field, ZeroPage, Stamp, DataInode, NextInodes, MarkBit, Tight, SameShape, StampsSame, Stamped;
      ghost var img, files0 := pages[..], files;
      OneAlloc(nextInode);
      AllocStep(img, nextInode, owner, Header);
      FreshHeaderFields(mode, now);
      CreateOk(img, nextInode, owner, files, Stamp(ZeroPage(), mode, now));
      CreateStamps(img, nextInode, owner, files, Stamp(ZeroPage(), mode, now));
      if mode < U32_LIMIT {
        FreshStamp(mode, now);
      }
      inode := AllocPage(Header);
      StampHeader(inode, mode);
      assert pages[..] == Put(MarkAllocated(img, inode), inode, Stamp(ZeroPage(), mode, now));
      files := files[inode := []];
      CreatedTight(img, pages[..], files0, inode);
    }

    method StampHeader(inode: nat, mode: nat)
      requires RESERVED_PAGES + inode < pages.Length
      modifies pages
      ensures pages[..] == Put(old(pages[..]), inode, Stamp(old(pages[RESERVED_PAGES + inode]), mode, now))
    {
      hide Splice, Le;
      var h := RESERVED_PAGES + inode;
      pages[h] := Splice(pages[h], 0, Le(mode, 4));
      pages[h] := Splice(pages[h], 24, Le(now, 8));
      pages[h] := Splice(pages[h], 32, Le(now, 8));
      pages[h] := Splice(pages[h], 40, Le(now, 8));
      pages[h] := Splice(pages[h], 48, Le(now, 8));
    }
  }

  /** A header page with its mode and four times filled in. */
  function Stamp(p: Page, mode: nat, now: nat): Page {
    var t := Le(now, 8);
    Splice(Splice(Splice(Splice(Splice(p, 0, Le(mode, 4)), 24, t), 32, t), 40, t), 48, t)
  }

  lemma FreshHeaderFields(mode: nat, now: nat)
    ensures var p := Stamp(ZeroPage(), mode, now);
            && HeaderSize(p) == 0 && HeaderIdata(p) == 0
            && forall k :: 0 <= k < DATA_POINTERS ==> HeaderData(p, k) == 0
  {
    hide Splice, Le;
    var p := Stamp(ZeroPage(), mode, now);
    assert forall i :: 16 <= i < 24 || 56 <= i < 4096 ==> p[i] == 0;
    ZerosDecodeToZero(p[16..24]);
    forall off: nat | 56 <= off && off + 8 <= 4096
      ensures Field(p, off) == 0
    {
      ZerosDecodeToZero(p[off..off + 8]);
    }
  }

  lemma FreshStamp(mode: nat, now: nat)
    requires mode < U32_LIMIT
    ensures Stamped(Stamp(ZeroPage(), mode, now), mode, now)
  {
    hide Splice, Le;
    var p := Stamp(ZeroPage(), mode, now);
    assert p[..4] == Le(mode, 4);
    assert p[24..32] == Le(now, 8) && p[32..40] == Le(now, 8) && p[40..48] == Le(now, 8) && p[48..56] == Le(now, 8);
    Pow256Words();
    LeRoundTrip(mode, 4);
    if now < U64_LIMIT {
      LeRoundTrip(now, 8);
    }
  }

  lemma CreatedTight(img: Image, img': Image, files: Files, n: nat)
    requires forall f :: f in files ==> Tight(img, f, files[f])
    requires forall f :: f in files ==> SameShape(img, img', f)
    requires forall k :: 0 <= k < MAX_PAGES ==> DataInode(img', n, k) == 0
    requires HeaderIdata(At(img', n)) == 0 && n !in files
    ensures var files' := files[n := []]; forall f :: f in files' ==> Tight(img', f, files'[f])
  {
    hide Field, DataInode;
    forall f | f in files
      ensures Tight(img', f, files[f])
    {
      assert Tight(img, f, files[f]) && SameShape(img, img', f);
    }
  }

  /** The page under a position inside a file exists and holds the file's bytes. */
  lemma PageHolds(img: Image, next: nat, owner: Owners, files: Files, f: nat, pos: nat)
    requires VolumeOk(img, next, owner, files) && f in files && pos < |files[f]|
    ensures pos / 4096 < MAX_PAGES && PointerCost(img, f, pos / 4096) == 0
    ensures NextInodes(next, 0) == next
    ensures DataInode(img, f, pos / 4096) != 0
    ensures At(img, DataInode(img, f, pos / 4096)) == PageOf(files[f], pos / 4096)
  {
    hide Field, PageOf, DataInode;
    assert FileOk(img, owner, f, files[f]);
    assert PointerOk(img, owner, f, files[f], pos / 4096);
  }

  lemma PageSlice(content: seq<Byte>, pos: nat, len: nat)
    requires pos + len <= |content| && pos % 4096 + len <= 4096
    ensures PageOf(content, pos / 4096)[pos % 4096..pos % 4096 + len] == content[pos..pos + len]
  {
  }

  lemma ZeroCost(size: nat, next: nat)
    requires size <= 4096 * MAX_PAGES
    ensures WriteCost(size, 0) == 0 && NextInodes(next, 0) == next
  {
  }

  lemma RoomLeft(next: nat, size: nat, res: nat, tmp: nat, len: nat)
    requires size + res < 4096 * MAX_PAGES && 0 < tmp <= 4096 - (size + res) % 4096 && res + tmp <= len
    ensures size + res + tmp <= 4096 * MAX_PAGES
    ensures NextInodes(NextInodes(next, WriteCost(size, res)), WriteCost(size + res, tmp))
            == NextInodes(next, WriteCost(size, res + tmp)) <= NextInodes(next, WriteCost(size, len))
  {
    WriteCostSplit(size, res, tmp);
    WriteCostSplit(size, res + tmp, len - res - tmp);
    NextInodesAdd(next, WriteCost(size, res), WriteCost(size + res, tmp));
    NextInodesAdd(next, WriteCost(size, res + tmp), WriteCost(size + res + tmp, len - res - tmp));
  }

  lemma SizeField(img: Image, next: nat, owner: Owners, files: Files, f: nat)
    requires VolumeOk(img, next, owner, files) && f in files
    ensures HeaderSize(At(img, f)) == |files[f]| <= 4096 * MAX_PAGES
  {
    assert FileOk(img, owner, f, files[f]);
  }

  /** A data page is never the header. */
  lemma DataIsNotHeader(img: Image, owner: Owners, files: Files, f: nat, k: nat)
    requires FilesOk(img, owner, files) && f in files && k < MAX_PAGES && DataInode(img, f, k) != 0
    ensures DataInode(img, f, k) != f
  {
    hide Field, PageOf;
    assert FileOk(img, owner, f, files[f]) && PointerOk(img, owner, f, files[f], k);
  }

  lemma GrownTight(img0: Image, img: Image, img': Image, files: Files, f: nat, chunk: seq<Byte>)
    requires f in files && chunk != []
    requires forall g :: g in files ==> Tight(img0, g, files[g])
    requires |files[f]| / 4096 < MAX_PAGES
    requires forall j :: 0 <= j < MAX_PAGES && j != |files[f]| / 4096 ==> DataInode(img, f, j) == DataInode(img0, f, j)
    requires |files[f]| / 4096 < DATA_POINTERS ==> HeaderIdata(At(img, f)) == HeaderIdata(At(img0, f))
    requires forall g :: g in files && g != f ==> SameShape(img0, img, g)
    requires forall g :: g in files ==> SameShape(img, img', g)
    ensures var files' := files[f := files[f] + chunk]; forall g :: g in files' ==> Tight(img', g, files'[g])
  {
    hide Field, DataInode;
    var files' := files[f := files[f] + chunk];
    forall g | g in files'
      ensures Tight(img', g, files'[g])
    {
      assert Tight(img0, g, files[g]);
      assert SameShape(img, img', g);
    }
  }
}
