/** The Miaou File System on disk: page layout, and what it means for a page image to
    hold a set of files. */
module MfsFormat {
  import opened Bytes

  const PAGE_SIZE: nat := 4096
  const RESERVED_PAGES: nat := 64
  const METADATA_PAGE: nat := 63
  const BITMAP_SIZE: nat := 32768
  const DATA_POINTERS: nat := 16
  const IDATA_POINTERS: nat := 512
  const MAX_PAGES: nat := 528

  const OFF_SIZE: nat := 16
  const OFF_DATA: nat := 56
  const OFF_IDATA: nat := 184
  const OFF_META_ROOT: nat := 16

  type Page = p: seq<Byte> | |p| == 4096 witness seq(4096, _ => 0)

  function ZeroPage(): (p: Page)
    ensures forall i :: 0 <= i < 4096 ==> p[i] == 0
  {
    seq(4096, _ => 0)
  }

  /** The whole volume, reserved pages included. */
  type Image = seq<Page>

  /** The page of an inode; pages past the end of the volume read as zero. */
  function At(img: Image, inode: nat): Page {
    if RESERVED_PAGES + inode < |img| then img[RESERVED_PAGES + inode] else ZeroPage()
  }

  function Put(img: Image, inode: nat, p: Page): (r: Image)
    requires RESERVED_PAGES + inode < |img|
    ensures |r| == |img|
    ensures forall i: nat :: At(r, i) == if i == inode then p else At(img, i)
  {
    img[RESERVED_PAGES + inode := p]
  }

  // The fields of a file header and of an indirect page.

  function HeaderSize(p: Page): nat {
    Field(p, OFF_SIZE)
  }

  function HeaderData(p: Page, k: nat): nat
    requires k < DATA_POINTERS
  {
    Field(p, OFF_DATA + 8 * k)
  }

  function HeaderIdata(p: Page): nat {
    Field(p, OFF_IDATA)
  }

  function IndirectEntry(p: Page, k: nat): nat
    requires k < IDATA_POINTERS
  {
    Field(p, 8 * k)
  }

  /** The inode of the `k`-th data page of file `f`, 0 when there is none. */
  function DataInode(img: Image, f: nat, k: nat): nat
    requires k < MAX_PAGES
  {
    if k < DATA_POINTERS then HeaderData(At(img, f), k)
    else
      var ind := HeaderIdata(At(img, f));
      if ind == 0 then 0 else IndirectEntry(At(img, ind), k - DATA_POINTERS)
  }

  /** The `k`-th page of a byte string, padded with zeros. */
  function PageOf(content: seq<Byte>, k: nat): Page {
    seq(4096, i requires 0 <= i < 4096 =>
      if 4096 * k + i < |content| then content[4096 * k + i] else 0)
  }

  /** Number of data pages of a file of `size` bytes. */
  function PageCount(size: nat): nat {
    (size + 4095) / 4096
  }

  /** Number of pages, indirect page included, that a file of `size` bytes owns
      besides its header. */
  function PagesOwned(size: nat): nat {
    PageCount(size) + if PageCount(size) > DATA_POINTERS then 1 else 0
  }

  // Allocation.

  predicate Allocated(inode: nat, next: nat) {
    1 <= inode <= next && inode % BITMAP_SIZE != 0
  }

  function BitmapBit(img: Image, inode: nat): bool {
    var bit := inode % BITMAP_SIZE;
    HasBit(At(img, inode / BITMAP_SIZE * BITMAP_SIZE)[bit / 8] as nat, bit % 8)
  }

  /** What `next_inode` becomes on one allocation, and on `k` of them. */
  function NextInode(next: nat): nat {
    if (next + 1) % BITMAP_SIZE == 0 then next + 2 else next + 1
  }

  function NextInodes(next: nat, k: nat): nat
    decreases k
  {
    if k == 0 then next else NextInodes(NextInode(next), k - 1)
  }

  lemma {:induction false} NextInodesAdd(next: nat, a: nat, b: nat)
    ensures NextInodes(next, a + b) == NextInodes(NextInodes(next, a), b)
    ensures NextInodes(next, a) <= NextInodes(next, a + b)
    decreases a + b
  {
    if a > 0 {
      NextInodesAdd(NextInode(next), a - 1, b);
    } else if b > 0 {
      NextInodesAdd(NextInode(next), 0, b - 1);
    }
  }

  // Ownership.

  /** What an allocated page is used for. */
  datatype Role = Header | Indirect(file: nat) | Data(file: nat, index: nat)

  type Owners = map<nat, Role>
  type Files = map<nat, seq<Byte>>

  /** The allocator's part of the invariant: the bitmap, the owner map and `next`
      agree, and pages not handed out are still zero. */
  ghost predicate AllocOk(img: Image, next: nat, owner: Owners) {
    && RESERVED_PAGES + next < |img| <= 0x80000
    && (forall i: nat :: i in owner <==> Allocated(i, next))
    && (forall i: nat :: i > next && i % BITMAP_SIZE != 0 ==> At(img, i) == ZeroPage())
    && (forall i: nat {:trigger BitmapBit(img, i)} :: BitmapBit(img, i) <==> Allocated(i, next))
  }

  /** No bitmap page is ever handed out. */
  ghost predicate OffBitmap(owner: Owners) {
    forall i :: i in owner ==> i % BITMAP_SIZE != 0
  }

  /** The `k`-th pointer of `f` is null, or leads to a page owned as that page and
      holding those bytes; it is null only past the end of the contents. */
  ghost predicate PointerOk(img: Image, owner: Owners, f: nat, content: seq<Byte>, k: nat)
    requires k < MAX_PAGES
  {
    var p := DataInode(img, f, k);
    if p == 0 then 4096 * k >= |content|
    else p in owner && owner[p] == Data(f, k) && At(img, p) == PageOf(content, k)
  }

  ghost predicate IndirectOk(owner: Owners, f: nat, ind: nat) {
    ind != 0 ==> ind in owner && owner[ind] == Indirect(f)
  }

  ghost predicate FileOk(img: Image, owner: Owners, f: nat, content: seq<Byte>) {
    && HeaderSize(At(img, f)) == |content| <= 4096 * MAX_PAGES
    && IndirectOk(owner, f, HeaderIdata(At(img, f)))
    && forall k :: 0 <= k < MAX_PAGES ==> PointerOk(img, owner, f, content, k)
  }

  /** Every owner refers back to the page it owns. */
  ghost predicate Linked(img: Image, files: Files, i: nat, role: Role) {
    match role
    case Header => i in files
    case Indirect(f) => f in files && HeaderIdata(At(img, f)) == i
    case Data(f, k) => k < MAX_PAGES && f in files && DataInode(img, f, k) == i
  }

  ghost predicate FilesOk(img: Image, owner: Owners, files: Files) {
    && (forall i :: i in owner ==> Linked(img, files, i, owner[i]))
    && (forall f :: f in files ==> f in owner && owner[f] == Header && FileOk(img, owner, f, files[f]))
  }

  /** The file owns no page past its end. */
  ghost predicate Tight(img: Image, f: nat, content: seq<Byte>) {
    && (HeaderIdata(At(img, f)) != 0 ==> |content| > 4096 * DATA_POINTERS)
    && forall k :: 0 <= k < MAX_PAGES && DataInode(img, f, k) != 0 ==> 4096 * k < |content|
  }

  /** The volume invariant. */
  ghost predicate VolumeOk(img: Image, next: nat, owner: Owners, files: Files) {
    AllocOk(img, next, owner) && FilesOk(img, owner, files)
  }

  // ---- Framing ----

  /** `i` is a page of file `f`. */
  ghost predicate Belongs(owner: Owners, i: nat, f: nat) {
    i in owner && match owner[i] case Header => i == f case Indirect(g) => g == f case Data(g, _) => g == f
  }

  ghost predicate SamePagesOf(img: Image, owner: Owners, img': Image, owner': Owners, f: nat) {
    forall i: nat :: Belongs(owner, i, f) ==> At(img', i) == At(img, i) && i in owner' && owner'[i] == owner[i]
  }

  /** The pointers of `f` lead to the same inodes in both images. */
  ghost predicate SameShape(img: Image, img': Image, f: nat) {
    && HeaderIdata(At(img', f)) == HeaderIdata(At(img, f))
    && forall k :: 0 <= k < MAX_PAGES ==> DataInode(img', f, k) == DataInode(img, f, k)
  }

  /** A file whose own pages are untouched is untouched. */
  lemma FileFrame(img: Image, owner: Owners, img': Image, owner': Owners, f: nat, content: seq<Byte>)
    requires f in owner && owner[f] == Header
    requires FileOk(img, owner, f, content)
    requires SamePagesOf(img, owner, img', owner', f)
    ensures FileOk(img', owner', f, content) && SameShape(img, img', f)
  {
    assert Belongs(owner, f, f);
    var ind := HeaderIdata(At(img, f));
    if ind != 0 {
      assert Belongs(owner, ind, f);
    }
    forall k | 0 <= k < MAX_PAGES
      ensures DataInode(img', f, k) == DataInode(img, f, k)
      ensures PointerOk(img', owner', f, content, k)
    {
      assert PointerOk(img, owner, f, content, k);
      var p := DataInode(img, f, k);
      if p != 0 {
        assert Belongs(owner, p, f);
      }
    }
  }

  /** Changing the pages of one file only: every other file, and all links to other
      files' pages, are preserved. */
  lemma FilesFrame(img: Image, owner: Owners, files: Files, img': Image, owner': Owners, files': Files, f: nat)
    requires FilesOk(img, owner, files)
    requires forall g :: g in files && g != f ==> g in files' && files'[g] == files[g]
    requires forall g :: g in files' && g != f ==> g in files
    requires forall g :: g in files && g != f ==> SamePagesOf(img, owner, img', owner', g)
    requires f in files' && f in owner' && owner'[f] == Header && FileOk(img', owner', f, files'[f])
    requires forall i :: i in owner' && Belongs(owner', i, f) ==> Linked(img', files', i, owner'[i])
    requires forall i :: i in owner' && !Belongs(owner', i, f) ==> i in owner && owner[i] == owner'[i]
    ensures FilesOk(img', owner', files')
    ensures forall g :: g in files && g != f ==> SameShape(img, img', g)
  {
    forall g | g in files && g != f
      ensures FileOk(img', owner', g, files[g]) && SameShape(img, img', g)
      ensures g in owner' && owner'[g] == Header
    {
      FileFrame(img, owner, img', owner', g, files[g]);
      assert Belongs(owner, g, g);
    }
    forall i | i in owner' && !Belongs(owner', i, f)
      ensures Linked(img', files', i, owner'[i])
    {
      assert Linked(img, files, i, owner[i]);
    }
  }

  // ---- The four ways the image changes ----

  /** Setting one bitmap bit. */
  function MarkBit(p: Page, bit: nat): (r: Page)
    requires bit < BITMAP_SIZE
  {
    p[bit / 8 := SetBit(p[bit / 8], bit % 8)]
  }

  /** The image after `alloc_page`: the bit of the new inode is set. */
  function MarkAllocated(img: Image, inode: nat): (r: Image)
    requires RESERVED_PAGES + inode < |img|
    ensures |r| == |img|
  {
    var bitmap := inode / BITMAP_SIZE * BITMAP_SIZE;
    Put(img, bitmap, MarkBit(At(img, bitmap), inode % BITMAP_SIZE))
  }

  lemma MarkAllocatedBits(img: Image, inode: nat, i: nat)
    requires RESERVED_PAGES + inode < |img|
    ensures BitmapBit(MarkAllocated(img, inode), i) <==> i == inode || BitmapBit(img, i)
  {
    if i / BITMAP_SIZE == inode / BITMAP_SIZE {
      var p := At(img, inode / BITMAP_SIZE * BITMAP_SIZE);
      var bit, b := i % BITMAP_SIZE, inode % BITMAP_SIZE;
      if bit / 8 == b / 8 {
        OrBitBits(p[b / 8] as nat, b % 8, bit % 8);
        assert (bit % 8 == b % 8) == (i == inode);
      }
    }
  }

  lemma AllocatedNext(next: nat, i: nat)
    ensures Allocated(i, NextInode(next)) <==> i == NextInode(next) || Allocated(i, next)
    ensures !Allocated(NextInode(next), next)
  {
  }

  /** After an allocation the new page is owned by whatever role its caller gives it. */
  lemma AllocStep(img: Image, next: nat, owner: Owners, role: Role)
    requires AllocOk(img, next, owner) && RESERVED_PAGES + NextInode(next) < |img|
    ensures var n := NextInode(next);
            && n !in owner && n != 0 && At(img, n) == ZeroPage()
            && AllocOk(MarkAllocated(img, n), n, owner[n := role])
            && (forall i: nat :: i % BITMAP_SIZE != 0 ==> At(MarkAllocated(img, n), i) == At(img, i))
  {
    hide BitmapBit, MarkBit;
    var n := NextInode(next);
    var img' := MarkAllocated(img, n);
    var bitmap := n / BITMAP_SIZE * BITMAP_SIZE;
    assert forall i: nat :: i != bitmap ==> At(img', i) == At(img, i);
    forall i: nat
      ensures BitmapBit(img', i) <==> Allocated(i, n)
      ensures Allocated(i, n) <==> i == n || Allocated(i, next)
      ensures !Allocated(n, next)
    {
      MarkAllocatedBits(img, n, i);
      AllocatedNext(next, i);
    }
  }

  lemma AllocFrame(img: Image, next: nat, owner: Owners, inode: nat, p: Page)
    requires AllocOk(img, next, owner) && inode in owner
    ensures RESERVED_PAGES + inode < |img|
    ensures AllocOk(Put(img, inode, p), next, owner)
  {
    var img' := Put(img, inode, p);
    forall i: nat
      ensures BitmapBit(img', i) <==> Allocated(i, next)
    {
      assert BitmapBit(img, i) <==> Allocated(i, next);
      assert i / BITMAP_SIZE * BITMAP_SIZE % BITMAP_SIZE == 0;
      assert At(img', i / BITMAP_SIZE * BITMAP_SIZE) == At(img, i / BITMAP_SIZE * BITMAP_SIZE);
    }
  }

  // ---- Growing a file: each lemma is one store of `ptr_from_data_index` ----

  /** The image and owners after allocating the next inode for a page of file `f` and
      then overwriting page `x`, which `f` owns. */
  ghost predicate OtherFilesKept(img: Image, owner: Owners, img': Image, owner': Owners, f: nat, x: nat, n: nat) {
    && Belongs(owner, x, f) && n !in owner && Belongs(owner', n, f)
    && owner' == owner[n := owner'[n]]
    && forall i: nat :: i % BITMAP_SIZE != 0 && i != x ==> At(img', i) == At(img, i)
  }

  lemma OthersSame(img: Image, owner: Owners, img': Image, owner': Owners, f: nat, x: nat, n: nat, g: nat)
    requires OffBitmap(owner) && OtherFilesKept(img, owner, img', owner', f, x, n)
    requires g != f
    ensures SamePagesOf(img, owner, img', owner', g)
  {
    forall i: nat | Belongs(owner, i, g)
      ensures At(img', i) == At(img, i) && i in owner' && owner'[i] == owner[i]
    {
    }
  }

  /** A header with its `k`-th data pointer, its indirect pointer or its size replaced. */
  function WithData(p: Page, k: nat, n: nat): Page
    requires k < DATA_POINTERS
  {
    Splice(p, OFF_DATA + 8 * k, Le(n, 8))
  }

  function WithIdata(p: Page, n: nat): Page {
    Splice(p, OFF_IDATA, Le(n, 8))
  }

  function WithSize(p: Page, n: nat): Page {
    Splice(p, OFF_SIZE, Le(n, 8))
  }

  /** An indirect page with its `k`-th entry replaced. */
  function WithEntry(p: Page, k: nat, n: nat): Page
    requires k < IDATA_POINTERS
  {
    Splice(p, 8 * k, Le(n, 8))
  }

  lemma WithDataFields(p: Page, k: nat, n: nat)
    requires k < DATA_POINTERS && n < U64_LIMIT
    ensures var q := WithData(p, k, n);
            && HeaderSize(q) == HeaderSize(p) && HeaderIdata(q) == HeaderIdata(p)
            && forall j :: 0 <= j < DATA_POINTERS ==> HeaderData(q, j) == if j == k then n else HeaderData(p, j)
  {
    FieldWritten(p, OFF_DATA + 8 * k, n);
    FieldKept(p, OFF_DATA + 8 * k, Le(n, 8), OFF_SIZE);
    FieldKept(p, OFF_DATA + 8 * k, Le(n, 8), OFF_IDATA);
    forall j | 0 <= j < DATA_POINTERS && j != k
      ensures HeaderData(WithData(p, k, n), j) == HeaderData(p, j)
    {
      FieldKept(p, OFF_DATA + 8 * k, Le(n, 8), OFF_DATA + 8 * j);
    }
  }

  lemma WithIdataFields(p: Page, n: nat)
    requires n < U64_LIMIT
    ensures var q := WithIdata(p, n);
            && HeaderSize(q) == HeaderSize(p) && HeaderIdata(q) == n
            && forall j :: 0 <= j < DATA_POINTERS ==> HeaderData(q, j) == HeaderData(p, j)
  {
    FieldWritten(p, OFF_IDATA, n);
    FieldKept(p, OFF_IDATA, Le(n, 8), OFF_SIZE);
    forall j | 0 <= j < DATA_POINTERS
      ensures HeaderData(WithIdata(p, n), j) == HeaderData(p, j)
    {
      FieldKept(p, OFF_IDATA, Le(n, 8), OFF_DATA + 8 * j);
    }
  }

  lemma WithSizeFields(p: Page, n: nat)
    requires n < U64_LIMIT
    ensures var q := WithSize(p, n);
            && HeaderSize(q) == n && HeaderIdata(q) == HeaderIdata(p)
            && forall j :: 0 <= j < DATA_POINTERS ==> HeaderData(q, j) == HeaderData(p, j)
  {
    FieldWritten(p, OFF_SIZE, n);
    FieldKept(p, OFF_SIZE, Le(n, 8), OFF_IDATA);
    forall j | 0 <= j < DATA_POINTERS
      ensures HeaderData(WithSize(p, n), j) == HeaderData(p, j)
    {
      FieldKept(p, OFF_SIZE, Le(n, 8), OFF_DATA + 8 * j);
    }
  }

  lemma WithEntryFields(p: Page, k: nat, n: nat)
    requires k < IDATA_POINTERS && n < U64_LIMIT
    ensures forall j :: 0 <= j < IDATA_POINTERS ==>
              IndirectEntry(WithEntry(p, k, n), j) == if j == k then n else IndirectEntry(p, j)
  {
    FieldWritten(p, 8 * k, n);
    forall j | 0 <= j < IDATA_POINTERS && j != k
      ensures IndirectEntry(WithEntry(p, k, n), j) == IndirectEntry(p, j)
    {
      FieldKept(p, 8 * k, Le(n, 8), 8 * j);
    }
  }

  lemma ZeroFields()
    ensures HeaderSize(ZeroPage()) == 0 && HeaderIdata(ZeroPage()) == 0
    ensures forall j :: 0 <= j < DATA_POINTERS ==> HeaderData(ZeroPage(), j) == 0
    ensures forall j :: 0 <= j < IDATA_POINTERS ==> IndirectEntry(ZeroPage(), j) == 0
  {
    var z := ZeroPage();
    forall off: nat | off + 8 <= 4096
      ensures Field(z, off) == 0
    {
      ZerosDecodeToZero(z[off..off + 8]);
    }
  }

  lemma PagePastEnd(content: seq<Byte>, k: nat)
    requires 4096 * k >= |content|
    ensures PageOf(content, k) == ZeroPage()
  {
  }

  /** Pointer `k` of `f` is now `n`, all other pointers are as before. */
  ghost predicate Grown(img: Image, img': Image, f: nat, k: nat, n: nat) {
    forall j :: 0 <= j < MAX_PAGES ==> DataInode(img', f, j) == if j == k then n else DataInode(img, f, j)
  }

  /** Common end of the proofs below. */
  lemma FinishLink(img: Image, owner: Owners, files: Files, img': Image, owner': Owners, f: nat, x: nat, n: nat)
    requires OffBitmap(owner) && FilesOk(img, owner, files) && f in files
    requires OtherFilesKept(img, owner, img', owner', f, x, n)
    requires FileOk(img', owner', f, files[f])
    requires Linked(img', files, n, owner'[n])
    requires forall i :: i in owner && Belongs(owner, i, f) ==> Linked(img', files, i, owner[i])
    ensures FilesOk(img', owner', files)
    ensures forall g :: g in files && g != f ==> SameShape(img, img', g)
  {
    forall g | g in files && g != f
      ensures SamePagesOf(img, owner, img', owner', g)
    {
      OthersSame(img, owner, img', owner', f, x, n, g);
    }
    FilesFrame(img, owner, files, img', owner', files, f);
  }

  /** A data pointer that was null now leads to a fresh zero page. */
  lemma FinishDataLink(img: Image, owner: Owners, files: Files, img': Image, owner': Owners, f: nat, x: nat, n: nat,
                       k: nat)
    requires OffBitmap(owner) && FilesOk(img, owner, files) && f in files
    requires k < MAX_PAGES && DataInode(img, f, k) == 0 && owner' == owner[n := Data(f, k)]
    requires x in owner && (owner[x] != Header ==> x == HeaderIdata(At(img, f)) != 0)
    requires OtherFilesKept(img, owner, img', owner', f, x, n) && n != 0 && At(img', n) == ZeroPage()
    requires HeaderSize(At(img', f)) == HeaderSize(At(img, f)) && HeaderIdata(At(img', f)) == HeaderIdata(At(img, f))
    requires Grown(img, img', f, k, n)
    ensures FilesOk(img', owner', files)
    ensures forall g :: g in files && g != f ==> SameShape(img, img', g)
  {
    hide Field, PageOf, ZeroPage, DataInode;
    var content := files[f];
    assert FileOk(img, owner, f, content);
    forall j | 0 <= j < MAX_PAGES
      ensures PointerOk(img', owner', f, content, j)
    {
      assert PointerOk(img, owner, f, content, j);
      if j == k {
        PagePastEnd(content, k);
      }
    }
    assert FileOk(img', owner', f, content);
    hide PointerOk;
    forall i | i in owner && Belongs(owner, i, f)
      ensures Linked(img', files, i, owner[i])
    {
      assert Linked(img, files, i, owner[i]);
    }
    FinishLink(img, owner, files, img', owner', f, x, n);
  }

  /** A new indirect page is empty: there are no pointers in it yet. */
  lemma PointersStay(img: Image, img': Image, f: nat, n: nat, k: nat)
    requires k < MAX_PAGES && HeaderIdata(At(img, f)) == 0 && HeaderIdata(At(img', f)) == n && At(img', n) == ZeroPage()
    requires forall j :: 0 <= j < DATA_POINTERS ==> HeaderData(At(img', f), j) == HeaderData(At(img, f), j)
    ensures DataInode(img', f, k) == DataInode(img, f, k)
  {
    hide Field, ZeroPage;
    ZeroFields();
  }

  /** The indirect pointer that was null now leads to a fresh zero page. */
  lemma FinishIndirectLink(img: Image, owner: Owners, files: Files, img': Image, owner': Owners, f: nat, n: nat)
    requires OffBitmap(owner) && FilesOk(img, owner, files) && f in files
    requires HeaderIdata(At(img, f)) == 0 && HeaderIdata(At(img', f)) == n != 0 && owner' == owner[n := Indirect(f)]
    requires OtherFilesKept(img, owner, img', owner', f, f, n) && n != f && At(img', n) == ZeroPage()
    requires HeaderSize(At(img', f)) == HeaderSize(At(img, f))
    requires forall j :: 0 <= j < DATA_POINTERS ==> HeaderData(At(img', f), j) == HeaderData(At(img, f), j)
    ensures FilesOk(img', owner', files)
    ensures forall k :: 0 <= k < MAX_PAGES ==> DataInode(img', f, k) == DataInode(img, f, k)
    ensures forall g :: g in files && g != f ==> SameShape(img, img', g)
  {
    hide Field, PageOf, ZeroPage, Splice, DataInode;
    assert FileOk(img, owner, f, files[f]);
    forall k | 0 <= k < MAX_PAGES
      ensures DataInode(img', f, k) == DataInode(img, f, k)
      ensures PointerOk(img', owner', f, files[f], k)
    {
      PointersStay(img, img', f, n, k);
      assert PointerOk(img, owner, f, files[f], k);
    }
    hide PointerOk;
    forall i | i in owner && Belongs(owner, i, f)
      ensures Linked(img', files, i, owner[i])
    {
      assert Linked(img, files, i, owner[i]);
    }
    FinishLink(img, owner, files, img', owner', f, f, n);
  }

  /** The image after `file->data[k] = n` for a fresh page `n`. */
  function LinkDirect(img: Image, f: nat, k: nat, n: nat): Image
    requires RESERVED_PAGES + n < |img| && RESERVED_PAGES + f < |img| && k < DATA_POINTERS
  {
    var img1 := MarkAllocated(img, n);
    Put(img1, f, WithData(At(img1, f), k, n))
  }

  lemma LinkDirectOk(img: Image, next: nat, owner: Owners, files: Files, f: nat, k: nat)
    requires VolumeOk(img, next, owner, files) && f in files && k < DATA_POINTERS
    requires DataInode(img, f, k) == 0 && RESERVED_PAGES + NextInode(next) < |img|
    ensures RESERVED_PAGES + f < |img|
    ensures var n := NextInode(next); var img' := LinkDirect(img, f, k, n);
            && VolumeOk(img', n, owner[n := Data(f, k)], files)
            && HeaderIdata(At(img', f)) == HeaderIdata(At(img, f))
            && Grown(img, img', f, k, n)
            && (forall g :: g in files && g != f ==> SameShape(img, img', g))
  {
    hide Field, PageOf, Splice, BitmapBit, MarkBit, Le;
    var n := NextInode(next);
    var owner' := owner[n := Data(f, k)];
    AllocStep(img, next, owner, Data(f, k));
    assert Allocated(f, next);
    var img' := LinkDirect(img, f, k, n);
    AllocFrame(MarkAllocated(img, n), n, owner', f, WithData(At(img, f), k, n));
    WithDataFields(At(img, f), k, n);
    var ind := HeaderIdata(At(img, f));
    assert FileOk(img, owner, f, files[f]);
    assert ind != 0 ==> Allocated(ind, next) && At(img', ind) == At(img, ind);
    assert Belongs(owner, f, f);
    FinishDataLink(img, owner, files, img', owner', f, f, n, k);
  }

  /** The image after `file->idata = n` for a fresh page `n`. */
  function LinkIndirect(img: Image, f: nat, n: nat): Image
    requires RESERVED_PAGES + n < |img| && RESERVED_PAGES + f < |img|
  {
    var img1 := MarkAllocated(img, n);
    Put(img1, f, WithIdata(At(img1, f), n))
  }

  lemma LinkIndirectOk(img: Image, next: nat, owner: Owners, files: Files, f: nat)
    requires VolumeOk(img, next, owner, files) && f in files
    requires HeaderIdata(At(img, f)) == 0 && RESERVED_PAGES + NextInode(next) < |img|
    ensures RESERVED_PAGES + f < |img|
    ensures var n := NextInode(next); var img' := LinkIndirect(img, f, n);
            && VolumeOk(img', n, owner[n := Indirect(f)], files)
            && HeaderIdata(At(img', f)) == n != 0
            && (forall k :: 0 <= k < MAX_PAGES ==> DataInode(img', f, k) == DataInode(img, f, k))
            && (forall g :: g in files && g != f ==> SameShape(img, img', g))
  {
    hide Field, PageOf, Splice, BitmapBit, MarkBit, Le;
    var n := NextInode(next);
    var owner' := owner[n := Indirect(f)];
    AllocStep(img, next, owner, Indirect(f));
    assert Allocated(f, next);
    var img' := LinkIndirect(img, f, n);
    AllocFrame(MarkAllocated(img, n), n, owner', f, WithIdata(At(img, f), n));
    WithIdataFields(At(img, f), n);
    assert Belongs(owner, f, f);
    FinishIndirectLink(img, owner, files, img', owner', f, n);
  }

  /** The image after `page->inodes[k - 16] = n` in the indirect page of `f`. */
  function LinkEntry(img: Image, f: nat, k: nat, n: nat): Image
    requires RESERVED_PAGES + n < |img| && RESERVED_PAGES + HeaderIdata(At(img, f)) < |img|
    requires DATA_POINTERS <= k < MAX_PAGES
  {
    var ind := HeaderIdata(At(img, f));
    var img1 := MarkAllocated(img, n);
    Put(img1, ind, WithEntry(At(img1, ind), k - DATA_POINTERS, n))
  }

  lemma EntryGrown(img: Image, img': Image, f: nat, k: nat, n: nat)
    requires DATA_POINTERS <= k < MAX_PAGES && n < U64_LIMIT
    requires At(img', f) == At(img, f) && HeaderIdata(At(img, f)) != 0
    requires var ind := HeaderIdata(At(img, f)); At(img', ind) == WithEntry(At(img, ind), k - DATA_POINTERS, n)
    ensures Grown(img, img', f, k, n)
  {
    hide Field, WithEntry;
    WithEntryFields(At(img, HeaderIdata(At(img, f))), k - DATA_POINTERS, n);
  }

  lemma LinkEntryOk(img: Image, next: nat, owner: Owners, files: Files, f: nat, k: nat)
    requires VolumeOk(img, next, owner, files) && f in files && DATA_POINTERS <= k < MAX_PAGES
    requires HeaderIdata(At(img, f)) != 0
    requires DataInode(img, f, k) == 0 && RESERVED_PAGES + NextInode(next) < |img|
    ensures RESERVED_PAGES + HeaderIdata(At(img, f)) < |img|
    ensures var n := NextInode(next); var img' := LinkEntry(img, f, k, n);
            && VolumeOk(img', n, owner[n := Data(f, k)], files)
            && HeaderIdata(At(img', f)) == HeaderIdata(At(img, f))
            && Grown(img, img', f, k, n)
            && (forall g :: g in files && g != f ==> SameShape(img, img', g))
  {
    hide Field, PageOf, Splice, BitmapBit, MarkBit, Le, ZeroPage, PointerOk;
    var n := NextInode(next);
    var owner' := owner[n := Data(f, k)];
    AllocStep(img, next, owner, Data(f, k));
    assert Allocated(f, next);
    var ind := HeaderIdata(At(img, f));
    assert FileOk(img, owner, f, files[f]);
    assert Allocated(ind, next);
    var img' := LinkEntry(img, f, k, n);
    AllocFrame(MarkAllocated(img, n), n, owner', ind, WithEntry(At(img, ind), k - DATA_POINTERS, n));
    assert At(img', f) == At(img, f);
    EntryGrown(img, img', f, k, n);
    assert Belongs(owner, ind, f);
    FinishDataLink(img, owner, files, img', owner', f, ind, n, k);
  }

  // ---- What a header has besides its size and pointers ----

  /** Mode, owner and times are those of the other page. */
  ghost predicate SameStamp(p: Page, q: Page) {
    q[..16] == p[..16] && q[24..56] == p[24..56]
  }

  /** A header with this mode, no owner and these times. */
  ghost predicate Stamped(p: Page, mode: nat, now: nat) {
    && FromLe(p[..4]) == mode && (forall i :: 4 <= i < 16 ==> p[i] == 0)
    && (now < U64_LIMIT ==> Field(p, 24) == now && Field(p, 32) == now && Field(p, 40) == now && Field(p, 48) == now)
  }

  lemma StillStamped(p: Page, q: Page, mode: nat, now: nat)
    requires SameStamp(p, q) && Stamped(p, mode, now)
    ensures Stamped(q, mode, now)
  {
    assert q[..4] == q[..16][..4] && p[..4] == p[..16][..4];
    assert forall i :: 4 <= i < 16 ==> q[i] == q[..16][i] && p[i] == p[..16][i];
    SameField(p, q, 24);
    SameField(p, q, 32);
    SameField(p, q, 40);
    SameField(p, q, 48);
  }

  lemma SameField(p: Page, q: Page, off: nat)
    requires q[24..56] == p[24..56] && 24 <= off && off + 8 <= 56
    ensures Field(q, off) == Field(p, off)
  {
    SliceOfSlice(q, 24, 56, off - 24, off - 16);
    SliceOfSlice(p, 24, 56, off - 24, off - 16);
  }

  lemma StampsSelf(img: Image, files: Files)
    ensures StampsSame(img, img, files)
  {
  }

  ghost predicate StampsSame(img: Image, img': Image, files: Files) {
    forall g :: g in files ==> SameStamp(At(img, g), At(img', g))
  }

  lemma StampsOn(img0: Image, img1: Image, img2: Image, files: Files, files': Files)
    requires StampsSame(img0, img1, files) && StampsSame(img1, img2, files') && files.Keys <= files'.Keys
    ensures StampsSame(img0, img2, files)
  {
    forall g | g in files
      ensures SameStamp(At(img0, g), At(img2, g))
    {
      assert g in files' && SameStamp(At(img0, g), At(img1, g)) && SameStamp(At(img1, g), At(img2, g));
    }
  }

  lemma SplicedStamp(p: Page, off: nat, b: seq<Byte>)
    requires off + |b| <= 4096 && (56 <= off || (off == 16 && |b| == 8))
    ensures SameStamp(p, Splice(p, off, b))
  {
  }

  /** No change but to bitmaps, to page `y` and to the size or pointers of `x`. */
  lemma StampsKept(img: Image, img': Image, owner: Owners, files: Files, x: nat, y: nat)
    requires FilesOk(img, owner, files) && OffBitmap(owner) && (x in files ==> SameStamp(At(img, x), At(img', x)))
    requires y !in files
    requires forall i: nat :: i % BITMAP_SIZE != 0 && i != x && i != y ==> At(img', i) == At(img, i)
    ensures StampsSame(img, img', files)
  {
    hide Field, FileOk;
    forall g | g in files
      ensures SameStamp(At(img, g), At(img', g))
    {
      assert g in owner;
    }
  }

  lemma OwnersOffBitmap(img: Image, next: nat, owner: Owners)
    requires AllocOk(img, next, owner)
    ensures OffBitmap(owner)
  {
    forall i | i in owner
      ensures i % BITMAP_SIZE != 0
    {
      assert Allocated(i, next);
    }
  }

  lemma LinkDirectStamps(img: Image, next: nat, owner: Owners, files: Files, f: nat, k: nat)
    requires VolumeOk(img, next, owner, files) && f in files && k < DATA_POINTERS
    requires RESERVED_PAGES + NextInode(next) < |img| && RESERVED_PAGES + f < |img|
    ensures StampsSame(img, LinkDirect(img, f, k, NextInode(next)), files)
  {
    hide FilesOk, Field, Splice, Le, SameStamp, MarkAllocated, AllocOk, StampsSame;
    var n := NextInode(next);
    AllocStep(img, next, owner, Header);
    OwnersOffBitmap(img, next, owner);
    HeaderOwned(img, owner, files, f);
    SplicedStamp(At(img, f), OFF_DATA + 8 * k, Le(n, 8));
    StampsKept(img, LinkDirect(img, f, k, n), owner, files, f, 0) by {
      NoFileAtZero(img, next, owner, files);
    }
  }

  lemma LinkIndirectStamps(img: Image, next: nat, owner: Owners, files: Files, f: nat)
    requires VolumeOk(img, next, owner, files) && f in files
    requires RESERVED_PAGES + NextInode(next) < |img| && RESERVED_PAGES + f < |img|
    ensures StampsSame(img, LinkIndirect(img, f, NextInode(next)), files)
  {
    hide FilesOk, Field, Splice, Le, SameStamp, MarkAllocated, AllocOk, StampsSame;
    var n := NextInode(next);
    AllocStep(img, next, owner, Header);
    OwnersOffBitmap(img, next, owner);
    HeaderOwned(img, owner, files, f);
    SplicedStamp(At(img, f), OFF_IDATA, Le(n, 8));
    StampsKept(img, LinkIndirect(img, f, n), owner, files, f, 0) by {
      NoFileAtZero(img, next, owner, files);
    }
  }

  lemma LinkEntryStamps(img: Image, next: nat, owner: Owners, files: Files, f: nat, k: nat)
    requires VolumeOk(img, next, owner, files) && f in files && DATA_POINTERS <= k < MAX_PAGES
    requires HeaderIdata(At(img, f)) != 0 && RESERVED_PAGES + HeaderIdata(At(img, f)) < |img|
    requires RESERVED_PAGES + NextInode(next) < |img|
    ensures StampsSame(img, LinkEntry(img, f, k, NextInode(next)), files)
  {
    hide Field, Splice, Le, SameStamp, MarkAllocated, AllocOk, StampsSame, PointerOk, DataInode;
    AllocStep(img, next, owner, Header);
    OwnersOffBitmap(img, next, owner);
    var ind := HeaderIdata(At(img, f));
    assert FileOk(img, owner, f, files[f]) && owner[ind] == Indirect(f) && ind !in files;
    StampsKept(img, LinkEntry(img, f, k, NextInode(next)), owner, files, ind, ind);
  }

  lemma AppendStamps(img: Image, next: nat, owner: Owners, files: Files, f: nat, k: nat, size: nat, chunk: seq<Byte>)
    requires VolumeOk(img, next, owner, files) && f in files && k < MAX_PAGES && DataInode(img, f, k) != 0
    requires RESERVED_PAGES + f < |img| && RESERVED_PAGES + DataInode(img, f, k) < |img|
    requires size % 4096 + |chunk| <= 4096
    ensures StampsSame(img, Appended(img, f, DataInode(img, f, k), size, chunk), files)
  {
    hide Field, Splice, Le, SameStamp, AllocOk, StampsSame, DataInode, PageOf;
    OwnersOffBitmap(img, next, owner);
    var p := DataInode(img, f, k);
    assert FileOk(img, owner, f, files[f]) && PointerOk(img, owner, f, files[f], k);
    assert owner[p] == Data(f, k) && p !in files && p != f;
    SplicedStamp(At(img, f), OFF_SIZE, Le(size + |chunk|, 8));
    StampsKept(img, Appended(img, f, p, size, chunk), owner, files, f, p);
  }

  /** A new file's header is a page of no other file. */
  lemma CreateStamps(img: Image, next: nat, owner: Owners, files: Files, p: Page)
    requires VolumeOk(img, next, owner, files) && RESERVED_PAGES + NextInode(next) < |img|
    ensures StampsSame(img, Put(MarkAllocated(img, NextInode(next)), NextInode(next), p), files)
  {
    hide FilesOk, Field, SameStamp, MarkAllocated, AllocOk, StampsSame;
    var n := NextInode(next);
    AllocStep(img, next, owner, Header);
    OwnersOffBitmap(img, next, owner);
    if n in files {
      HeaderOwned(img, owner, files, n);
    }
    StampsKept(img, Put(MarkAllocated(img, n), n, p), owner, files, n, n);
  }

  lemma HeaderOwned(img: Image, owner: Owners, files: Files, f: nat)
    requires FilesOk(img, owner, files) && f in files && OffBitmap(owner)
    ensures f in owner && owner[f] == Header && f % BITMAP_SIZE != 0
  {
    hide FileOk;
  }

  lemma NoFileAtZero(img: Image, next: nat, owner: Owners, files: Files)
    requires AllocOk(img, next, owner) && FilesOk(img, owner, files)
    ensures 0 !in files
  {
    hide FileOk;
    assert !Allocated(0, next);
  }

  // ---- Appending bytes: the stores of one round of `file_write` ----

  lemma PageOfAppend(content: seq<Byte>, chunk: seq<Byte>)
    requires |content| % 4096 + |chunk| <= 4096
    ensures var k := |content| / 4096;
            && PageOf(content + chunk, k) == Splice(PageOf(content, k), |content| % 4096, chunk)
            && forall j: nat :: j != k ==> PageOf(content + chunk, j) == PageOf(content, j)
  {
  }

  lemma AppendShape(img: Image, owner: Owners, files: Files, img': Image, f: nat, p: nat, k: nat)
    requires FilesOk(img, owner, files) && f in files && p in owner && owner[p] == Data(f, k)
    requires forall i: nat :: i != p && i != f ==> At(img', i) == At(img, i)
    requires HeaderIdata(At(img', f)) == HeaderIdata(At(img, f))
    requires forall j :: 0 <= j < DATA_POINTERS ==> HeaderData(At(img', f), j) == HeaderData(At(img, f), j)
    ensures SameShape(img, img', f)
  {
    var ind := HeaderIdata(At(img, f));
    assert FileOk(img, owner, f, files[f]);
    assert ind != 0 ==> At(img', ind) == At(img, ind);
  }

  /** What appending to `f` inside its page `k` changes: that page and the header. */
  ghost predicate AppendedPage(img: Image, img': Image, f: nat, k: nat, content: seq<Byte>, content': seq<Byte>) {
    && k < MAX_PAGES && 4096 * k <= |content| <= |content'| <= 4096 * (k + 1)
    && DataInode(img, f, k) != 0
    && (forall i: nat :: i != DataInode(img, f, k) && i != f ==> At(img', i) == At(img, i))
    && At(img', DataInode(img, f, k)) == PageOf(content', k)
    && (forall j: nat :: j != k ==> PageOf(content', j) == PageOf(content, j))
    && HeaderSize(At(img', f)) == |content'|
    && SameShape(img, img', f)
  }

  lemma AppendedFile(img: Image, owner: Owners, img': Image, f: nat, k: nat, content: seq<Byte>, content': seq<Byte>)
    requires f in owner && owner[f] == Header && FileOk(img, owner, f, content)
    requires AppendedPage(img, img', f, k, content, content')
    ensures FileOk(img', owner, f, content')
  {
    hide Field, PageOf, DataInode;
    assert PointerOk(img, owner, f, content, k);
    forall j | 0 <= j < MAX_PAGES
      ensures PointerOk(img', owner, f, content', j)
    {
      assert PointerOk(img, owner, f, content, j);
    }
  }

  lemma FinishAppend(img: Image, owner: Owners, files: Files, img': Image, f: nat, k: nat, content': seq<Byte>)
    requires FilesOk(img, owner, files) && f in files
    requires AppendedPage(img, img', f, k, files[f], content')
    ensures FilesOk(img', owner, files[f := content'])
    ensures forall g :: g in files ==> SameShape(img, img', g)
  {
    hide Field, PageOf, DataInode, At;
    var files' := files[f := content'];
    AppendedFile(img, owner, img', f, k, files[f], content');
    assert PointerOk(img, owner, f, files[f], k);
    forall g | g in files && g != f
      ensures SamePagesOf(img, owner, img', owner, g)
    {
    }
    forall i | i in owner && Belongs(owner, i, f)
      ensures Linked(img', files', i, owner[i])
    {
      assert Linked(img, files, i, owner[i]);
    }
    FilesFrame(img, owner, files, img', owner, files', f);
  }

  /** The image after the memcpy into data page `p` and the update of the size. */
  function Appended(img: Image, f: nat, p: nat, size: nat, chunk: seq<Byte>): Image
    requires RESERVED_PAGES + f < |img| && RESERVED_PAGES + p < |img| && size % 4096 + |chunk| <= 4096
  {
    var img1 := Put(img, p, Splice(At(img, p), size % 4096, chunk));
    Put(img1, f, WithSize(At(img1, f), size + |chunk|))
  }

  lemma AppendOk(img: Image, next: nat, owner: Owners, files: Files, f: nat, chunk: seq<Byte>)
    requires VolumeOk(img, next, owner, files) && f in files
    requires |files[f]| / 4096 < MAX_PAGES && |files[f]| % 4096 + |chunk| <= 4096
    requires DataInode(img, f, |files[f]| / 4096) != 0
    ensures RESERVED_PAGES + f < |img| && RESERVED_PAGES + DataInode(img, f, |files[f]| / 4096) < |img|
    ensures var content := files[f];
            var img' := Appended(img, f, DataInode(img, f, |content| / 4096), |content|, chunk);
            && VolumeOk(img', next, owner, files[f := content + chunk])
            && (forall g :: g in files ==> SameShape(img, img', g))
  {
    hide AllocOk, DataInode, Appended, AppendedPage, SameShape;
    var content, size := files[f], |files[f]|;
    var p := DataInode(img, f, size / 4096);
    DataPageOwned(img, owner, files, f, size / 4096);
    AppendAlloc(img, next, owner, f, p, size, chunk);
    AppendPages(img, owner, files, f, chunk);
    FinishAppend(img, owner, files, Appended(img, f, p, size, chunk), f, size / 4096, content + chunk);
  }

  lemma DataPageOwned(img: Image, owner: Owners, files: Files, f: nat, k: nat)
    requires FilesOk(img, owner, files) && f in files && k < MAX_PAGES && DataInode(img, f, k) != 0
    ensures f in owner && DataInode(img, f, k) in owner && |files[f]| <= 4096 * MAX_PAGES
  {
    hide DataInode, PageOf, Field;
    assert FileOk(img, owner, f, files[f]) && PointerOk(img, owner, f, files[f], k);
  }

  lemma AppendAlloc(img: Image, next: nat, owner: Owners, f: nat, p: nat, size: nat, chunk: seq<Byte>)
    requires AllocOk(img, next, owner) && f in owner && p in owner && size % 4096 + |chunk| <= 4096
    ensures RESERVED_PAGES + f < |img| && RESERVED_PAGES + p < |img|
    ensures AllocOk(Appended(img, f, p, size, chunk), next, owner)
  {
    hide AllocOk, Put, At, Splice, WithSize;
    AllocFrame(img, next, owner, p, Splice(At(img, p), size % 4096, chunk));
    var img1 := Put(img, p, Splice(At(img, p), size % 4096, chunk));
    AllocFrame(img1, next, owner, f, WithSize(At(img1, f), size + |chunk|));
    AllocFrame(img, next, owner, f, At(img, f));
  }

  lemma AppendPages(img: Image, owner: Owners, files: Files, f: nat, chunk: seq<Byte>)
    requires FilesOk(img, owner, files) && f in files
    requires |files[f]| / 4096 < MAX_PAGES && |files[f]| % 4096 + |chunk| <= 4096
    requires DataInode(img, f, |files[f]| / 4096) != 0
    requires RESERVED_PAGES + f < |img| && RESERVED_PAGES + DataInode(img, f, |files[f]| / 4096) < |img|
    ensures var content := files[f];
            var img' := Appended(img, f, DataInode(img, f, |content| / 4096), |content|, chunk);
            AppendedPage(img, img', f, |content| / 4096, content, content + chunk)
  {
    hide Field, PageOf, Splice, Le, DataInode, ZeroPage;
    var content, k := files[f], |files[f]| / 4096;
    var p := DataInode(img, f, k);
    var img' := Appended(img, f, p, |content|, chunk);
    assert FileOk(img, owner, f, content) && PointerOk(img, owner, f, content, k);
    WithSizeFields(At(img, f), |content| + |chunk|);
    PageOfAppend(content, chunk);
    AppendShape(img, owner, files, img', f, p, k);
  }

  // ---- Creating a file ----

  /** The image after allocating `n` and filling in the header's mode and times. */
  lemma CreateOk(img: Image, next: nat, owner: Owners, files: Files, header: Page)
    requires VolumeOk(img, next, owner, files) && RESERVED_PAGES + NextInode(next) < |img|
    requires HeaderSize(header) == 0 && HeaderIdata(header) == 0
    requires forall j :: 0 <= j < DATA_POINTERS ==> HeaderData(header, j) == 0
    ensures var n := NextInode(next); var img' := Put(MarkAllocated(img, n), n, header);
            && n !in files && n != 0
            && VolumeOk(img', n, owner[n := Header], files[n := []])
            && (forall g :: g in files ==> SameShape(img, img', g))
            && (forall k :: 0 <= k < MAX_PAGES ==> DataInode(img', n, k) == 0)
            && HeaderIdata(At(img', n)) == 0
  {
    hide Field, PageOf, Splice, BitmapBit, MarkBit, Le;
    var n := NextInode(next);
    AllocStep(img, next, owner, Header);
    AllocFrame(MarkAllocated(img, n), n, owner[n := Header], n, header);
    var img' := Put(MarkAllocated(img, n), n, header);
    forall g | g in files
      ensures SamePagesOf(img, owner, img', owner[n := Header], g)
    {
      forall i: nat | Belongs(owner, i, g)
        ensures At(img', i) == At(img, i)
      {
        assert Allocated(i, next);
      }
    }
    forall i | i in owner
      ensures !Belongs(owner, i, n)
    {
      assert Linked(img, files, i, owner[i]);
    }
    FilesFrame(img, owner, files, img', owner[n := Header], files[n := []], n);
  }

  // ---- One role, one owner ----

  /** Read off the pages alone: `p` is used in `role`. */
  ghost predicate UsedAs(img: Image, files: Files, p: nat, role: Role) {
    p != 0 && match role
    case Header => p in files
    case Indirect(f) => f in files && HeaderIdata(At(img, f)) == p
    case Data(f, k) => k < MAX_PAGES && f in files && DataInode(img, f, k) == p
  }

  /** In every sound volume a page is marked in the bitmap exactly when it was handed out,
      bitmap pages never are, and a marked page is used in exactly one way by one file. */
  lemma OneRolePerPage(img: Image, next: nat, owner: Owners, files: Files, p: nat)
    requires VolumeOk(img, next, owner, files)
    ensures BitmapBit(img, p) <==> 1 <= p <= next && p % BITMAP_SIZE != 0
    ensures BitmapBit(img, p) <==> exists role :: UsedAs(img, files, p, role)
    ensures forall r1, r2 :: UsedAs(img, files, p, r1) && UsedAs(img, files, p, r2) ==> r1 == r2
  {
    hide Field, PageOf, ZeroPage, DataInode, HasBit;
    forall role
      ensures UsedAs(img, files, p, role) <==> p in owner && owner[p] == role
    {
      if p in owner && owner[p] == role {
        assert Linked(img, files, p, role);
        assert Allocated(p, next);
      }
      if UsedAs(img, files, p, role) {
        UsedIsOwned(img, owner, files, p, role);
      }
    }
    assert BitmapBit(img, p) <==> Allocated(p, next);
    if p in owner {
      assert UsedAs(img, files, p, owner[p]);
    }
  }

  lemma UsedIsOwned(img: Image, owner: Owners, files: Files, p: nat, role: Role)
    requires FilesOk(img, owner, files) && UsedAs(img, files, p, role)
    ensures p in owner && owner[p] == role
  {
    hide Field, PageOf, ZeroPage, DataInode;
    match role
    case Header =>
    case Indirect(f) =>
      assert FileOk(img, owner, f, files[f]);
    case Data(f, k) =>
      assert FileOk(img, owner, f, files[f]);
      assert PointerOk(img, owner, f, files[f], k);
  }
}
