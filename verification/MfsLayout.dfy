/** Where things are on a Miaou volume, byte by byte, as `include/fusee/mfs.h` lays them out:
    what a reader needs that shares nothing with the writer but the format. */
module MfsLayout {
  import opened Bytes
  import opened MfsFormat
  import opened MfsVolume
  import opened MfsDir
  import opened MfsTree
  import opened MfsBuilder
  import opened MfsCopy
  import opened MfsReader

  /** The inode of data page `k` of the file with header `f`: one of 16 pointers in the
      header, or of 512 in the page that the header's last pointer leads to. */
  function DataPointer(disk: Image, f: nat, k: nat): nat {
    if 64 + f >= |disk| || k >= 528 then 0
    else if k < 16 then Field(disk[64 + f], 56 + 8 * k)
    else
      var inodes := Field(disk[64 + f], 184);
      if inodes == 0 || 64 + inodes >= |disk| then 0 else Field(disk[64 + inodes], 8 * (k - 16))
  }

  /** Header `f` gives the size of `content`, and its pointers lead to the pages with its
      bytes, zeros behind them. */
  ghost predicate FileAt(disk: Image, f: nat, content: seq<Byte>) {
    && 64 + f < |disk| && Field(disk[64 + f], 16) == |content|
    && forall k: nat :: 4096 * k < |content| ==> PageAt(disk, DataPointer(disk, f, k), content, k)
  }

  ghost predicate PageAt(disk: Image, d: nat, content: seq<Byte>, k: nat) {
    && d != 0 && 64 + d < |disk|
    && var page := disk[64 + d];
       forall i :: 0 <= i < 4096 ==> page[i] == if 4096 * k + i < |content| then content[4096 * k + i] else 0
  }

  lemma FileOnDisk(img: Image, next: nat, owner: Owners, files: Files, f: nat)
    requires VolumeOk(img, next, owner, files) && f in files
    ensures FileAt(img, f, files[f])
  {
    hide Field, PageOf, ZeroPage, DataInode, BitmapBit, AllocOk, DataPointer;
    var content := files[f];
    OwnedInRange(img, next, owner, files, f);
    assert FileOk(img, owner, f, content);
    forall k: nat | 4096 * k < |content|
      ensures PageAt(img, DataPointer(img, f, k), content, k)
    {
      assert k < 528 && PointerOk(img, owner, f, content, k);
      PointerIs(img, f, k);
      PageIs(img, content, k, DataInode(img, f, k));
    }
  }

  lemma PointerIs(img: Image, f: nat, k: nat)
    requires 64 + f < |img| && k < 528 && 64 + HeaderIdata(At(img, f)) < |img|
    ensures DataPointer(img, f, k) == DataInode(img, f, k)
  {
    hide Field;
  }

  lemma PageIs(img: Image, content: seq<Byte>, k: nat, d: nat)
    requires d != 0 && RESERVED_PAGES + d < |img| && At(img, d) == PageOf(content, k)
    ensures PageAt(img, d, content, k)
  {
  }

  /** The whole volume: the metadata page leads to the root, and from each node of the tree
      one finds its file; a directory's is the records of its children in order. */
  lemma TreeOnDisk(volume: Volume, l: Layout)
    requires Valid(volume, l)
    ensures var disk := volume.pages[..];
            && 63 < |disk| && [] in l.node && Field(disk[63], 16) == l.node[[]]
            && (forall p :: p in l.tree.files ==> p in l.node && FileAt(disk, l.node[p], l.tree.files[p]))
            && (forall p :: p in l.tree.dirs ==> p in l.node && FileAt(disk, l.node[p], Encode(Entries(l, p))))
  {
    hide VolumeOk, Tight, Field, FileAt, Encode, Entries, StampsOk;
    DiskFacts(volume, l);
    forall p | p in l.tree.files || p in l.tree.dirs
      ensures p in l.node && FileAt(volume.pages[..], l.node[p], ContentOf(l, p))
    {
      assert Exists(l.tree, p) && l.node[p] in volume.files;
      FileOnDisk(volume.pages[..], volume.nextInode, volume.owner, volume.files, l.node[p]);
    }
  }

  /** Page `i` is handed out just when its bit is set: bit `i % 8` of byte `i % 32768 / 8` of
      the page at the last multiple of 32768 before it. */
  lemma BitmapOnDisk(volume: Volume, i: nat)
    requires volume.Ok() && 64 + i < volume.pages.Length
    ensures HasBit(volume.pages[64 + i / 32768 * 32768][i % 32768 / 8] as nat, i % 8)
            <==> 1 <= i <= volume.nextInode && i % 32768 != 0
  {
    hide HasBit, FilesOk, Field;
    assert BitmapBit(volume.pages[..], i) <==> Allocated(i, volume.nextInode);
    assert i % 32768 % 8 == i % 8;
  }
}
