/** The initial ramdisk: the image builder `tools/mkinitram.c` and the lookup
    `src/libboot/initram.c`, which shares only the byte layout with it. */
module Initram {
  import opened Bytes
  import MfsDir

  const MAX_ENTRIES: nat := 256
  const NAMES_SIZE: nat := 4096
  const HEADER_SIZE: nat := 64
  const ENTRY_SIZE: nat := 32

  datatype File = File(name: seq<Byte>, data: seq<Byte>)

  /** `InitRamFileEntry` */
  datatype FileEntry = FileEntry(nameOff: nat, nameSize: nat, dataOff: nat, dataSize: nat)

  /** A C string: no NUL inside. */
  predicate IsName(name: seq<Byte>) {
    forall i :: 0 <= i < |name| ==> name[i] != 0
  }

  // ---- The layout ----

  /** The name table: every name with its NUL. */
  function NameTable(files: seq<File>): seq<Byte> {
    if files == [] then [] else NameTable(files[..|files| - 1]) + files[|files| - 1].name + [0]
  }

  function DataPart(files: seq<File>): seq<Byte> {
    if files == [] then [] else DataPart(files[..|files| - 1]) + files[|files| - 1].data
  }

  /** The entry of file `i`: its name and data come after those of the files before it. */
  function EntryOf(files: seq<File>, i: nat): FileEntry
    requires i < |files|
  {
    FileEntry(|NameTable(files[..i])|, |files[i].name|, |DataPart(files[..i])|, |files[i].data|)
  }

  function EntryBytes(e: FileEntry): (s: seq<Byte>)
    ensures |s| == ENTRY_SIZE
  {
    Le(e.nameOff, 8) + Le(e.nameSize, 8) + Le(e.dataOff, 8) + Le(e.dataSize, 8)
  }

  function EntryTable(es: seq<FileEntry>): (s: seq<Byte>)
    ensures |s| == ENTRY_SIZE * |es|
  {
    if es == [] then [] else EntryTable(es[..|es| - 1]) + EntryBytes(es[|es| - 1])
  }

  function Entries(files: seq<File>): (es: seq<FileEntry>)
    ensures |es| == |files| && forall i :: 0 <= i < |files| ==> es[i] == EntryOf(files, i)
  {
    seq(|files|, i requires 0 <= i < |files| => EntryOf(files, i))
  }

  /** "INITRAM" and 0x7f */
  const MAGIC: seq<Byte> := [0x49, 0x4e, 0x49, 0x54, 0x52, 0x41, 0x4d, 0x7f]

  /** `InitRamHeader` of an image with `cnt` entries and tables of these sizes. */
  function Header(cnt: nat, names: nat, entries: nat, data: nat): (s: seq<Byte>)
    ensures |s| == HEADER_SIZE
  {
    MAGIC + Le(cnt, 8) + Le(HEADER_SIZE + names, 8) + Le(entries, 8) + Le(HEADER_SIZE, 8) + Le(names, 8)
    + Le(HEADER_SIZE + names + entries, 8) + Le(data, 8)
  }

  function Image(files: seq<File>): seq<Byte> {
    Header(|files|, |NameTable(files)|, ENTRY_SIZE * |files|, |DataPart(files)|)
    + NameTable(files) + EntryTable(Entries(files)) + DataPart(files)
  }

  /** What the tables of the builder have room for. */
  predicate FitsLimits(files: seq<File>) {
    && |files| <= MAX_ENTRIES && |NameTable(files)| <= NAMES_SIZE && |DataPart(files)| < 0x1_0000_0000_0000
    && (forall i :: 0 <= i < |files| ==> IsName(files[i].name))
  }

  // ---- The builder ----

  class InitRamDisk {
    var fhCnt: nat
    var fhSize: nat
    var shSize: nat
    var dataSize: nat
    const entries: array<FileEntry>
    const names: array<Byte>
    var data: seq<Byte>
    ghost var files: seq<File>

    ghost predicate Valid()
      reads this, entries, names
    {
      && entries.Length == MAX_ENTRIES && names.Length == NAMES_SIZE
      && fhCnt == |files| <= MAX_ENTRIES && fhSize == ENTRY_SIZE * fhCnt && entries[..fhCnt] == Entries(files)
      && shSize == |NameTable(files)| <= NAMES_SIZE && names[..shSize] == NameTable(files)
      && data == DataPart(files) && dataSize == |data|
    }

    /** `init_initram` */
    constructor ()
      ensures Valid() && files == [] && fresh(entries) && fresh(names)
    {
      fhCnt, fhSize, shSize, dataSize := 0, 0, 0, 0;
      entries := new FileEntry[MAX_ENTRIES](_ => FileEntry(0, 0, 0, 0));
      names := new Byte[NAMES_SIZE](_ => 0);
      data := [];
      files := [];
    }

    /** `add_file`, given what the file holds. */
    method AddFile(name: seq<Byte>, content: seq<Byte>)
      requires Valid() && fhCnt < MAX_ENTRIES && shSize + |name| + 1 <= NAMES_SIZE
      modifies this, entries, names
      ensures Valid() && files == old(files) + [File(name, content)]
    {
      ghost var was, f := files, File(name, content);
      Appended(was, f);
      var namelen := |name|;
      var e := FileEntry(shSize, namelen, 0, 0);
      forall i | 0 <= i < namelen + 1 {
        names[shSize + i] := if i < namelen then name[i] else 0;
      }
      assert names[..shSize + namelen + 1] == NameTable(was) + name + [0];
      shSize := shSize + namelen + 1;
      e := FileEntry(e.nameOff, e.nameSize, dataSize, |content|);
      data := data + content;
      dataSize := dataSize + |content|;
      entries[fhCnt] := e;
      assert entries[..fhCnt + 1] == Entries(was) + [e];
      fhCnt := fhCnt + 1;
      fhSize := fhSize + ENTRY_SIZE;
      files := files + [f];
    }

    /** `save_initram`: the bytes it writes. */
    method SaveInitram() returns (image: seq<Byte>)
      requires Valid()
      ensures image == Image(files)
    {
      var off := HEADER_SIZE;
      var shOff := off;
      off := off + shSize;
      var fhOff := off;
      off := off + fhSize;
      var dataOff := off;
      image := MAGIC + Le(fhCnt, 8) + Le(fhOff, 8) + Le(fhSize, 8) + Le(shOff, 8) + Le(shSize, 8) + Le(dataOff, 8)
          + Le(dataSize, 8);
      image := image + names[..shSize];
      image := image + EntryTable(entries[..fhCnt]);
      image := image + data;
    }
  }

  lemma Appended(files: seq<File>, f: File)
    ensures NameTable(files + [f]) == NameTable(files) + f.name + [0]
    ensures DataPart(files + [f]) == DataPart(files) + f.data
    ensures Entries(files + [f]) ==
              Entries(files) + [FileEntry(|NameTable(files)|, |f.name|, |DataPart(files)|, |f.data|)]
  {
    var files' := files + [f];
    assert files'[..|files|] == files;
    forall i | 0 <= i < |files|
      ensures EntryOf(files', i) == EntryOf(files, i)
    {
      assert files'[..i] == files[..i];
    }
  }

  // ---- What is where in the image ----

  lemma {:induction false} NameAt(files: seq<File>, i: nat)
    requires i < |files|
    ensures var off := |NameTable(files[..i])|; var n := |files[i].name|;
            && off + n + 1 <= |NameTable(files)| && NameTable(files)[off..off + n] == files[i].name
            && NameTable(files)[off + n] == 0
  {
    hide NameTable;
    var n := |files| - 1;
    var rest := files[..n];
    NamesStep(files);
    if i < n {
      NameAt(rest, i);
      assert rest[..i] == files[..i];
      var off := |NameTable(files[..i])|;
      assert NameTable(files)[off..off + |files[i].name|] == NameTable(rest)[off..off + |files[i].name|];
    } else {
      assert files[..i] == rest;
    }
  }

  lemma NamesStep(files: seq<File>)
    requires files != []
    ensures var n := |files| - 1; NameTable(files) == NameTable(files[..n]) + files[n].name + [0]
  {
  }

  lemma {:induction false} DataAt(files: seq<File>, i: nat)
    requires i < |files|
    ensures var off := |DataPart(files[..i])|; var n := |files[i].data|;
            off + n <= |DataPart(files)| && DataPart(files)[off..off + n] == files[i].data
  {
    var n := |files| - 1;
    var rest := files[..n];
    if i < n {
      DataAt(rest, i);
      assert rest[..i] == files[..i];
      var off := |DataPart(files[..i])|;
      assert DataPart(files)[off..off + |files[i].data|] == DataPart(rest)[off..off + |files[i].data|];
    }
  }

  lemma {:induction false} EntryAt(es: seq<FileEntry>, i: nat)
    requires i < |es|
    ensures EntryTable(es)[ENTRY_SIZE * i..ENTRY_SIZE * i + ENTRY_SIZE] == EntryBytes(es[i])
  {
    var n := |es| - 1;
    if i < n {
      EntryAt(es[..n], i);
      assert EntryTable(es)[ENTRY_SIZE * i..ENTRY_SIZE * i + ENTRY_SIZE] ==
               EntryTable(es[..n])[ENTRY_SIZE * i..ENTRY_SIZE * i + ENTRY_SIZE];
    }
  }

  /** A 64-bit number in the middle of some bytes reads back. */
  lemma FieldAt(s: seq<Byte>, off: nat, v: nat)
    requires off + 8 <= |s| && s[off..off + 8] == Le(v, 8) && v < U64_LIMIT
    ensures Field(s, off) == v
  {
    Pow256Words();
    LeRoundTrip(v, 8);
  }

  lemma EntryFields(s: seq<Byte>, off: nat, e: FileEntry)
    requires off + ENTRY_SIZE <= |s| && s[off..off + ENTRY_SIZE] == EntryBytes(e)
    requires e.nameOff < U64_LIMIT && e.nameSize < U64_LIMIT && e.dataOff < U64_LIMIT && e.dataSize < U64_LIMIT
    ensures Field(s, off) == e.nameOff && Field(s, off + 8) == e.nameSize
    ensures Field(s, off + 16) == e.dataOff && Field(s, off + 24) == e.dataSize
  {
    hide Le, EntryBytes, Field;
    EntryParts(e);
    SliceOfSlice(s, off, off + ENTRY_SIZE, 0, 8);
    SliceOfSlice(s, off, off + ENTRY_SIZE, 8, 16);
    SliceOfSlice(s, off, off + ENTRY_SIZE, 16, 24);
    SliceOfSlice(s, off, off + ENTRY_SIZE, 24, 32);
    FieldAt(s, off, e.nameOff);
    FieldAt(s, off + 8, e.nameSize);
    FieldAt(s, off + 16, e.dataOff);
    FieldAt(s, off + 24, e.dataSize);
  }

  lemma EntryParts(e: FileEntry)
    ensures var b := EntryBytes(e);
            && b[0..8] == Le(e.nameOff, 8) && b[8..16] == Le(e.nameSize, 8)
            && b[16..24] == Le(e.dataOff, 8) && b[24..32] == Le(e.dataSize, 8)
  {
    hide Le;
  }

  lemma HeaderFields(cnt: nat, names: nat, entries: nat, data: nat, rest: seq<Byte>)
    requires cnt < U64_LIMIT && HEADER_SIZE + names + entries < U64_LIMIT && data < U64_LIMIT
    ensures var s := Header(cnt, names, entries, data) + rest;
            && s[..8] == [0x49, 0x4e, 0x49, 0x54, 0x52, 0x41, 0x4d, 0x7f] && Field(s, 8) == cnt
            && Field(s, 16) == 64 + names && Field(s, 24) == entries && Field(s, 32) == 64 && Field(s, 40) == names
            && Field(s, 48) == 64 + names + entries && Field(s, 56) == data
  {
    hide Le, Field;
    HeaderParts(cnt, names, entries, data, rest);
    var s := Header(cnt, names, entries, data) + rest;
    FieldAt(s, 8, cnt);
    FieldAt(s, 16, HEADER_SIZE + names);
    FieldAt(s, 24, entries);
    FieldAt(s, 32, HEADER_SIZE);
    FieldAt(s, 40, names);
    FieldAt(s, 48, HEADER_SIZE + names + entries);
    FieldAt(s, 56, data);
  }

  lemma HeaderParts(cnt: nat, names: nat, entries: nat, data: nat, rest: seq<Byte>)
    ensures var s := Header(cnt, names, entries, data) + rest;
            && s[..8] == MAGIC && s[8..16] == Le(cnt, 8) && s[16..24] == Le(HEADER_SIZE + names, 8)
            && s[24..32] == Le(entries, 8) && s[32..40] == Le(HEADER_SIZE, 8) && s[40..48] == Le(names, 8)
            && s[48..56] == Le(HEADER_SIZE + names + entries, 8) && s[56..64] == Le(data, 8)
  {
    hide Le;
  }

  /** The bytes `part` stand at offset `off`. */
  predicate PartAt(image: seq<Byte>, off: nat, part: seq<Byte>) {
    off + |part| <= |image| && image[off..off + |part|] == part
  }

  lemma Slice(image: seq<Byte>, off: nat, part: seq<Byte>, i: nat, k: nat)
    requires PartAt(image, off, part) && i + k <= |part|
    ensures off + i + k <= |image| && image[off + i..off + i + k] == part[i..i + k]
  {
    SliceOfSlice(image, off, off + |part|, i, i + k);
  }

  lemma PartByte(image: seq<Byte>, off: nat, part: seq<Byte>, i: nat)
    requires PartAt(image, off, part) && i < |part|
    ensures off + i < |image| && image[off + i] == part[i]
  {
    assert image[off..off + |part|][i] == part[i];
  }

  lemma Parts(h: seq<Byte>, n: seq<Byte>, e: seq<Byte>, d: seq<Byte>)
    ensures var image := h + n + e + d;
            PartAt(image, |h|, n) && PartAt(image, |h| + |n|, e) && PartAt(image, |h| + |n| + |e|, d)
  {
  }

  /** The header: the magic number, and names, entries and data one after the other up to
      the end of the image. */
  ghost predicate Sections(image: seq<Byte>, shOff: nat, fhOff: nat, dataOff: nat) {
    && |image| >= 64 && image[..8] == [0x49, 0x4e, 0x49, 0x54, 0x52, 0x41, 0x4d, 0x7f]
    && Field(image, 32) == shOff == 64 && shOff + Field(image, 40) == fhOff
    && Field(image, 16) == fhOff && fhOff + Field(image, 24) == dataOff
    && Field(image, 48) == dataOff && dataOff + Field(image, 56) == |image|
  }

  /** The header, and every file where its entry says. */
  ghost predicate Holds(image: seq<Byte>, files: seq<File>, shOff: nat, fhOff: nat, dataOff: nat) {
    && Sections(image, shOff, fhOff, dataOff)
    && Field(image, 8) == |files| && Field(image, 24) == 32 * |files|
    && (forall i :: 0 <= i < |files| ==> HoldsFile(image, files, shOff, fhOff, dataOff, i))
  }

  ghost predicate HoldsFile(image: seq<Byte>, files: seq<File>, shOff: nat, fhOff: nat, dataOff: nat, i: nat)
    requires i < |files|
  {
    var e, at := EntryOf(files, i), fhOff + ENTRY_SIZE * i;
    && at + ENTRY_SIZE <= |image|
    && Field(image, at) == e.nameOff && Field(image, at + 8) == e.nameSize && Field(image, at + 16) == e.dataOff
    && Field(image, at + 24) == e.dataSize
    && shOff + e.nameOff + e.nameSize < |image| && image[shOff + e.nameOff + e.nameSize] == 0
    && dataOff + e.dataOff + e.dataSize <= |image|
    && image[shOff + e.nameOff..shOff + e.nameOff + e.nameSize] == files[i].name
    && image[dataOff + e.dataOff..dataOff + e.dataOff + e.dataSize] == files[i].data
  }

  lemma ImageHolds(files: seq<File>)
    requires FitsLimits(files)
    ensures Holds(Image(files), files, HEADER_SIZE, HEADER_SIZE + |NameTable(files)|,
                  HEADER_SIZE + |NameTable(files)| + ENTRY_SIZE * |files|)
  {
    hide Header, NameTable, DataPart, EntryTable, EntryBytes, Field, HoldsFile, PartAt;
    var h := Header(|files|, |NameTable(files)|, ENTRY_SIZE * |files|, |DataPart(files)|);
    var n, e, d := NameTable(files), EntryTable(Entries(files)), DataPart(files);
    var image := Image(files);
    assert image == h + (n + e + d);
    HeaderFields(|files|, |n|, ENTRY_SIZE * |files|, |d|, n + e + d);
    var fhOff, dataOff := HEADER_SIZE + |n|, HEADER_SIZE + |n| + |e|;
    Parts(h, n, e, d);
    forall i | 0 <= i < |files|
      ensures HoldsFile(image, files, HEADER_SIZE, fhOff, dataOff, i)
    {
      FileInImage(image, files, fhOff, dataOff, i);
    }
  }

  lemma FileInImage(image: seq<Byte>, files: seq<File>, fhOff: nat, dataOff: nat, i: nat)
    requires FitsLimits(files) && i < |files|
    requires PartAt(image, HEADER_SIZE, NameTable(files)) && PartAt(image, fhOff, EntryTable(Entries(files)))
    requires PartAt(image, dataOff, DataPart(files))
    ensures HoldsFile(image, files, HEADER_SIZE, fhOff, dataOff, i)
  {
    hide NameTable, DataPart, EntryTable, Field, FitsLimits, PartAt, EntryOf, EntryBytes;
    var e := EntryOf(files, i);
    EntryIs(files, i);
    NameAt(files, i);
    DataAt(files, i);
    EntryAt(Entries(files), i);
    EntrySmall(files, i);
    Slice(image, HEADER_SIZE, NameTable(files), e.nameOff, e.nameSize);
    PartByte(image, HEADER_SIZE, NameTable(files), e.nameOff + e.nameSize);
    Slice(image, dataOff, DataPart(files), e.dataOff, e.dataSize);
    Slice(image, fhOff, EntryTable(Entries(files)), ENTRY_SIZE * i, ENTRY_SIZE);
    EntryFields(image, fhOff + ENTRY_SIZE * i, e);
  }

  lemma EntrySmall(files: seq<File>, i: nat)
    requires FitsLimits(files) && i < |files|
    ensures var e := EntryOf(files, i);
            e.nameOff < U64_LIMIT && e.nameSize < U64_LIMIT && e.dataOff < U64_LIMIT && e.dataSize < U64_LIMIT
  {
    hide NameTable, DataPart, IsName;
    NameAt(files, i);
    DataAt(files, i);
  }

  lemma EntryIs(files: seq<File>, i: nat)
    requires i < |files|
    ensures var e := EntryOf(files, i);
            && e.nameOff == |NameTable(files[..i])| && e.nameSize == |files[i].name|
            && e.dataOff == |DataPart(files[..i])| && e.dataSize == |files[i].data|
  {
  }

  // ---- The lookup ----

  datatype Lookup = Missing | Found(at: nat)

  function FileNames(files: seq<File>): (r: seq<seq<Byte>>)
    ensures |r| == |files| && forall i :: 0 <= i < |files| ==> r[i] == files[i].name
  {
    seq(|files|, i requires 0 <= i < |files| => files[i].name)
  }

  /** `memcmp(name, base + off, n) == 0`. The comparison stops at the query's NUL at the
      latest, because no stored name has one. */
  method SameBytes(name: seq<Byte>, image: seq<Byte>, off: nat, n: nat) returns (same: bool)
    requires IsName(name) && off + n <= |image| && IsName(image[off..off + n])
    ensures same <==> image[off..off + n] <= name
  {
    var query := name + [0];
    for i := 0 to n
      invariant i <= |name| && forall k :: 0 <= k < i ==> image[off + k] == name[k]
    {
      assert image[off + i] == image[off..off + n][i];
      if query[i] != image[off + i] {
        return false;
      }
    }
    return true;
  }

  /** `initram_lookup`: where the data of the earliest file starts whose name is a prefix of
      the query. */
  method InitramLookup(image: seq<Byte>, name: seq<Byte>, ghost files: seq<File>) returns (r: Lookup)
    requires IsName(name) && FitsLimits(files) && image == Image(files)
    ensures var i := MfsDir.FirstPrefix(FileNames(files), name);
            if i == |files| then r == Missing
            else r.Found? && r.at + |files[i].data| <= |image| && image[r.at..r.at + |files[i].data|] == files[i].data
  {
    hide Image, Field, EntryOf, NameTable, DataPart, HoldsFile, FitsLimits, IsName;
    ImageHolds(files);
    ghost var names := FileNames(files);
    var shOff, fhOff, dataOff := Field(image, 32), Field(image, 16), Field(image, 48);
    for i := 0 to Field(image, 8)
      invariant i <= |files| && forall j :: 0 <= j < i ==> !(names[j] <= name)
    {
      HeldFile(image, files, shOff, fhOff, dataOff, i);
      var fe := fhOff + ENTRY_SIZE * i;
      var same := SameBytes(name, image, shOff + Field(image, fe), Field(image, fe + 8));
      if same {
        FirstPrefixIs(names, name, i);
        return Found(dataOff + Field(image, fe + 16));
      }
    }
    FirstPrefixIs(names, name, |files|);
    return Missing;
  }

  /** What the lookup may read of file `i`, and what it finds there. */
  lemma HeldFile(image: seq<Byte>, files: seq<File>, shOff: nat, fhOff: nat, dataOff: nat, i: nat)
    requires FitsLimits(files) && i < |files| && HoldsFile(image, files, shOff, fhOff, dataOff, i)
    ensures fhOff + ENTRY_SIZE * i + ENTRY_SIZE <= |image| && IsName(files[i].name)
    ensures var fe := fhOff + ENTRY_SIZE * i;
            var name, n, data := shOff + Field(image, fe), Field(image, fe + 8), dataOff + Field(image, fe + 16);
            && name + n <= |image| && image[name..name + n] == files[i].name
            && data + |files[i].data| <= |image| && image[data..data + |files[i].data|] == files[i].data
  {
    hide NameTable, DataPart, Field, IsName;
  }

  lemma FirstPrefixIs(names: seq<seq<Byte>>, name: seq<Byte>, i: nat)
    requires i <= |names| && (forall j :: 0 <= j < i ==> !(names[j] <= name)) && (i < |names| ==> names[i] <= name)
    ensures MfsDir.FirstPrefix(names, name) == i
  {
    var k := MfsDir.FirstPrefix(names, name);
  }

  /** A stored name finds its own file exactly when no earlier name is a prefix of it; among
      prefix-free names every name does. */
  lemma FindsOwnFileIff(files: seq<File>, i: nat)
    requires i < |files|
    ensures MfsDir.FirstPrefix(FileNames(files), files[i].name) == i <==>
              forall j :: 0 <= j < i ==> !(files[j].name <= files[i].name)
  {
    var names := FileNames(files);
    if forall j :: 0 <= j < i ==> !(files[j].name <= files[i].name) {
      FirstPrefixIs(names, files[i].name, i);
    }
  }

  /** With files "a" and "ab", looking up "ab" finds "a". */
  lemma FindsShorterName(a: seq<Byte>, ab: seq<Byte>)
    ensures MfsDir.FirstPrefix(FileNames([File([97], a), File([97, 98], ab)]), [97, 98]) == 0
  {
    var names := FileNames([File([97], a), File([97, 98], ab)]);
    FirstPrefixIs(names, [97, 98], 0);
  }
}
