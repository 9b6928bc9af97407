/** The whole of `tools/mkinitram.c`: from a file list to an image. */
module Mkinitram {
  import opened Bytes
  import opened SpecParser
  import opened Initram
  import MfsDir

  /** The files the records of a list ask for, `disk` giving what each source file holds. */
  function FilesOf(specs: seq<Spec>, disk: map<Text, seq<Byte>>): (files: seq<File>)
    requires forall i :: 0 <= i < |specs| ==> specs[i].src in disk
    ensures |files| == |specs| && forall i :: 0 <= i < |specs| ==> files[i] == File(specs[i].dst, disk[specs[i].src])
  {
    seq(|specs|, i requires 0 <= i < |specs| => File(specs[i].dst, disk[specs[i].src]))
  }

  /** Every record can be read, its source file exists, and the tables have room. */
  predicate Buildable(specs: seq<Spec>, disk: map<Text, seq<Byte>>) {
    && (forall i :: 0 <= i < |specs| ==> FitsBuffers(specs[i]) && specs[i].src in disk)
    && FitsLimits(FilesOf(specs, disk))
  }

  /** While some files are still to come, there is room for the next one. */
  lemma RoomForNext(files: seq<File>, i: nat)
    requires FitsLimits(files) && i < |files|
    ensures i < MAX_ENTRIES && |NameTable(files[..i])| + |files[i].name| + 1 <= NAMES_SIZE
  {
    NameAt(files, i);
  }

  /** The records of the list, in order, become the files of the image. */
  method BuildInitram(f: SpecFile, disk: map<Text, seq<Byte>>) returns (image: seq<Byte>)
    requires f.Valid() && Buildable(ParseAll(f.stream), disk)
    modifies f
    ensures image == Image(FilesOf(ParseAll(old(f.stream)), disk))
  {
    hide ParseAll, ParseSpec, FitsLimits, Image, NameTable, DataPart, Entries, FitsBuffers;
    ghost var all := ParseAll(f.stream);
    ghost var files := FilesOf(all, disk);
    ghost var n := 0;
    var rd := new InitRamDisk();
    while true
      invariant f.Valid() && rd.Valid() && fresh(rd) && fresh(rd.entries) && fresh(rd.names)
      invariant n <= |all| && ParseAll(f.stream) == all[n..] && rd.files == files[..n]
      decreases Left(f.stream)
    {
      ParseAllStep(f.stream);
      assert ParseSpec(f.stream).Got? ==> n < |all| && ParseSpec(f.stream).spec == all[n..][0];
      var p := f.ParseNext();
      if p.End? { break; }
      RoomForNext(files, n);
      rd.AddFile(p.spec.dst, disk[p.spec.src]);
      assert files[..n + 1] == files[..n] + [files[n]];
      n := n + 1;
    }
    assert n == |all| && files[..n] == files;
    image := rd.SaveInitram();
  }

  /** From a printed file list to a lookup in the image built from it: among prefix-free
      names, each name finds the bytes of its own source file. */
  method ListThenLookup(lines: seq<Line>, ends: seq<Byte>, disk: map<Text, seq<Byte>>, k: nat)
      returns (image: seq<Byte>, r: Lookup)
    requires LinesOk(lines) && EndsOk(lines, ends) && !lines[|lines| - 1].Blank? && Buildable(Records(lines), disk)
             && k < |Records(lines)|
    requires forall i, j :: 0 <= i < j < |Records(lines)| ==> !(Records(lines)[i].dst <= Records(lines)[j].dst)
    ensures var spec := Records(lines)[k];
            r.Found? && r.at + |disk[spec.src]| <= |image| && image[r.at..r.at + |disk[spec.src]|] == disk[spec.src]
  {
    hide ParseAll, Print, Image, FitsLimits;
    RoundTripIff(lines, ends);
    var f := new SpecFile(Print(lines, ends));
    ghost var files := FilesOf(Records(lines), disk);
    image := BuildInitram(f, disk);
    FindsOwnFileIff(files, k);
    NamesOk(files, k);
    r := InitramLookup(image, Records(lines)[k].dst, files);
  }

  lemma NamesOk(files: seq<File>, k: nat)
    requires FitsLimits(files) && k < |files|
    ensures IsName(files[k].name)
  {
  }
}
