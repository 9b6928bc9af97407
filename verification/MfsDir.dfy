/** Directories of the Miaou File System: files whose contents are records of an inode,
    a name length and a name, with nothing in between. */
module MfsDir {
  import opened Bytes

  type Name = seq<Byte>
  datatype Entry = Entry(inode: nat, name: Name)

  const RECORD_SIZE: nat := 12

  ghost predicate EntryOk(e: Entry) {
    0 < e.inode < U64_LIMIT && |e.name| < U32_LIMIT
  }

  function EncodeEntry(e: Entry): (s: seq<Byte>)
    ensures |s| == RECORD_SIZE + |e.name|
  {
    Le(e.inode, 8) + Le(|e.name|, 4) + e.name
  }

  function Encode(es: seq<Entry>): seq<Byte> {
    if es == [] then [] else Encode(es[..|es| - 1]) + EncodeEntry(es[|es| - 1])
  }

  /** Byte offset of record `k`. */
  function Offset(es: seq<Entry>, k: nat): nat
    requires k <= |es|
  {
    |Encode(es[..k])|
  }

  lemma EncodeSnoc(es: seq<Entry>, e: Entry)
    ensures Encode(es + [e]) == Encode(es) + EncodeEntry(e)
  {
    assert (es + [e])[..|es|] == es;
  }

  lemma OffsetNext(es: seq<Entry>, k: nat)
    requires k < |es|
    ensures Offset(es, k + 1) == Offset(es, k) + RECORD_SIZE + |es[k].name|
  {
    assert es[..k + 1] == es[..k] + [es[k]];
    EncodeSnoc(es[..k], es[k]);
  }

  /** Record `k` of a directory is where `Offset` says it is. */
  lemma {:induction false} RecordAt(es: seq<Entry>, k: nat)
    requires k < |es|
    ensures Offset(es, k) + RECORD_SIZE + |es[k].name| == Offset(es, k + 1) <= |Encode(es)|
    ensures Encode(es)[Offset(es, k)..Offset(es, k + 1)] == EncodeEntry(es[k])
  {
    var n := |es| - 1;
    var rest := es[..n];
    OffsetNext(es, k);
    if k == n {
      assert es[..k + 1] == es;
    } else {
      RecordAt(rest, k);
      assert rest[..k] == es[..k] && rest[..k + 1] == es[..k + 1];
      assert rest[k] == es[k];
      assert Encode(es)[Offset(es, k)..Offset(es, k + 1)] == Encode(rest)[Offset(rest, k)..Offset(rest, k + 1)];
    }
  }

  lemma OffsetEnd(es: seq<Entry>)
    ensures Offset(es, |es|) == |Encode(es)|
  {
    assert es[..|es|] == es;
  }

  /** The two length fields and the name of an encoded record decode to the entry. */
  lemma DecodeEntry(e: Entry)
    requires EntryOk(e)
    ensures var s := EncodeEntry(e);
            FromLe(s[..8]) == e.inode && FromLe(s[8..12]) == |e.name| && s[12..] == e.name
  {
    var s := EncodeEntry(e);
    assert s[..8] == Le(e.inode, 8) && s[8..12] == Le(|e.name|, 4);
    Pow256Words();
    LeRoundTrip(e.inode, 8);
    LeRoundTrip(|e.name|, 4);
  }

  /** The first stored name that is a prefix of `name` (what `strncmp` over the stored
      length accepts), or the number of names. */
  function FirstPrefix(names: seq<Name>, name: Name): (i: nat)
    ensures i <= |names|
    ensures i < |names| ==> names[i] <= name
    ensures forall j :: 0 <= j < i ==> !(names[j] <= name)
  {
    if names == [] then 0
    else if names[0] <= name then 0
    else 1 + FirstPrefix(names[1..], name)
  }

  function Names(es: seq<Entry>): (r: seq<Name>)
    ensures |r| == |es| && forall i :: 0 <= i < |es| ==> r[i] == es[i].name
  {
    seq(|es|, i requires 0 <= i < |es| => es[i].name)
  }
}
