/** Bytes and the little-endian integers that the on-disk formats are made of. */
module Bytes {

  newtype Byte = x: int | 0 <= x < 256

  const U32_LIMIT: nat := 0x1_0000_0000
  const U64_LIMIT: nat := 0x1_0000_0000_0000_0000

  function Pow256(n: nat): nat {
    if n == 0 then 1 else 256 * Pow256(n - 1)
  }

  /** The `n`-byte little-endian encoding of `x` (high bits are cut off). */
  function Le(x: nat, n: nat): (s: seq<Byte>)
    ensures |s| == n
  {
    if n == 0 then [] else [(x % 256) as Byte] + Le(x / 256, n - 1)
  }

  function FromLe(s: seq<Byte>): nat {
    if s == [] then 0 else s[0] as int + 256 * FromLe(s[1..])
  }

  lemma {:induction false} LeRoundTrip(x: nat, n: nat)
    requires x < Pow256(n)
    ensures FromLe(Le(x, n)) == x
  {
    if n > 0 {
      LeRoundTrip(x / 256, n - 1);
      assert Le(x, n)[1..] == Le(x / 256, n - 1);
    }
  }

  lemma Pow256Words()
    ensures Pow256(4) == U32_LIMIT && Pow256(8) == U64_LIMIT
  {
    assert Pow256(2) == 0x1_0000;
    assert Pow256(4) == 0x1_0000_0000;
    assert Pow256(6) == 0x1_0000_0000_0000;
  }

  lemma {:induction false} ZerosDecodeToZero(s: seq<Byte>)
    requires forall i :: 0 <= i < |s| ==> s[i] == 0
    ensures FromLe(s) == 0
  {
    if s != [] {
      ZerosDecodeToZero(s[1..]);
    }
  }

  /** `p` with `b` copied over it from offset `off` on (memcpy into a buffer). */
  function Splice(p: seq<Byte>, off: nat, b: seq<Byte>): (r: seq<Byte>)
    requires off + |b| <= |p|
    ensures |r| == |p|
    ensures forall i :: 0 <= i < |p| ==> r[i] == if off <= i < off + |b| then b[i - off] else p[i]
  {
    p[..off] + b + p[off + |b|..]
  }

  /** The 64-bit field at byte offset `off`. */
  function Field(p: seq<Byte>, off: nat): nat
    requires off + 8 <= |p|
  {
    FromLe(p[off..off + 8])
  }

  lemma FieldWritten(p: seq<Byte>, off: nat, v: nat)
    requires off + 8 <= |p| && v < U64_LIMIT
    ensures Field(Splice(p, off, Le(v, 8)), off) == v
  {
    assert Splice(p, off, Le(v, 8))[off..off + 8] == Le(v, 8);
    Pow256Words();
    LeRoundTrip(v, 8);
  }

  lemma FieldKept(p: seq<Byte>, off: nat, b: seq<Byte>, other: nat)
    requires off + |b| <= |p| && other + 8 <= |p|
    requires other + 8 <= off || off + |b| <= other
    ensures Field(Splice(p, off, b), other) == Field(p, other)
  {
    assert Splice(p, off, b)[other..other + 8] == p[other..other + 8];
  }

  // Single bits of a byte.

  /** Bit `k` of `b`: `b & (1 << k)` is not zero. */
  predicate HasBit(b: nat, k: nat) {
    if k == 0 then b % 2 == 1 else HasBit(b / 2, k - 1)
  }

  /** `b | (1 << k)`. */
  function OrBit(b: nat, k: nat): nat {
    if k == 0 then b / 2 * 2 + 1 else b % 2 + 2 * OrBit(b / 2, k - 1)
  }

  lemma {:induction false} OrBitBits(b: nat, k: nat, i: nat)
    ensures HasBit(OrBit(b, k), i) <==> i == k || HasBit(b, i)
  {
    if k > 0 && i > 0 {
      OrBitBits(b / 2, k - 1, i - 1);
    }
  }

  lemma {:induction false} ZeroBits(k: nat)
    ensures !HasBit(0, k)
  {
    if k > 0 {
      ZeroBits(k - 1);
    }
  }

  function Pow2(n: nat): nat {
    if n == 0 then 1 else 2 * Pow2(n - 1)
  }

  lemma {:induction false} OrBitBound(b: nat, k: nat, n: nat)
    requires b < Pow2(n) && k < n
    ensures OrBit(b, k) < Pow2(n)
  {
    hide OrBit, Pow2;
    Pow2Step(n);
    OrBitStep(b, k);
    Halve(b, Pow2(n - 1));
    if k > 0 {
      OrBitBound(b / 2, k - 1, n - 1);
    }
  }

  lemma Pow2Step(n: nat)
    requires n > 0
    ensures Pow2(n) == 2 * Pow2(n - 1)
  {
  }

  lemma OrBitStep(b: nat, k: nat)
    ensures OrBit(b, k) == if k == 0 then b / 2 * 2 + 1 else b % 2 + 2 * OrBit(b / 2, k - 1)
  {
  }

  lemma Halve(b: nat, half: nat)
    requires b < 2 * half
    ensures b / 2 < half && b / 2 * 2 + 1 < 2 * half
  {
  }

  function SetBit(b: Byte, k: nat): Byte
    requires k < 8
  {
    assert OrBit(b as nat, k) < 256 by {
      assert Pow2(4) == 16 && Pow2(8) == 256;
      OrBitBound(b as nat, k, 8);
    }
    OrBit(b as nat, k) as Byte
  }

  lemma SliceOfSlice(s: seq<Byte>, a: nat, b: nat, i: nat, j: nat)
    requires i <= j && a + j <= b <= |s|
    ensures s[a..b][i..j] == s[a + i..a + j]
  {
    var x, y := s[a..b][i..j], s[a + i..a + j];
    forall k | 0 <= k < j - i
      ensures x[k] == y[k]
    {
      assert s[a..b][i + k] == s[a + i + k];
    }
  }
}
