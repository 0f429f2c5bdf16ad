/** Big-endian integers: the byte order of every field on the wire. */
module Bytes {
  import opened Arithmetic
  import opened Common

  function Pow256(n: nat): (p: nat)
    ensures 0 < p
  {
    if n == 0 then 1 else 256 * Pow256(n - 1)
  }

  function Zeros(n: nat): (s: seq<byte>)
    ensures |s| == n && forall i | 0 <= i < n :: s[i] == 0
  {
    seq(n, _ => 0)
  }

  /** The low `n` bytes of `v`, most significant first. */
  function BigEndian(v: nat, n: nat): (s: seq<byte>)
    ensures |s| == n
  {
    if n == 0 then [] else BigEndian(v / 256, n - 1) + [v % 256]
  }

  function FromBytes(s: seq<byte>): nat {
    if s == [] then 0 else FromBytes(s[..|s| - 1]) * 256 + s[|s| - 1]
  }

  lemma FromOne(a: byte)
    ensures FromBytes([a]) == a
  {
    assert [a][..0] == [];
  }

  lemma FromTwo(a: byte, b: byte)
    ensures FromBytes([a, b]) == a * 256 + b
  {
    FromOne(a);
    assert [a, b][..1] == [a];
  }

  lemma {:induction false} FromBigEndian(v: nat, n: nat)
    requires v < Pow256(n)
    ensures FromBytes(BigEndian(v, n)) == v
  {
    if 0 < n {
      FromBigEndian(v / 256, n - 1);
      assert BigEndian(v, n)[..n - 1] == BigEndian(v / 256, n - 1);
    }
  }

  lemma {:induction false} ToBigEndian(s: seq<byte>)
    ensures FromBytes(s) < Pow256(|s|) && BigEndian(FromBytes(s), |s|) == s
  {
    if s != [] {
      var n := |s| - 1;
      ToBigEndian(s[..n]);
      assert s == s[..n] + [s[n]];
    }
  }

  /** Truncation keeps the value modulo the window of `n` bytes. */
  lemma {:induction false} FromTruncated(v: nat, n: nat)
    ensures FromBytes(BigEndian(v, n)) == v % Pow256(n)
  {
    if 0 < n {
      FromTruncated(v / 256, n - 1);
      assert BigEndian(v, n)[..n - 1] == BigEndian(v / 256, n - 1);
      ModSplit(v, Pow256(n - 1));
    }
  }

  lemma ModSplit(v: nat, p: nat)
    requires 0 < p
    ensures v % (256 * p) == (v / 256) % p * 256 + v % 256
  {
    var q, r := (v / 256) / p, (v / 256) % p;
    assert v / 256 == p * q + r;
    assert v == 256 * (p * q + r) + v % 256;
    assert 256 * (p * q) == (256 * p) * q;
    assert v == (256 * p) * q + (r * 256 + v % 256);
    assert r * 256 + v % 256 < 256 * p;
    RemainderIsUnique(v, 256 * p, q, r * 256 + v % 256);
  }

  /** Byte `i` from the top, as the source reads it off with a shift and a mask. */
  lemma {:induction false} BigEndianAt(v: nat, n: nat, i: nat)
    requires i < n
    ensures BigEndian(v, n)[i] == (v / Pow256(n - 1 - i)) % 256
    decreases n
  {
    if i < n - 1 {
      BigEndianAt(v / 256, n - 1, i);
      DivTwice(v, 256, Pow256(n - 2 - i));
    }
  }
}
