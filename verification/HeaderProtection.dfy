/** Header protection by XOR (packet_pipeline.hpp; section 5.4 of RFC 9001). */
module HeaderProtection {
  import Arithmetic
  import opened Common

  // ---------------------------------------------------------------- exclusive or

  function Pow2(n: nat): (p: nat)
    ensures 0 < p
  {
    if n == 0 then 1 else 2 * Pow2(n - 1)
  }

  /** Bitwise exclusive or on the low `n` bits. */
  function XorBits(a: nat, b: nat, n: nat): (x: nat)
    ensures x < Pow2(n)
  {
    if n == 0 then 0 else 2 * XorBits(a / 2, b / 2, n - 1) + if a % 2 == b % 2 then 0 else 1
  }

  function Xor(a: byte, b: byte): byte {
    Pow2Eight();
    XorBits(a, b, 8)
  }

  lemma Pow2Eight()
    ensures Pow2(8) == 256
  {
    assert Pow2(4) == 16;
    assert Pow2(6) == 64;
  }

  lemma {:induction false} XorBitsTwice(a: nat, b: nat, n: nat)
    requires a < Pow2(n)
    ensures XorBits(XorBits(a, b, n), b, n) == a
  {
    if 0 < n {
      var x := XorBits(a, b, n);
      XorBitsHalf(a, b, n);
      XorBitsHalf(x, b, n);
      XorBitsTwice(a / 2, b / 2, n - 1);
      hide XorBits;
      assert a == 2 * (a / 2) + a % 2;
    }
  }

  /** A mask below `2^k` leaves the bits from `k` up alone. */
  lemma {:induction false} XorBitsKeepsHigh(a: nat, b: nat, n: nat, k: nat)
    requires a < Pow2(n) && b < Pow2(k) && k <= n
    ensures XorBits(a, b, n) / Pow2(k) == a / Pow2(k)
  {
    if 0 < k {
      XorBitsHalf(a, b, n);
      hide XorBits;
      XorBitsKeepsHigh(a / 2, b / 2, n - 1, k - 1);
      HalveFirst(XorBits(a, b, n), Pow2(k - 1));
      HalveFirst(a, Pow2(k - 1));
    } else {
      XorBitsZero(a, n);
    }
  }

  lemma XorBitsHalf(a: nat, b: nat, n: nat)
    requires 0 < n
    ensures XorBits(a, b, n) / 2 == XorBits(a / 2, b / 2, n - 1)
    ensures XorBits(a, b, n) == 2 * XorBits(a / 2, b / 2, n - 1) + if a % 2 == b % 2 then 0 else 1
  {
  }

  lemma {:induction false} XorBitsZero(a: nat, n: nat)
    requires a < Pow2(n)
    ensures XorBits(a, 0, n) == a
  {
    if 0 < n {
      XorBitsZero(a / 2, n - 1);
    }
  }

  lemma HalveFirst(x: nat, p: nat)
    requires 0 < p
    ensures x / (2 * p) == (x / 2) / p
  {
    Arithmetic.DivTwice(x, 2, p);
  }

  lemma XorTwice(a: byte, b: byte)
    ensures Xor(Xor(a, b), b) == a
  {
    Pow2Eight();
    XorBitsTwice(a, b, 8);
  }

  lemma XorKeepsType(a: byte, b: byte)
    ensures Xor(a, b % 16) / 16 == a / 16
    ensures Xor(a, b % 32) / 32 == a / 32
  {
    Pow2Eight();
    assert Pow2(4) == 16;
    assert Pow2(5) == 32;
    XorBitsKeepsHigh(a, b % 16, 8, 4);
    XorBitsKeepsHigh(a, b % 32, 8, 5);
  }

  /** Bit `k` of a number, the lowest being bit 0. */
  function BitAt(a: nat, k: nat): nat {
    if k == 0 then a % 2 else BitAt(a / 2, k - 1)
  }

  lemma {:induction false} XorBitsAt(a: nat, b: nat, n: nat, k: nat)
    requires k < n
    ensures BitAt(XorBits(a, b, n), k) == if BitAt(a, k) == BitAt(b, k) then 0 else 1
    decreases k
  {
    XorBitsHalf(a, b, n);
    if k != 0 {
      XorBitsAt(a / 2, b / 2, n - 1, k - 1);
    }
  }

  /** Each bit of an XOR is set exactly if the two bits differ. */
  lemma XorExactly(a: byte, b: byte, k: nat)
    requires k < 8
    ensures BitAt(Xor(a, b), k) == if BitAt(a, k) == BitAt(b, k) then 0 else 1
  {
    XorBitsAt(a, b, 8, k);
  }

  // ---------------------------------------------------------------- masking a packet

  type Mask = m: seq<byte> | |m| == 5 witness [0, 0, 0, 0, 0]

  /** XORs the low bits of the first byte, those below `low`, and the `n` bytes of the packet number at `at`. */
  function Masked(d: seq<byte>, at: nat, n: nat, m: Mask, low: nat): (r: seq<byte>)
    requires 1 <= at && n <= 4 && at + n <= |d| && 1 <= low <= 256
    ensures |r| == |d|
  {
    seq(|d|, i requires 0 <= i < |d| =>
      if i == 0 then Xor(d[0], m[0] % low) else if at <= i < at + n then Xor(d[i], m[i - at + 1]) else d[i])
  }

  lemma MaskedTwice(d: seq<byte>, at: nat, n: nat, m: Mask, low: nat)
    requires 1 <= at && n <= 4 && at + n <= |d| && 1 <= low <= 256
    ensures Masked(Masked(d, at, n, m, low), at, n, m, low) == d
  {
    hide Xor;
    var e := Masked(d, at, n, m, low);
    forall i | 0 <= i < |d|
      ensures Masked(e, at, n, m, low)[i] == d[i]
    {
      if i == 0 {
        XorTwice(d[0], m[0] % low);
      } else if at <= i < at + n {
        XorTwice(d[i], m[i - at + 1]);
      }
    }
  }

  /** The XOR loop of the four protection routines, in place. */
  method MaskInPlace(d: array<byte>, at: nat, n: nat, m: Mask, low: nat)
    requires 1 <= at && n <= 4 && at + n <= d.Length && 1 <= low <= 256
    modifies d
    ensures d[..] == Masked(old(d[..]), at, n, m, low)
  {
    hide Xor;
    d[0] := Xor(d[0], m[0] % low);
    for index := 0 to n
      invariant d[0] == Xor(old(d[0]), m[0] % low)
      invariant forall i | 1 <= i < d.Length ::
          d[i] == if at <= i < at + index then Xor(old(d[i]), m[i - at + 1]) else old(d[i])
    {
      d[at + index] := Xor(d[at + index], m[index + 1]);
    }
  }

  /** The key material of one direction, as far as header protection needs it: a mask for a 16-byte sample. */
  type MaskSource = seq<byte> -> Option<Mask>

  const PN_LENGTH: nat := 4
  const SAMPLE: nat := 16

  /** Protects a packet whose four-byte number starts at `at`. */
  function Apply(d: seq<byte>, at: nat, mask: MaskSource, low: nat): (r: Option<seq<byte>>)
    requires 1 <= at && (low == 16 || low == 32)
    ensures r.Some? ==> |r.value| == |d|
  {
    if |d| < at + PN_LENGTH + SAMPLE || d[0] % 4 + 1 != PN_LENGTH then None else
      var m := mask(d[at + PN_LENGTH..at + PN_LENGTH + SAMPLE]);
      if m.None? then None else Some(Masked(d, at, PN_LENGTH, m.value, low))
  }

  /** Removes the protection; how long the number is shows only after the first byte is unmasked. */
  function Remove(d: seq<byte>, at: nat, mask: MaskSource, low: nat): (r: Option<seq<byte>>)
    requires 1 <= at && (low == 16 || low == 32)
    ensures r.Some? ==> |r.value| == |d|
  {
    if |d| < at + PN_LENGTH + SAMPLE then None else
      var m := mask(d[at + PN_LENGTH..at + PN_LENGTH + SAMPLE]);
      if m.None? then None else
        var n := Xor(d[0], m.value[0] % low) % 4 + 1;
        Some(Masked(d, at, n, m.value, low))
  }

  /** Removal undoes application: the sample the mask comes from is not touched by it. */
  lemma RemoveUndoesApply(d: seq<byte>, at: nat, mask: MaskSource, low: nat)
    requires 1 <= at && (low == 16 || low == 32) && Apply(d, at, mask, low).Some?
    ensures Remove(Apply(d, at, mask, low).value, at, mask, low) == Some(d)
  {
    hide Xor;
    var e := Apply(d, at, mask, low).value;
    assert e[at + PN_LENGTH..at + PN_LENGTH + SAMPLE] == d[at + PN_LENGTH..at + PN_LENGTH + SAMPLE];
    var m := mask(d[at + PN_LENGTH..at + PN_LENGTH + SAMPLE]).value;
    XorTwice(d[0], m[0] % low);
    MaskedTwice(d, at, PN_LENGTH, m, low);
  }

  /** What application leaves alone: everything but the low bits of the first byte and the packet number. */
  lemma ApplyTouchesLittle(d: seq<byte>, at: nat, mask: MaskSource, low: nat)
    requires 1 <= at && (low == 16 || low == 32) && Apply(d, at, mask, low).Some?
    ensures var e := Apply(d, at, mask, low).value;
            && at + PN_LENGTH + SAMPLE <= |d| == |e| && e[0] / low == d[0] / low
            && e[1..at] == d[1..at] && e[at + PN_LENGTH..] == d[at + PN_LENGTH..]
  {
    hide Xor;
    var m := mask(d[at + PN_LENGTH..at + PN_LENGTH + SAMPLE]).value;
    XorKeepsType(d[0], m[0]);
  }

  /** `apply_long_header_protection` and `apply_short_header_protection` on the first `size` bytes of a buffer. */
  method ApplyInPlace(d: array<byte>, size: nat, at: nat, mask: MaskSource, low: nat) returns (ok: bool)
    requires size <= d.Length && 1 <= at && (low == 16 || low == 32)
    modifies d
    ensures ok <==> Apply(old(d[..size]), at, mask, low).Some?
    ensures d[..size] == if ok then Apply(old(d[..size]), at, mask, low).value else old(d[..size])
    ensures d[size..] == old(d[size..])
  {
    if size < at + PN_LENGTH + SAMPLE {
      return false;
    }
    if d[0] % 4 + 1 != PN_LENGTH {
      return false;
    }
    assert d[at + PN_LENGTH..at + PN_LENGTH + SAMPLE] == d[..size][at + PN_LENGTH..at + PN_LENGTH + SAMPLE];
    var m := mask(d[at + PN_LENGTH..at + PN_LENGTH + SAMPLE]);
    if m.None? {
      return false;
    }
    MaskInPlace(d, at, PN_LENGTH, m.value, low);
    return true;
  }

  /** `remove_long_header_protection` and `remove_short_header_protection` on a buffer. */
  method RemoveInPlace(d: array<byte>, at: nat, mask: MaskSource, low: nat) returns (ok: bool)
    requires 1 <= at && (low == 16 || low == 32)
    modifies d
    ensures ok <==> Remove(old(d[..]), at, mask, low).Some?
    ensures d[..] == if ok then Remove(old(d[..]), at, mask, low).value else old(d[..])
  {
    if d.Length < at + PN_LENGTH + SAMPLE {
      return false;
    }
    assert d[at + PN_LENGTH..at + PN_LENGTH + SAMPLE] == d[..][at + PN_LENGTH..at + PN_LENGTH + SAMPLE];
    var m := mask(d[at + PN_LENGTH..at + PN_LENGTH + SAMPLE]);
    if m.None? {
      return false;
    }
    var n := Xor(d[0], m.value[0] % low) % 4 + 1;
    MaskInPlace(d, at, n, m.value, low);
    return true;
  }
}
