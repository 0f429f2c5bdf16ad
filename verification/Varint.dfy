/** Variable-length integers (varint.hpp, section 16 of RFC 9000). */
module Varint {
  import opened Bytes
  import opened Common

  /** A value a varint can carry. */
  type varint = x: int | 0 <= x <= MAX_VARINT

  // ---------------------------------------------------------------- specification

  /** The two-bit length code; the encoding takes `1 << Tag(v)` bytes. */
  function Tag(v: varint): (t: nat)
    ensures t < 4
  {
    if v <= 63 then 0 else if v <= 16383 then 1 else if v <= 1073741823 then 2 else 3
  }

  function Length(tag: nat): (n: nat)
    requires tag < 4
    ensures 1 <= n <= 8
  {
    if tag == 0 then 1 else if tag == 1 then 2 else if tag == 2 then 4 else 8
  }

  function EncodedSize(v: varint): nat {
    Length(Tag(v))
  }

  /** The value in big-endian form with the length code in the top two bits. */
  function Encode(v: varint): (s: seq<byte>)
    ensures |s| == EncodedSize(v)
  {
    TagFits(v);
    var b := BigEndian(v, EncodedSize(v));
    [64 * Tag(v) + b[0]] + b[1..]
  }

  /** The value and the number of bytes read, or nothing on a truncated input. */
  function Decode(s: seq<byte>): (r: Option<(varint, nat)>)
    ensures r.Some? ==> 1 <= r.value.1 <= |s|
  {
    if s == [] then None else
      var n := Length(s[0] / 64);
      if |s| < n then None else
        DecodedFits([s[0] % 64] + s[1..n]);
        Some((FromBytes([s[0] % 64] + s[1..n]), n))
  }

  // ---------------------------------------------------------------- the top byte

  lemma {:induction false} TopByteFits(v: nat, n: nat)
    requires 0 < n && v < 64 * Pow256(n - 1)
    ensures BigEndian(v, n)[0] < 64
  {
    if 1 < n {
      TopByteFits(v / 256, n - 1);
    }
  }

  lemma Powers()
    ensures Pow256(1) == 0x100 && Pow256(3) == 0x100_0000 && Pow256(7) == 0x100_0000_0000_0000
  {
    assert Pow256(2) == 0x1_0000;
    assert Pow256(4) == 0x1_0000_0000;
    assert Pow256(5) == 0x100_0000_0000;
    assert Pow256(6) == 0x1_0000_0000_0000;
  }

  lemma TagFits(v: varint)
    ensures v < 64 * Pow256(EncodedSize(v) - 1)
    ensures BigEndian(v, EncodedSize(v))[0] < 64
  {
    Powers();
    TopByteFits(v, EncodedSize(v));
  }

  lemma {:induction false} FromBytesBound(s: seq<byte>)
    requires s != [] && s[0] < 64
    ensures FromBytes(s) < 64 * Pow256(|s| - 1)
  {
    if 1 < |s| {
      FromBytesBound(s[..|s| - 1]);
    } else {
      assert s[..0] == [];
    }
  }

  lemma {:induction false} PowersGrow(m: nat, n: nat)
    requires m <= n
    ensures Pow256(m) <= Pow256(n)
  {
    if m < n {
      PowersGrow(m, n - 1);
    }
  }

  lemma DecodedFits(s: seq<byte>)
    requires 1 <= |s| <= 8 && s[0] < 64
    ensures FromBytes(s) <= MAX_VARINT
  {
    Powers();
    FromBytesBound(s);
    PowersGrow(|s| - 1, 7);
  }

  // ---------------------------------------------------------------- round trip

  /** Reading an encoding back gives the value and exactly its length, whatever follows. */
  lemma DecodeEncode(v: varint, rest: seq<byte>)
    ensures Decode(Encode(v) + rest) == Some((v, EncodedSize(v)))
  {
    TagFits(v);
    var n, s := EncodedSize(v), Encode(v) + rest;
    var b := BigEndian(v, n);
    assert s[0] / 64 == Tag(v) && s[0] % 64 == b[0];
    assert [s[0] % 64] + s[1..n] == b;
    Powers();
    PowersTop(n);
    FromBigEndian(v, n);
  }

  lemma PowersTop(n: nat)
    requires 0 < n
    ensures Pow256(n) == 256 * Pow256(n - 1)
  {
  }

  /** Encoding is as short as the format allows: no shorter code holds the value. */
  lemma EncodeIsShortest(v: varint, s: seq<byte>)
    requires Decode(s).Some? && Decode(s).value.0 == v
    ensures EncodedSize(v) <= Decode(s).value.1
    ensures EncodedSize(v) == Decode(s).value.1 ==> s[..EncodedSize(v)] == Encode(v)
  {
    var n := Length(s[0] / 64);
    var b := [s[0] % 64] + s[1..n];
    FromBytesBound(b);
    Powers();
    if n == EncodedSize(v) {
      ToBigEndian(b);
      assert b == BigEndian(v, n);
      assert s[..n] == [s[0]] + s[1..n];
    }
  }

  // ---------------------------------------------------------------- implementation

  /** `(value >> 8 * k) & 0xff`. */
  function Octet(value: nat, k: nat): byte {
    (value / Pow256(k)) % 256
  }

  /** The bytes of an encoding, as shifts and masks of the value. */
  lemma EncodeAt(v: varint, i: nat)
    requires i < EncodedSize(v)
    ensures var top := EncodedSize(v) - 1;
            Encode(v)[i] == if i == 0 then 64 * Tag(v) + Octet(v, top) % 64 else Octet(v, top - i)
  {
    TagFits(v);
    BigEndianAt(v, EncodedSize(v), i);
  }

  lemma EncodeByOctets(v: varint)
    ensures EncodedSize(v) == 1 ==> Encode(v) == [v]
    ensures EncodedSize(v) == 2 ==> Encode(v) == [0x40 + Octet(v, 1) % 64, Octet(v, 0)]
    ensures EncodedSize(v) == 4 ==>
              Encode(v) == [0x80 + Octet(v, 3) % 64, Octet(v, 2), Octet(v, 1), Octet(v, 0)]
    ensures EncodedSize(v) == 8 ==>
              Encode(v) == [0xc0 + Octet(v, 7) % 64, Octet(v, 6), Octet(v, 5), Octet(v, 4),
                            Octet(v, 3), Octet(v, 2), Octet(v, 1), Octet(v, 0)]
  {
    forall i: nat | i < EncodedSize(v)
      ensures var top := EncodedSize(v) - 1;
              Encode(v)[i] == if i == 0 then 64 * Tag(v) + Octet(v, top) % 64 else Octet(v, top - i)
    {
      EncodeAt(v, i);
    }
  }

  /** Writes the encoding at the start of `output`; fails if the value or its encoding does not fit. */
  method EncodeVarint(value: nat, output: array<byte>) returns (written: Option<nat>)
    modifies output
    ensures written.Some? <==> value <= MAX_VARINT && EncodedSize(value) <= output.Length
    ensures written.Some? ==> written.value == EncodedSize(value)
    ensures written.Some? ==> output[..] == Encode(value) + old(output[EncodedSize(value)..])
    ensures written.None? ==> output[..] == old(output[..])
  {
    if value < 64 {
      if output.Length < 1 {
        return None;
      }
      EncodeByOctets(value);
      output[0] := value;
      return Some(1);
    }
    if value < 16384 {
      if output.Length < 2 {
        return None;
      }
      EncodeByOctets(value);
      output[0] := 0x40 + Octet(value, 1) % 64;
      output[1] := Octet(value, 0);
      return Some(2);
    }
    if MAX_VARINT < value {
      return None;
    }
    var size := EncodedSize(value);
    if output.Length < size {
      return None;
    }
    if size == 4 {
      WriteFour(value, output);
    } else {
      WriteEight(value, output);
    }
    return Some(size);
  }

  method WriteFour(value: varint, output: array<byte>)
    requires EncodedSize(value) == 4 <= output.Length
    modifies output
    ensures output[..] == Encode(value) + old(output[4..])
  {
    EncodeByOctets(value);
    hide Encode;
    output[0] := 0x80 + Octet(value, 3) % 64;
    output[1] := Octet(value, 2);
    output[2] := Octet(value, 1);
    output[3] := Octet(value, 0);
  }

  method WriteEight(value: varint, output: array<byte>)
    requires EncodedSize(value) == 8 <= output.Length
    modifies output
    ensures output[..] == Encode(value) + old(output[8..])
  {
    EncodeByOctets(value);
    hide Encode;
    output[0] := 0xc0 + Octet(value, 7) % 64;
    output[1] := Octet(value, 6);
    output[2] := Octet(value, 5);
    output[3] := Octet(value, 4);
    output[4] := Octet(value, 3);
    output[5] := Octet(value, 2);
    output[6] := Octet(value, 1);
    output[7] := Octet(value, 0);
  }

  method DecodeVarint(input: seq<byte>) returns (r: Option<(varint, nat)>)
    ensures r == Decode(input)
  {
    if input == [] {
      return None;
    }
    var first := input[0];
    var prefix := first / 64;
    if prefix == 0 {
      FromOne(first % 64);
      assert [first % 64] + input[1..1] == [first % 64];
      return Some((first % 64, 1));
    }
    if prefix == 1 {
      if |input| < 2 {
        return None;
      }
      FromTwo(first % 64, input[1]);
      assert [first % 64] + input[1..2] == [first % 64, input[1]];
      var high: nat := first % 64;
      return Some((high * 256 + input[1], 2));
    }
    var length := if prefix == 2 then 4 else 8;
    if |input| < length {
      return None;
    }
    var value: nat := first % 64;
    FromOne(first % 64);
    assert [first % 64] + input[1..1] == [first % 64];
    for index := 1 to length
      invariant value == FromBytes([first % 64] + input[1..index])
    {
      var b := [first % 64] + input[1..index + 1];
      assert b[..|b| - 1] == [first % 64] + input[1..index];
      value := value * 256 + input[index];
    }
    DecodedFits([first % 64] + input[1..length]);
    if MAX_VARINT < value {
      return None;
    }
    return Some((value, length));
  }
}
