/** Long and short packet headers (packet_header.hpp; section 17 of RFC 9000). */
module PacketHeader {
  import opened Bytes
  import opened Common
  import V = Varint

  datatype LongType = Initial | Handshake

  // ---------------------------------------------------------------- long headers

  /** A long header that carries a protected payload; `token` is empty unless the packet is Initial. */
  datatype LongHeader = LongHeader(
    first: byte, version: nat, kind: LongType, dcid: seq<byte>, scid: seq<byte>, token: seq<byte>, payload: seq<byte>)

  predicate IdsFit(h: LongHeader) {
    |h.dcid| <= 255 && |h.scid| <= 255 && |h.token| <= MAX_VARINT
  }

  function IdBytes(id: seq<byte>): seq<byte>
    requires |id| <= 255
  {
    [|id|] + id
  }

  function TokenBytes(h: LongHeader): seq<byte>
    requires IdsFit(h)
  {
    if h.kind.Initial? then V.Encode(|h.token|) + h.token else []
  }

  /** Everything before the Length field. */
  function BeforeLength(h: LongHeader): seq<byte>
    requires IdsFit(h)
  {
    [h.first] + BigEndian(h.version, 4) + (IdBytes(h.dcid) + (IdBytes(h.scid) + TokenBytes(h)))
  }

  /** Everything before the payload. */
  function LongPrefix(h: LongHeader): seq<byte>
    requires IdsFit(h) && |h.payload| <= MAX_VARINT
  {
    BeforeLength(h) + V.Encode(|h.payload|)
  }

  /** `encode_initial` and `encode_handshake` for a header whose length field is its payload's size. */
  function EncodeLong(h: LongHeader): Option<seq<byte>> {
    if IdsFit(h) && |h.payload| <= MAX_VARINT then Some(LongPrefix(h) + h.payload) else None
  }

  /** A length-prefixed connection ID and the bytes it takes. */
  function ReadId(s: seq<byte>): (r: Option<(seq<byte>, nat)>)
    ensures r.Some? ==> r.value.1 <= |s|
  {
    if s == [] then None else
      var n: nat := s[0];
      if |s| - 1 < n then None else Some((s[1..1 + n], 1 + n))
  }

  function ReadToken(s: seq<byte>, kind: LongType): (r: Option<(seq<byte>, nat)>)
    ensures r.Some? ==> r.value.1 <= |s|
  {
    if kind.Handshake? then Some(([], 0)) else
      var d := V.Decode(s);
      if d.None? then None else
        var (length, n) := d.value;
        if |s| - n < length then None else Some((s[n..n + length], n + length))
  }

  /** The fields after the version, and the bytes they take. */
  datatype Fields = Fields(dcid: seq<byte>, scid: seq<byte>, token: seq<byte>, length: nat, size: nat)

  function ReadFields(s: seq<byte>, kind: LongType): (r: Option<Fields>)
    ensures r.Some? ==> r.value.size <= |s|
  {
    var d := ReadId(s);
    if d.None? then None else
      var c := ReadId(s[d.value.1..]);
      if c.None? then None else
        var t := ReadToken(s[d.value.1 + c.value.1..], kind);
        if t.None? then None else
          var at := d.value.1 + c.value.1 + t.value.1;
          var l := V.Decode(s[at..]);
          if l.None? then None else
            Some(Fields(d.value.0, c.value.0, t.value.0, l.value.0, at + l.value.1))
  }

  /** The packet type in bits 0x30 of a first byte with the two form bits set. */
  function KindOf(first: byte): Option<LongType> {
    if first / 64 != 3 then None
    else if first / 16 % 4 == 0 then Some(Initial)
    else if first / 16 % 4 == 2 then Some(Handshake)
    else None
  }

  /**
   * `decode_packet_header` as far as protected payloads go: Initial and Handshake headers whose length field
   * is exactly what remains.
   */
  function DecodeLong(s: seq<byte>): (r: Option<LongHeader>)
    ensures r.Some? ==> |r.value.payload| + 5 <= |s|
  {
    if |s| < 5 || KindOf(s[0]).None? || FromBytes(s[1..5]) == 0 then None else
      var kind := KindOf(s[0]).value;
      var f := ReadFields(s[5..], kind);
      if f.None? || f.value.length != |s| - 5 - f.value.size then None else
        Some(LongHeader(
               s[0], FromBytes(s[1..5]), kind, f.value.dcid, f.value.scid, f.value.token, s[5 + f.value.size..]))
  }

  /** `long_packet_wire_size`: how many bytes of a datagram its first packet takes. */
  function WireSize(s: seq<byte>): (r: Option<nat>)
    ensures r.Some? ==> 0 < r.value <= |s|
  {
    if |s| < 5 || KindOf(s[0]).None? then None else
      var f := ReadFields(s[5..], KindOf(s[0]).value);
      if f.None? || |s| - 5 - f.value.size < f.value.length then None else Some(5 + f.value.size + f.value.length)
  }

  // ---------------------------------------------------------------- reading back what was written

  lemma IdReadsBack(id: seq<byte>, rest: seq<byte>)
    requires |id| <= 255
    ensures ReadId(IdBytes(id) + rest) == Some((id, |IdBytes(id)|))
    ensures (IdBytes(id) + rest)[|IdBytes(id)|..] == rest
  {
    var s := IdBytes(id) + rest;
    assert s[1..1 + |id|] == id;
  }

  lemma TokenReadsBack(h: LongHeader, rest: seq<byte>)
    requires IdsFit(h) && (h.kind.Handshake? ==> h.token == [])
    ensures ReadToken(TokenBytes(h) + rest, h.kind) == Some((h.token, |TokenBytes(h)|))
    ensures (TokenBytes(h) + rest)[|TokenBytes(h)|..] == rest
  {
    hide V.Encode, V.Decode;
    if h.kind.Initial? {
      var s := TokenBytes(h) + rest;
      assert s == V.Encode(|h.token|) + (h.token + rest);
      V.DecodeEncode(|h.token|, h.token + rest);
      assert s[|V.Encode(|h.token|)|..|V.Encode(|h.token|)| + |h.token|] == h.token;
    }
  }

  lemma FieldsReadBack(h: LongHeader, length: nat, rest: seq<byte>)
    requires IdsFit(h) && (h.kind.Handshake? ==> h.token == []) && length <= MAX_VARINT
    ensures var written := IdBytes(h.dcid) + (IdBytes(h.scid) + (TokenBytes(h) + V.Encode(length)));
            ReadFields(written + rest, h.kind) == Some(Fields(h.dcid, h.scid, h.token, length, |written|))
  {
    hide V.Encode, V.Decode, ReadId, ReadToken, IdBytes, TokenBytes;
    var d, c, t, l := IdBytes(h.dcid), IdBytes(h.scid), TokenBytes(h), V.Encode(length);
    var s := d + (c + (t + l)) + rest;
    assert s == d + (c + (t + (l + rest)));
    IdReadsBack(h.dcid, c + (t + (l + rest)));
    IdReadsBack(h.scid, t + (l + rest));
    TokenReadsBack(h, l + rest);
    V.DecodeEncode(length, rest);
    assert s[|d| + |c|..] == t + (l + rest);
    assert s[|d| + |c| + |t|..] == l + rest;
  }

  /** A header a sender can write and a receiver can read. */
  predicate WellFormed(h: LongHeader) {
    && KindOf(h.first) == Some(h.kind)
    && 0 < h.version < 0x1_0000_0000
    && (h.kind.Handshake? ==> h.token == [])
  }

  /** The layout of a written header. */
  lemma LongLayout(h: LongHeader)
    requires IdsFit(h) && |h.payload| <= MAX_VARINT
    ensures LongPrefix(h) == [h.first] + BigEndian(h.version, 4)
                             + (IdBytes(h.dcid) + (IdBytes(h.scid) + (TokenBytes(h) + V.Encode(|h.payload|))))
  {
    hide V.Encode, BigEndian, IdBytes, TokenBytes;
    var d, c, t, l := IdBytes(h.dcid), IdBytes(h.scid), TokenBytes(h), V.Encode(|h.payload|);
    assert [h.first] + BigEndian(h.version, 4) + (d + (c + t)) + l
        == [h.first] + BigEndian(h.version, 4) + (d + (c + (t + l)));
  }

  lemma VersionFits(version: nat)
    requires version < 0x1_0000_0000
    ensures FromBytes(BigEndian(version, 4)) == version
  {
    assert Pow256(2) == 0x1_0000;
    assert Pow256(4) == 0x1_0000_0000;
    FromBigEndian(version, 4);
  }

  /** Header round trip, and the wire size of a packet is its own length, whatever follows it. */
  lemma LongReadsBack(h: LongHeader, rest: seq<byte>)
    requires WellFormed(h) && EncodeLong(h).Some?
    ensures DecodeLong(EncodeLong(h).value) == Some(h)
    ensures WireSize(EncodeLong(h).value + rest) == Some(|EncodeLong(h).value|)
  {
    hide V.Encode, BigEndian, FromBytes, IdBytes, TokenBytes, ReadFields, KindOf;
    LongLayout(h);
    VersionFits(h.version);
    var written := IdBytes(h.dcid) + (IdBytes(h.scid) + (TokenBytes(h) + V.Encode(|h.payload|)));
    var s := EncodeLong(h).value;
    assert s[1..5] == BigEndian(h.version, 4);
    assert s[5..] == written + h.payload;
    FieldsReadBack(h, |h.payload|, h.payload);
    assert s[5 + |written|..] == h.payload;
    assert (s + rest)[5..] == written + (h.payload + rest);
    FieldsReadBack(h, |h.payload|, h.payload + rest);
    assert (s + rest)[0] == h.first;
  }

  // ---------------------------------------------------------------- short headers

  datatype ShortHeader = ShortHeader(
    first: byte, dcid: seq<byte>, numberLength: nat, truncated: nat, payload: seq<byte>)

  /** The bytes up to and including a four-byte packet number, under first byte 0x43. */
  function ShortPrefix(dcid: seq<byte>, number: nat): seq<byte> {
    [0x43] + dcid + BigEndian(number, 4)
  }

  /** `decode_short_header` for a connection ID of known length. */
  function DecodeShort(s: seq<byte>, idLength: nat): (r: Option<ShortHeader>)
    ensures r.Some? ==> 1 + idLength + r.value.numberLength <= |s|
  {
    if s == [] || s[0] / 64 != 1 || |s| - 1 < idLength then None else
      var n := s[0] % 4 + 1;
      if |s| - 1 - idLength < n then None else
        var at := 1 + idLength;
        Some(ShortHeader(s[0], s[1..at], n, FromBytes(s[at..at + n]), s[at + n..]))
  }

  lemma ShortReadsBack(dcid: seq<byte>, number: nat, payload: seq<byte>)
    requires number < 0x1_0000_0000
    ensures DecodeShort(ShortPrefix(dcid, number) + payload, |dcid|)
            == Some(ShortHeader(0x43, dcid, 4, number, payload))
  {
    hide BigEndian, FromBytes;
    var s := ShortPrefix(dcid, number) + payload;
    VersionFits(number);
    assert s[1..1 + |dcid|] == dcid;
    assert s[1 + |dcid|..1 + |dcid| + 4] == BigEndian(number, 4);
    assert s[1 + |dcid| + 4..] == payload;
  }
}
