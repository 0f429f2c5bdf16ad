/**
 * The layout of packets on the wire (section 17 of RFC 9000 as far as packet_header.hpp supports it) as a relation
 * between bytes and headers: the header parsers decide it, and what the assembler sends and the packet parsers accept
 * is said in its terms.
 */
module PacketGrammar {
  import opened Bytes
  import opened Common
  import opened FrameGrammar
  import opened Frames
  import opened HeaderProtection
  import opened PacketHeader
  import opened PacketPipeline
  import Codec = FrameCodec
  import InitialPadding
  import V = Varint

  // ---------------------------------------------------------------- long headers

  /** Four bytes, the most significant first. */
  ghost predicate IsFour(s: seq<byte>, v: nat) {
    |s| == 4 && v == 0x100_0000 * s[0] as int + 0x1_0000 * s[1] as int + 0x100 * s[2] as int + s[3] as int
  }

  /** A connection ID behind one byte of length. */
  ghost predicate IsId(s: seq<byte>, id: seq<byte>) {
    s != [] && s[0] == |id| && s[1..] == id
  }

  /** An Initial packet has a token behind a length; a Handshake packet has none. */
  ghost predicate IsToken(s: seq<byte>, kind: LongType, token: seq<byte>) {
    if kind == Handshake then s == [] && token == []
    else exists k :: 0 <= k <= |s| && IsVarint(s[..k], |token|) && s[k..] == token
  }

  /** The top bits: a long header with the fixed bit, and two bits of type. */
  ghost predicate IsFirst(first: byte, kind: LongType) {
    first / 64 == 3 && first / 16 % 4 == if kind == Initial then 0 else 2
  }

  /** The fields between the version and the payload, which end at `a`, `b`, `c` and `size`. */
  ghost predicate AreFields(s: seq<byte>, kind: LongType, f: Fields, a: nat, b: nat, c: nat) {
    && a <= b <= c <= f.size <= |s|
    && IsId(s[..a], f.dcid) && IsId(s[a..b], f.scid) && IsToken(s[b..c], kind, f.token)
    && IsVarint(s[c..f.size], f.length)
  }

  /** The bytes are one long-header packet with these fields; the version is any. */
  ghost predicate IsLong(s: seq<byte>, h: LongHeader, a: nat, b: nat, c: nat, d: nat) {
    && 5 <= a <= b <= c <= d <= |s|
    && s[0] == h.first && IsFirst(h.first, h.kind) && IsFour(s[1..5], h.version)
    && IsId(s[5..a], h.dcid) && IsId(s[a..b], h.scid) && IsToken(s[b..c], h.kind, h.token)
    && IsVarint(s[c..d], |h.payload|) && s[d..] == h.payload
  }

  lemma IdExactly(s: seq<byte>, id: seq<byte>, n: nat)
    ensures ReadId(s) == Some((id, n)) <==> n <= |s| && IsId(s[..n], id)
  {
    if n <= |s| && IsId(s[..n], id) {
      assert s[..n][1..] == s[1..n];
    }
  }

  lemma TokenExactly(s: seq<byte>, kind: LongType, token: seq<byte>, n: nat)
    ensures ReadToken(s, kind) == Some((token, n)) <==> n <= |s| && IsToken(s[..n], kind, token)
  {
    if kind == Initial {
      if n <= |s| && IsToken(s[..n], kind, token) {
        var k :| 0 <= k <= |s[..n]| && IsVarint(s[..n][..k], |token|) && s[..n][k..] == token;
        assert s[..n][..k] == s[..k] && s[..n][k..] == s[k..n];
        DecodeIsExact(s, |token|, k);
      }
      if ReadToken(s, kind) == Some((token, n)) {
        var k := V.Decode(s).value.1;
        DecodeIsExact(s, |token|, k);
        assert s[..n][..k] == s[..k] && s[..n][k..] == s[k..n];
      }
    }
  }

  lemma FieldsAreRead(s: seq<byte>, kind: LongType, f: Fields, a: nat, b: nat, c: nat)
    requires AreFields(s, kind, f, a, b, c)
    ensures PacketHeader.ReadFields(s, kind) == Some(f)
  {
    hide ReadId, ReadToken, V.Decode, IsId, IsToken, IsVarint;
    IdExactly(s, f.dcid, a);
    assert s[a..][..b - a] == s[a..b];
    IdExactly(s[a..], f.scid, b - a);
    assert s[b..][..c - b] == s[b..c];
    TokenExactly(s[b..], kind, f.token, c - b);
    assert s[c..][..f.size - c] == s[c..f.size];
    DecodeIsExact(s[c..], f.length, f.size - c);
  }

  lemma ReadAreFields(s: seq<byte>, kind: LongType) returns (a: nat, b: nat, c: nat)
    requires PacketHeader.ReadFields(s, kind).Some?
    ensures AreFields(s, kind, PacketHeader.ReadFields(s, kind).value, a, b, c)
  {
    hide ReadId, ReadToken, V.Decode, IsId, IsToken, IsVarint;
    var f := PacketHeader.ReadFields(s, kind).value;
    a := ReadId(s).value.1;
    IdExactly(s, f.dcid, a);
    b := a + ReadId(s[a..]).value.1;
    assert s[a..][..b - a] == s[a..b];
    IdExactly(s[a..], f.scid, b - a);
    c := b + ReadToken(s[b..], kind).value.1;
    assert s[b..][..c - b] == s[b..c];
    TokenExactly(s[b..], kind, f.token, c - b);
    assert s[c..][..f.size - c] == s[c..f.size];
    DecodeIsExact(s[c..], f.length, f.size - c);
  }

  lemma FourExactly(s: seq<byte>, v: nat)
    requires |s| == 4
    ensures FromBytes(s) == v <==> IsFour(s, v)
  {
    var a, b, c := s[..3], s[..2], s[..1];
    assert s[..3][..2] == b && b[..1] == c && c[..0] == [];
    assert FromBytes(c) == s[0];
    assert FromBytes(b) == s[0] as int * 256 + s[1] as int;
    assert FromBytes(a) == (s[0] as int * 256 + s[1] as int) * 256 + s[2] as int;
  }

  lemma KindExactly(first: byte, kind: LongType)
    ensures KindOf(first) == Some(kind) <==> IsFirst(first, kind)
  {
  }

  /** The bytes of a packet of `n` bytes at the front of `s`, cut the same way with and without what follows. */
  lemma CutInFront(s: seq<byte>, n: nat, h: LongHeader, a: nat, b: nat, c: nat, d: nat)
    requires 5 <= a <= b <= c <= d <= n <= |s|
    ensures IsLong(s[..n], h, a, b, c, d) <==>
            && s[0] == h.first && IsFirst(h.first, h.kind) && IsFour(s[1..5], h.version)
            && |h.payload| == n - d && s[d..n] == h.payload
            && AreFields(s[5..], h.kind, Fields(h.dcid, h.scid, h.token, |h.payload|, d - 5), a - 5, b - 5, c - 5)
  {
    hide IsId, IsToken, IsVarint, IsFour, IsFirst;
    assert s[..n][1..5] == s[1..5] && s[..n][d..] == s[d..n];
    SameSlice(s, n, 5, a);
    SameSlice(s, n, a, b);
    SameSlice(s, n, b, c);
    SameSlice(s, n, c, d);
  }

  lemma SameSlice(s: seq<byte>, n: nat, a: nat, b: nat)
    requires 5 <= a <= b <= n <= |s|
    ensures s[..n][a..b] == s[5..][a - 5..b - 5]
  {
    assert s[..n][a..b] == s[a..b];
    assert s[5..][a - 5..b - 5] == s[a..b];
  }

  ghost predicate SpellsLong(s: seq<byte>, h: LongHeader) {
    exists a: nat, b: nat, c: nat, d: nat :: IsLong(s, h, a, b, c, d)
  }

  /** The long header parser accepts exactly the bytes of one packet whose version is not zero. */
  lemma LongParserDecides(s: seq<byte>, h: LongHeader)
    ensures DecodeLong(s) == Some(h) <==> h.version != 0 && SpellsLong(s, h)
  {
    hide PacketHeader.ReadFields, KindOf, IsFirst, IsFour, FromBytes, AreFields, IsLong;
    assert s[..|s|] == s;
    if DecodeLong(s) == Some(h) {
      var f := PacketHeader.ReadFields(s[5..], h.kind).value;
      KindExactly(s[0], h.kind);
      FourExactly(s[1..5], h.version);
      var a, b, c := ReadAreFields(s[5..], h.kind);
      FieldsInOrder(s[5..], h.kind, f, a, b, c);
      assert f == Fields(h.dcid, h.scid, h.token, |h.payload|, 5 + f.size - 5);
      CutInFront(s, |s|, h, a + 5, b + 5, c + 5, f.size + 5);
      assert s[f.size + 5..|s|] == s[5 + f.size..];
      assert IsLong(s, h, a + 5, b + 5, c + 5, f.size + 5);
    }
    if h.version != 0 && SpellsLong(s, h) {
      var a: nat, b: nat, c: nat, d: nat :| IsLong(s, h, a, b, c, d);
      LongInOrder(s, h, a, b, c, d);
      CutInFront(s, |s|, h, a, b, c, d);
      KindExactly(s[0], h.kind);
      FourExactly(s[1..5], h.version);
      FieldsAreRead(s[5..], h.kind, Fields(h.dcid, h.scid, h.token, |h.payload|, d - 5), a - 5, b - 5, c - 5);
      assert s[d..|s|] == s[d..];
    }
  }

  lemma FieldsInOrder(s: seq<byte>, kind: LongType, f: Fields, a: nat, b: nat, c: nat)
    requires AreFields(s, kind, f, a, b, c)
    ensures a <= b <= c <= f.size <= |s|
  {
  }

  lemma LongInOrder(s: seq<byte>, h: LongHeader, a: nat, b: nat, c: nat, d: nat)
    requires IsLong(s, h, a, b, c, d)
    ensures 5 <= a <= b <= c <= d <= |s|
  {
  }

  /** How much of a datagram its first packet takes: the bytes up to there are one packet, whatever its version. */
  lemma WireSizeDecides(s: seq<byte>, n: nat)
    ensures WireSize(s) == Some(n) <==> n <= |s| && exists h :: SpellsLong(s[..n], h)
  {
    hide PacketHeader.ReadFields, KindOf, IsFirst, IsFour, FromBytes, AreFields, IsLong;
    if WireSize(s) == Some(n) {
      var kind := KindOf(s[0]).value;
      KindExactly(s[0], kind);
      var f := PacketHeader.ReadFields(s[5..], kind).value;
      var a, b, c := ReadAreFields(s[5..], kind);
      FieldsInOrder(s[5..], kind, f, a, b, c);
      var d := f.size + 5;
      FourExactly(s[1..5], FromBytes(s[1..5]));
      var h := LongHeader(s[0], FromBytes(s[1..5]), kind, f.dcid, f.scid, f.token, s[d..n]);
      CutInFront(s, n, h, a + 5, b + 5, c + 5, d);
      assert IsLong(s[..n], h, a + 5, b + 5, c + 5, d);
      assert SpellsLong(s[..n], h);
    }
    if n <= |s| && exists h :: SpellsLong(s[..n], h) {
      var h :| SpellsLong(s[..n], h);
      var a: nat, b: nat, c: nat, d: nat :| IsLong(s[..n], h, a, b, c, d);
      LongInOrder(s[..n], h, a, b, c, d);
      CutInFront(s, n, h, a, b, c, d);
      KindExactly(s[0], h.kind);
      FieldsAreRead(s[5..], h.kind, Fields(h.dcid, h.scid, h.token, |h.payload|, d - 5), a - 5, b - 5, c - 5);
    }
  }

  lemma VarintIsSpelled(v: V.varint)
    ensures IsVarint(V.Encode(v), v)
  {
    hide V.Encode, V.Decode, IsVarint;
    V.DecodeEncode(v, []);
    assert V.Encode(v) + [] == V.Encode(v);
    DecodeIsExact(V.Encode(v), v, |V.Encode(v)|);
    assert V.Encode(v)[..|V.Encode(v)|] == V.Encode(v);
  }

  lemma FourIsSpelled(v: nat)
    requires v < 0x1_0000_0000
    ensures IsFour(BigEndian(v, 4), v)
  {
    hide IsFour, BigEndian, FromBytes;
    FromBigEndian(v, 4);
    assert Pow256(4) == 0x1_0000_0000 by {
      V.Powers();
    }
    FourExactly(BigEndian(v, 4), v);
  }

  lemma OneFour(s: seq<byte>, v: nat)
    requires IsFour(s, v)
    ensures s == BigEndian(v, 4)
  {
    hide BigEndian, FromBytes;
    FourExactly(s, v);
    ToBigEndian(s);
  }

  lemma IdIsSpelled(id: seq<byte>)
    requires |id| <= 255
    ensures IsId(IdBytes(id), id)
  {
  }

  lemma TokenIsSpelled(h: LongHeader)
    requires IdsFit(h) && (h.kind == Handshake ==> h.token == [])
    ensures IsToken(TokenBytes(h), h.kind, h.token)
  {
    hide V.Encode, IsVarint;
    if h.kind == Initial {
      var k := |V.Encode(|h.token|)|;
      VarintIsSpelled(|h.token|);
      assert TokenBytes(h)[..k] == V.Encode(|h.token|) && TokenBytes(h)[k..] == h.token;
    }
  }

  /** The fewest bytes that spell a number. */
  ghost function VarintSize(v: nat): nat {
    if v < 0x40 then 1 else if v < 0x4000 then 2 else if v < 0x4000_0000 then 4 else 8
  }

  ghost function LongSize(h: LongHeader): nat {
    7 + |h.dcid| + |h.scid| + (if h.kind == Initial then VarintSize(|h.token|) + |h.token| else 0)
    + VarintSize(|h.payload|) + |h.payload|
  }

  lemma LongSizeExactly(h: LongHeader)
    ensures EncodeLong(h).Some? ==> |EncodeLong(h).value| == LongSize(h)
  {
    hide BigEndian, V.Encode;
  }

  /** The long header printer spells the header, with the shortest lengths, if its fields fit theirs. */
  lemma LongIsPrinted(h: LongHeader)
    requires IsFirst(h.first, h.kind) && h.version < 0x1_0000_0000 && (h.kind == Handshake ==> h.token == [])
    ensures EncodeLong(h).Some? <==>
            && |h.dcid| < 256 && |h.scid| < 256
            && |h.token| <= 0x3fff_ffff_ffff_ffff && |h.payload| <= 0x3fff_ffff_ffff_ffff
    ensures EncodeLong(h).Some? ==> SpellsLong(EncodeLong(h).value, h) && |EncodeLong(h).value| == LongSize(h)
  {
    LongSizeExactly(h);
    if EncodeLong(h).Some? {
      hide IdBytes, TokenBytes, V.Encode, BigEndian, IsId, IsToken, IsVarint, IsFour, IsFirst;
      var v, d, c := BigEndian(h.version, 4), IdBytes(h.dcid), IdBytes(h.scid);
      var t, l := TokenBytes(h), V.Encode(|h.payload|);
      FourIsSpelled(h.version);
      IdIsSpelled(h.dcid);
      IdIsSpelled(h.scid);
      TokenIsSpelled(h);
      VarintIsSpelled(|h.payload|);
      var s := EncodeLong(h).value;
      Joined(h.first, v, d, c, t, l, h.payload);
      assert s == [h.first] + v + (d + (c + t)) + l + h.payload;
      assert IsLong(s, h, 5 + |d|, 5 + |d| + |c|, 5 + |d| + |c| + |t|, 5 + |d| + |c| + |t| + |l|);
    }
  }

  lemma Joined(
    first: byte, v: seq<byte>, d: seq<byte>, c: seq<byte>, t: seq<byte>, l: seq<byte>, payload: seq<byte>)
    requires |v| == 4
    ensures var s := [first] + v + (d + (c + t)) + l + payload;
            var x, y, z := 5 + |d|, 5 + |d| + |c|, 5 + |d| + |c| + |t|;
            && s[0] == first && s[1..5] == v && s[5..x] == d && s[x..y] == c && s[y..z] == t
            && s[z..z + |l|] == l && s[z + |l|..] == payload
  {
  }

  // ---------------------------------------------------------------- short headers

  ghost predicate IsShort(s: seq<byte>, idLength: nat, h: ShortHeader) {
    && 1 <= h.numberLength <= 4 && 1 + idLength + h.numberLength <= |s|
    && s[0] == h.first && h.first / 64 == 1 && h.numberLength == h.first % 4 + 1
    && s[1..1 + idLength] == h.dcid && FromBytes(s[1 + idLength..1 + idLength + h.numberLength]) == h.truncated
    && s[1 + idLength + h.numberLength..] == h.payload
  }

  /** The short header parser accepts exactly such bytes, given the length of the connection ID. */
  lemma ShortParserDecides(s: seq<byte>, idLength: nat, h: ShortHeader)
    ensures DecodeShort(s, idLength) == Some(h) <==> IsShort(s, idLength, h)
  {
    hide FromBytes;
  }

  // ---------------------------------------------------------------- header protection

  /** The bytes the mask is taken from: sixteen, four behind the start of the packet number. */
  ghost function SampleAt(d: seq<byte>, at: nat): seq<byte>
    requires at + 20 <= |d|
  {
    d[at + 4..at + 20]
  }

  /** `e` is `d` with the low bits of the first byte and the first `n` bytes from `at` masked. */
  ghost predicate IsMasked(d: seq<byte>, e: seq<byte>, at: nat, n: nat, m: Mask, low: nat)
    requires 0 < low
  {
    && 1 <= at && n <= 4 && at + n <= |d| == |e| && e[0] == Xor(d[0], m[0] % low)
    && (forall i | at <= i < at + n :: e[i] == Xor(d[i], m[1 + i - at]))
    && (forall i | 1 <= i < |d| && !(at <= i < at + n) :: e[i] == d[i])
  }

  /** `e` is what `d` becomes when its header is protected, if it is to be. */
  ghost predicate IsProtected(d: seq<byte>, e: seq<byte>, at: nat, p: Protector, low: nat)
    requires 0 < low
  {
    if !p.headerProtection then e == d
    else at + 20 <= |d| && p.mask(SampleAt(d, at)).Some? && IsMasked(d, e, at, 4, p.mask(SampleAt(d, at)).value, low)
  }

  /** `e` is what is found behind the header protection of `d`; the unmasked first byte says how long the number is. */
  ghost predicate IsRevealed(d: seq<byte>, e: seq<byte>, at: nat, p: Protector, low: nat)
    requires 0 < low
  {
    if !p.headerProtection then e == d
    else
      && at + 20 <= |d| == |e| && p.mask(SampleAt(d, at)).Some?
      && IsMasked(d, e, at, e[0] % 4 + 1, p.mask(SampleAt(d, at)).value, low)
  }

  lemma MaskedExactly(d: seq<byte>, e: seq<byte>, at: nat, n: nat, m: Mask, low: nat)
    requires 1 <= at && n <= 4 && at + n <= |d| && (low == 16 || low == 32)
    ensures e == Masked(d, at, n, m, low) <==> IsMasked(d, e, at, n, m, low)
  {
    hide Xor;
    var f := Masked(d, at, n, m, low);
    if IsMasked(d, e, at, n, m, low) {
      assert forall i | 0 <= i < |d| :: e[i] == f[i];
    }
  }

  lemma ProtectedExactly(d: seq<byte>, e: seq<byte>, at: nat, p: Protector, low: nat)
    requires 1 <= at && (low == 16 || low == 32) && d != [] && d[0] % 4 == 3
    ensures (if p.headerProtection then Apply(d, at, p.mask, low) else Some(d)) == Some(e) <==>
            IsProtected(d, e, at, p, low)
  {
    hide Masked, IsMasked;
    if p.headerProtection && at + 20 <= |d| && p.mask(SampleAt(d, at)).Some? {
      MaskedExactly(d, e, at, 4, p.mask(SampleAt(d, at)).value, low);
    }
  }

  lemma RevealedExactly(d: seq<byte>, e: seq<byte>, at: nat, p: Protector, low: nat)
    requires 1 <= at && (low == 16 || low == 32)
    ensures (if p.headerProtection then Remove(d, at, p.mask, low) else Some(d)) == Some(e) <==>
            IsRevealed(d, e, at, p, low)
  {
    hide Xor;
    if p.headerProtection && at + 20 <= |d| && p.mask(SampleAt(d, at)).Some? {
      var m := p.mask(SampleAt(d, at)).value;
      var n := Xor(d[0], m[0] % low) % 4 + 1;
      MaskedExactly(d, e, at, n, m, low);
      assert Masked(d, at, n, m, low)[0] == Xor(d[0], m[0] % low);
    }
  }

  // ---------------------------------------------------------------- application packets

  /** The keys may be used for the packet: they are there, they are those of its level, and they are ready. */
  ghost predicate MayUse(protector: Option<Protector>, level: Level) {
    protector.Some? && protector.value.level == level && protector.value.ready
  }

  /** `plain` is the packet before header protection: 0x43, connection ID, four bytes of number, protected frames. */
  ghost predicate IsPlain(r: AppRequest, p: Protector, plain: seq<byte>) {
    var at := 1 + |r.dcid|;
    && at + 4 <= |plain| && plain[0] == 0x43 && plain[1..at] == r.dcid && IsFour(plain[at..at + 4], r.number.value)
    && Codec.AllEncodable(r.frames)
    && p.protect(r.number, plain[..at + 4], Codec.Payload(r.frames)) == Some(plain[at + 4..])
  }

  /**
   * The assembler makes exactly these application packets: of frames that can be encoded, under a number of four bytes
   * in the application space, with ready application keys, no larger than allowed.
   */
  lemma ApplicationPacketExactly(r: AppRequest, d: seq<byte>)
    ensures AssembleApplication(r) == Some(d) <==>
            && MayUse(r.protector, ApplicationLevel) && r.number.space == AppSpace && r.number.value < 0x1_0000_0000
            && |d| <= r.maxDatagram
            && exists plain :: IsPlain(r, r.protector.value, plain)
                               && IsProtected(plain, d, 1 + |r.dcid|, r.protector.value, 32)
  {
    hide BigEndian, IsFour, IsProtected, Apply, Codec.Payload, Codec.AllEncodable;
    if r.protector.Some? && r.number.value < 0x1_0000_0000 && Codec.AllEncodable(r.frames) {
      var p, at := r.protector.value, 1 + |r.dcid|;
      var prefix := ShortPrefix(r.dcid, r.number.value);
      PrefixExactly(r.dcid, r.number.value);
      var sealed := p.protect(r.number, prefix, Codec.Payload(r.frames));
      forall plain: seq<byte> | IsPlain(r, p, plain)
        ensures sealed.Some? && plain == prefix + sealed.value
      {
        OnePrefix(r.dcid, r.number.value, plain);
      }
      if sealed.Some? {
        var plain := prefix + sealed.value;
        assert plain[..at + 4] == prefix && plain[at + 4..] == sealed.value;
        assert plain[1..at] == prefix[1..at] && plain[at..at + 4] == prefix[at..at + 4];
        assert IsPlain(r, p, plain);
        ProtectedExactly(plain, d, at, p, 32);
      }
    }
  }

  lemma PrefixExactly(dcid: seq<byte>, number: nat)
    requires number < 0x1_0000_0000
    ensures var s, at := ShortPrefix(dcid, number), 1 + |dcid|;
            |s| == at + 4 && s[0] == 0x43 && s[1..at] == dcid && IsFour(s[at..at + 4], number)
  {
    hide BigEndian, IsFour;
    FourIsSpelled(number);
    var s, at := ShortPrefix(dcid, number), 1 + |dcid|;
    assert s[at..at + 4] == BigEndian(number, 4);
  }

  /** The fields of a short header determine its bytes. */
  lemma OnePrefix(dcid: seq<byte>, number: nat, plain: seq<byte>)
    requires number < 0x1_0000_0000 && 1 + |dcid| + 4 <= |plain| && plain[0] == 0x43 && plain[1..1 + |dcid|] == dcid
    requires IsFour(plain[1 + |dcid|..1 + |dcid| + 4], number)
    ensures plain[..1 + |dcid| + 4] == ShortPrefix(dcid, number)
    ensures plain == ShortPrefix(dcid, number) + plain[1 + |dcid| + 4..]
  {
    hide BigEndian, IsFour;
    var at := 1 + |dcid|;
    OneFour(plain[at..at + 4], number);
    assert plain[..at + 4] == [plain[0]] + plain[1..at] + plain[at..at + 4];
  }

  /**
   * The parser takes exactly these application packets: with ready application keys, the bytes behind the header
   * protection are a short header, and what the keys find in them is a payload of the grammar.
   */
  lemma ShortPacketParsedExactly(d: seq<byte>, idLength: nat, protector: Option<Protector>, q: Parsed)
    ensures ParseShort(d, idLength, protector) == Some(q) <==>
            && MayUse(protector, ApplicationLevel)
            && exists u, h :: IsOpenedShort(d, u, h, idLength, protector.value, q)
  {
    hide Remove, DecodeShort, Codec.Decoding, IsPayload, IsRevealed, IsShort;
    if MayUse(protector, ApplicationLevel) {
      var p := protector.value;
      var found := if p.headerProtection then Remove(d, 1 + idLength, p.mask, 32) else Some(d);
      if found.Some? {
        var u := found.value;
        RevealedExactly(d, u, 1 + idLength, p, 32);
        var h := DecodeShort(u, idLength);
        if h.Some? {
          ShortParserDecides(u, idLength, h.value);
          var text := p.unprotect(
            Number(AppSpace, h.value.truncated), u[..1 + idLength + h.value.numberLength], h.value.payload);
          if text.Some? {
            ParserDecidesTheGrammar(text.value, q.frames);
          }
          if ParseShort(d, idLength, protector) == Some(q) {
            assert IsOpenedShort(d, u, h.value, idLength, p, q);
          }
        }
      }
      forall u, h | IsOpenedShort(d, u, h, idLength, p, q)
        ensures found == Some(u) && DecodeShort(u, idLength) == Some(h)
      {
        RevealedExactly(d, u, 1 + idLength, p, 32);
        ShortParserDecides(u, idLength, h);
      }
    }
  }

  /** `u` is the packet behind header protection, `h` its header, and `q` what it holds. */
  ghost predicate IsOpenedShort(d: seq<byte>, u: seq<byte>, h: ShortHeader, idLength: nat, p: Protector, q: Parsed) {
    && IsRevealed(d, u, 1 + idLength, p, 32) && IsShort(u, idLength, h)
    && q.number == Number(AppSpace, h.truncated) && q.frames != []
    && 1 + idLength + h.numberLength <= |u|
    && var text := p.unprotect(q.number, u[..1 + idLength + h.numberLength], h.payload);
       text.Some? && IsPayload(text.value, q.frames)
  }

  // ---------------------------------------------------------------- long packets

  ghost predicate Matches(kind: LongType, level: Level, space: Space) {
    if kind == Initial then level == InitialLevel && space == InitialSpace
    else level == HandshakeLevel && space == HandshakeSpace
  }

  /**
   * `u` is the packet behind header protection, with header `h`; the number is its first bytes, as many as the first
   * byte says, and what the keys find behind it are the frames.
   */
  ghost predicate IsOpenedLong(d: seq<byte>, g: LongHeader, u: seq<byte>, h: LongHeader, p: Protector, q: Parsed) {
    && |g.payload| < |d| && |h.payload| < |u|
    && SpellsLong(d, g) && g.version != 0 && IsRevealed(d, u, |d| - |g.payload|, p, 16)
    && SpellsLong(u, h) && h.version != 0
    && Matches(h.kind, p.level, q.number.space)
    && var n := u[0] % 4 + 1;
       && n <= |h.payload| && q.number.value == FromBytes(h.payload[..n])
       && var text := p.unprotect(q.number, u[..|u| - |h.payload| + n], h.payload[n..]);
          text.Some? && q.frames != [] && IsPayload(text.value, q.frames)
  }

  /**
   * The parser takes exactly these long packets: with ready keys of their level, a long header before and behind the
   * header protection, and a payload of the grammar.
   */
  lemma LongPacketParsedExactly(d: seq<byte>, protector: Option<Protector>, q: Parsed)
    ensures ParseLong(d, protector) == Some(q) <==>
            protector.Some? && protector.value.ready && exists g, u, h :: IsOpenedLong(d, g, u, h, protector.value, q)
  {
    hide Remove, DecodeLong, OpenLong, IsRevealed, SpellsLong, IsOpenedLong;
    if protector.Some? && protector.value.ready {
      var p := protector.value;
      var g := DecodeLong(d);
      if g.Some? {
        var found := Unmasked(d, p);
        if found.Some? {
          var u := found.value;
          RevealedExactly(d, u, |d| - |g.value.payload|, p, 16);
          LongParserDecides(d, g.value);
          if OpenLong(u, p) == Some(q) {
            OpenedMeans(u, p, q);
            var h := DecodeLong(u).value;
            OpenedByHand(d, g.value, u, h, p, q);
            assert IsOpenedLong(d, g.value, u, h, p, q);
          }
        }
      }
      forall g', u, h | IsOpenedLong(d, g', u, h, p, q)
        ensures g == Some(g') && Unmasked(d, p) == Some(u) && OpenLong(u, p) == Some(q)
      {
        OpenedIsRead(d, g', u, h, p, q);
      }
    }
  }

  lemma OpenedMeans(u: seq<byte>, p: Protector, q: Parsed)
    requires OpenLong(u, p) == Some(q)
    ensures DecodeLong(u).Some?
  {
  }

  lemma OpenedByHand(d: seq<byte>, g: LongHeader, u: seq<byte>, h: LongHeader, p: Protector, q: Parsed)
    requires |g.payload| < |d| && SpellsLong(d, g) && g.version != 0 && IsRevealed(d, u, |d| - |g.payload|, p, 16)
    requires DecodeLong(u) == Some(h) && OpenLong(u, p) == Some(q)
    ensures IsOpenedLong(d, g, u, h, p, q)
  {
    LongParserDecides(u, h);
    hide SpellsLong, IsRevealed, DecodeLong, IsPayload, Codec.Decoding, FromBytes;
    var n := u[0] % 4 + 1;
    var number := Number(SpaceFor(h.kind), FromBytes(h.payload[..n]));
    var text := p.unprotect(number, u[..|u| - |h.payload| + n], h.payload[n..]).value;
    ParserDecidesTheGrammar(text, q.frames);
  }

  lemma OpenedIsRead(d: seq<byte>, g: LongHeader, u: seq<byte>, h: LongHeader, p: Protector, q: Parsed)
    requires IsOpenedLong(d, g, u, h, p, q)
    ensures DecodeLong(d) == Some(g) && Unmasked(d, p) == Some(u) && OpenLong(u, p) == Some(q)
  {
    hide SpellsLong, IsRevealed, DecodeLong, IsPayload, Codec.Decoding, FromBytes, Remove;
    LongParserDecides(d, g);
    LongParserDecides(u, h);
    RevealedExactly(d, u, |d| - |g.payload|, p, 16);
    var n := u[0] % 4 + 1;
    var text := p.unprotect(q.number, u[..|u| - |h.payload| + n], h.payload[n..]).value;
    ParserDecidesTheGrammar(text, q.frames);
  }

  /** The header of the packet that is asked for. */
  ghost function AskedHeader(r: LongRequest, payload: seq<byte>): LongHeader {
    LongHeader(if r.kind == Initial then 0xc3 else 0xe3, r.version, r.kind, r.dcid, r.scid,
               if r.kind == Initial then r.token else [], payload)
  }

  /** `plain` is the packet before header protection: header, four bytes of number, and the text as protected. */
  ghost predicate IsLongPlain(r: LongRequest, p: Protector, text: seq<byte>, plain: seq<byte>) {
    var n := |text| + p.overhead;
    && n + 4 <= |plain| && EncodeLong(AskedHeader(r, plain[|plain| - n - 4..])) == Some(plain)
    && IsFour(plain[|plain| - n - 4..|plain| - n], r.number.value)
    && p.protect(r.number, plain[..|plain| - n], text) == Some(plain[|plain| - n..])
  }

  ghost predicate IsSealedLong(r: LongRequest, p: Protector, text: seq<byte>, plain: seq<byte>, d: seq<byte>) {
    && IsLongPlain(r, p, text, plain) && |d| <= r.maxDatagram
    && IsProtected(plain, d, |plain| - |text| - p.overhead - 4, p, 16)
  }

  lemma SealedLongExactly(r: LongRequest, p: Protector, text: seq<byte>, d: seq<byte>)
    requires r.number.value < 0x1_0000_0000
    ensures SealLong(r, p, text) == Some(d) <==> exists plain :: IsSealedLong(r, p, text, plain, d)
  {
    hide LongPrefix, BigEndian, IsFour, IsProtected, Apply, IdsFit;
    var number, n := BigEndian(r.number.value, 4), |text| + p.overhead;
    FourIsSpelled(r.number.value);
    var sizing := HeaderFor(r, Zeros(4 + n));
    forall plain: seq<byte> | IsLongPlain(r, p, text, plain)
      ensures EncodeLong(sizing).Some? && p.protect(r.number, LongPrefix(sizing) + number, text).Some?
      ensures |p.protect(r.number, LongPrefix(sizing) + number, text).value| == n
      ensures plain == LongPrefix(sizing) + (number + p.protect(r.number, LongPrefix(sizing) + number, text).value)
    {
      OnePlain(r, p, text, plain);
    }
    if EncodeLong(sizing).Some? {
      var prefix := LongPrefix(sizing);
      var sealed := p.protect(r.number, prefix + number, text);
      if sealed.Some? && |sealed.value| == n {
        var plain := prefix + (number + sealed.value);
        PlainIsPlain(r, p, text, sealed.value);
        PrefixFirst(sizing);
        ProtectedExactly(plain, d, |prefix|, p, 16);
        assert |plain| - |text| - p.overhead - 4 == |prefix|;
        if SealLong(r, p, text) == Some(d) {
          assert IsSealedLong(r, p, text, plain, d);
        }
      }
    }
  }

  lemma PrefixFirst(h: LongHeader)
    requires EncodeLong(h).Some? && h.first % 4 == 3
    ensures 1 <= |LongPrefix(h)| && LongPrefix(h)[0] % 4 == 3
  {
    hide V.Encode, BigEndian, IdBytes, TokenBytes;
  }

  /** A header with another payload of the same size has the same bytes before it. */
  lemma SamePrefix(r: LongRequest, payload: seq<byte>, n: nat)
    requires |payload| == n
    ensures EncodeLong(AskedHeader(r, payload)).Some? <==> EncodeLong(HeaderFor(r, Zeros(n))).Some?
    ensures EncodeLong(HeaderFor(r, Zeros(n))).Some? ==>
              EncodeLong(AskedHeader(r, payload)) == Some(LongPrefix(HeaderFor(r, Zeros(n))) + payload)
  {
    hide V.Encode, IdBytes, BigEndian, LongPrefix;
    var sizing := HeaderFor(r, Zeros(n));
    assert AskedHeader(r, payload) == sizing.(payload := payload);
    if EncodeLong(sizing).Some? {
      PrefixDependsOnSize(sizing, sizing.first, payload);
      PrefixHead(sizing);
    }
  }

  lemma PrefixHead(h: LongHeader)
    requires EncodeLong(h).Some?
    ensures |LongPrefix(h)| != 0 && [h.first] + LongPrefix(h)[1..] == LongPrefix(h)
  {
    hide V.Encode, BigEndian, IdBytes, TokenBytes;
  }

  lemma PlainIsPlain(r: LongRequest, p: Protector, text: seq<byte>, sealed: seq<byte>)
    requires r.number.value < 0x1_0000_0000 && |sealed| == |text| + p.overhead
    requires EncodeLong(HeaderFor(r, Zeros(4 + |text| + p.overhead))).Some?
    requires var prefix := LongPrefix(HeaderFor(r, Zeros(4 + |text| + p.overhead)));
             p.protect(r.number, prefix + BigEndian(r.number.value, 4), text) == Some(sealed)
    ensures var prefix := LongPrefix(HeaderFor(r, Zeros(4 + |text| + p.overhead)));
            IsLongPlain(r, p, text, prefix + (BigEndian(r.number.value, 4) + sealed))
  {
    hide LongPrefix, BigEndian, IsFour, IdsFit;
    var number, n := BigEndian(r.number.value, 4), |sealed|;
    FourIsSpelled(r.number.value);
    var prefix := LongPrefix(HeaderFor(r, Zeros(4 + n)));
    SamePrefix(r, number + sealed, 4 + n);
    var plain := prefix + (number + sealed);
    assert plain[|prefix|..] == number + sealed && plain[|prefix|..|prefix| + 4] == number;
    assert plain[..|prefix| + 4] == prefix + number && plain[|prefix| + 4..] == sealed;
  }

  lemma OnePlain(r: LongRequest, p: Protector, text: seq<byte>, plain: seq<byte>)
    requires r.number.value < 0x1_0000_0000 && IsLongPlain(r, p, text, plain)
    ensures var sizing, number := HeaderFor(r, Zeros(4 + |text| + p.overhead)), BigEndian(r.number.value, 4);
            && EncodeLong(sizing).Some?
            && var sealed := p.protect(r.number, LongPrefix(sizing) + number, text);
               && sealed.Some? && |sealed.value| == |text| + p.overhead
               && plain == LongPrefix(sizing) + (number + sealed.value)
  {
    hide LongPrefix, BigEndian, IdsFit, IsFour;
    var number, n := BigEndian(r.number.value, 4), |text| + p.overhead;
    var payload := plain[|plain| - n - 4..];
    SamePrefix(r, payload, 4 + n);
    var prefix := LongPrefix(HeaderFor(r, Zeros(4 + n)));
    assert plain == prefix + payload;
    OneFour(plain[|plain| - n - 4..|plain| - n], r.number.value);
    assert payload == number + plain[|plain| - n..];
    assert plain[..|plain| - n] == prefix + number;
  }

  /**
   * The bytes that are protected: the frames, and behind them the padding that makes an Initial datagram 1200 bytes.
   */
  ghost predicate IsText(r: LongRequest, text: seq<byte>, plain: seq<byte>) {
    && Codec.AllEncodable(r.frames) && Codec.Payload(r.frames) <= text
    && (forall i | |Codec.Payload(r.frames)| <= i < |text| :: text[i] == 0)
    && (if r.enforceMinimum then r.kind == Initial && 1200 <= r.maxDatagram && |plain| == 1200
        else text == Codec.Payload(r.frames))
  }

  /**
   * The assembler makes exactly these long packets: of frames that can be encoded, under a number of four bytes in the
   * space of the packet type, with ready keys of its level, no larger than allowed, and padded if that is asked for.
   */
  lemma LongPacketExactly(r: LongRequest, d: seq<byte>)
    requires Paddable(r)
    ensures AssembleLong(r) == Some(d) <==>
            && r.protector.Some? && r.protector.value.ready && r.number.value < 0x1_0000_0000
            && Matches(r.kind, r.protector.value.level, r.number.space)
            && exists text, plain :: IsText(r, text, plain) && IsSealedLong(r, r.protector.value, text, plain, d)
  {
    hide Plaintext, SealLong, IsText, IsSealedLong, Codec.AllEncodable, Paddable;
    if r.protector.Some? && r.number.value < 0x1_0000_0000 {
      var p := r.protector.value;
      if AssembleLong(r) == Some(d) {
        var text := Plaintext(r).value;
        AllowedMeans(r);
        SealedLongExactly(r, p, text, d);
        var plain :| IsSealedLong(r, p, text, plain, d);
        TextIsText(r, text, plain, d);
      }
      if LongAllowed(r) {
        forall text, plain | IsText(r, text, plain) && IsSealedLong(r, p, text, plain, d)
          ensures AssembleLong(r) == Some(d)
        {
          SealedLongExactly(r, p, text, d);
          OneText(r, text, plain, d);
        }
      }
      forall text, plain | IsText(r, text, plain)
        ensures Codec.AllEncodable(r.frames)
      {
        TextIsEncodable(r, text, plain);
      }
    } else {
      AllowedMeans(r);
    }
  }

  lemma TextIsEncodable(r: LongRequest, text: seq<byte>, plain: seq<byte>)
    requires IsText(r, text, plain)
    ensures Codec.AllEncodable(r.frames)
  {
  }

  lemma AllowedMeans(r: LongRequest)
    requires Paddable(r)
    ensures Plaintext(r).Some? ==> LongAllowed(r)
  {
  }

  /** The size of the packet before header protection, by the size of its text. */
  lemma PlainSize(r: LongRequest, p: Protector, text: seq<byte>, plain: seq<byte>)
    requires IsLongPlain(r, p, text, plain)
    ensures IdsFit(HeaderFor(r, [])) && 4 + |text| + p.overhead <= MAX_VARINT
    ensures |plain| == InitialPadding.WireLength(PrefixSize(r), 4 + |text| + p.overhead)
  {
    hide LongPrefix, BigEndian, BeforeLength;
    var n := |text| + p.overhead;
    var payload := plain[|plain| - n - 4..];
    SamePrefix(r, payload, 4 + n);
    LengthOfPrefix(r, Zeros(4 + n));
  }

  lemma TextIsText(r: LongRequest, text: seq<byte>, plain: seq<byte>, d: seq<byte>)
    requires Paddable(r) && LongAllowed(r) && Plaintext(r) == Some(text)
    requires IsSealedLong(r, r.protector.value, text, plain, d)
    ensures IsText(r, text, plain)
  {
    hide IsLongPlain, IsProtected, Codec.Payload, Codec.AllEncodable, PrefixSize;
    PlainSize(r, r.protector.value, text, plain);
    var frames := Codec.Payload(r.frames);
    if r.enforceMinimum {
      InitialPadding.TargetFits(PrefixSize(r), Unpadded(r));
      assert text[..|frames|] == frames;
    }
  }

  lemma OneText(r: LongRequest, text: seq<byte>, plain: seq<byte>, d: seq<byte>)
    requires Paddable(r) && LongAllowed(r) && IsText(r, text, plain)
    requires IsSealedLong(r, r.protector.value, text, plain, d)
    ensures Plaintext(r) == Some(text)
  {
    hide IsLongPlain, IsProtected, Codec.Payload, Codec.AllEncodable, PrefixSize;
    PlainSize(r, r.protector.value, text, plain);
    if r.enforceMinimum {
      var frames, p, header := Codec.Payload(r.frames), r.protector.value, PrefixSize(r);
      PaddedOnce(header, Unpadded(r), 4 + |text| + p.overhead);
      assert text == frames + Zeros(|text| - |frames|);
    }
  }

  lemma PaddedOnce(header: nat, n: nat, total: nat)
    requires n <= total <= MAX_VARINT && InitialPadding.WireLength(header, total) == InitialPadding.MINIMUM
    requires header != InitialPadding.GAP || 63 < n
    ensures header != InitialPadding.GAP && InitialPadding.WireLength(header, n) <= InitialPadding.MINIMUM
    ensures total == InitialPadding.Target(header)
  {
    if header == InitialPadding.GAP {
      InitialPadding.NothingFits(total);
    } else {
      InitialPadding.TargetIsExact(header, total);
    }
  }
}
