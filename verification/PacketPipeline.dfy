/** Packet assembly and parsing (packet_pipeline.hpp). */
module PacketPipeline {
  import opened Bytes
  import opened Common
  import opened Frames
  import opened HeaderProtection
  import opened PacketHeader
  import Codec = FrameCodec
  import FrameRoundTrip
  import InitialPadding
  import V = Varint

  datatype Level = NoLevel | InitialLevel | HandshakeLevel | ApplicationLevel

  datatype Number = Number(space: Space, value: nat)

  /** `(number, associated data, bytes)` to bytes, or a failure. */
  type Cipher = (Number, seq<byte>, seq<byte>) -> Option<seq<byte>>

  /** A packet protector: its AEAD and mask are arbitrary functions. */
  datatype Protector = Protector(
    level: Level, ready: bool, overhead: nat, headerProtection: bool,
    mask: MaskSource, protect: Cipher, unprotect: Cipher)

  /** The receiving end holds the keys of the sending end: unprotect undoes protect, and the masks agree. */
  ghost predicate Paired(tx: Protector, rx: Protector) {
    && rx.level == tx.level && rx.ready
    && rx.headerProtection == tx.headerProtection && rx.mask == tx.mask
    && forall n, aad, text {:trigger tx.protect(n, aad, text)} ::
         tx.protect(n, aad, text).Some? ==> rx.unprotect(n, aad, tx.protect(n, aad, text).value) == Some(text)
  }

  const MAX_NUMBER: nat := 0xffff_ffff

  function SpaceFor(kind: LongType): Space {
    if kind.Initial? then InitialSpace else HandshakeSpace
  }

  function LevelFor(kind: LongType): Level {
    if kind.Initial? then InitialLevel else HandshakeLevel
  }

  function FirstByte(kind: LongType): byte {
    if kind.Initial? then 0xc3 else 0xe3
  }

  datatype Parsed = Parsed(number: Number, frames: seq<Frame>)

  // ---------------------------------------------------------------- long packets: assembly

  datatype LongRequest = LongRequest(
    kind: LongType, version: nat, dcid: seq<byte>, scid: seq<byte>, token: seq<byte>, number: Number,
    frames: seq<Frame>, protector: Option<Protector>, maxDatagram: nat, enforceMinimum: bool)

  predicate LongAllowed(r: LongRequest) {
    && r.protector.Some?
    && r.number.value <= MAX_NUMBER
    && r.number.space == SpaceFor(r.kind)
    && r.protector.value.level == LevelFor(r.kind)
    && r.protector.value.ready
    && Codec.AllEncodable(r.frames)
  }

  function HeaderFor(r: LongRequest, payload: seq<byte>): LongHeader {
    LongHeader(FirstByte(r.kind), r.version, r.kind, r.dcid, r.scid, if r.kind.Initial? then r.token else [], payload)
  }

  /** The size of the header before its Length field. */
  function PrefixSize(r: LongRequest): nat
    requires IdsFit(HeaderFor(r, []))
  {
    |BeforeLength(HeaderFor(r, []))|
  }

  /** The padding loop is reached. */
  predicate Pads(r: LongRequest) {
    && LongAllowed(r) && r.enforceMinimum
    && r.kind.Initial? && InitialPadding.MINIMUM <= r.maxDatagram && IdsFit(HeaderFor(r, []))
  }

  /** The bytes behind the Length field, before any padding. */
  function Unpadded(r: LongRequest): nat
    requires LongAllowed(r)
  {
    PN_LENGTH + r.protector.value.overhead + |Codec.Payload(r.frames)|
  }

  /** The requests the padding loop comes to an end on, or is not reached by. */
  predicate Paddable(r: LongRequest) {
    Pads(r) ==> PrefixSize(r) != InitialPadding.GAP || 63 < Unpadded(r)
  }

  /** The frame bytes to protect, padded when the request asks for the Initial minimum. */
  function Plaintext(r: LongRequest): Option<seq<byte>>
    requires Paddable(r)
  {
    if !LongAllowed(r) then None
    else if !r.enforceMinimum then Some(Codec.Payload(r.frames))
    else if !r.kind.Initial? || r.maxDatagram < InitialPadding.MINIMUM || !IdsFit(HeaderFor(r, [])) then None
    else InitialPadding.Padded(Codec.Payload(r.frames), PrefixSize(r), PN_LENGTH + r.protector.value.overhead)
  }

  /** Protects the plaintext, puts the header before it and masks the header. */
  function SealLong(r: LongRequest, p: Protector, text: seq<byte>): Option<seq<byte>> {
    var number := BigEndian(r.number.value, PN_LENGTH);
    var sizing := HeaderFor(r, Zeros(PN_LENGTH + |text| + p.overhead));
    if EncodeLong(sizing).None? then None else
      var sealed := p.protect(r.number, LongPrefix(sizing) + number, text);
      if sealed.None? || |sealed.value| != |text| + p.overhead then None else
        var plain := LongPrefix(sizing) + (number + sealed.value);
        var masked := if p.headerProtection then Apply(plain, |LongPrefix(sizing)|, p.mask, 16) else Some(plain);
        if masked.None? || r.maxDatagram < |masked.value| then None else masked
  }

  function AssembleLong(r: LongRequest): Option<seq<byte>>
    requires Paddable(r)
  {
    var text := Plaintext(r);
    if text.None? then None else SealLong(r, r.protector.value, text.value)
  }

  // ---------------------------------------------------------------- long packets: the padding loop cut off

  datatype Attempt = StillPadding | Ended(datagram: Option<seq<byte>>)

  /** What the assembler has come to when its padding loop is cut off after so many rounds. */
  function LongAttempt(r: LongRequest, rounds: nat): Attempt {
    if !LongAllowed(r) then Ended(None)
    else if !r.enforceMinimum then Ended(SealLong(r, r.protector.value, Codec.Payload(r.frames)))
    else if !Pads(r) then Ended(None)
    else
      InitialPadding.RoundsKeepTheFrames(PrefixSize(r), Unpadded(r), 0, rounds);
      match InitialPadding.Rounds(PrefixSize(r), Unpadded(r), 0, rounds)
      case Go(_, _) => StillPadding
      case Fail => Ended(None)
      case Done(n) => Ended(SealLong(r, r.protector.value, Codec.Payload(r.frames) + Zeros(n - Unpadded(r))))
  }

  /** Whenever the attempt comes to an end, it has assembled the packet. */
  lemma AttemptIsAssembly(r: LongRequest, rounds: nat)
    requires LongAttempt(r, rounds).Ended?
    ensures Paddable(r) && LongAttempt(r, rounds) == Ended(AssembleLong(r))
  {
    hide SealLong, Codec.Payload, Codec.AllEncodable, PrefixSize, HeaderFor, InitialPadding.Rounds;
    if Pads(r) {
      InitialPadding.StopsOneWay(PrefixSize(r), Unpadded(r), rounds);
    }
  }

  /** It comes to an end, after at most three rounds, if and only if the loop is not entered in the gap. */
  lemma AttemptEndsExactly(r: LongRequest)
    ensures (exists rounds: nat :: LongAttempt(r, rounds).Ended?) <==> Paddable(r)
    ensures (exists rounds: nat :: LongAttempt(r, rounds).Ended?) ==> LongAttempt(r, 3).Ended?
  {
    hide SealLong, Codec.Payload, Codec.AllEncodable, PrefixSize, HeaderFor, InitialPadding.Rounds;
    if !Paddable(r) {
      forall rounds: nat
        ensures LongAttempt(r, rounds).StillPadding?
      {
        InitialPadding.NeverStops(Unpadded(r), 0, rounds);
      }
    } else {
      if Pads(r) {
        InitialPadding.ThreeRoundsDecide(PrefixSize(r), Unpadded(r));
      }
      assert LongAttempt(r, 3).Ended?;
    }
  }

  // ---------------------------------------------------------------- long packets: parsing

  function Unmasked(d: seq<byte>, p: Protector): Option<seq<byte>> {
    var h := DecodeLong(d);
    if h.None? then None
    else if !p.headerProtection then Some(d)
    else Remove(d, |d| - |h.value.payload|, p.mask, 16)
  }

  function OpenLong(u: seq<byte>, p: Protector): Option<Parsed> {
    var h := DecodeLong(u);
    if h.None? || p.level != LevelFor(h.value.kind) then None else
      var n := u[0] % 4 + 1;
      var payload := h.value.payload;
      if |payload| < n then None else
        var number := Number(SpaceFor(h.value.kind), FromBytes(payload[..n]));
        var text := p.unprotect(number, u[..|u| - |payload| + n], payload[n..]);
        if text.None? then None else
          var frames := Codec.Decoding(text.value);
          if frames.None? then None else Some(Parsed(number, frames.value))
  }

  function ParseLong(d: seq<byte>, protector: Option<Protector>): Option<Parsed> {
    if protector.None? || !protector.value.ready then None else
      var u := Unmasked(d, protector.value);
      if u.None? then None else OpenLong(u.value, protector.value)
  }

  // ---------------------------------------------------------------- 1-RTT packets

  datatype AppRequest = AppRequest(
    dcid: seq<byte>, number: Number, frames: seq<Frame>, protector: Option<Protector>, maxDatagram: nat)

  predicate AppAllowed(r: AppRequest) {
    && r.protector.Some?
    && r.number.value <= MAX_NUMBER
    && r.number.space.AppSpace?
    && r.protector.value.level.ApplicationLevel?
    && r.protector.value.ready
    && Codec.AllEncodable(r.frames)
  }

  function SealShort(r: AppRequest, p: Protector, text: seq<byte>): Option<seq<byte>> {
    var prefix := ShortPrefix(r.dcid, r.number.value);
    var sealed := p.protect(r.number, prefix, text);
    if sealed.None? then None else
      var plain := prefix + sealed.value;
      var masked := if p.headerProtection then Apply(plain, 1 + |r.dcid|, p.mask, 32) else Some(plain);
      if masked.None? || r.maxDatagram < |masked.value| then None else masked
  }

  function AssembleApplication(r: AppRequest): Option<seq<byte>> {
    if !AppAllowed(r) then None else SealShort(r, r.protector.value, Codec.Payload(r.frames))
  }

  function OpenShort(u: seq<byte>, idLength: nat, p: Protector): Option<Parsed> {
    var h := DecodeShort(u, idLength);
    if h.None? then None else
      var number := Number(AppSpace, h.value.truncated);
      var text := p.unprotect(number, u[..1 + idLength + h.value.numberLength], h.value.payload);
      if text.None? then None else
        var frames := Codec.Decoding(text.value);
        if frames.None? then None else Some(Parsed(number, frames.value))
  }

  function ParseShort(d: seq<byte>, idLength: nat, protector: Option<Protector>): Option<Parsed> {
    if protector.None? || !protector.value.level.ApplicationLevel? || !protector.value.ready then None else
      var p := protector.value;
      var u := if p.headerProtection then Remove(d, 1 + idLength, p.mask, 32) else Some(d);
      if u.None? then None else OpenShort(u.value, idLength, p)
  }

  // ---------------------------------------------------------------- round trips

  /** Frames parse to their normal form, unless there is nothing to parse. */
  function Readable(number: Number, frames: seq<Frame>): Option<Parsed>
    requires Codec.AllEncodable(frames)
  {
    if Codec.Payload(frames) == [] then None else Some(Parsed(number, FrameRoundTrip.Normalize(frames)))
  }

  lemma ShortIsOpened(r: AppRequest, p: Protector, rx: Protector)
    requires Codec.AllEncodable(r.frames) && r.number.space.AppSpace? && r.number.value <= MAX_NUMBER
    requires Paired(p, rx)
    requires p.protect(r.number, ShortPrefix(r.dcid, r.number.value), Codec.Payload(r.frames)).Some?
    ensures var prefix := ShortPrefix(r.dcid, r.number.value);
            OpenShort(prefix + p.protect(r.number, prefix, Codec.Payload(r.frames)).value, |r.dcid|, rx)
              == Readable(r.number, r.frames)
  {
    var prefix, text := ShortPrefix(r.dcid, r.number.value), Codec.Payload(r.frames);
    var sealed := p.protect(r.number, prefix, text).value;
    var u := prefix + sealed;
    ShortReadsBack(r.dcid, r.number.value, sealed);
    assert u[..1 + |r.dcid| + 4] == prefix;
    FrameRoundTrip.ParsePayload(r.frames);
  }

  /**
   * 1-RTT round trip: for every AEAD and mask the two ends agree on, parsing an assembled packet returns its
   * number and its frames in normal form.
   */
  lemma ShortPacketRoundTrip(r: AppRequest, rx: Protector)
    requires AssembleApplication(r).Some? && Paired(r.protector.value, rx)
    ensures ParseShort(AssembleApplication(r).value, |r.dcid|, Some(rx)) == Readable(r.number, r.frames)
  {
    hide OpenShort, Apply, Remove;
    var p, prefix := r.protector.value, ShortPrefix(r.dcid, r.number.value);
    var plain := prefix + p.protect(r.number, prefix, Codec.Payload(r.frames)).value;
    ShortIsOpened(r, p, rx);
    if p.headerProtection {
      RemoveUndoesApply(plain, 1 + |r.dcid|, p.mask, 32);
    }
  }

  /** The frames a long packet really carries. */
  function CarriedFrames(r: LongRequest): (fs: seq<Frame>)
    requires Paddable(r) && Plaintext(r).Some?
    ensures Codec.AllEncodable(fs) && Codec.Payload(fs) == Plaintext(r).value
  {
    if !r.enforceMinimum then r.frames else
      var n := |Plaintext(r).value| - |Codec.Payload(r.frames)|;
      PaddingIsAFrame(r.frames, n);
      r.frames + [Padding(n)]
  }

  lemma PaddingIsAFrame(frames: seq<Frame>, n: nat)
    requires Codec.AllEncodable(frames)
    ensures Codec.AllEncodable(frames + [Padding(n)])
    ensures Codec.Payload(frames + [Padding(n)]) == Codec.Payload(frames) + Zeros(n)
  {
    var f := [Padding(n)];
    assert Codec.AllEncodable(f) && f[1..] == [];
    assert Codec.Payload(f) == Codec.Encoding(Padding(n)) + [];
    Codec.PayloadConcat(frames, f);
  }

  /** The prefix depends on the payload only through its size, and on the first byte only at its front. */
  lemma PrefixDependsOnSize(h: LongHeader, first: byte, payload: seq<byte>)
    requires IdsFit(h) && |h.payload| == |payload| <= MAX_VARINT
    ensures var g := h.(first := first, payload := payload);
            IdsFit(g) && LongPrefix(g) == [first] + LongPrefix(h)[1..]
  {
    hide V.Encode, IdBytes, BigEndian;
    var g := h.(first := first, payload := payload);
    assert TokenBytes(g) == TokenBytes(h);
  }

  /** The packet before masking, as a header that encodes to it. */
  lemma PlainIsEncoded(h: LongHeader, payload: seq<byte>)
    requires EncodeLong(h).Some? && |h.payload| == |payload|
    ensures EncodeLong(h.(payload := payload)) == Some(LongPrefix(h) + payload)
  {
    hide LongPrefix;
    PrefixDependsOnSize(h, h.first, payload);
    PrefixStarts(h);
    assert LongPrefix(h) == [h.first] + LongPrefix(h)[1..];
  }

  lemma PrefixStarts(h: LongHeader)
    requires IdsFit(h) && |h.payload| <= MAX_VARINT
    ensures LongPrefix(h) != [] && LongPrefix(h)[0] == h.first
  {
    hide V.Encode, IdBytes, TokenBytes, BigEndian;
  }

  lemma KindSurvivesMasking(a: byte, b: byte)
    requires a / 16 == b / 16
    ensures KindOf(a) == KindOf(b)
  {
    assert a / 64 == a / 16 / 4 && b / 64 == b / 16 / 4;
  }

  /** A masked packet is again a long packet of the same sizes. */
  lemma MaskedIsLong(h: LongHeader, mask: MaskSource) returns (g: LongHeader)
    requires WellFormed(h) && EncodeLong(h).Some?
    requires Apply(EncodeLong(h).value, |LongPrefix(h)|, mask, 16).Some?
    ensures WellFormed(g) && EncodeLong(g) == Apply(EncodeLong(h).value, |LongPrefix(h)|, mask, 16)
    ensures |g.payload| == |h.payload|
  {
    hide LongPrefix, Apply, KindOf;
    var d, at := EncodeLong(h).value, |LongPrefix(h)|;
    PrefixStarts(h);
    ApplyTouchesLittle(d, at, mask, 16);
    var e := Apply(d, at, mask, 16).value;
    g := h.(first := e[0], payload := e[at..]);
    PrefixDependsOnSize(h, e[0], e[at..]);
    KindSurvivesMasking(d[0], e[0]);
    MaskedFront(LongPrefix(h), h.payload, e);
  }

  lemma MaskedFront(prefix: seq<byte>, payload: seq<byte>, e: seq<byte>)
    requires prefix != [] && |e| == |prefix| + |payload|
    requires e[1..|prefix|] == (prefix + payload)[1..|prefix|]
    ensures e == [e[0]] + prefix[1..] + e[|prefix|..]
  {
    assert (prefix + payload)[1..|prefix|] == prefix[1..];
  }

  /** A masked packet still decodes, with a payload of the same size, and keeps its wire size. */
  lemma MaskedStillDecodes(h: LongHeader, mask: MaskSource, rest: seq<byte>)
    requires WellFormed(h) && EncodeLong(h).Some?
    requires Apply(EncodeLong(h).value, |LongPrefix(h)|, mask, 16).Some?
    ensures var e := Apply(EncodeLong(h).value, |LongPrefix(h)|, mask, 16).value;
            && DecodeLong(e).Some? && |DecodeLong(e).value.payload| == |h.payload|
            && |e| == |LongPrefix(h)| + |h.payload|
            && WireSize(e + rest) == Some(|e|)
  {
    hide LongPrefix, DecodeLong, WireSize, Apply, KindOf, WellFormed;
    var g := MaskedIsLong(h, mask);
    LongReadsBack(g, rest);
  }

  lemma LongIsOpened(r: LongRequest, h: LongHeader, sealed: seq<byte>, rx: Protector, frames: seq<Frame>)
    requires h == HeaderFor(r, BigEndian(r.number.value, 4) + sealed) && EncodeLong(h).Some?
    requires 0 < r.version < 0x1_0000_0000 && r.number.value <= MAX_NUMBER && r.number.space == SpaceFor(r.kind)
    requires rx.level == LevelFor(r.kind) && Codec.AllEncodable(frames)
    requires rx.unprotect(r.number, LongPrefix(h) + BigEndian(r.number.value, 4), sealed) == Some(Codec.Payload(frames))
    ensures WellFormed(h)
    ensures OpenLong(LongPrefix(h) + h.payload, rx) == Readable(r.number, frames)
  {
    hide LongPrefix, DecodeLong, WireSize, BigEndian, FromBytes, Readable, Codec.Payload, Codec.Decoding,
      Codec.AllEncodable;
    var u, number := LongPrefix(h) + h.payload, BigEndian(r.number.value, 4);
    LongReadsBack(h, []);
    PrefixStarts(h);
    VersionFits(r.number.value);
    assert u[0] == FirstByte(r.kind);
    assert h.payload[..4] == number && h.payload[4..] == sealed;
    assert u[..|u| - |h.payload| + 4] == LongPrefix(h) + number;
    PayloadIsReadable(r.number, frames);
  }

  lemma PayloadIsReadable(number: Number, frames: seq<Frame>)
    requires Codec.AllEncodable(frames)
    ensures var f := Codec.Decoding(Codec.Payload(frames));
            Readable(number, frames) == if f.None? then None else Some(Parsed(number, f.value))
  {
    FrameRoundTrip.ParsePayload(frames);
  }

  /**
   * Long-packet round trip, padded or not: parsing an assembled Initial or Handshake packet returns its number
   * and the frames it carries in normal form, and its wire size is its own length whatever follows it.
   */
  lemma LongPacketRoundTrip(r: LongRequest, rx: Protector, rest: seq<byte>)
    requires Paddable(r) && AssembleLong(r).Some? && Paired(r.protector.value, rx)
    requires 0 < r.version < 0x1_0000_0000
    ensures ParseLong(AssembleLong(r).value, Some(rx)) == Readable(r.number, CarriedFrames(r))
    ensures WireSize(AssembleLong(r).value + rest) == Some(|AssembleLong(r).value|)
  {
    SealedRoundTrip(r, r.protector.value, CarriedFrames(r), rx, rest);
  }

  /** What a sealed packet consists of. */
  lemma SealedShape(r: LongRequest, p: Protector, text: seq<byte>) returns (h: LongHeader, sealed: seq<byte>)
    requires SealLong(r, p, text).Some?
    ensures var number := BigEndian(r.number.value, 4);
            && h == HeaderFor(r, number + sealed) && EncodeLong(h).Some?
            && p.protect(r.number, LongPrefix(h) + number, text) == Some(sealed)
            && 1 <= |LongPrefix(h)|
            && SealLong(r, p, text) ==
                 if p.headerProtection then Apply(EncodeLong(h).value, |LongPrefix(h)|, p.mask, 16)
                                       else EncodeLong(h)
  {
    hide LongPrefix, BigEndian, Apply;
    var number := BigEndian(r.number.value, PN_LENGTH);
    var sizing := HeaderFor(r, Zeros(PN_LENGTH + |text| + p.overhead));
    sealed := p.protect(r.number, LongPrefix(sizing) + number, text).value;
    h := HeaderFor(r, number + sealed);
    assert h == sizing.(payload := number + sealed);
    PlainIsEncoded(sizing, number + sealed);
    assert LongPrefix(h) + h.payload == LongPrefix(sizing) + h.payload;
    PrefixStarts(h);
    SameFront(LongPrefix(h), LongPrefix(sizing), h.payload);
  }

  lemma SameFront(a: seq<byte>, b: seq<byte>, c: seq<byte>)
    requires a + c == b + c
    ensures a == b
  {
    assert |a| == |b|;
    assert (a + c)[..|a|] == a && (b + c)[..|b|] == b;
  }

  lemma SealedRoundTrip(r: LongRequest, p: Protector, frames: seq<Frame>, rx: Protector, rest: seq<byte>)
    requires Codec.AllEncodable(frames) && r.number.value <= MAX_NUMBER && r.number.space == SpaceFor(r.kind)
    requires SealLong(r, p, Codec.Payload(frames)).Some? && p.level == LevelFor(r.kind) && Paired(p, rx)
    requires 0 < r.version < 0x1_0000_0000
    ensures var d := SealLong(r, p, Codec.Payload(frames)).value;
            ParseLong(d, Some(rx)) == Readable(r.number, frames) && WireSize(d + rest) == Some(|d|)
  {
    hide LongPrefix, DecodeLong, WireSize, BigEndian, OpenLong, Apply, Remove, SealLong, Readable, HeaderFor,
      Codec.Payload, Codec.AllEncodable;
    var h, sealed := SealedShape(r, p, Codec.Payload(frames));
    assert h.payload == BigEndian(r.number.value, 4) + sealed by {
      HeaderCarries(r, BigEndian(r.number.value, 4) + sealed);
    }
    LongIsOpened(r, h, sealed, rx, frames);
    if p.headerProtection {
      MaskedStillDecodes(h, p.mask, rest);
      RemoveUndoesApply(EncodeLong(h).value, |LongPrefix(h)|, p.mask, 16);
    } else {
      LongReadsBack(h, rest);
    }
  }

  lemma HeaderCarries(r: LongRequest, payload: seq<byte>)
    ensures HeaderFor(r, payload).payload == payload
  {
  }

  /** For canonical frames without padding the packet says exactly what was put in. */
  lemma CanonicalFramesComeBack(r: LongRequest, rx: Protector)
    requires Paddable(r) && AssembleLong(r).Some? && Paired(r.protector.value, rx)
    requires 0 < r.version < 0x1_0000_0000
    requires !r.enforceMinimum && r.frames != [] && FrameRoundTrip.Canonical(r.frames)
    ensures ParseLong(AssembleLong(r).value, Some(rx)) == Some(Parsed(r.number, r.frames))
  {
    LongPacketRoundTrip(r, rx, []);
    FrameRoundTrip.RoundTripExactly(r.frames);
    FrameRoundTrip.CanonicalIsFixed(r.frames);
  }

  // ---------------------------------------------------------------- the Initial minimum

  /**
   * A padded Initial packet is exactly 1200 bytes long, and the request can be padded if and only if the packet
   * without padding is no longer than that.
   */
  lemma PaddedPacketIsMinimal(r: LongRequest)
    requires Paddable(r) && r.enforceMinimum && LongAllowed(r)
    requires r.kind.Initial? && InitialPadding.MINIMUM <= r.maxDatagram && IdsFit(HeaderFor(r, []))
    requires PN_LENGTH + |Codec.Payload(r.frames)| + r.protector.value.overhead <= MAX_VARINT
    ensures Plaintext(r).Some? <==>
            InitialPadding.WireLength(PrefixSize(r), PN_LENGTH + |Codec.Payload(r.frames)| + r.protector.value.overhead)
              <= InitialPadding.MINIMUM
    ensures AssembleLong(r).Some? ==> |AssembleLong(r).value| == InitialPadding.MINIMUM
  {
    hide Codec.Payload, Codec.AllEncodable, PrefixSize, SealLong, InitialPadding.WireLength;
    if AssembleLong(r).Some? {
      var text, extra := Plaintext(r).value, PN_LENGTH + r.protector.value.overhead;
      InitialPadding.TargetFits(PrefixSize(r), extra + |Codec.Payload(r.frames)|);
      LengthOfPrefix(r, Zeros(extra + |text|));
      SealedLength(r, r.protector.value, text);
    }
  }

  lemma SealedLength(r: LongRequest, p: Protector, text: seq<byte>)
    requires SealLong(r, p, text).Some?
    ensures var sizing := HeaderFor(r, Zeros(PN_LENGTH + |text| + p.overhead));
            EncodeLong(sizing).Some?
            && |SealLong(r, p, text).value| == |LongPrefix(sizing)| + PN_LENGTH + |text| + p.overhead
  {
    hide LongPrefix, Apply, BigEndian;
  }

  lemma LengthOfPrefix(r: LongRequest, payload: seq<byte>)
    requires IdsFit(HeaderFor(r, [])) && |payload| <= MAX_VARINT
    ensures IdsFit(HeaderFor(r, payload))
    ensures |LongPrefix(HeaderFor(r, payload))| + |payload| == InitialPadding.WireLength(PrefixSize(r), |payload|)
  {
    hide V.Encode;
    assert TokenBytes(HeaderFor(r, payload)) == TokenBytes(HeaderFor(r, []));
  }

  /** With connection IDs of at most 255 bytes and no token, every request can be padded or refused. */
  lemma EmptyTokenIsPaddable(r: LongRequest)
    requires r.token == []
    ensures Paddable(r)
  {
    if IdsFit(HeaderFor(r, [])) {
      V.EncodeByOctets(0);
      assert |TokenBytes(HeaderFor(r, []))| <= 1;
    }
  }

  /** A request the padding loop never ends on: one PING behind a token that puts the header in the gap. */
  lemma TokenInTheGap(
    dcid: seq<byte>, scid: seq<byte>, version: nat, number: nat, p: Protector, maxDatagram: nat, k: nat)
    requires |dcid| <= 255 && |scid| <= 255 && number <= MAX_NUMBER
    requires p.level.InitialLevel? && p.ready && p.overhead <= 58 && InitialPadding.MINIMUM <= maxDatagram
    ensures var token := Zeros(1126 - |dcid| - |scid|);
            var r := LongRequest(Initial, version, dcid, scid, token, Number(InitialSpace, number), [Ping], Some(p),
                                 maxDatagram, true);
            !Paddable(r) && LongAttempt(r, k).StillPadding?
  {
    hide V.Encode, BigEndian, InitialPadding.Rounds;
    var token := Zeros(1126 - |dcid| - |scid|);
    var r := LongRequest(Initial, version, dcid, scid, token, Number(InitialSpace, number), [Ping], Some(p),
                         maxDatagram, true);
    V.EncodeByOctets(|token|);
    assert |TokenBytes(HeaderFor(r, []))| == 2 + |token|;
    PingIsOneByte();
    InitialPadding.NeverStops(PN_LENGTH + 1 + p.overhead, 0, k);
  }

  lemma PingIsOneByte()
    ensures Codec.AllEncodable([Ping]) && Codec.Payload([Ping]) == [1]
  {
    V.EncodeByOctets(1);
    Codec.FieldsOne(1);
    assert [Ping][1..] == [];
  }

  // ---------------------------------------------------------------- implementation

  /** Masks a copy of a packet, as the copying assemblers do. */
  method MaskCopy(plain: seq<byte>, at: nat, mask: MaskSource, low: nat) returns (r: Option<seq<byte>>)
    requires 1 <= at && (low == 16 || low == 32)
    ensures r == Apply(plain, at, mask, low)
  {
    hide Apply;
    var datagram := new byte[|plain|](i requires 0 <= i < |plain| => plain[i]);
    assert datagram[..datagram.Length] == plain;
    var ok := ApplyInPlace(datagram, datagram.Length, at, mask, low);
    assert datagram[..datagram.Length] == datagram[..];
    return if ok then Some(datagram[..]) else None;
  }

  method UnmaskCopy(d: seq<byte>, at: nat, mask: MaskSource, low: nat) returns (r: Option<seq<byte>>)
    requires 1 <= at && (low == 16 || low == 32)
    ensures r == Remove(d, at, mask, low)
  {
    hide Remove;
    var datagram := new byte[|d|](i requires 0 <= i < |d| => d[i]);
    assert datagram[..] == d;
    var ok := RemoveInPlace(datagram, at, mask, low);
    return if ok then Some(datagram[..]) else None;
  }

  method AssembleApplicationPacket(r: AppRequest) returns (d: Option<seq<byte>>)
    ensures d == AssembleApplication(r)
  {
    hide Codec.Payload, Codec.AllEncodable, ShortPrefix, Apply;
    if r.protector.None? || MAX_NUMBER < r.number.value || !r.number.space.AppSpace? {
      return None;
    }
    var p := r.protector.value;
    if !p.level.ApplicationLevel? || !p.ready {
      return None;
    }
    var text := Codec.EncodeFrames(r.frames);
    if text.None? {
      return None;
    }
    var prefix := ShortPrefix(r.dcid, r.number.value);
    var sealed := p.protect(r.number, prefix, text.value);
    if sealed.None? {
      return None;
    }
    d := Some(prefix + sealed.value);
    if p.headerProtection {
      d := MaskCopy(prefix + sealed.value, 1 + |r.dcid|, p.mask, 32);
      if d.None? {
        return None;
      }
    }
    if r.maxDatagram < |d.value| {
      return None;
    }
  }

  /** The assembler, with the padding loop cut off after any number of rounds. */
  method AssembleLongPacket(r: LongRequest, rounds: nat) returns (a: Attempt)
    ensures a == LongAttempt(r, rounds)
  {
    hide Codec.Payload, Codec.AllEncodable, SealLong, PrefixSize, InitialPadding.Rounds, HeaderFor;
    if r.protector.None? || MAX_NUMBER < r.number.value || r.number.space != SpaceFor(r.kind) {
      return Ended(None);
    }
    var p := r.protector.value;
    if p.level != LevelFor(r.kind) || !p.ready {
      return Ended(None);
    }
    var encoded := Codec.EncodeFrames(r.frames);
    if encoded.None? {
      return Ended(None);
    }
    var text := encoded.value;
    if r.enforceMinimum {
      if !r.kind.Initial? || r.maxDatagram < InitialPadding.MINIMUM || !IdsFit(HeaderFor(r, [])) {
        return Ended(None);
      }
      var outcome;
      outcome, text := InitialPadding.PadFor(text, PrefixSize(r), PN_LENGTH + p.overhead, rounds);
      if outcome.Go? {
        return StillPadding;
      }
      if outcome.Fail? {
        return Ended(None);
      }
    }
    var d := SealLongPacket(r, p, text);
    return Ended(d);
  }

  method SealLongPacket(r: LongRequest, p: Protector, text: seq<byte>) returns (d: Option<seq<byte>>)
    ensures d == SealLong(r, p, text)
  {
    hide LongPrefix, BigEndian, Apply;
    var number := BigEndian(r.number.value, PN_LENGTH);
    var sizing := HeaderFor(r, Zeros(PN_LENGTH + |text| + p.overhead));
    if EncodeLong(sizing).None? {
      return None;
    }
    PrefixStarts(sizing);
    var sealed := p.protect(r.number, LongPrefix(sizing) + number, text);
    if sealed.None? || |sealed.value| != |text| + p.overhead {
      return None;
    }
    var plain := LongPrefix(sizing) + (number + sealed.value);
    d := Some(plain);
    if p.headerProtection {
      d := MaskCopy(plain, |LongPrefix(sizing)|, p.mask, 16);
      if d.None? {
        return None;
      }
    }
    if r.maxDatagram < |d.value| {
      return None;
    }
  }

  method ParseLongPacket(d: seq<byte>, protector: Option<Protector>) returns (r: Option<Parsed>)
    ensures r == ParseLong(d, protector)
  {
    hide DecodeLong, FromBytes, Remove, Codec.Decoding;
    if protector.None? || !protector.value.ready {
      return None;
    }
    var p, header, u := protector.value, DecodeLong(d), d;
    if header.None? {
      return None;
    }
    if p.headerProtection {
      var unmasked := UnmaskCopy(d, |d| - |header.value.payload|, p.mask, 16);
      if unmasked.None? {
        return None;
      }
      u := unmasked.value;
      header := DecodeLong(u);
      if header.None? {
        return None;
      }
    }
    if p.level != LevelFor(header.value.kind) {
      return None;
    }
    var n, payload := u[0] % 4 + 1, header.value.payload;
    if |payload| < n {
      return None;
    }
    var number := Number(SpaceFor(header.value.kind), FromBytes(payload[..n]));
    var text := p.unprotect(number, u[..|u| - |payload| + n], payload[n..]);
    if text.None? {
      return None;
    }
    var frames := Codec.DecodeFrames(text.value);
    return if frames.None? then None else Some(Parsed(number, frames.value));
  }

  method ParseShortPacket(d: seq<byte>, idLength: nat, protector: Option<Protector>) returns (r: Option<Parsed>)
    ensures r == ParseShort(d, idLength, protector)
  {
    hide DecodeShort, Remove, Codec.Decoding;
    if protector.None? || !protector.value.level.ApplicationLevel? || !protector.value.ready {
      return None;
    }
    var p, u := protector.value, d;
    if p.headerProtection {
      var unmasked := UnmaskCopy(d, 1 + idLength, p.mask, 32);
      if unmasked.None? {
        return None;
      }
      u := unmasked.value;
    }
    var header := DecodeShort(u, idLength);
    if header.None? {
      return None;
    }
    var number := Number(AppSpace, header.value.truncated);
    var text := p.unprotect(number, u[..1 + idLength + header.value.numberLength], header.value.payload);
    if text.None? {
      return None;
    }
    var frames := Codec.DecodeFrames(text.value);
    return if frames.None? then None else Some(Parsed(number, frames.value));
  }
}
