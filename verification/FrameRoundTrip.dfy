/** What the parser makes of printed frames, for every list of frames. */
module FrameRoundTrip {
  import opened Bytes
  import opened Common
  import opened Frames
  import opened FrameCodec
  import V = Varint

  /** What one frame followed by `rest` parses to: a STREAM frame without LEN takes everything that follows. */
  function Landed(f: Frame, rest: seq<byte>): Frame {
    if f.Stream? then
      Stream(f.stream.(offset := f.stream.Start(), data := f.stream.data + if f.stream.lengthPresent then [] else rest))
    else f
  }

  predicate TakesAll(f: Frame) {
    f.Stream? && !f.stream.lengthPresent
  }

  // ---------------------------------------------------------------- one frame

  lemma ShortType(t: nat)
    requires t < 64
    ensures V.Encode(t) == [t]
  {
    V.EncodeByOctets(t);
  }

  lemma FixedLands(f: Frame, rest: seq<byte>)
    requires !f.Padding? && Encodable(f) && FixedCount(LayoutOf(f).fields[0]).Some?
    ensures var l := LayoutOf(f);
            && Fit(l.fields[1..]) && l.tail == []
            && ParseBody(l.fields[0], Fields(l.fields[1..]) + rest) == Some((f, |Fields(l.fields[1..])|))
  {
    hide V.Encode, V.Decode, Fields, ReadFields;
    ReadBack(LayoutOf(f).fields[1..], rest);
  }

  lemma CountedBody(t: nat, s: seq<byte>)
    requires CountedCount(t).Some?
    ensures ParseBody(t, s) == ParseCounted(t, s)
  {
    hide ParseCounted;
  }

  lemma CountedLands(f: Frame, rest: seq<byte>)
    requires !f.Padding? && Encodable(f) && CountedCount(LayoutOf(f).fields[0]).Some?
    ensures var l := LayoutOf(f);
            && Fit(l.fields[1..])
            && ParseBody(l.fields[0], Fields(l.fields[1..]) + (l.tail + rest))
               == Some((f, |Fields(l.fields[1..])| + |l.tail|))
  {
    hide V.Encode, V.Decode, Fields, ReadFields;
    var l := LayoutOf(f);
    var s := Fields(l.fields[1..]) + (l.tail + rest);
    ReadBack(l.fields[1..], l.tail + rest);
    var n := |Fields(l.fields[1..])|;
    assert s[n..n + |l.tail|] == l.tail;
    CountedBody(l.fields[0], s);
    hide ParseBody;
  }

  lemma StreamTypeBits(f: StreamFrame)
    ensures var t, vs := StreamType(f), StreamFields(f);
            && 8 <= t <= 15
            && (t / 4 % 2 == 1) == f.offsetPresent && (t / 2 % 2 == 1) == f.lengthPresent && (t % 2 == 1) == f.fin
            && |vs| == 1 + Bit(f.offsetPresent, 1) + Bit(f.lengthPresent, 1)
            && vs[0] == f.streamId
            && (f.offsetPresent ==> vs[1] == f.offset)
            && (f.lengthPresent ==> vs[|vs| - 1] == |f.data|)
  {
  }

  lemma StreamLands(f: StreamFrame, rest: seq<byte>)
    requires Encodable(Stream(f))
    ensures Fit(StreamFields(f))
    ensures ParseBody(StreamType(f), Fields(StreamFields(f)) + (f.data + rest))
         == Some((Landed(Stream(f), rest),
                  |Fields(StreamFields(f))| + |f.data| + if f.lengthPresent then 0 else |rest|))
  {
    hide V.Encode, V.Decode, Fields, ReadFields;
    assert LayoutOf(Stream(f)).fields[1..] == StreamFields(f);
    hide StreamFields, StreamType, LayoutOf;
    var n, s := |Fields(StreamFields(f))|, Fields(StreamFields(f)) + (f.data + rest);
    ReadBack(StreamFields(f), f.data + rest);
    assert s[n..n + |f.data|] == f.data;
    assert s[n..] == f.data + rest && s[n..|s|] == s[n..];
    StreamTypeBits(f);
    var t := StreamType(f);
    assert f.data + [] == f.data;
    assert ParseBody(t, s) == ParseStream(t, s);
  }

  lemma NewConnectionIdLands(f: Frame, rest: seq<byte>)
    requires f.NewConnectionId? && Encodable(f)
    ensures var l := LayoutOf(f);
            && Fit(l.fields[1..])
            && ParseBody(0x18, Fields(l.fields[1..]) + (l.tail + rest))
               == Some((f, |Fields(l.fields[1..])| + |l.tail|))
  {
    hide V.Encode, V.Decode, Fields, ReadFields;
    var l := LayoutOf(f);
    var s := Fields(l.fields[1..]) + (l.tail + rest);
    ReadBack(l.fields[1..], l.tail + rest);
    var n := |Fields(l.fields[1..])|;
    assert s[n..n + |f.id|] == f.id;
    assert s[n + |f.id|..n + |f.id| + 16] == f.resetToken;
  }

  lemma {:induction false} PairedFlat(ranges: seq<AckRange>)
    requires Fit(Flat(ranges))
    ensures |Flat(ranges)| == 2 * |ranges|
    ensures Paired(Flat(ranges)) == ranges
    decreases ranges
  {
    if ranges != [] {
      var flat := Flat(ranges);
      assert flat[2..] == Flat(ranges[1..]);
      assert flat[0] == ranges[0].gap && flat[1] == ranges[0].length;
      PairedFlat(ranges[1..]);
    }
  }

  lemma {:induction false} FieldsAreNotShort(vs: seq<nat>)
    requires Fit(vs)
    ensures |vs| <= |Fields(vs)|
    decreases vs
  {
    if vs != [] {
      FieldsAreNotShort(vs[1..]);
    }
  }

  lemma AckFields(a: AckFrame)
    ensures LayoutOf(Ack(a)).fields[1..]
         == [a.largest, a.delay, |a.ranges|, a.firstRange] + (Flat(a.ranges) + EcnFields(a.ecn))
  {
    hide Flat;
  }

  lemma AckLands(a: AckFrame, rest: seq<byte>)
    requires Encodable(Ack(a))
    ensures var vs := LayoutOf(Ack(a)).fields[1..];
            Fit(vs) && ParseBody(AckType(a), Fields(vs) + rest) == Some((Ack(a), |Fields(vs)|))
  {
    hide Fields, ReadFields, Flat, Paired;
    var head, flat, ecn := [a.largest, a.delay, |a.ranges|, a.firstRange], Flat(a.ranges), EcnFields(a.ecn);
    AckFields(a);
    FitConcat(head, flat + ecn);
    FitConcat(flat, ecn);
    hide LayoutOf;
    FieldsConcat(head, flat + ecn);
    FieldsConcat(flat, ecn);
    var h, x, e := Fields(head), Fields(flat), Fields(ecn);
    var s := Fields(head + (flat + ecn)) + rest;
    assert s == h + (x + (e + rest));
    ReadBack(head, x + (e + rest));
    assert s[|h|..] == x + (e + rest);
    RangesLand(a.ranges, e + rest);
    assert s[|h| + |x|..] == e + rest;
    EcnLands(a, rest);
    BodyOfAck(AckType(a), s);
    hide ParseBody;
  }

  lemma RangesLand(ranges: seq<AckRange>, rest: seq<byte>)
    requires Fit(Flat(ranges))
    ensures ParseAckRanges(Fields(Flat(ranges)) + rest, |ranges|) == Some((ranges, |Fields(Flat(ranges))|))
  {
    hide Fields, ReadFields;
    PairedFlat(ranges);
    hide Flat, Paired;
    FieldsAreNotShort(Flat(ranges));
    ReadBack(Flat(ranges), rest);
  }

  lemma EcnLands(a: AckFrame, rest: seq<byte>)
    requires Fit(EcnFields(a.ecn))
    ensures ParseEcn(AckType(a), Fields(EcnFields(a.ecn)) + rest) == Some((a.ecn, |Fields(EcnFields(a.ecn))|))
  {
    hide Fields, ReadFields;
    NoFields();
    ReadBack(EcnFields(a.ecn), rest);
  }

  lemma PathLands(f: Frame, rest: seq<byte>)
    requires f.PathChallenge? || f.PathResponse?
    ensures ParseBody(LayoutOf(f).fields[0], f.pathData + rest) == Some((f, 8))
  {
    hide V.Encode, V.Decode, Fields, ReadFields;
    assert (f.pathData + rest)[..8] == f.pathData;
  }

  lemma TypeIsShort(f: Frame)
    requires !f.Padding?
    ensures LayoutOf(f).fields != [] && 0 < LayoutOf(f).fields[0] < 64
  {
    hide Flat, StreamFields;
  }

  /** The type byte peels off. */
  lemma EncodingSplits(f: Frame)
    requires !f.Padding? && Encodable(f)
    ensures var l := LayoutOf(f);
            && l.fields != [] && 0 < l.fields[0] < 64 && Fit(l.fields[1..])
            && Encoding(f) == [l.fields[0]] + (Fields(l.fields[1..]) + l.tail)
  {
    TypeIsShort(f);
    LayoutSplits(LayoutOf(f));
  }

  lemma LayoutSplits(l: Layout)
    requires l.fields != [] && l.fields[0] < 64 && Fit(l.fields)
    ensures Fit(l.fields[1..]) && Fields(l.fields) + l.tail == [l.fields[0]] + (Fields(l.fields[1..]) + l.tail)
  {
    hide V.Encode, Fields;
    FieldsFirst(l.fields);
    ShortType(l.fields[0]);
  }

  lemma FrameLands(f: Frame, rest: seq<byte>)
    requires !f.Padding? && Encodable(f)
    ensures ParseFrame(Encoding(f) + rest)
         == Some((Landed(f, rest), |Encoding(f)| + if TakesAll(f) then |rest| else 0))
  {
    hide V.Encode, Fields, ReadFields, ParseBody, LayoutOf, V.Decode;
    EncodingSplits(f);
    var l := LayoutOf(f);
    var t, vs, s := l.fields[0], l.fields[1..], Encoding(f) + rest;
    BodyLands(f, rest);
    ShortType(t);
    var body := Fields(vs) + (l.tail + rest);
    assert s == V.Encode(t) + body;
    V.DecodeEncode(t, body);
    assert s[1..] == body;
  }

  lemma BodyLands(f: Frame, rest: seq<byte>)
    requires !f.Padding? && Encodable(f)
    ensures var l := LayoutOf(f);
            && l.fields != [] && Fit(l.fields[1..])
            && ParseBody(l.fields[0], Fields(l.fields[1..]) + (l.tail + rest))
               == Some((Landed(f, rest), |Fields(l.fields[1..])| + |l.tail| + if TakesAll(f) then |rest| else 0))
  {
    hide V.Encode, V.Decode, Fields, ReadFields, ParseBody;
    var l := LayoutOf(f);
    assert [] + rest == rest;
    if FixedCount(l.fields[0]).Some? {
      FixedLands(f, rest);
    } else if CountedCount(l.fields[0]).Some? {
      CountedLands(f, rest);
    } else if f.Ack? {
      AckLands(f.ack, rest);
    } else if f.Stream? {
      assert l.fields[1..] == StreamFields(f.stream);
      StreamLands(f.stream, rest);
    } else if f.NewConnectionId? {
      NewConnectionIdLands(f, rest);
    } else {
      PathLands(f, rest);
      NoFields();
      assert l.fields[1..] == [] && Fields([]) + (f.pathData + rest) == f.pathData + rest;
    }
  }

  // ---------------------------------------------------------------- a list of frames

  function PaddingTotal(fs: seq<Frame>): nat {
    if fs == [] || !fs[0].Padding? then 0 else fs[0].count + PaddingTotal(fs[1..])
  }

  function DropPadding(fs: seq<Frame>): (r: seq<Frame>)
    ensures |r| <= |fs|
    ensures fs != [] && fs[0].Padding? ==> |r| < |fs|
    ensures r != [] ==> !r[0].Padding?
    ensures AllEncodable(fs) ==> AllEncodable(r)
  {
    if fs == [] || !fs[0].Padding? then fs else DropPadding(fs[1..])
  }

  /**
   * What a printed list of frames parses to: adjacent PADDING runs together and vanishes when empty, a STREAM
   * frame without OFF starts at zero, and one without LEN swallows the frames after it.
   */
  function Normalize(fs: seq<Frame>): seq<Frame>
    requires AllEncodable(fs)
    decreases |fs|
  {
    if fs == [] then []
    else if fs[0].Padding? then
      (if PaddingTotal(fs) == 0 then [] else [Padding(PaddingTotal(fs))]) + Normalize(DropPadding(fs))
    else if TakesAll(fs[0]) then [Landed(fs[0], Payload(fs[1..]))]
    else [Landed(fs[0], [])] + Normalize(fs[1..])
  }

  lemma {:induction false} PaddingIsZeros(fs: seq<Frame>)
    requires AllEncodable(fs)
    ensures Payload(fs) == Zeros(PaddingTotal(fs)) + Payload(DropPadding(fs))
  {
    hide Encoding, Encodable, Zeros;
    if fs != [] && fs[0].Padding? {
      PaddingIsZeros(fs[1..]);
      PaddingBytes(fs[0]);
      ZerosJoin(fs[0].count, PaddingTotal(fs[1..]), Payload(DropPadding(fs)));
    }
  }

  lemma PaddingBytes(f: Frame)
    requires f.Padding? && Encodable(f)
    ensures Encoding(f) == Zeros(f.count)
  {
  }

  lemma ZerosJoin(a: nat, b: nat, rest: seq<byte>)
    ensures Zeros(a) + (Zeros(b) + rest) == Zeros(a + b) + rest
  {
  }

  lemma FirstByteIsNotZero(fs: seq<Frame>)
    requires AllEncodable(fs) && fs != [] && !fs[0].Padding?
    ensures Payload(fs) != [] && Payload(fs)[0] != 0
  {
    EncodingSplits(fs[0]);
  }

  lemma {:induction false} ZerosLead(n: nat, rest: seq<byte>)
    requires rest == [] || rest[0] != 0
    ensures LeadingZeros(Zeros(n) + rest) == n
  {
    if n == 0 {
      assert Zeros(n) + rest == rest;
    } else {
      assert (Zeros(n) + rest)[1..] == Zeros(n - 1) + rest;
      ZerosLead(n - 1, rest);
    }
  }

  lemma PaddingLands(n: nat, rest: seq<byte>)
    requires 0 < n && (rest == [] || rest[0] != 0)
    ensures ParseFrame(Zeros(n) + rest) == Some((Padding(n), n))
  {
    hide V.Encode, V.Decode, ParseBody;
    var s := Zeros(n) + rest;
    ShortType(0);
    assert s == V.Encode(0) + (Zeros(n - 1) + rest);
    V.DecodeEncode(0, Zeros(n - 1) + rest);
    ZerosLead(n - 1, rest);
    assert s[1..] == Zeros(n - 1) + rest;
  }

  lemma ParseCons(s: seq<byte>, f: Frame, rest: seq<byte>, fs: seq<Frame>)
    requires |rest| < |s| && ParseFrame(s) == Some((f, |s| - |rest|)) && s[|s| - |rest|..] == rest
    requires ParseFrames(rest) == Some(fs)
    ensures ParseFrames(s) == Some([f] + fs)
  {
    hide ParseFrame;
  }

  /** The parser applied to the printer, for every list of encodable frames. */
  lemma {:induction false} ParsePayload(fs: seq<Frame>)
    requires AllEncodable(fs)
    ensures ParseFrames(Payload(fs)) == Some(Normalize(fs))
    decreases |fs|
  {
    hide ParseFrame, Encodable, Encoding;
    if fs == [] {
    } else if fs[0].Padding? {
      ParsePayload(DropPadding(fs));
      ParsePadding(fs, Normalize(DropPadding(fs)));
    } else if TakesAll(fs[0]) {
      ParseLast(fs);
    } else {
      ParsePayload(fs[1..]);
      ParseFirst(fs, Normalize(fs[1..]));
    }
  }

  lemma ParseLast(fs: seq<Frame>)
    requires AllEncodable(fs) && fs != [] && TakesAll(fs[0])
    ensures ParseFrames(Payload(fs)) == Some([Landed(fs[0], Payload(fs[1..]))])
  {
    hide ParseFrame, Encoding, Normalize;
    var s, tail := Payload(fs), Payload(fs[1..]);
    FrameLands(fs[0], tail);
    FirstByteIsNotZero(fs);
    assert ParseFrames([]) == Some([]);
    ParseCons(s, Landed(fs[0], tail), [], []);
    assert [Landed(fs[0], tail)] + [] == [Landed(fs[0], tail)];
  }

  lemma ParseFirst(fs: seq<Frame>, rest: seq<Frame>)
    requires AllEncodable(fs) && fs != [] && !fs[0].Padding? && !TakesAll(fs[0])
    requires ParseFrames(Payload(fs[1..])) == Some(rest)
    ensures ParseFrames(Payload(fs)) == Some([Landed(fs[0], [])] + rest)
  {
    hide ParseFrame, ParseFrames, Encoding, Normalize;
    var s, tail := Payload(fs), Payload(fs[1..]);
    FrameLands(fs[0], tail);
    EncodingIsNotEmpty(fs[0]);
    assert Landed(fs[0], tail) == Landed(fs[0], []);
    assert s[|s| - |tail|..] == tail;
    ParseCons(s, Landed(fs[0], []), tail, rest);
  }

  lemma EncodingIsNotEmpty(f: Frame)
    requires !f.Padding? && Encodable(f)
    ensures Encoding(f) != []
  {
    EncodingSplits(f);
  }

  lemma ParsePadding(fs: seq<Frame>, rest: seq<Frame>)
    requires AllEncodable(fs) && fs != [] && fs[0].Padding?
    requires ParseFrames(Payload(DropPadding(fs))) == Some(rest)
    ensures ParseFrames(Payload(fs)) == Some((if PaddingTotal(fs) == 0 then [] else [Padding(PaddingTotal(fs))]) + rest)
  {
    hide ParseFrame, ParseFrames, Encoding, Payload;
    var n, tail, s := PaddingTotal(fs), Payload(DropPadding(fs)), Payload(fs);
    PaddingIsZeros(fs);
    if n == 0 {
      assert s == tail && [] + rest == rest;
    } else {
      if DropPadding(fs) != [] {
        FirstByteIsNotZero(DropPadding(fs));
      } else {
        EmptyPayload();
      }
      PaddingLands(n, tail);
      assert s[|s| - |tail|..] == tail;
      ParseCons(s, Padding(n), tail, rest);
    }
  }

  lemma EmptyPayload()
    ensures Payload([]) == []
  {
  }

  // ---------------------------------------------------------------- exactly which lists survive

  /** Lists that print to something the parser reads back as they are. */
  predicate Canonical(fs: seq<Frame>) {
    fs == [] ||
    (&& (fs[0].Padding? ==> 0 < fs[0].count && (1 < |fs| ==> !fs[1].Padding?))
     && (fs[0].Stream? && !fs[0].stream.offsetPresent ==> fs[0].stream.offset == 0)
     && (TakesAll(fs[0]) ==> |fs| == 1)
     && Canonical(fs[1..]))
  }

  lemma NormalizeStartsAlike(fs: seq<Frame>)
    requires AllEncodable(fs) && fs != [] && !fs[0].Padding?
    ensures Normalize(fs) != [] && !Normalize(fs)[0].Padding?
  {
  }

  lemma {:induction false} CanonicalIsFixed(fs: seq<Frame>)
    requires AllEncodable(fs)
    ensures Normalize(fs) == fs <==> Canonical(fs)
    decreases |fs|
  {
    hide Encodable;
    if fs == [] {
    } else if fs[0].Padding? {
      CanonicalPadding(fs);
      if 1 == |fs| || !fs[1].Padding? {
        CanonicalIsFixed(fs[1..]);
      }
    } else if TakesAll(fs[0]) {
      LandedAlone(fs[0]);
      assert |fs| == 1 ==> fs[1..] == [] && fs == [fs[0]];
    } else {
      CanonicalIsFixed(fs[1..]);
      LandedAlone(fs[0]);
      ConsIsFixed(fs, Landed(fs[0], []), Normalize(fs[1..]));
    }
  }

  lemma LandedAlone(f: Frame)
    ensures Landed(f, []) == f <==> (f.Stream? && !f.stream.offsetPresent ==> f.stream.offset == 0)
  {
    if f.Stream? {
      assert f.stream.data + [] == f.stream.data;
    }
  }

  lemma ConsIsFixed(fs: seq<Frame>, f: Frame, rest: seq<Frame>)
    requires fs != []
    ensures [f] + rest == fs <==> f == fs[0] && rest == fs[1..]
  {
    assert fs == [fs[0]] + fs[1..];
    assert ([f] + rest)[0] == f && ([f] + rest)[1..] == rest;
  }

  lemma CanonicalPadding(fs: seq<Frame>)
    requires AllEncodable(fs) && fs != [] && fs[0].Padding?
    ensures Normalize(fs) == fs <==>
            0 < fs[0].count && (1 == |fs| || !fs[1].Padding?) && Normalize(fs[1..]) == fs[1..]
  {
    hide Encodable;
    var n, rest := PaddingTotal(fs), DropPadding(fs);
    if rest != [] {
      NormalizeStartsAlike(rest);
    }
    assert fs == [fs[0]] + fs[1..];
    if 1 == |fs| || !fs[1].Padding? {
      assert DropPadding(fs[1..]) == fs[1..] && PaddingTotal(fs[1..]) == 0;
      assert rest == fs[1..] && n == fs[0].count;
      if 0 < n {
        assert ([Padding(n)] + Normalize(rest))[1..] == Normalize(rest);
      }
    } else if 0 < n {
      assert Normalize(fs) == [Padding(n)] + Normalize(rest);
      assert Normalize(fs)[1..] == Normalize(rest);
    }
  }

  /**
   * The codec law with its exact domain: printing a list of encodable frames and parsing it gives the list back
   * if and only if the list is non-empty and canonical.
   */
  lemma RoundTripExactly(fs: seq<Frame>)
    requires AllEncodable(fs)
    ensures Decoding(Payload(fs)) == Some(fs) <==> fs != [] && Canonical(fs)
  {
    ParsePayload(fs);
    CanonicalIsFixed(fs);
  }

  /** Two PADDING runs side by side come back as one, and an empty list does not come back at all. */
  lemma NeighbouringPaddingMerges()
    ensures AllEncodable([Padding(1), Padding(1)])
    ensures Decoding(Payload([Padding(1), Padding(1)])) == Some([Padding(2)])
    ensures Decoding(Payload([])) == None
  {
    var fs, one := [Padding(1), Padding(1)], [Padding(1)];
    assert fs[1..] == one && one[1..] == [];
    ParsePayload(fs);
    ParsePayload([]);
    assert PaddingTotal(one) == 1 && DropPadding(one) == [];
    assert PaddingTotal(fs) == 2 && DropPadding(fs) == [];
    assert Normalize(fs) == [Padding(2)];
  }
}
