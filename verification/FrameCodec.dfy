/** The frame printer and parser (frame.hpp, section 19 of RFC 9000). */
module FrameCodec {
  import opened Bytes
  import opened Common
  import opened Frames
  import V = Varint

  type varint = V.varint

  // ---------------------------------------------------------------- runs of varints

  predicate Fit(vs: seq<nat>) {
    forall i | 0 <= i < |vs| :: vs[i] <= MAX_VARINT
  }

  function Fields(vs: seq<nat>): seq<byte>
    requires Fit(vs)
  {
    if vs == [] then [] else V.Encode(vs[0]) + Fields(vs[1..])
  }

  /** The next `k` varints and the number of bytes they take. */
  function ReadFields(s: seq<byte>, k: nat): (r: Option<(seq<varint>, nat)>)
    ensures r.Some? ==> |r.value.0| == k && r.value.1 <= |s|
    decreases k
  {
    if k == 0 then Some(([], 0)) else
      var d := V.Decode(s);
      if d.None? then None else
        var rest := ReadFields(s[d.value.1..], k - 1);
        if rest.None? then None else Some(([d.value.0] + rest.value.0, d.value.1 + rest.value.1))
  }

  lemma FieldsFirst(vs: seq<nat>)
    requires Fit(vs) && vs != []
    ensures Fit(vs[1..]) && Fields(vs) == V.Encode(vs[0]) + Fields(vs[1..])
  {
    hide V.Encode;
  }

  lemma NoFields()
    ensures Fields([]) == []
  {
  }

  lemma {:induction false} FieldsConcat(a: seq<nat>, b: seq<nat>)
    requires Fit(a) && Fit(b)
    ensures Fit(a + b) && Fields(a + b) == Fields(a) + Fields(b)
  {
    hide V.Encode;
    if a == [] {
      assert a + b == b;
    } else {
      assert (a + b)[1..] == a[1..] + b;
      FieldsConcat(a[1..], b);
    }
  }

  lemma {:induction false} ReadBack(vs: seq<nat>, rest: seq<byte>)
    requires Fit(vs)
    ensures ReadFields(Fields(vs) + rest, |vs|) == Some((vs, |Fields(vs)|))
    decreases vs
  {
    hide V.Encode, V.Decode;
    if vs != [] {
      var s := Fields(vs) + rest;
      var head, tail := V.Encode(vs[0]), Fields(vs[1..]) + rest;
      assert s == head + tail;
      V.DecodeEncode(vs[0], tail);
      assert s[|head|..] == tail;
      ReadBack(vs[1..], rest);
      assert vs == [vs[0]] + vs[1..];
    }
  }

  // ---------------------------------------------------------------- layout of a frame

  /** A frame other than PADDING is a run of varints, the type first, and then raw bytes. */
  datatype Layout = Layout(fields: seq<nat>, tail: seq<byte>)

  function Flat(ranges: seq<AckRange>): seq<nat> {
    if ranges == [] then [] else [ranges[0].gap, ranges[0].length] + Flat(ranges[1..])
  }

  function EcnFields(ecn: Option<EcnCounts>): seq<nat> {
    if ecn.None? then [] else [ecn.value.ect0, ecn.value.ect1, ecn.value.ce]
  }

  function Bit(b: bool, weight: nat): nat {
    if b then weight else 0
  }

  function AckType(a: AckFrame): nat {
    if a.ecn.Some? then 3 else 2
  }

  function StreamType(f: StreamFrame): nat {
    8 + Bit(f.offsetPresent, 4) + Bit(f.lengthPresent, 2) + Bit(f.fin, 1)
  }

  function StreamFields(f: StreamFrame): seq<nat> {
    [f.streamId] + (if f.offsetPresent then [f.offset] else []) + (if f.lengthPresent then [|f.data|] else [])
  }

  function LayoutOf(f: Frame): Layout
    requires !f.Padding?
  {
    match f
    case Ping => Layout([0x01], [])
    case ConnectionClose(code, frameType, reason) => Layout([0x1c, code, frameType, |reason|], reason)
    case ApplicationClose(code, reason) => Layout([0x1d, code, |reason|], reason)
    case ResetStream(id, code, size) => Layout([0x04, id, code, size], [])
    case StopSending(id, code) => Layout([0x05, id, code], [])
    case Ack(a) =>
      Layout([AckType(a)] + [a.largest, a.delay, |a.ranges|, a.firstRange] + Flat(a.ranges) + EcnFields(a.ecn), [])
    case Crypto(offset, data) => Layout([0x06, offset, |data|], data)
    case NewToken(token) => Layout([0x07, |token|], token)
    case Stream(s) => Layout([StreamType(s)] + StreamFields(s), s.data)
    case MaxData(m) => Layout([0x10, m], [])
    case MaxStreamData(id, m) => Layout([0x11, id, m], [])
    case DataBlocked(m) => Layout([0x14, m], [])
    case StreamDataBlocked(id, m) => Layout([0x15, id, m], [])
    case MaxStreams(d, m) => Layout([if d.Bidirectional? then 0x12 else 0x13, m], [])
    case StreamsBlocked(d, m) => Layout([if d.Bidirectional? then 0x16 else 0x17, m], [])
    case NewConnectionId(n, retire, id, token) => Layout([0x18, n, retire, |id|], id + token)
    case RetireConnectionId(n) => Layout([0x19, n], [])
    case HandshakeDone => Layout([0x1e], [])
    case PathChallenge(data) => Layout([0x1a], data)
    case PathResponse(data) => Layout([0x1b], data)
  }

  predicate Allowed(f: Frame) {
    && (f.NewToken? ==> f.token != [])
    && (f.NewConnectionId? ==> 1 <= |f.id| <= 20 && |f.resetToken| == 16 && f.retirePriorTo <= f.sequence)
  }

  predicate Encodable(f: Frame) {
    f.Padding? || (Allowed(f) && Fit(LayoutOf(f).fields))
  }

  function Encoding(f: Frame): seq<byte>
    requires Encodable(f)
  {
    if f.Padding? then Zeros(f.count) else Fields(LayoutOf(f).fields) + LayoutOf(f).tail
  }

  predicate AllEncodable(fs: seq<Frame>) {
    forall i | 0 <= i < |fs| :: Encodable(fs[i])
  }

  /** A packet payload: the encodings of its frames, one after the other. */
  function Payload(fs: seq<Frame>): seq<byte>
    requires AllEncodable(fs)
  {
    if fs == [] then [] else Encoding(fs[0]) + Payload(fs[1..])
  }

  // ---------------------------------------------------------------- parsing one frame

  /** Frames made of varints only: how many follow the type. */
  function FixedCount(t: nat): Option<nat> {
    if t == 0x01 || t == 0x1e then Some(0)
    else if t == 0x04 then Some(3)
    else if t == 0x05 || t == 0x11 || t == 0x15 then Some(2)
    else if t == 0x10 || t == 0x12 || t == 0x13 || t == 0x14 || t == 0x16 || t == 0x17 || t == 0x19 then Some(1)
    else None
  }

  function FixedFrame(t: nat, v: seq<varint>): Frame
    requires FixedCount(t) == Some(|v|)
  {
    if t == 0x01 then Ping
    else if t == 0x1e then HandshakeDone
    else if t == 0x04 then ResetStream(v[0], v[1], v[2])
    else if t == 0x05 then StopSending(v[0], v[1])
    else if t == 0x11 then MaxStreamData(v[0], v[1])
    else if t == 0x15 then StreamDataBlocked(v[0], v[1])
    else if t == 0x10 then MaxData(v[0])
    else if t == 0x14 then DataBlocked(v[0])
    else if t == 0x12 then MaxStreams(Bidirectional, v[0])
    else if t == 0x13 then MaxStreams(Unidirectional, v[0])
    else if t == 0x16 then StreamsBlocked(Bidirectional, v[0])
    else if t == 0x17 then StreamsBlocked(Unidirectional, v[0])
    else RetireConnectionId(v[0])
  }

  /** Frames that end in bytes counted by their last varint. */
  function CountedCount(t: nat): Option<nat> {
    if t == 0x06 || t == 0x1d then Some(2) else if t == 0x07 then Some(1) else if t == 0x1c then Some(3) else None
  }

  function CountedFrame(t: nat, v: seq<varint>, data: seq<byte>): Frame
    requires CountedCount(t) == Some(|v|)
  {
    if t == 0x06 then Crypto(v[0], data)
    else if t == 0x1d then ApplicationClose(v[0], data)
    else if t == 0x07 then NewToken(data)
    else ConnectionClose(v[0], v[1], data)
  }

  /** The frame and the bytes it took after its type, or nothing. */
  type Parsed = Option<(Frame, nat)>

  function ParseFixed(t: nat, s: seq<byte>): (r: Parsed)
    requires FixedCount(t).Some?
    ensures r.Some? ==> r.value.1 <= |s|
  {
    var f := ReadFields(s, FixedCount(t).value);
    if f.None? then None else Some((FixedFrame(t, f.value.0), f.value.1))
  }

  function ParseCounted(t: nat, s: seq<byte>): (r: Parsed)
    requires CountedCount(t).Some?
    ensures r.Some? ==> r.value.1 <= |s|
  {
    var k := CountedCount(t).value;
    var f := ReadFields(s, k);
    if f.None? then None else
      var (v, n) := f.value;
      var length := v[k - 1];
      if (t == 0x07 && length == 0) || |s| - n < length then None else
        Some((CountedFrame(t, v, s[n..n + length]), n + length))
  }

  function ParseStream(t: nat, s: seq<byte>): (r: Parsed)
    requires 0x08 <= t <= 0x0f
    ensures r.Some? ==> r.value.1 <= |s|
  {
    var hasOffset, hasLength, fin := t / 4 % 2 == 1, t / 2 % 2 == 1, t % 2 == 1;
    var f := ReadFields(s, 1 + Bit(hasOffset, 1) + Bit(hasLength, 1));
    if f.None? then None else
      var (v, n) := f.value;
      var length := if hasLength then v[|v| - 1] else |s| - n;
      if |s| - n < length then None else
        Some((Stream(StreamFrame(v[0], if hasOffset then v[1] else 0, hasOffset, hasLength, fin, s[n..n + length])),
              n + length))
  }

  function Paired(v: seq<varint>): seq<AckRange>
    requires |v| % 2 == 0
  {
    if v == [] then [] else [AckRange(v[0], v[1])] + Paired(v[2..])
  }

  function ParseEcn(t: nat, s: seq<byte>): (r: Option<(Option<EcnCounts>, nat)>)
    ensures r.Some? ==> r.value.1 <= |s|
  {
    if t == 2 then Some((None, 0)) else
      var e := ReadFields(s, 3);
      if e.None? then None else
        var (c, k) := e.value;
        Some((Some(EcnCounts(c[0], c[1], c[2])), k))
  }

  lemma TwiceIsEven(count: nat)
    ensures (2 * count) % 2 == 0
  {
  }

  function ParseAckRanges(s: seq<byte>, count: nat): (r: Option<(seq<AckRange>, nat)>)
    ensures r.Some? ==> r.value.1 <= |s|
  {
    if |s| / 2 < count then None else
      var q := ReadFields(s, 2 * count);
      if q.None? then None else
        TwiceIsEven(count);
        Some((Paired(q.value.0), q.value.1))
  }

  function ParseAck(t: nat, s: seq<byte>): (r: Parsed)
    requires t == 2 || t == 3
    ensures r.Some? ==> r.value.1 <= |s|
  {
    var f := ReadFields(s, 4);
    if f.None? then None else
      var (v, n) := f.value;
      var q := ParseAckRanges(s[n..], v[2]);
      if q.None? then None else
        var (ranges, m) := q.value;
        var e := ParseEcn(t, s[n + m..]);
        if e.None? then None else
          Some((Ack(AckFrame(v[0], v[1], v[3], ranges, e.value.0)), n + m + e.value.1))
  }

  function ParseNewConnectionId(s: seq<byte>): (r: Parsed)
    ensures r.Some? ==> r.value.1 <= |s|
  {
    var f := ReadFields(s, 3);
    if f.None? then None else
      var (v, n) := f.value;
      if v[0] < v[1] || v[2] == 0 || 20 < v[2] || |s| - n < v[2] + 16 then None else
        Some((NewConnectionId(v[0], v[1], s[n..n + v[2]], s[n + v[2]..n + v[2] + 16]), n + v[2] + 16))
  }

  function ParsePath(t: nat, s: seq<byte>): (r: Parsed)
    ensures r.Some? ==> r.value.1 <= |s|
  {
    if |s| < 8 then None else Some((if t == 0x1a then PathChallenge(s[..8]) else PathResponse(s[..8]), 8))
  }

  /** Dispatch on a type other than PADDING. */
  function ParseBody(t: nat, s: seq<byte>): (r: Parsed)
    ensures r.Some? ==> r.value.1 <= |s|
  {
    if FixedCount(t).Some? then ParseFixed(t, s)
    else if CountedCount(t).Some? then ParseCounted(t, s)
    else if t == 0x02 || t == 0x03 then ParseAck(t, s)
    else if 0x08 <= t <= 0x0f then ParseStream(t, s)
    else if t == 0x18 then ParseNewConnectionId(s)
    else if t == 0x1a || t == 0x1b then ParsePath(t, s)
    else None
  }

  function LeadingZeros(s: seq<byte>): (n: nat)
    ensures n <= |s|
  {
    if s == [] || s[0] != 0 then 0 else 1 + LeadingZeros(s[1..])
  }

  function ParseFrame(s: seq<byte>): (r: Parsed)
    ensures r.Some? ==> 1 <= r.value.1 <= |s|
  {
    var d := V.Decode(s);
    if d.None? then None else
      var (t, n) := d.value;
      if t == 0 then
        var z := LeadingZeros(s[n..]);
        Some((Padding(1 + z), n + z))
      else
        var b := ParseBody(t, s[n..]);
        if b.None? then None else Some((b.value.0, n + b.value.1))
  }

  function ParseFrames(s: seq<byte>): Option<seq<Frame>> {
    if s == [] then Some([]) else
      var f := ParseFrame(s);
      if f.None? then None else
        var rest := ParseFrames(s[f.value.1..]);
        if rest.None? then None else Some([f.value.0] + rest.value)
  }

  /** The parser: an empty payload is an error. */
  function Decoding(s: seq<byte>): Option<seq<Frame>> {
    if s == [] then None else ParseFrames(s)
  }

  // ---------------------------------------------------------------- implementation

  method AppendVarint(output: seq<byte>, value: nat) returns (r: Option<seq<byte>>)
    ensures r == if value <= MAX_VARINT then Some(output + V.Encode(value)) else None
  {
    var encoded := new byte[8](_ => 0);
    var written := V.EncodeVarint(value, encoded);
    if written.None? {
      return None;
    }
    assert encoded[..written.value] == V.Encode(value);
    return Some(output + encoded[..written.value]);
  }

  /** Appends varints one after the other and stops at the first that does not fit. */
  method AppendFields(output: seq<byte>, vs: seq<nat>) returns (r: Option<seq<byte>>)
    ensures r == if Fit(vs) then Some(output + Fields(vs)) else None
  {
    hide V.Encode;
    var done := output;
    assert vs[..0] == [];
    for i := 0 to |vs|
      invariant Fit(vs[..i]) && done == output + Fields(vs[..i])
    {
      var next := AppendVarint(done, vs[i]);
      if next.None? {
        assert vs[i] in vs;
        return None;
      }
      FieldsOne(vs[i]);
      FieldsConcat(vs[..i], [vs[i]]);
      assert vs[..i + 1] == vs[..i] + [vs[i]];
      done := next.value;
    }
    assert vs[..|vs|] == vs;
    return Some(done);
  }

  lemma FieldsOne(v: nat)
    requires v <= MAX_VARINT
    ensures Fields([v]) == V.Encode(v)
  {
    assert [v][1..] == [] && Fields([]) == [];
    assert V.Encode(v) + [] == V.Encode(v);
  }

  function EncodeResult(f: Frame): Option<seq<byte>> {
    if Encodable(f) then Some(Encoding(f)) else None
  }

  method AppendRanges(output: seq<byte>, ranges: seq<AckRange>) returns (r: Option<seq<byte>>)
    ensures r == if Fit(Flat(ranges)) then Some(output + Fields(Flat(ranges))) else None
  {
    hide V.Encode;
    var done := output;
    assert ranges[..0] == [] && Flat([]) == [];
    NoFields();
    for i := 0 to |ranges|
      invariant Fit(Flat(ranges[..i])) && done == output + Fields(Flat(ranges[..i]))
    {
      ghost var pair := [ranges[i].gap, ranges[i].length];
      FlatStep(ranges, i);
      FitConcat(Flat(ranges[..i]), pair);
      var next := AppendFields(done, [ranges[i].gap, ranges[i].length]);
      if next.None? {
        FlatPrefix(ranges, i + 1);
        return None;
      }
      FieldsConcat(Flat(ranges[..i]), pair);
      done := next.value;
    }
    assert ranges[..|ranges|] == ranges;
    return Some(done);
  }

  method EncodeAck(a: AckFrame) returns (r: Option<seq<byte>>)
    ensures r == EncodeResult(Ack(a))
  {
    hide Fields, Flat;
    var head := [AckType(a)] + [a.largest, a.delay, |a.ranges|, a.firstRange];
    ghost var flat, ecn := Flat(a.ranges), EcnFields(a.ecn);
    assert LayoutOf(Ack(a)) == Layout(head + flat + ecn, []);
    FitParts(head, flat, ecn);
    var output := AppendFields([], head);
    if output.None? {
      return None;
    }
    output := AppendRanges(output.value, a.ranges);
    if output.None? {
      return None;
    }
    output := AppendFields(output.value, EcnFields(a.ecn));
    if output.None? {
      return None;
    }
    FieldsConcat(head, flat);
    FieldsConcat(head + flat, ecn);
    assert [] + Fields(head) == Fields(head);
    assert Fields(head + flat + ecn) + [] == Fields(head + flat + ecn);
    return output;
  }

  lemma FitConcat(a: seq<nat>, b: seq<nat>)
    ensures Fit(a + b) <==> Fit(a) && Fit(b)
  {
    assert forall i | 0 <= i < |a| :: (a + b)[i] == a[i];
    assert forall i | 0 <= i < |b| :: (a + b)[|a| + i] == b[i];
  }

  lemma FitParts(a: seq<nat>, b: seq<nat>, c: seq<nat>)
    ensures Fit(a + b + c) <==> Fit(a) && Fit(b) && Fit(c)
  {
    FitConcat(a + b, c);
    FitConcat(a, b);
  }

  lemma {:induction false} FlatConcat(a: seq<AckRange>, b: seq<AckRange>)
    ensures Flat(a + b) == Flat(a) + Flat(b)
  {
    if a == [] {
      assert a + b == b;
    } else {
      assert (a + b)[1..] == a[1..] + b;
      FlatConcat(a[1..], b);
    }
  }

  lemma FlatStep(ranges: seq<AckRange>, i: nat)
    requires i < |ranges|
    ensures Flat(ranges[..i + 1]) == Flat(ranges[..i]) + [ranges[i].gap, ranges[i].length]
  {
    assert ranges[..i + 1] == ranges[..i] + [ranges[i]];
    FlatConcat(ranges[..i], [ranges[i]]);
    assert [ranges[i]][1..] == [];
  }

  lemma FlatPrefix(ranges: seq<AckRange>, i: nat)
    requires i <= |ranges| && !Fit(Flat(ranges[..i]))
    ensures !Fit(Flat(ranges))
  {
    assert ranges == ranges[..i] + ranges[i..];
    FlatConcat(ranges[..i], ranges[i..]);
    FitConcat(Flat(ranges[..i]), Flat(ranges[i..]));
  }

  /** Prints the frames of a packet; one that cannot be printed fails the whole. */
  method EncodeFrames(fs: seq<Frame>) returns (r: Option<seq<byte>>)
    ensures r == if AllEncodable(fs) then Some(Payload(fs)) else None
  {
    hide Encoding, Encodable;
    var done := [];
    assert fs[..0] == [];
    for i := 0 to |fs|
      invariant AllEncodable(fs[..i]) && done == Payload(fs[..i])
    {
      var encoded := EncodeResult(fs[i]);
      if fs[i].Ack? {
        encoded := EncodeAck(fs[i].ack);
      }
      if encoded.None? {
        return None;
      }
      PayloadStep(fs, i);
      done := done + encoded.value;
    }
    assert fs[..|fs|] == fs;
    return Some(done);
  }

  lemma {:induction false} PayloadConcat(a: seq<Frame>, b: seq<Frame>)
    requires AllEncodable(a) && AllEncodable(b)
    ensures AllEncodable(a + b) && Payload(a + b) == Payload(a) + Payload(b)
  {
    hide Encoding, Encodable;
    if a == [] {
      assert a + b == b;
    } else {
      assert (a + b)[1..] == a[1..] + b;
      PayloadConcat(a[1..], b);
    }
  }

  lemma PayloadStep(fs: seq<Frame>, i: nat)
    requires i < |fs| && AllEncodable(fs[..i]) && Encodable(fs[i])
    ensures AllEncodable(fs[..i + 1]) && Payload(fs[..i + 1]) == Payload(fs[..i]) + Encoding(fs[i])
  {
    hide Encoding, Encodable;
    assert fs[..i + 1] == fs[..i] + [fs[i]];
    PayloadConcat(fs[..i], [fs[i]]);
    assert [fs[i]][1..] == [] && Encoding(fs[i]) + [] == Encoding(fs[i]);
  }

  /** Counts the PADDING bytes that follow the one at `offset - 1`. */
  method SkipPadding(input: seq<byte>, offset: nat) returns (count: nat, next: nat)
    requires offset <= |input|
    ensures count == 1 + LeadingZeros(input[offset..]) && next == offset + LeadingZeros(input[offset..])
  {
    count, next := 1, offset;
    while next < |input| && input[next] == 0
      invariant offset <= next <= |input|
      invariant count == 1 + (next - offset)
      invariant LeadingZeros(input[offset..]) == (next - offset) + LeadingZeros(input[next..])
    {
      assert input[next..][1..] == input[next + 1..];
      count, next := count + 1, next + 1;
    }
  }

  /** Reads `count` varints from `offset` on, as the ACK range loop does pair by pair. */
  method ReadFieldsAt(input: seq<byte>, offset: nat, count: nat) returns (r: Option<(seq<varint>, nat)>)
    requires offset <= |input|
    ensures r == ReadFields(input[offset..], count)
  {
    hide V.Decode;
    var values: seq<varint>, at := [], offset;
    ContinueNothing(ReadFields(input[offset..], count));
    for i := 0 to count
      invariant offset <= at <= |input| && |values| == i
      invariant ReadFields(input[offset..], count) == Continue(values, at - offset, ReadFields(input[at..], count - i))
    {
      var d := V.DecodeVarint(input[at..]);
      if d.None? {
        return None;
      }
      ghost var rest := ReadFields(input[at..][d.value.1..], count - i - 1);
      assert input[at..][d.value.1..] == input[at + d.value.1..];
      if rest.Some? {
        assert values + ([d.value.0] + rest.value.0) == values + [d.value.0] + rest.value.0;
      }
      values, at := values + [d.value.0], at + d.value.1;
    }
    assert values + [] == values;
    return Some((values, at - offset));
  }

  lemma ContinueNothing(rest: Option<(seq<varint>, nat)>)
    ensures Continue([], 0, rest) == rest
  {
    if rest.Some? {
      assert [] + rest.value.0 == rest.value.0;
    }
  }

  ghost function Continue(values: seq<varint>, size: nat, rest: Option<(seq<varint>, nat)>)
    : Option<(seq<varint>, nat)>
  {
    if rest.None? then None else Some((values + rest.value.0, size + rest.value.1))
  }

  /** The parser loop: every round consumes at least the type, so it ends. */
  method DecodeFrames(input: seq<byte>) returns (r: Option<seq<Frame>>)
    ensures r == Decoding(input)
  {
    hide ParseFrame, ParseFrames, Prepended;
    if input == [] {
      return None;
    }
    var frames, offset := [], 0;
    assert input[0..] == input;
    PrependNothing(ParseFrames(input));
    while offset < |input|
      invariant 0 <= offset <= |input|
      invariant Decoding(input) == Prepended(frames, ParseFrames(input[offset..]))
      decreases |input| - offset
    {
      var parsed := DecodeOne(input, offset);
      ParseFramesStep(input[offset..]);
      if parsed.None? {
        PrependFailure(frames);
        return None;
      }
      var (frame, size) := parsed.value;
      assert input[offset..][size..] == input[offset + size..];
      PrependTwice(frames, frame, ParseFrames(input[offset + size..]));
      frames, offset := frames + [frame], offset + size;
    }
    assert input[offset..] == [];
    PrependToEnd(frames);
    return Some(frames);
  }

  lemma PrependToEnd(frames: seq<Frame>)
    ensures Prepended(frames, ParseFrames([])) == Some(frames)
  {
    assert frames + [] == frames;
  }

  lemma PrependFailure(frames: seq<Frame>)
    ensures Prepended(frames, None) == None
  {
  }

  lemma ParseFramesStep(s: seq<byte>)
    requires s != []
    ensures ParseFrame(s).None? ==> ParseFrames(s).None?
    ensures ParseFrame(s).Some? ==>
              ParseFrames(s) == Prepended([ParseFrame(s).value.0], ParseFrames(s[ParseFrame(s).value.1..]))
  {
    hide ParseFrame;
  }

  lemma PrependTwice(frames: seq<Frame>, f: Frame, rest: Option<seq<Frame>>)
    ensures Prepended(frames, Prepended([f], rest)) == Prepended(frames + [f], rest)
  {
    if rest.Some? {
      assert frames + ([f] + rest.value) == frames + [f] + rest.value;
    }
  }

  lemma PrependNothing(rest: Option<seq<Frame>>)
    ensures Prepended([], rest) == rest
  {
    if rest.Some? {
      assert [] + rest.value == rest.value;
    }
  }

  ghost function Prepended(frames: seq<Frame>, rest: Option<seq<Frame>>): Option<seq<Frame>> {
    if rest.None? then None else Some(frames + rest.value)
  }

  /** One round of the loop. */
  method DecodeOne(input: seq<byte>, offset: nat) returns (r: Parsed)
    requires offset < |input|
    ensures r == ParseFrame(input[offset..])
  {
    hide V.Decode, ParseBody, ParseAck, LeadingZeros;
    var d := V.DecodeVarint(input[offset..]);
    if d.None? {
      return None;
    }
    var (t, n) := d.value;
    assert input[offset..][n..] == input[offset + n..];
    if t == 0 {
      var count, next := SkipPadding(input, offset + n);
      return Some((Padding(count), next - offset));
    }
    if t == 2 || t == 3 {
      r := DecodeAck(t, input, offset + n);
      BodyOfAck(t, input[offset + n..]);
    } else {
      r := ParseBody(t, input[offset + n..]);
    }
    if r.Some? {
      r := Some((r.value.0, n + r.value.1));
    }
  }

  lemma BodyOfAck(t: nat, s: seq<byte>)
    requires t == 2 || t == 3
    ensures ParseBody(t, s) == ParseAck(t, s)
  {
    hide ParseAck;
  }

  method DecodeAck(t: nat, input: seq<byte>, offset: nat) returns (r: Parsed)
    requires (t == 2 || t == 3) && offset <= |input|
    ensures r == ParseAck(t, input[offset..])
  {
    hide ReadFields;
    var f := ReadFieldsAt(input, offset, 4);
    if f.None? {
      return None;
    }
    var (v, n) := f.value;
    assert input[offset..][n..] == input[offset + n..];
    var count: nat := v[2];
    if (|input| - offset - n) / 2 < count {
      return None;
    }
    var q := ReadFieldsAt(input, offset + n, 2 * count);
    if q.None? {
      return None;
    }
    var (w, m) := q.value;
    assert input[offset..][n + m..] == input[offset + n + m..];
    var ecn := ParseEcn(t, input[offset + n + m..]);
    if ecn.None? {
      return None;
    }
    return Some((Ack(AckFrame(v[0], v[1], v[3], Paired(w), ecn.value.0)), n + m + ecn.value.1));
  }
}
