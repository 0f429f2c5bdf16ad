/**
 * The grammar of packet payloads (section 19 of RFC 9000 as far as frame.hpp supports it) as a relation between bytes
 * and frames, and that the parser decides it: nothing outside the grammar is accepted, and everything in it is read as
 * what it spells.
 */
module FrameGrammar {
  import opened Bytes
  import opened Common
  import opened Frames
  import opened FrameCodec
  import V = Varint

  // ---------------------------------------------------------------- the grammar

  /** The bytes spell a number: one, two, four or eight of them, how many in the top two bits, big-endian. */
  predicate IsVarint(s: seq<byte>, v: nat) {
    && (|s| == 1 || |s| == 2 || |s| == 4 || |s| == 8)
    && (s[0] / 64 == if |s| == 1 then 0 else if |s| == 2 then 1 else if |s| == 4 then 2 else 3)
    && v == FromBytes([s[0] % 64] + s[1..])
  }

  ghost predicate AreVarints(s: seq<byte>, vs: seq<nat>)
    decreases vs
  {
    if vs == [] then s == []
    else exists k :: 0 < k <= |s| && IsVarint(s[..k], vs[0]) && AreVarints(s[k..], vs[1..])
  }

  /** The varints of an ACK frame: four, two for each further range, and three counts under type 3. */
  predicate SpellsAck(a: AckFrame, vs: seq<nat>) {
    && |vs| == 4 + 2 * |a.ranges| + (if a.ecn.Some? then 3 else 0)
    && vs[0] == a.largest && vs[1] == a.delay && vs[2] == |a.ranges| && vs[3] == a.firstRange
    && (forall i | 0 <= i < |a.ranges| :: vs[4 + 2 * i] == a.ranges[i].gap && vs[5 + 2 * i] == a.ranges[i].length)
    && (a.ecn.Some? ==>
          var n := 4 + 2 * |a.ranges|;
          vs[n] == a.ecn.value.ect0 && vs[n + 1] == a.ecn.value.ect1 && vs[n + 2] == a.ecn.value.ce)
  }

  /** Bits of a STREAM type: 4 for an offset, 2 for a length, 1 for the end of the stream. */
  predicate SpellsStream(f: StreamFrame, t: nat, vs: seq<nat>) {
    && t == 0x08 + (if f.offsetPresent then 4 else 0) + (if f.lengthPresent then 2 else 0) + (if f.fin then 1 else 0)
    && |vs| == 1 + (if f.offsetPresent then 1 else 0) + (if f.lengthPresent then 1 else 0)
    && vs[0] == f.streamId
    && (if f.offsetPresent then vs[1] == f.offset else f.offset == 0)
    && (f.lengthPresent ==> vs[|vs| - 1] == |f.data|)
  }

  /** A type, the varints behind it and the raw bytes behind those spell the frame. */
  predicate Spells(t: nat, vs: seq<nat>, tail: seq<byte>, f: Frame) {
    match f
    case Padding(_) => false
    case Ping => t == 0x01 && vs == [] && tail == []
    case Ack(a) => t == (if a.ecn.Some? then 0x03 else 0x02) && SpellsAck(a, vs) && tail == []
    case ResetStream(id, code, size) => t == 0x04 && vs == [id, code, size] && tail == []
    case StopSending(id, code) => t == 0x05 && vs == [id, code] && tail == []
    case Crypto(offset, data) => t == 0x06 && vs == [offset, |data|] && tail == data
    case NewToken(token) => t == 0x07 && vs == [|token|] && tail == token && token != []
    case Stream(s) => SpellsStream(s, t, vs) && tail == s.data
    case MaxData(m) => t == 0x10 && vs == [m] && tail == []
    case MaxStreamData(id, m) => t == 0x11 && vs == [id, m] && tail == []
    case MaxStreams(d, m) => t == (if d.Bidirectional? then 0x12 else 0x13) && vs == [m] && tail == []
    case DataBlocked(m) => t == 0x14 && vs == [m] && tail == []
    case StreamDataBlocked(id, m) => t == 0x15 && vs == [id, m] && tail == []
    case StreamsBlocked(d, m) => t == (if d.Bidirectional? then 0x16 else 0x17) && vs == [m] && tail == []
    case NewConnectionId(n, retire, id, token) =>
      && t == 0x18 && vs == [n, retire, |id|] && tail == id + token
      && retire <= n && 1 <= |id| <= 20 && |token| == 16
    case RetireConnectionId(n) => t == 0x19 && vs == [n] && tail == []
    case PathChallenge(data) => t == 0x1a && vs == [] && tail == data
    case PathResponse(data) => t == 0x1b && vs == [] && tail == data
    case ConnectionClose(code, frameType, reason) =>
      t == 0x1c && vs == [code, frameType, |reason|] && tail == reason
    case ApplicationClose(code, reason) => t == 0x1d && vs == [code, |reason|] && tail == reason
    case HandshakeDone => t == 0x1e && vs == [] && tail == []
  }

  /** The bytes are one frame; PADDING is a zero type and then zero bytes. */
  ghost predicate IsFrame(s: seq<byte>, f: Frame) {
    if f.Padding? then
      exists k :: 0 < k <= |s| && IsVarint(s[..k], 0) && s[k..] == Zeros(|s| - k) && f.count == 1 + |s| - k
    else
      exists k, m, t, vs :: 0 < k <= m <= |s| && IsVarint(s[..k], t) && BodyIs(t, s[k..m], vs, s[m..], f)
  }

  ghost predicate BodyIs(t: nat, fields: seq<byte>, vs: seq<nat>, tail: seq<byte>, f: Frame) {
    AreVarints(fields, vs) && Spells(t, vs, tail, f)
  }

  /** What may follow: PADDING goes on for as long as it can, and a STREAM frame without a length is the last. */
  predicate MayFollow(f: Frame, rest: seq<byte>) {
    && (f.Padding? ==> rest == [] || rest[0] != 0)
    && (f.Stream? && !f.stream.lengthPresent ==> rest == [])
  }

  /** The bytes are cut into the frames, one after the other. */
  ghost predicate IsPayload(s: seq<byte>, fs: seq<Frame>)
    decreases fs
  {
    if fs == [] then s == []
    else exists n :: 0 < n <= |s| && IsFrame(s[..n], fs[0]) && MayFollow(fs[0], s[n..]) && IsPayload(s[n..], fs[1..])
  }

  // ---------------------------------------------------------------- varints

  lemma DecodeIsExact(s: seq<byte>, v: nat, n: nat)
    ensures V.Decode(s) == Some((v, n)) <==> n <= |s| && IsVarint(s[..n], v)
  {
    hide FromBytes;
    if n <= |s| && IsVarint(s[..n], v) {
      assert s[..n][0] == s[0] && s[..n][1..] == s[1..n];
    }
    if V.Decode(s) == Some((v, n)) {
      assert s[..n][1..] == s[1..n];
    }
  }

  lemma VarintFits(s: seq<byte>, v: nat)
    requires IsVarint(s, v)
    ensures v <= MAX_VARINT
  {
    V.DecodedFits([s[0] % 64] + s[1..]);
  }

  lemma {:induction false} VarintsFit(s: seq<byte>, vs: seq<nat>)
    requires AreVarints(s, vs)
    ensures Fit(vs)
    decreases vs
  {
    hide IsVarint;
    if vs != [] {
      var k :| 0 < k <= |s| && IsVarint(s[..k], vs[0]) && AreVarints(s[k..], vs[1..]);
      VarintFits(s[..k], vs[0]);
      VarintsFit(s[k..], vs[1..]);
      assert forall i | 0 < i < |vs| :: vs[i] == vs[1..][i - 1];
    }
  }

  /** Reading is sound: what was read is spelled by the bytes it took. */
  lemma {:induction false} ReadIsSound(s: seq<byte>, count: nat)
    requires ReadFields(s, count).Some?
    ensures var (vs, n) := ReadFields(s, count).value; AreVarints(s[..n], vs)
    decreases count
  {
    hide V.Decode, IsVarint;
    if count != 0 {
      var (v, k) := V.Decode(s).value;
      var (vs, m) := ReadFields(s[k..], count - 1).value;
      DecodeIsExact(s, v, k);
      ReadIsSound(s[k..], count - 1);
      var all := [v] + vs;
      assert all[1..] == vs && s[..k + m][..k] == s[..k] && s[..k + m][k..] == s[k..][..m];
    }
  }

  /** And complete: bytes that spell numbers are read as those, whatever follows. */
  lemma {:induction false} ReadIsComplete(s: seq<byte>, n: nat, vs: seq<nat>)
    requires n <= |s| && AreVarints(s[..n], vs)
    ensures ReadFields(s, |vs|) == Some((vs, n))
    decreases vs
  {
    hide V.Decode, IsVarint;
    if vs != [] {
      var k :| 0 < k <= n && IsVarint(s[..n][..k], vs[0]) && AreVarints(s[..n][k..], vs[1..]);
      assert s[..n][..k] == s[..k] && s[..n][k..] == s[k..][..n - k];
      DecodeIsExact(s, vs[0], k);
      ReadIsComplete(s[k..], n - k, vs[1..]);
      assert vs == [vs[0]] + vs[1..];
    }
  }

  // ---------------------------------------------------------------- one frame: soundness

  /** How the bytes behind a type are cut: `m` bytes of varints, then raw bytes up to `n`. */
  ghost predicate BodyCut(t: nat, s: seq<byte>, m: nat, n: nat, vs: seq<nat>, f: Frame) {
    m <= n <= |s| && BodyIs(t, s[..m], vs, s[m..n], f) && MayFollow(f, s[n..])
  }

  lemma FixedIsSound(t: nat, s: seq<byte>) returns (vs: seq<nat>)
    requires FixedCount(t).Some? && ParseFixed(t, s).Some?
    ensures var (f, n) := ParseFixed(t, s).value; BodyCut(t, s, n, n, vs, f)
  {
    hide ReadFields, AreVarints;
    ReadIsSound(s, FixedCount(t).value);
    vs := ReadFields(s, FixedCount(t).value).value.0;
    var n := ReadFields(s, FixedCount(t).value).value.1;
    assert s[n..n] == [];
  }

  lemma CountedIsSound(t: nat, s: seq<byte>) returns (m: nat, vs: seq<nat>)
    requires CountedCount(t).Some? && ParseCounted(t, s).Some?
    ensures var (f, n) := ParseCounted(t, s).value; BodyCut(t, s, m, n, vs, f)
  {
    hide ReadFields, AreVarints;
    ReadIsSound(s, CountedCount(t).value);
    vs := ReadFields(s, CountedCount(t).value).value.0;
    m := ReadFields(s, CountedCount(t).value).value.1;
  }

  lemma StreamIsSound(t: nat, s: seq<byte>) returns (m: nat, vs: seq<nat>)
    requires 0x08 <= t <= 0x0f && ParseStream(t, s).Some?
    ensures var (f, n) := ParseStream(t, s).value; BodyCut(t, s, m, n, vs, f)
  {
    hide ReadFields, AreVarints;
    var count := 1 + Bit(t / 4 % 2 == 1, 1) + Bit(t / 2 % 2 == 1, 1);
    ReadIsSound(s, count);
    vs := ReadFields(s, count).value.0;
    m := ReadFields(s, count).value.1;
  }

  lemma NewConnectionIdIsSound(s: seq<byte>) returns (m: nat, vs: seq<nat>)
    requires ParseNewConnectionId(s).Some?
    ensures var (f, n) := ParseNewConnectionId(s).value; BodyCut(0x18, s, m, n, vs, f)
  {
    hide ReadFields, AreVarints;
    ReadIsSound(s, 3);
    vs := ReadFields(s, 3).value.0;
    m := ReadFields(s, 3).value.1;
    var n := m + vs[2] + 16;
    assert s[m..n] == s[m..m + vs[2]] + s[m + vs[2]..n];
  }

  lemma PathIsSound(t: nat, s: seq<byte>)
    requires (t == 0x1a || t == 0x1b) && ParsePath(t, s).Some?
    ensures BodyCut(t, s, 0, 8, [], ParsePath(t, s).value.0)
  {
    assert s[..0] == [] && s[0..8] == s[..8];
  }

  // ---------------------------------------------------------------- ACK frames

  lemma VarintsFirst(s: seq<byte>, k: nat, vs: seq<nat>)
    requires vs != [] && 0 < k <= |s| && IsVarint(s[..k], vs[0]) && AreVarints(s[k..], vs[1..])
    ensures AreVarints(s, vs)
  {
  }

  lemma {:induction false} VarintsJoin(s: seq<byte>, n: nat, vs: seq<nat>, ws: seq<nat>)
    requires n <= |s| && AreVarints(s[..n], vs) && AreVarints(s[n..], ws)
    ensures AreVarints(s, vs + ws)
    decreases vs
  {
    hide IsVarint;
    if vs == [] {
      assert vs + ws == ws && s[n..] == s;
    } else {
      var k :| 0 < k <= n && IsVarint(s[..n][..k], vs[0]) && AreVarints(s[..n][k..], vs[1..]);
      hide AreVarints;
      assert s[..n][..k] == s[..k] && s[..n][k..] == s[k..][..n - k] && s[n..] == s[k..][n - k..];
      VarintsJoin(s[k..], n - k, vs[1..], ws);
      assert (vs + ws)[1..] == vs[1..] + ws && (vs + ws)[0] == vs[0];
      VarintsFirst(s, k, vs + ws);
    }
  }

  lemma {:induction false} VarintsSplit(s: seq<byte>, vs: seq<nat>, i: nat) returns (n: nat)
    requires i <= |vs| && AreVarints(s, vs)
    ensures n <= |s| && AreVarints(s[..n], vs[..i]) && AreVarints(s[n..], vs[i..])
    decreases vs
  {
    hide IsVarint;
    if i == 0 {
      n := 0;
      assert vs[..0] == [] && vs[0..] == vs && s[..0] == [] && s[0..] == s;
    } else {
      var k :| 0 < k <= |s| && IsVarint(s[..k], vs[0]) && AreVarints(s[k..], vs[1..]);
      var m := VarintsSplit(s[k..], vs[1..], i - 1);
      n := k + m;
      assert s[..n][..k] == s[..k] && s[..n][k..] == s[k..][..m] && s[n..] == s[k..][m..];
      assert vs[..i][1..] == vs[1..][..i - 1] && vs[i..] == vs[1..][i - 1..] && vs[..i][0] == vs[0];
    }
  }

  lemma {:induction false} PairedAt(v: seq<varint>, i: nat)
    requires |v| % 2 == 0
    ensures |Paired(v)| == |v| / 2
    ensures i < |v| / 2 ==> Paired(v)[i] == AckRange(v[2 * i], v[2 * i + 1])
    decreases v
  {
    if v != [] {
      PairedAt(v[2..], if i == 0 then 0 else i - 1);
    }
  }

  lemma {:induction false} PairedExactly(v: seq<varint>, ranges: seq<AckRange>)
    requires |v| == 2 * |ranges|
    requires forall i | 0 <= i < |ranges| :: v[2 * i] == ranges[i].gap && v[2 * i + 1] == ranges[i].length
    ensures |v| % 2 == 0 && Paired(v) == ranges
  {
    forall i | 0 <= i < |ranges|
      ensures |Paired(v)| == |ranges| && Paired(v)[i] == ranges[i]
    {
      PairedAt(v, i);
    }
    PairedAt(v, 0);
  }

  lemma AckIsSound(t: nat, s: seq<byte>) returns (vs: seq<nat>)
    requires (t == 2 || t == 3) && ParseAck(t, s).Some?
    ensures var (f, n) := ParseAck(t, s).value; BodyCut(t, s, n, n, vs, f)
  {
    hide ReadFields, AreVarints;
    var (v, a) := ReadFields(s, 4).value;
    var count: nat := v[2];
    var (w, b) := ReadFields(s[a..], 2 * count).value;
    ReadIsSound(s, 4);
    ReadIsSound(s[a..], 2 * count);
    var ecn, c := EcnIsSound(t, s[a + b..]);
    var (f, n) := ParseAck(t, s).value;
    assert n == a + b + c;
    vs := v + w + ecn;
    PiecesJoin(s, a, b, c, v, w, ecn);
    forall i | 0 <= i < count
      ensures |f.ack.ranges| == count && f.ack.ranges[i] == AckRange(w[2 * i], w[2 * i + 1])
    {
      PairedAt(w, i);
    }
    PairedAt(w, 0);
    assert s[n..n] == [];
  }

  lemma PiecesJoin(s: seq<byte>, a: nat, b: nat, c: nat, u: seq<nat>, v: seq<nat>, w: seq<nat>)
    requires a + b + c <= |s|
    requires AreVarints(s[..a], u) && AreVarints(s[a..][..b], v) && AreVarints(s[a + b..][..c], w)
    ensures AreVarints(s[..a + b + c], u + v + w)
  {
    hide AreVarints;
    var front, all := s[..a + b], s[..a + b + c];
    assert front[..a] == s[..a] && front[a..] == s[a..][..b];
    VarintsJoin(front, a, u, v);
    assert all[..a + b] == front && all[a + b..] == s[a + b..][..c];
    VarintsJoin(all, a + b, u + v, w);
  }

  lemma EcnIsSound(t: nat, s: seq<byte>) returns (vs: seq<varint>, n: nat)
    requires (t == 2 || t == 3) && ParseEcn(t, s).Some?
    ensures n == ParseEcn(t, s).value.1 && AreVarints(s[..n], vs)
    ensures if t == 2 then vs == [] && ParseEcn(t, s).value.0.None?
            else |vs| == 3 && ParseEcn(t, s).value.0 == Some(EcnCounts(vs[0], vs[1], vs[2]))
  {
    hide ReadFields;
    if t == 2 {
      vs, n := [], 0;
    } else {
      ReadIsSound(s, 3);
      vs := ReadFields(s, 3).value.0;
      n := ReadFields(s, 3).value.1;
    }
  }

  // ---------------------------------------------------------------- one frame: soundness

  lemma BodyIsSound(t: nat, s: seq<byte>) returns (m: nat, vs: seq<nat>)
    requires ParseBody(t, s).Some?
    ensures var (f, n) := ParseBody(t, s).value; BodyCut(t, s, m, n, vs, f)
  {
    hide ParseFixed, ParseCounted, ParseAck, ParseStream, ParseNewConnectionId, ParsePath, BodyCut;
    var n := ParseBody(t, s).value.1;
    if FixedCount(t).Some? {
      vs := FixedIsSound(t, s);
      m := n;
    } else if CountedCount(t).Some? {
      m, vs := CountedIsSound(t, s);
    } else if t == 0x02 || t == 0x03 {
      vs := AckIsSound(t, s);
      m := n;
    } else if 0x08 <= t <= 0x0f {
      m, vs := StreamIsSound(t, s);
    } else if t == 0x18 {
      m, vs := NewConnectionIdIsSound(s);
    } else {
      PathIsSound(t, s);
      PathSize(t, s);
      m, vs := 0, [];
    }
  }

  lemma PathSize(t: nat, s: seq<byte>)
    requires ParsePath(t, s).Some?
    ensures ParsePath(t, s).value.1 == 8
  {
  }

  lemma {:induction false} LeadingZerosAre(s: seq<byte>)
    ensures var z := LeadingZeros(s); s[..z] == Zeros(z) && (s[z..] == [] || s[z] != 0)
  {
    if s != [] && s[0] == 0 {
      LeadingZerosAre(s[1..]);
      var z := LeadingZeros(s[1..]);
      assert s[..z + 1] == [s[0]] + s[1..][..z] && Zeros(z + 1) == [0] + Zeros(z);
    }
  }

  lemma FrameIsSound(s: seq<byte>)
    requires ParseFrame(s).Some?
    ensures var (f, n) := ParseFrame(s).value; IsFrame(s[..n], f) && MayFollow(f, s[n..])
  {
    hide V.Decode, ParseBody, IsVarint, AreVarints, Spells, LeadingZeros;
    var (t, k) := V.Decode(s).value;
    var (f, n) := ParseFrame(s).value;
    DecodeIsExact(s, t, k);
    assert s[..n][..k] == s[..k];
    if t == 0 {
      LeadingZerosAre(s[k..]);
      assert s[..n][k..] == s[k..][..n - k] && s[n..] == s[k..][n - k..];
    } else {
      var m, vs := BodyIsSound(t, s[k..]);
      assert s[..n][k..k + m] == s[k..][..m] && s[..n][k + m..] == s[k..][m..n - k] && s[n..] == s[k..][n - k..];
      NotPadding(t, vs, s[k..][m..n - k], f);
    }
  }

  lemma NotPadding(t: nat, vs: seq<nat>, tail: seq<byte>, f: Frame)
    requires Spells(t, vs, tail, f)
    ensures !f.Padding? && t != 0
  {
  }

  // ---------------------------------------------------------------- one frame: completeness

  lemma FixedIsComplete(t: nat, s: seq<byte>, m: nat, n: nat, vs: seq<nat>, f: Frame)
    requires FixedCount(t).Some? && BodyCut(t, s, m, n, vs, f)
    ensures ParseFixed(t, s) == Some((f, n))
  {
    hide ReadFields, AreVarints;
    ReadIsComplete(s, m, vs);
    VarintsFit(s[..m], vs);
    assert |s[m..n]| == n - m;
  }

  lemma CountedIsComplete(t: nat, s: seq<byte>, m: nat, n: nat, vs: seq<nat>, f: Frame)
    requires CountedCount(t).Some? && BodyCut(t, s, m, n, vs, f)
    ensures ParseCounted(t, s) == Some((f, n))
  {
    hide ReadFields, AreVarints;
    ReadIsComplete(s, m, vs);
    VarintsFit(s[..m], vs);
    assert |s[m..n]| == n - m;
  }

  lemma StreamIsComplete(t: nat, s: seq<byte>, m: nat, n: nat, vs: seq<nat>, f: Frame)
    requires 0x08 <= t <= 0x0f && BodyCut(t, s, m, n, vs, f)
    ensures ParseStream(t, s) == Some((f, n))
  {
    hide ReadFields, AreVarints;
    ReadIsComplete(s, m, vs);
    VarintsFit(s[..m], vs);
    assert |s[m..n]| == n - m;
  }

  lemma NewConnectionIdIsComplete(s: seq<byte>, m: nat, n: nat, vs: seq<nat>, f: Frame)
    requires BodyCut(0x18, s, m, n, vs, f)
    ensures ParseNewConnectionId(s) == Some((f, n))
  {
    hide ReadFields, AreVarints;
    ReadIsComplete(s, m, vs);
    VarintsFit(s[..m], vs);
    assert |s[m..n]| == n - m;
    assert s[m..m + |f.id|] == s[m..n][..|f.id|] && s[m + |f.id|..n] == s[m..n][|f.id|..];
  }

  lemma PathIsComplete(t: nat, s: seq<byte>, m: nat, n: nat, vs: seq<nat>, f: Frame)
    requires (t == 0x1a || t == 0x1b) && BodyCut(t, s, m, n, vs, f)
    ensures ParsePath(t, s) == Some((f, n))
  {
    assert s[..m] == [] && m == 0 && s[0..n] == s[..n] && n == 8;
  }

  lemma AckIsComplete(t: nat, s: seq<byte>, m: nat, n: nat, vs: seq<nat>, f: Frame)
    requires (t == 2 || t == 3) && BodyCut(t, s, m, n, vs, f)
    ensures ParseAck(t, s) == Some((f, n))
  {
    hide ReadFields, AreVarints, ParseAckRanges, ParseEcn;
    assert f.Ack? && m == n;
    VarintsFit(s[..m], vs);
    var count := |f.ack.ranges|;
    var a := VarintsSplit(s[..m], vs, 4);
    var b := VarintsSplit(s[..m][a..], vs[4..], 2 * count);
    assert s[..m][..a] == s[..a] && s[..m][a..][..b] == s[a..][..b];
    assert s[..m][a..][b..] == s[a + b..][..m - a - b];
    ReadIsComplete(s, a, vs[..4]);
    RangesAreComplete(s[a..], b, vs[4..][..2 * count], f.ack.ranges);
    EcnIsComplete(t, s[a + b..], m - a - b, vs[4..][2 * count..], f.ack.ecn);
    assert s[a..][b..] == s[a + b..];
  }

  lemma RangesAreComplete(s: seq<byte>, n: nat, vs: seq<nat>, ranges: seq<AckRange>)
    requires n <= |s| && AreVarints(s[..n], vs) && |vs| == 2 * |ranges| && Fit(vs)
    requires forall i | 0 <= i < |ranges| :: vs[2 * i] == ranges[i].gap && vs[2 * i + 1] == ranges[i].length
    ensures ParseAckRanges(s, |ranges|) == Some((ranges, n))
  {
    hide ReadFields, AreVarints;
    ReadIsComplete(s, n, vs);
    VarintsTakeBytes(s[..n], vs);
    PairedExactly(vs, ranges);
  }

  lemma {:induction false} VarintsTakeBytes(s: seq<byte>, vs: seq<nat>)
    requires AreVarints(s, vs)
    ensures |vs| <= |s|
    decreases vs
  {
    hide IsVarint;
    if vs != [] {
      var k :| 0 < k <= |s| && IsVarint(s[..k], vs[0]) && AreVarints(s[k..], vs[1..]);
      VarintsTakeBytes(s[k..], vs[1..]);
    }
  }

  lemma EcnIsComplete(t: nat, s: seq<byte>, n: nat, vs: seq<nat>, ecn: Option<EcnCounts>)
    requires n <= |s| && AreVarints(s[..n], vs) && Fit(vs) && t == (if ecn.Some? then 3 else 2)
    requires if ecn.None? then vs == [] else vs == [ecn.value.ect0, ecn.value.ect1, ecn.value.ce]
    ensures ParseEcn(t, s) == Some((ecn, n))
  {
    hide ReadFields;
    ReadIsComplete(s, n, vs);
  }

  lemma TypeDecides(t: nat, vs: seq<nat>, tail: seq<byte>, f: Frame)
    requires Spells(t, vs, tail, f)
    ensures FixedCount(t).Some? || CountedCount(t).Some? || 0x02 <= t <= 0x03 || 0x08 <= t <= 0x0f || t == 0x18
         || 0x1a <= t <= 0x1b
  {
  }

  lemma BodyIsComplete(t: nat, s: seq<byte>, m: nat, n: nat, vs: seq<nat>, f: Frame)
    requires BodyCut(t, s, m, n, vs, f)
    ensures ParseBody(t, s) == Some((f, n))
  {
    TypeDecides(t, vs, s[m..n], f);
    hide ParseFixed, ParseCounted, ParseAck, ParseStream, ParseNewConnectionId, ParsePath, BodyCut;
    if FixedCount(t).Some? {
      FixedIsComplete(t, s, m, n, vs, f);
    } else if CountedCount(t).Some? {
      CountedIsComplete(t, s, m, n, vs, f);
    } else if t == 0x02 || t == 0x03 {
      AckIsComplete(t, s, m, n, vs, f);
    } else if 0x08 <= t <= 0x0f {
      StreamIsComplete(t, s, m, n, vs, f);
    } else if t == 0x18 {
      NewConnectionIdIsComplete(s, m, n, vs, f);
    } else {
      PathIsComplete(t, s, m, n, vs, f);
    }
  }

  lemma {:induction false} ZerosLead(s: seq<byte>, z: nat)
    requires z <= |s| && s[..z] == Zeros(z) && (s[z..] == [] || s[z] != 0)
    ensures LeadingZeros(s) == z
    decreases z
  {
    if z != 0 {
      assert s[0] == s[..z][0];
      assert s[1..][..z - 1] == s[..z][1..] && s[1..][z - 1..] == s[z..];
      ZerosLead(s[1..], z - 1);
    }
  }

  lemma FrameIsComplete(s: seq<byte>, n: nat, f: Frame)
    requires n <= |s| && IsFrame(s[..n], f) && MayFollow(f, s[n..])
    ensures ParseFrame(s) == Some((f, n))
  {
    hide V.Decode, ParseBody, IsVarint, AreVarints, Spells, LeadingZeros;
    var p := s[..n];
    if f.Padding? {
      var k :| 0 < k <= n && IsVarint(p[..k], 0) && p[k..] == Zeros(n - k) && f.count == 1 + n - k;
      assert p[..k] == s[..k] && p[k..] == s[k..][..n - k] && s[n..] == s[k..][n - k..];
      DecodeIsExact(s, 0, k);
      ZerosLead(s[k..], n - k);
    } else {
      var k, m, t, vs :| 0 < k <= m <= n && IsVarint(p[..k], t) && BodyIs(t, p[k..m], vs, p[m..], f);
      assert p[..k] == s[..k] && p[k..m] == s[k..][..m - k] && p[m..] == s[k..][m - k..n - k];
      assert s[n..] == s[k..][n - k..];
      DecodeIsExact(s, t, k);
      NotPadding(t, vs, p[m..], f);
      BodyIsComplete(t, s[k..], m - k, n - k, vs, f);
    }
  }

  // ---------------------------------------------------------------- payloads

  lemma {:induction false} PayloadIsSound(s: seq<byte>)
    requires ParseFrames(s).Some?
    ensures IsPayload(s, ParseFrames(s).value)
    decreases |s|
  {
    hide ParseFrame, IsFrame, MayFollow;
    if s != [] {
      var (f, n) := ParseFrame(s).value;
      FrameIsSound(s);
      PayloadIsSound(s[n..]);
      var rest := ParseFrames(s[n..]).value;
      assert ([f] + rest)[1..] == rest;
    }
  }

  lemma {:induction false} PayloadIsComplete(s: seq<byte>, fs: seq<Frame>)
    requires IsPayload(s, fs)
    ensures ParseFrames(s) == Some(fs)
    decreases fs
  {
    hide ParseFrame, IsFrame, MayFollow;
    if fs != [] {
      var n :| 0 < n <= |s| && IsFrame(s[..n], fs[0]) && MayFollow(fs[0], s[n..]) && IsPayload(s[n..], fs[1..]);
      FrameIsComplete(s, n, fs[0]);
      PayloadIsComplete(s[n..], fs[1..]);
      assert fs == [fs[0]] + fs[1..];
    }
  }

  /** The parser decides the grammar: a payload is read as a list of frames if and only if it spells that list. */
  lemma ParserDecidesTheGrammar(s: seq<byte>, fs: seq<Frame>)
    ensures Decoding(s) == Some(fs) <==> fs != [] && IsPayload(s, fs)
  {
    hide IsFrame, MayFollow, ParseFrame;
    if ParseFrames(s).Some? {
      PayloadIsSound(s);
    }
    if IsPayload(s, fs) {
      PayloadIsComplete(s, fs);
    }
  }

  /** What is read can be printed. */
  lemma ParsedIsEncodable(s: seq<byte>, fs: seq<Frame>)
    requires Decoding(s) == Some(fs)
    ensures fs != [] && AllEncodable(fs)
  {
    hide IsPayload, Encodable, ParseFrames;
    ParserDecidesTheGrammar(s, fs);
    PayloadIsEncodable(s, fs);
  }

  lemma {:induction false} PayloadIsEncodable(s: seq<byte>, fs: seq<Frame>)
    requires IsPayload(s, fs)
    ensures AllEncodable(fs)
    decreases fs
  {
    hide IsFrame, MayFollow, Encodable;
    if fs != [] {
      var n :| 0 < n <= |s| && IsFrame(s[..n], fs[0]) && MayFollow(fs[0], s[n..]) && IsPayload(s[n..], fs[1..]);
      SpelledIsEncodable(s[..n], fs[0]);
      PayloadIsEncodable(s[n..], fs[1..]);
      assert forall i | 0 < i < |fs| :: fs[i] == fs[1..][i - 1];
    }
  }

  // ---------------------------------------------------------------- printing

  /** Every field of the frame shows on the wire: PADDING is not empty, and an offset is not hidden by its flag. */
  predicate Shows(f: Frame) {
    && (f.Padding? ==> 0 < f.count)
    && (f.Stream? && !f.stream.offsetPresent ==> f.stream.offset == 0)
  }

  lemma FieldsAreVarints(vs: seq<nat>)
    requires Fit(vs)
    ensures AreVarints(Fields(vs), vs)
  {
    hide Fields, ReadFields;
    var s := Fields(vs);
    assert s + [] == s;
    ReadBack(vs, []);
    ReadIsSound(s, |vs|);
    assert s[..|s|] == s;
  }

  lemma FlatFirst(ranges: seq<AckRange>)
    requires ranges != []
    ensures Flat(ranges) == [ranges[0].gap, ranges[0].length] + Flat(ranges[1..])
  {
  }

  lemma {:induction false} FlatLength(ranges: seq<AckRange>)
    ensures |Flat(ranges)| == 2 * |ranges|
  {
    if ranges != [] {
      FlatLength(ranges[1..]);
    }
  }

  lemma {:induction false} FlatAt(ranges: seq<AckRange>, i: nat)
    ensures |Flat(ranges)| == 2 * |ranges|
    ensures i < |ranges| ==> Flat(ranges)[2 * i] == ranges[i].gap && Flat(ranges)[2 * i + 1] == ranges[i].length
    decreases ranges
  {
    hide Flat;
    FlatLength(ranges);
    if i < |ranges| {
      var rest := ranges[1..];
      FlatFirst(ranges);
      if i != 0 {
        FlatAt(rest, i - 1);
        assert 2 * i == 2 + 2 * (i - 1);
        assert Flat(ranges)[2 * i] == Flat(rest)[2 * (i - 1)];
        assert Flat(ranges)[2 * i + 1] == Flat(rest)[2 * (i - 1) + 1];
      }
    }
  }

  lemma {:induction false} FlatExactly(vs: seq<nat>, ranges: seq<AckRange>)
    requires |vs| == 2 * |ranges|
    requires forall i | 0 <= i < |ranges| :: vs[2 * i] == ranges[i].gap && vs[2 * i + 1] == ranges[i].length
    ensures vs == Flat(ranges)
    decreases ranges
  {
    if ranges != [] {
      assert vs == [vs[2 * 0], vs[2 * 0 + 1]] + vs[2..];
      forall i | 0 <= i < |ranges| - 1
        ensures vs[2..][2 * i] == ranges[1..][i].gap && vs[2..][2 * i + 1] == ranges[1..][i].length
      {
        assert vs[2 * (i + 1)] == ranges[i + 1].gap && vs[2 * (i + 1) + 1] == ranges[i + 1].length;
      }
      FlatExactly(vs[2..], ranges[1..]);
    }
  }

  lemma AckIsLaidOut(a: AckFrame, vs: seq<nat>)
    ensures SpellsAck(a, vs) <==>
            vs == [a.largest, a.delay, |a.ranges|, a.firstRange] + Flat(a.ranges) + EcnFields(a.ecn)
  {
    var head, flat, ecn := [a.largest, a.delay, |a.ranges|, a.firstRange], Flat(a.ranges), EcnFields(a.ecn);
    forall i: nat | i < |a.ranges|
      ensures |flat| == 2 * |a.ranges| && flat[2 * i] == a.ranges[i].gap && flat[2 * i + 1] == a.ranges[i].length
    {
      FlatAt(a.ranges, i);
    }
    FlatAt(a.ranges, 0);
    if SpellsAck(a, vs) {
      var n := 4 + 2 * |a.ranges|;
      FlatExactly(vs[4..n], a.ranges);
      assert vs == vs[..4] + vs[4..n] + vs[n..];
      assert vs[..4] == head && vs[n..] == ecn;
    }
  }

  /** The printer's layout is the grammar's. */
  lemma LayoutSpells(f: Frame, t: nat, vs: seq<nat>, tail: seq<byte>)
    requires !f.Padding? && Shows(f)
    ensures Spells(t, vs, tail, f) <==> Allowed(f) && LayoutOf(f) == Layout([t] + vs, tail)
  {
    hide Flat, EcnFields;
    assert ([t] + vs)[0] == t && ([t] + vs)[1..] == vs;
    if f.Ack? {
      AckIsLaidOut(f.ack, vs);
      var a := f.ack;
      var rest := [a.largest, a.delay, |a.ranges|, a.firstRange] + Flat(a.ranges) + EcnFields(a.ecn);
      assert LayoutOf(f).fields == [AckType(a)] + rest && ([AckType(a)] + rest)[1..] == rest;
    } else if f.Stream? {
      StreamIsLaidOut(f.stream, t, vs);
    }
  }

  lemma StreamIsLaidOut(f: StreamFrame, t: nat, vs: seq<nat>)
    requires !f.offsetPresent ==> f.offset == 0
    ensures SpellsStream(f, t, vs) <==> [t] + vs == [StreamType(f)] + StreamFields(f)
  {
    assert ([t] + vs)[0] == t && ([t] + vs)[1..] == vs;
    assert ([StreamType(f)] + StreamFields(f))[1..] == StreamFields(f);
  }

  /**
   * A frame that shows on the wire can be printed if and only if some bytes spell it, and then it is printed as such.
   */
  lemma PrinterSpells(f: Frame)
    requires Shows(f)
    ensures Encodable(f) <==> exists s :: IsFrame(s, f)
    ensures Encodable(f) ==> IsFrame(Encoding(f), f)
  {
    hide IsFrame, Encodable, Encoding;
    if Encodable(f) {
      PrintedIsSpelled(f);
    }
    if s :| IsFrame(s, f) {
      SpelledIsEncodable(s, f);
    }
  }

  lemma PrintedIsSpelled(f: Frame)
    requires Encodable(f) && Shows(f)
    ensures IsFrame(Encoding(f), f)
  {
    hide AreVarints, Spells, Fields, V.Encode, IsVarint, LayoutOf;
    if f.Padding? {
      ZerosSpell(f.count);
    } else {
      var l, s := LayoutOf(f), Encoding(f);
      LayoutHasAType(f);
      assert l.fields == [l.fields[0]] + l.fields[1..];
      LayoutSpells(f, l.fields[0], l.fields[1..], l.tail);
      FieldsFirst(l.fields);
      var k, m := |V.Encode(l.fields[0])|, |Fields(l.fields)|;
      TypeIsSpelled(l.fields[0]);
      FieldsAreVarints(l.fields[1..]);
      assert s[..k] == V.Encode(l.fields[0]) && s[k..m] == Fields(l.fields[1..]) && s[m..] == l.tail;
      assert BodyIs(l.fields[0], s[k..m], l.fields[1..], s[m..], f);
    }
  }

  lemma LayoutHasAType(f: Frame)
    requires !f.Padding?
    ensures LayoutOf(f).fields != []
  {
  }

  lemma TypeIsSpelled(t: nat)
    requires t <= MAX_VARINT
    ensures IsVarint(V.Encode(t), t) && 0 < |V.Encode(t)|
  {
    hide V.Encode, V.Decode, IsVarint;
    var s := V.Encode(t);
    V.DecodeEncode(t, []);
    assert s + [] == s && s[..|s|] == s;
    DecodeIsExact(s, t, |s|);
  }

  lemma ZerosSpell(n: nat)
    requires 0 < n
    ensures IsFrame(Zeros(n), Padding(n))
  {
    var s := Zeros(n);
    FromOne(0);
    assert s[..1] == [0] && [s[..1][0] % 64] + s[..1][1..] == [0] && s[1..] == Zeros(n - 1);
    assert IsVarint(s[..1], 0);
  }

  lemma SpelledIsEncodable(s: seq<byte>, f: Frame)
    requires IsFrame(s, f)
    ensures Encodable(f) && Shows(f)
  {
    hide AreVarints, IsVarint;
    if !f.Padding? {
      var k, m, t, vs :| 0 < k <= m <= |s| && IsVarint(s[..k], t) && BodyIs(t, s[k..m], vs, s[m..], f);
      VarintsFit(s[k..m], vs);
      SpelledShows(t, vs, s[m..], f);
      LayoutSpells(f, t, vs, s[m..]);
      VarintFits(s[..k], t);
      FitConcat([t], vs);
    }
  }

  lemma SpelledShows(t: nat, vs: seq<nat>, tail: seq<byte>, f: Frame)
    requires Spells(t, vs, tail, f)
    ensures Shows(f)
  {
  }

  /** A type outside the list is refused, whatever follows. */
  lemma UnknownTypesAreRefused(s: seq<byte>, t: nat, k: nat)
    requires k <= |s| && IsVarint(s[..k], t) && (0x1e < t)
    ensures Decoding(s).None?
  {
    hide V.Decode, IsVarint;
    DecodeIsExact(s, t, k);
  }
}
