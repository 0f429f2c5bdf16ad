/** The in-place packet builder (zero_copy_packet_builder.hpp) against the copying assembler. */
module ZeroCopyBuilder {
  import opened Bytes
  import opened Common
  import opened Frames
  import opened HeaderProtection
  import opened PacketHeader
  import opened PacketPipeline
  import Codec = FrameCodec
  import V = Varint

  /** The checks the builder makes before it writes: those of the assembler without the packet number's. */
  predicate Admitted(r: AppRequest) {
    && r.protector.Some?
    && r.number.space.AppSpace?
    && r.protector.value.level.ApplicationLevel?
    && r.protector.value.ready
  }

  /** Where the frames are put before the size of the header is looked at. */
  const RESERVE: nat := 32

  function HeaderSize(r: AppRequest): nat {
    1 + |r.dcid| + PN_LENGTH
  }

  /** The bytes behind the reserve once the header is written over its front: a long header overwrites some. */
  function Overlaid(prefix: seq<byte>, text: seq<byte>): seq<byte> {
    seq(|text|, i requires 0 <= i < |text| => if RESERVE + i < |prefix| then prefix[RESERVE + i] else text[i])
  }

  /** The plaintext the builder protects. */
  function BuilderText(r: AppRequest): seq<byte>
    requires Codec.AllEncodable(r.frames)
  {
    Overlaid(ShortPrefix(r.dcid, r.number.value), Codec.Payload(r.frames))
  }

  lemma ShortHeadersOverwriteNothing(r: AppRequest)
    requires Codec.AllEncodable(r.frames) && HeaderSize(r) <= RESERVE
    ensures BuilderText(r) == Codec.Payload(r.frames)
  {
    hide Codec.Payload, BigEndian;
  }

  function Sealed(r: AppRequest, text: seq<byte>): Option<seq<byte>>
    requires Admitted(r)
  {
    r.protector.value.protect(r.number, ShortPrefix(r.dcid, r.number.value), text)
  }

  /** What the builder returns with a buffer of `capacity` bytes. */
  function Built(r: AppRequest, capacity: nat): Option<seq<byte>> {
    if !Admitted(r) || !Codec.AllEncodable(r.frames) then None else
      var sealed := Sealed(r, BuilderText(r));
      if sealed.Some? && capacity < HeaderSize(r) + |sealed.value| then None
      else SealShort(r, r.protector.value, BuilderText(r))
  }

  // ---------------------------------------------------------------- agreement with the assembler

  /**
   * A text can be sent: it is protected, its sample has a mask when the header is to be masked, and it is not too big.
   */
  predicate Sendable(r: AppRequest, text: seq<byte>)
    requires Admitted(r)
  {
    var p, sealed := r.protector.value, Sealed(r, text);
    && sealed.Some?
    && (p.headerProtection ==> SAMPLE <= |sealed.value| && p.mask(sealed.value[..SAMPLE]).Some?)
    && HeaderSize(r) + |sealed.value| <= r.maxDatagram
  }

  predicate BuilderServes(r: AppRequest, capacity: nat) {
    && Admitted(r) && Codec.AllEncodable(r.frames)
    && Sendable(r, BuilderText(r)) && HeaderSize(r) + |Sealed(r, BuilderText(r)).value| <= capacity
  }

  predicate AssemblerServes(r: AppRequest) {
    && Admitted(r) && Codec.AllEncodable(r.frames)
    && Sendable(r, Codec.Payload(r.frames)) && r.number.value <= MAX_NUMBER
  }

  lemma SealedExactly(r: AppRequest, text: seq<byte>)
    requires Admitted(r)
    ensures SealShort(r, r.protector.value, text).Some? <==> Sendable(r, text)
  {
    hide BigEndian, Masked;
    var prefix, sealed := ShortPrefix(r.dcid, r.number.value), Sealed(r, text);
    if sealed.Some? && SAMPLE <= |sealed.value| {
      var plain := prefix + sealed.value;
      assert plain[|prefix|..|prefix| + SAMPLE] == sealed.value[..SAMPLE];
    }
  }

  /** Both ends hold the same keys, so different texts cannot look the same on the wire. */
  lemma SealingIsInjective(r: AppRequest, rx: Protector, a: seq<byte>, b: seq<byte>)
    requires Admitted(r) && Paired(r.protector.value, rx)
    requires SealShort(r, r.protector.value, a).Some?
             && SealShort(r, r.protector.value, a) == SealShort(r, r.protector.value, b)
    ensures a == b
  {
    hide Apply, Remove, ShortPrefix;
    var p, prefix := r.protector.value, ShortPrefix(r.dcid, r.number.value);
    var x, y := p.protect(r.number, prefix, a).value, p.protect(r.number, prefix, b).value;
    if p.headerProtection {
      RemoveUndoesApply(prefix + x, 1 + |r.dcid|, p.mask, 32);
      RemoveUndoesApply(prefix + y, 1 + |r.dcid|, p.mask, 32);
    }
    assert (prefix + x)[|prefix|..] == x && (prefix + y)[|prefix|..] == y;
  }

  /**
   * When the builder and the assembler return the same. Neither serves the request, or both do and the header left the
   * frames alone. Only a header longer than the reserve needs a peer to tell the two packets apart.
   */
  lemma BuilderAgreesExactly(r: AppRequest, capacity: nat, rx: Protector)
    requires Admitted(r) && RESERVE < HeaderSize(r) ==> Paired(r.protector.value, rx)
    ensures Built(r, capacity) == AssembleApplication(r) <==>
            || (!BuilderServes(r, capacity) && !AssemblerServes(r))
            || (BuilderServes(r, capacity) && AssemblerServes(r) && BuilderText(r) == Codec.Payload(r.frames))
  {
    hide SealShort, Sendable, BuilderText, Codec.Payload, Codec.AllEncodable;
    if Admitted(r) && Codec.AllEncodable(r.frames) {
      var p, text := r.protector.value, Codec.Payload(r.frames);
      SealedExactly(r, BuilderText(r));
      SealedExactly(r, text);
      SealedMeans(r);
      if HeaderSize(r) <= RESERVE {
        ShortHeadersOverwriteNothing(r);
      } else if SealShort(r, p, text).Some? && SealShort(r, p, text) == SealShort(r, p, BuilderText(r)) {
        SealingIsInjective(r, rx, text, BuilderText(r));
      }
    }
  }

  lemma SealedMeans(r: AppRequest)
    requires Admitted(r) && Codec.AllEncodable(r.frames)
    ensures Sendable(r, BuilderText(r)) ==> Sealed(r, BuilderText(r)).Some?
  {
  }

  /** The difference in the flesh: any request the builder serves, renumbered out of range. */
  lemma BuilderTruncatesNumbers(dcid: seq<byte>, low: nat, p: Protector)
    requires |dcid| <= 27 && low <= MAX_NUMBER && p.level.ApplicationLevel? && p.ready && !p.headerProtection
    requires forall n, aad, text :: p.protect(n, aad, text) == Some(text)
    ensures var r := AppRequest(dcid, Number(AppSpace, low + MAX_NUMBER + 1), [Ping], Some(p), 6 + |dcid|);
            AssembleApplication(r).None? && Built(r, 6 + |dcid|) == Some(ShortPrefix(dcid, low) + [1])
  {
    hide BigEndian;
    var r := AppRequest(dcid, Number(AppSpace, low + MAX_NUMBER + 1), [Ping], Some(p), 6 + |dcid|);
    SameLowBytes(low);
    ShortHeadersOverwriteNothing(r);
    PingIsOneByte();
  }

  lemma SameLowBytes(low: nat)
    requires low <= MAX_NUMBER
    ensures BigEndian(low + MAX_NUMBER + 1, 4) == BigEndian(low, 4)
  {
    hide BigEndian, FromBytes;
    var high := low + MAX_NUMBER + 1;
    FromTruncated(low, 4);
    FromTruncated(high, 4);
    assert Pow256(2) == 0x1_0000;
    assert Pow256(4) == MAX_NUMBER + 1;
    assert low % (MAX_NUMBER + 1) == high % (MAX_NUMBER + 1);
    ToBigEndian(BigEndian(low, 4));
    ToBigEndian(BigEndian(high, 4));
  }

  lemma FourOctets(v: nat)
    ensures BigEndian(v, 4) == [V.Octet(v, 3), V.Octet(v, 2), V.Octet(v, 1), V.Octet(v, 0)]
  {
    BigEndianAt(v, 4, 0);
    BigEndianAt(v, 4, 1);
    BigEndianAt(v, 4, 2);
    BigEndianAt(v, 4, 3);
  }

  // ---------------------------------------------------------------- how far the builder writes

  /** The bytes of the frames before the first that cannot be printed. */
  function Written(frames: seq<Frame>): nat {
    if frames == [] || !Codec.Encodable(frames[0]) then 0 else |Codec.Encoding(frames[0])| + Written(frames[1..])
  }

  lemma {:induction false} WrittenCovers(frames: seq<Frame>, k: nat)
    requires k <= |frames| && Codec.AllEncodable(frames[..k])
    ensures |Codec.Payload(frames[..k])| <= Written(frames)
    ensures k == |frames| || !Codec.Encodable(frames[k]) ==> |Codec.Payload(frames[..k])| == Written(frames)
    decreases k
  {
    hide Codec.Encoding, Codec.Encodable;
    if k != 0 {
      assert frames[..k][0] == frames[0] && frames[..k][1..] == frames[1..][..k - 1];
      WrittenCovers(frames[1..], k - 1);
    }
  }

  lemma {:induction false} FirstFailure(frames: seq<Frame>) returns (k: nat)
    ensures k <= |frames| && Codec.AllEncodable(frames[..k]) && (k == |frames| || !Codec.Encodable(frames[k]))
    decreases frames
  {
    hide Codec.Encodable;
    if frames == [] || !Codec.Encodable(frames[0]) {
      k := 0;
    } else {
      var n := FirstFailure(frames[1..]);
      k := n + 1;
      assert forall i | 0 < i < k :: frames[..k][i] == frames[1..][..n][i - 1];
    }
  }

  /** The end of a write; writing nothing goes nowhere. */
  function End(at: nat, size: nat): nat {
    if size == 0 then 0 else at + size
  }

  /** How far frames and header go. */
  function Reach(r: AppRequest): nat {
    if !Admitted(r) then 0
    else if !Codec.AllEncodable(r.frames) then End(RESERVE, Written(r.frames))
    else Max(End(RESERVE, Written(r.frames)), HeaderSize(r) + Written(r.frames))
  }

  /** How far all writes go: the protector copies its result into the buffer before the builder looks at its size. */
  function Touched(r: AppRequest): nat {
    if Admitted(r) && Codec.AllEncodable(r.frames) && Sealed(r, BuilderText(r)).Some?
    then Max(Reach(r), HeaderSize(r) + |Sealed(r, BuilderText(r)).value|) else Reach(r)
  }

  /** Everything that is printed fits behind the reserve, and plain and sealed behind the header if it gets that far. */
  ghost predicate Fits(r: AppRequest, capacity: nat)
    requires Admitted(r)
  {
    && (forall k: nat | k <= |r.frames| && Codec.AllEncodable(r.frames[..k]) ::
          End(RESERVE, |Codec.Payload(r.frames[..k])|) <= capacity)
    && (Codec.AllEncodable(r.frames) ==> HeaderSize(r) + |Codec.Payload(r.frames)| <= capacity)
    && (Codec.AllEncodable(r.frames) && Sealed(r, BuilderText(r)).Some? ==>
          HeaderSize(r) + |Sealed(r, BuilderText(r)).value| <= capacity)
  }

  /** The builder stays inside its buffer exactly when header, frames and sealed payload fit. */
  lemma StaysInsideExactly(r: AppRequest, capacity: nat)
    requires Admitted(r)
    ensures Touched(r) <= capacity <==> Fits(r, capacity)
  {
    hide Codec.Payload, Codec.Encodable, Written, BuilderText;
    var first := FirstFailure(r.frames);
    WrittenCovers(r.frames, first);
    forall k: nat | k <= |r.frames| && Codec.AllEncodable(r.frames[..k])
      ensures |Codec.Payload(r.frames[..k])| <= Written(r.frames)
    {
      WrittenCovers(r.frames, k);
    }
    if Codec.AllEncodable(r.frames) {
      assert r.frames[..|r.frames|] == r.frames;
      WrittenCovers(r.frames, |r.frames|);
    }
  }

  /**
   * A packet that fills the buffer exactly, behind a connection ID of at most ten bytes and under a tag of sixteen: it
   * is returned, although the frames behind the reserve went past the end.
   */
  lemma FullPacketGoesPastTheEnd(dcid: seq<byte>, number: nat, p: Protector, capacity: nat)
    requires |dcid| <= 10 && 5 + |dcid| + 16 < capacity && p.level.ApplicationLevel? && p.ready && !p.headerProtection
    requires forall n, aad, text :: p.protect(n, aad, text) == Some(text + Zeros(16))
    ensures var size := capacity - 16 - 5 - |dcid|;
            var r := AppRequest(dcid, Number(AppSpace, number), [Padding(size)], Some(p), capacity);
            && Built(r, capacity) == Some(ShortPrefix(dcid, number) + (Zeros(size) + Zeros(16)))
            && Touched(r) == capacity + (11 - |dcid|)
  {
    hide BigEndian;
    var size := capacity - 16 - 5 - |dcid|;
    var r := AppRequest(dcid, Number(AppSpace, number), [Padding(size)], Some(p), capacity);
    ShortHeadersOverwriteNothing(r);
    assert r.frames[1..] == [];
    assert Codec.Payload(r.frames) == Zeros(size) && Written(r.frames) == size;
  }

  // ---------------------------------------------------------------- the builder

  /**
   * The builder's buffer is the first `capacity` bytes of the memory; the rest stands for what lies behind it, since
   * its copies are not checked. `high` is where the furthest write of a call ended.
   */
  class Builder {
    const memory: array<byte>
    const capacity: nat
    var writePos: nat
    ghost var high: nat

    constructor (capacity: nat, behind: nat)
      ensures this.capacity == capacity && memory.Length == capacity + behind && fresh(memory)
    {
      this.capacity := capacity;
      memory := new byte[capacity + behind](_ => 0);
      writePos := 0;
      high := 0;
    }

    /** `std::memcpy` into the buffer. */
    method CopyIn(at: nat, data: seq<byte>)
      requires at + |data| <= memory.Length
      modifies this`high, memory
      ensures memory[..] == old(memory[..at]) + data + old(memory[at + |data|..])
      ensures high == Max(old(high), End(at, |data|))
    {
      high := Max(high, End(at, |data|));
      for i := 0 to |data|
        invariant high == Max(old(high), End(at, |data|))
        invariant forall k | 0 <= k < memory.Length ::
            memory[k] == if at <= k < at + i then data[k - at] else old(memory[k])
      {
        memory[at + i] := data[i];
      }
    }

    method WriteSpan(data: seq<byte>)
      requires writePos + |data| <= memory.Length
      modifies this`writePos, this`high, memory
      ensures writePos == old(writePos) + |data|
      ensures memory[..] == old(memory[..writePos]) + data + old(memory[writePos + |data|..])
      ensures high == Max(old(high), End(old(writePos), |data|))
    {
      CopyIn(writePos, data);
      writePos := writePos + |data|;
    }

    /** Writes the frames behind the reserve; fails at the first that cannot be printed. */
    method WriteFrames(frames: seq<Frame>) returns (ok: bool)
      requires writePos == RESERVE && high == 0 && RESERVE + Written(frames) <= memory.Length
      modifies this`writePos, this`high, memory
      ensures ok <==> Codec.AllEncodable(frames)
      ensures writePos == RESERVE + Written(frames) && high == End(RESERVE, Written(frames))
      ensures ok ==> memory[RESERVE..writePos] == Codec.Payload(frames)
      ensures memory[..RESERVE] == old(memory[..RESERVE]) && memory[writePos..] == old(memory[..])[writePos..]
    {
      hide Codec.Encoding, Codec.Encodable, Written;
      assert frames[..0] == [] && memory[RESERVE..RESERVE] == [];
      for i := 0 to |frames|
        invariant Codec.AllEncodable(frames[..i])
        invariant RESERVE <= writePos <= memory.Length && memory[RESERVE..writePos] == Codec.Payload(frames[..i])
        invariant high == End(RESERVE, |Codec.Payload(frames[..i])|)
        invariant memory[..RESERVE] == old(memory[..RESERVE]) && memory[writePos..] == old(memory[..])[writePos..]
      {
        var encoded := Codec.EncodeResult(frames[i]);
        if encoded.None? {
          WrittenCovers(frames, i);
          return false;
        }
        Codec.PayloadStep(frames, i);
        WrittenCovers(frames, i + 1);
        ghost var before, at := memory[..], writePos;
        WriteSpan(encoded.value);
        Behind(before, at, encoded.value, memory[..]);
      }
      assert frames[..|frames|] == frames;
      WrittenCovers(frames, |frames|);
      return true;
    }

    /** The short header at the front of the buffer. */
    method WriteHeader(dcid: seq<byte>, number: nat) returns (size: nat)
      requires 1 + |dcid| + PN_LENGTH <= memory.Length
      modifies this`high, memory
      ensures size == 1 + |dcid| + PN_LENGTH && high == Max(old(high), size)
      ensures memory[..] == ShortPrefix(dcid, number) + old(memory[size..])
    {
      hide BigEndian;
      ghost var start := memory[..];
      memory[0] := 0x43;
      ghost var flagged := memory[..];
      CopyIn(1, dcid);
      ghost var named := memory[..];
      WriteNumber(1 + |dcid|, number);
      size := 1 + |dcid| + 4;
      HeaderPieces(start, flagged, named, dcid, BigEndian(number, 4), memory[..]);
    }

    /** The packet number, its most significant octet first. */
    method WriteNumber(at: nat, number: nat)
      requires at + 4 <= memory.Length
      modifies this`high, memory
      ensures memory[..] == old(memory[..at]) + BigEndian(number, 4) + old(memory[at + 4..])
      ensures high == Max(old(high), at + 4)
    {
      hide BigEndian;
      FourOctets(number);
      memory[at] := V.Octet(number, 3);
      memory[at + 1] := V.Octet(number, 2);
      memory[at + 2] := V.Octet(number, 1);
      memory[at + 3] := V.Octet(number, 0);
      high := Max(high, at + 4);
    }

    /** `std::memmove` of the frames from behind the reserve to behind the header. */
    method MoveFrames(size: nat, n: nat)
      requires RESERVE + n <= memory.Length && size + n <= memory.Length && End(RESERVE, n) <= high
      modifies this`high, memory
      ensures memory[..] == old(memory[..size]) + old(memory[RESERVE..RESERVE + n]) + old(memory[size + n..])
      ensures high == Max(old(high), End(size, n))
    {
      if size != RESERVE {
        CopyIn(size, memory[RESERVE..RESERVE + n]);
      }
    }

    /** Frames, header and move: the plaintext packet at the front of the buffer. */
    method LayOut(r: AppRequest) returns (ok: bool, size: nat, n: nat)
      requires Admitted(r) && RESERVE + Reach(r) <= memory.Length
      modifies this`writePos, this`high, memory
      ensures ok <==> Codec.AllEncodable(r.frames)
      ensures high == Reach(r) && memory[high..] == old(memory[..])[high..]
      ensures ok ==> size == HeaderSize(r) <= size + n <= high
                     && memory[..size] == ShortPrefix(r.dcid, r.number.value)
                     && memory[size..size + n] == BuilderText(r)
    {
      hide Codec.Payload, Codec.AllEncodable, ShortPrefix, Written, Overlaid;
      ghost var start := memory[..];
      writePos, high := RESERVE, 0;
      size, n := 0, 0;
      ok := WriteFrames(r.frames);
      if !ok {
        Unprinted(start, memory[..], writePos, high);
        return;
      }
      n := writePos - RESERVE;
      ghost var framed := memory[..];
      size := WriteHeader(r.dcid, r.number.value);
      ghost var headed := memory[..];
      MoveFrames(size, n);
      PrefixLength(r);
      LaidOut(start, framed, headed, memory[..], ShortPrefix(r.dcid, r.number.value), n);
    }

    /** `protect_in_place` as protectors inherit it: the result is copied over the plaintext. */
    method ProtectInPlace(p: Protector, number: Number, size: nat, n: nat) returns (sealed: Option<seq<byte>>)
      requires size + n <= memory.Length
      requires var s := p.protect(number, memory[..size], memory[size..size + n]);
               s.Some? ==> size + |s.value| <= memory.Length
      modifies this`high, memory
      ensures sealed == p.protect(number, old(memory[..size]), old(memory[size..size + n]))
      ensures memory[..] == if sealed.None? then old(memory[..])
                            else old(memory[..size]) + sealed.value + old(memory[..])[size + |sealed.value|..]
      ensures high == if sealed.None? then old(high) else Max(old(high), End(size, |sealed.value|))
    {
      sealed := p.protect(number, memory[..size], memory[size..size + n]);
      if sealed.Some? {
        CopyIn(size, sealed.value);
      }
    }

    /**
     * Builds a 1-RTT packet in the buffer, whatever earlier packets left there, and writes no further than `Touched`.
     */
    method BuildApplicationPacket(r: AppRequest) returns (d: Option<seq<byte>>)
      requires capacity <= memory.Length && RESERVE + Touched(r) <= memory.Length
      modifies this`writePos, this`high, memory
      ensures d == Built(r, capacity)
      ensures high == Touched(r) && memory[high..] == old(memory[..])[high..]
    {
      hide Codec.AllEncodable, BuilderText, ShortPrefix, Finished, Reach, SealShort;
      high := 0;
      if !Admitted(r) {
        NothingReached(r);
        return None;
      }
      var ok, size, n := LayOut(r);
      if !ok {
        return None;
      }
      BuiltIsFinished(r, capacity);
      ghost var laid := memory[..];
      var sealed := ProtectInPlace(r.protector.value, r.number, size, n);
      if sealed.None? {
        return None;
      }
      Pieces(laid[..size], sealed.value, laid[size + |sealed.value|..]);
      d := Finish(r, size, sealed.value);
    }

    /**
     * Refuses a packet larger than the buffer; otherwise copies the payload once more, masks the header in place and
     * copies the datagram out.
     */
    method Finish(r: AppRequest, size: nat, sealed: seq<byte>) returns (d: Option<seq<byte>>)
      requires Admitted(r) && size == HeaderSize(r) <= size + |sealed| <= high <= memory.Length
      requires capacity <= memory.Length
      modifies this`high, memory
      ensures d == Finished(r, old(memory[..size]), sealed, capacity)
      ensures high == old(high) && memory[high..] == old(memory[..])[high..]
    {
      hide Apply;
      var p, total := r.protector.value, size + |sealed|;
      if capacity < total {
        return None;
      }
      ghost var start := memory[..];
      CopyIn(size, sealed);
      Pieces(start[..size], sealed, start[total..]);
      assert memory[..][..total] == start[..size] + sealed;
      TailStays(start, memory[..], total, high);
      if p.headerProtection {
        var ok := ApplyInPlace(memory, total, 1 + |r.dcid|, p.mask, 32);
        TailStays(start, memory[..], total, high);
        if !ok {
          return None;
        }
      }
      if r.maxDatagram < total {
        return None;
      }
      return Some(memory[..total]);
    }
  }

  lemma TailStays(before: seq<byte>, after: seq<byte>, from: nat, high: nat)
    requires |before| == |after| && from <= high <= |before| && after[from..] == before[from..]
    ensures after[high..] == before[high..]
  {
    assert after[high..] == after[from..][high - from..] && before[high..] == before[from..][high - from..];
  }

  /** The checks and the mask behind the AEAD. */
  function Finished(r: AppRequest, prefix: seq<byte>, sealed: seq<byte>, capacity: nat): Option<seq<byte>>
    requires Admitted(r)
  {
    var p, plain := r.protector.value, prefix + sealed;
    var masked := if p.headerProtection then Apply(plain, 1 + |r.dcid|, p.mask, 32) else Some(plain);
    if capacity < |plain| || masked.None? || r.maxDatagram < |masked.value| then None else masked
  }

  lemma BuiltIsFinished(r: AppRequest, capacity: nat)
    requires Admitted(r) && Codec.AllEncodable(r.frames)
    ensures var sealed := Sealed(r, BuilderText(r));
            Built(r, capacity) ==
            if sealed.None? then None else Finished(r, ShortPrefix(r.dcid, r.number.value), sealed.value, capacity)
  {
    hide BuilderText, Apply, BigEndian, Codec.AllEncodable;
  }

  lemma NothingReached(r: AppRequest)
    requires !Admitted(r)
    ensures Reach(r) == 0
  {
  }

  /** Appending behind what was written since the reserve. */
  lemma Behind(before: seq<byte>, at: nat, data: seq<byte>, after: seq<byte>)
    requires RESERVE <= at && at + |data| <= |before| && after == before[..at] + data + before[at + |data|..]
    ensures after[RESERVE..at + |data|] == before[RESERVE..at] + data
    ensures after[..RESERVE] == before[..RESERVE] && after[at + |data|..] == before[at..][|data|..]
  {
  }

  lemma Unprinted(start: seq<byte>, after: seq<byte>, end: nat, high: nat)
    requires |after| == |start| && RESERVE <= end <= |start| && high == End(RESERVE, end - RESERVE)
    requires after[..RESERVE] == start[..RESERVE] && after[end..] == start[end..]
    ensures after[high..] == start[high..]
  {
    if end == RESERVE {
      assert start == start[..RESERVE] + start[RESERVE..] && after == after[..RESERVE] + after[RESERVE..];
    }
  }

  lemma HeaderPieces(
    start: seq<byte>, flagged: seq<byte>, named: seq<byte>, dcid: seq<byte>, number: seq<byte>, after: seq<byte>)
    requires 1 + |dcid| + |number| <= |start| && flagged == start[0 := 0x43]
    requires named == flagged[..1] + dcid + flagged[1 + |dcid|..]
    requires after == named[..1 + |dcid|] + number + named[1 + |dcid| + |number|..]
    ensures after == [0x43] + dcid + number + start[1 + |dcid| + |number|..]
  {
    assert named[..1 + |dcid|] == [0x43] + dcid;
    assert named[1 + |dcid| + |number|..] == start[1 + |dcid| + |number|..];
  }

  lemma PrefixLength(r: AppRequest)
    ensures |ShortPrefix(r.dcid, r.number.value)| == HeaderSize(r)
  {
  }

  /** Frames behind the reserve, the header over the front, the frames moved up to it. */
  lemma LaidOut(start: seq<byte>, framed: seq<byte>, headed: seq<byte>, moved: seq<byte>, prefix: seq<byte>, n: nat)
    requires |framed| == |start| && RESERVE + n <= |start| && |prefix| + n <= |start|
    requires framed[..RESERVE] == start[..RESERVE] && framed[RESERVE + n..] == start[RESERVE + n..]
    requires headed == prefix + framed[|prefix|..]
    requires moved == headed[..|prefix|] + headed[RESERVE..RESERVE + n] + headed[|prefix| + n..]
    ensures moved[..|prefix|] == prefix
    ensures moved[|prefix|..|prefix| + n] == Overlaid(prefix, framed[RESERVE..RESERVE + n])
    ensures var high := Max(End(RESERVE, n), |prefix| + n); high <= |moved| == |start| && moved[high..] == start[high..]
  {
    hide Overlaid;
    HeaderOver(framed, prefix, n, headed);
    Pieces(headed[..|prefix|], headed[RESERVE..RESERVE + n], headed[|prefix| + n..]);
    var high := Max(End(RESERVE, n), |prefix| + n);
    assert moved[high..] == framed[high..];
    Unprinted(start, framed, RESERVE + n, End(RESERVE, n));
    assert start[high..] == start[End(RESERVE, n)..][high - End(RESERVE, n)..];
    assert framed[high..] == framed[End(RESERVE, n)..][high - End(RESERVE, n)..];
  }

  /** Writing the header over the front leaves the overlaid frames behind the reserve. */
  lemma HeaderOver(before: seq<byte>, prefix: seq<byte>, n: nat, after: seq<byte>)
    requires RESERVE + n <= |before| && |prefix| <= |before| && after == prefix + before[|prefix|..]
    ensures after[RESERVE..RESERVE + n] == Overlaid(prefix, before[RESERVE..RESERVE + n])
  {
  }

  /** Three pieces, taken apart again. */
  lemma Pieces(a: seq<byte>, b: seq<byte>, c: seq<byte>)
    ensures (a + b + c)[..|a|] == a && (a + b + c)[|a|..|a| + |b|] == b && (a + b + c)[|a| + |b|..] == c
  {
  }
}
