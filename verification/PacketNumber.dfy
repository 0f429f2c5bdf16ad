/** Packet-number truncation and recovery (packet_header.hpp; section 17.1 and appendix A of RFC 9000). */
module PacketNumber {
  import Arithmetic
  import opened Bytes
  import opened Common

  const TWO_31: nat := 0x8000_0000
  const TWO_63: nat := 0x8000_0000_0000_0000

  /** `1 << (length * 8)`. */
  function Window(length: nat): (w: nat)
    requires 1 <= length <= 4
    ensures 0 < w <= 0x1_0000_0000
  {
    if length == 1 then 0x100 else if length == 2 then 0x1_0000 else if length == 3 then 0x100_0000 else 0x1_0000_0000
  }

  /** The value as an unsigned 64-bit machine word. */
  function Wrap(x: nat): u64 {
    x % 0x1_0000_0000_0000_0000
  }

  // ---------------------------------------------------------------- choosing a length

  /** The first length whose window exceeds the doubled gap as the machine computes it. */
  function FirstLength(doubled: nat, from: nat): (r: Option<nat>)
    requires 1 <= from <= 5
    ensures r.Some? ==> from <= r.value <= 4 && doubled < Window(r.value)
    ensures r.Some? ==> forall k | from <= k < r.value :: Window(k) <= doubled
    ensures r.None? ==> forall k | from <= k <= 4 :: Window(k) <= doubled
    decreases 5 - from
  {
    if from == 5 then None else if doubled < Window(from) then Some(from) else FirstLength(doubled, from + 1)
  }

  method SelectLength(number: u64, acked: u64) returns (r: Option<nat>)
    ensures r == if number <= acked then None else FirstLength(Wrap(2 * (number - acked)), 1)
  {
    if number <= acked {
      return None;
    }
    var gap := number - acked;
    for length := 1 to 5
      invariant FirstLength(Wrap(2 * gap), 1) == FirstLength(Wrap(2 * gap), length)
    {
      if Wrap(2 * gap) < Window(length) {
        return Some(length);
      }
    }
    return None;
  }

  /**
   * The selected length is the shortest with a window above twice the gap, for every gap except those whose
   * doubling wraps to something small: exactly the gaps from 2^63 up to 2^63 + 2^31.
   */
  lemma SelectionIsShortestExactly(gap: u64)
    requires 0 < gap
    ensures FirstLength(Wrap(2 * gap), 1) == FirstLength(2 * gap, 1) <==> !(TWO_63 <= gap < TWO_63 + TWO_31)
  {
    if TWO_63 <= gap {
      assert Wrap(2 * gap) == 2 * gap - 2 * TWO_63;
      assert FirstLength(2 * gap, 1).None?;
      if gap < TWO_63 + TWO_31 {
        assert Wrap(2 * gap) < Window(4);
      }
    } else {
      assert Wrap(2 * gap) == 2 * gap;
    }
  }

  /** The wrapped doubling in the flesh: a gap of 2^63 is given a one-byte number. */
  lemma WrappedGapIsAccepted()
    ensures FirstLength(Wrap(2 * TWO_63), 1) == Some(1) && FirstLength(2 * TWO_63, 1) == None
  {
    SelectionIsShortestExactly(TWO_63);
  }

  // ---------------------------------------------------------------- recovering the number

  function Decode(truncated: nat, length: nat, largestReceived: nat): Option<nat> {
    if length < 1 || 4 < length then None else
      var window := Window(length);
      if window <= truncated then None else
        var expected := Wrap(largestReceived + 1);
        var half := window / 2;
        var candidate := expected - expected % window + truncated;
        if Wrap(candidate + half) <= expected && candidate < MAX_VARINT - window then
          Some(candidate + window)
        else if Wrap(expected + half) < candidate && window <= candidate then
          Some(candidate - window)
        else
          Some(candidate)
  }

  /** Closer than half a window to the expected number, on either side. */
  predicate Near(number: nat, expected: nat, half: nat) {
    expected < number + half && number <= expected + half
  }

  /** The numbers the decoder gives back: those near the expected one, and three corners of the number range. */
  predicate Recoverable(number: nat, expected: nat, window: nat)
    requires 0 < window
  {
    RecoverableIn(number, expected, window, number / window - expected / window)
  }

  predicate RecoverableIn(number: nat, expected: nat, window: nat, blocksAbove: int) {
    var half := window / 2;
    || (Near(number, expected, half) && (number == MAX_VARINT ==> blocksAbove <= 0))
    || (number + half <= expected && blocksAbove == 0 && MAX_VARINT - window <= number)
    || (expected + half < number && blocksAbove == 0 && number < window)
  }

  /** The choice the decoder makes once nothing wraps. */
  function Choose(candidate: nat, expected: nat, window: nat): int {
    if candidate + window / 2 <= expected && candidate < MAX_VARINT - window then candidate + window
    else if expected + window / 2 < candidate && window <= candidate then candidate - window
    else candidate
  }

  lemma SmallIsNotWrapped(x: nat)
    requires x < 0x1_0000_0000_0000_0000
    ensures Wrap(x) == x
  {
  }

  lemma DecodeChooses(truncated: nat, length: nat, expected: nat)
    requires 1 <= length <= 4 && truncated < Window(length) && 1 <= expected <= MAX_VARINT + 1
    ensures Decode(truncated, length, expected - 1)
         == Some(Choose(expected - expected % Window(length) + truncated, expected, Window(length)))
  {
    var window := Window(length);
    var candidate := expected - expected % window + truncated;
    SmallIsNotWrapped(expected);
    SmallIsNotWrapped(candidate + window / 2);
    SmallIsNotWrapped(expected + window / 2);
    hide Wrap;
  }

  /** `number` lies `shift` above the candidate, a multiple of the window. */
  lemma ChooseIsExact(number: nat, candidate: nat, expected: nat, half: nat, shift: int)
    requires 0 < half && number == candidate + shift && number <= MAX_VARINT
    requires candidate < expected + 2 * half && expected < candidate + 2 * half
    requires shift == 0 || shift == 2 * half || shift == -2 * half || 4 * half <= shift || shift <= -4 * half
    ensures Choose(candidate, expected, 2 * half) == number <==> RecoverableIn(number, expected, 2 * half, shift)
  {
    assert 2 * half / 2 == half;
  }

  lemma Multiples(window: nat, k: int)
    requires 0 < window
    ensures window * k == 0 <==> k == 0
    ensures window * k <= 0 <==> k <= 0
    ensures
      || window * k == 0 || window * k == window || window * k == -1 * window
      || 2 * window <= window * k || window * k <= -2 * window
  {
    Arithmetic.MultipleIsFar(window, k - 1);
    Arithmetic.MultipleIsFar(window, k + 1);
    assert window * (k - 1) == window * k - window;
    assert window * (k + 1) == window * k + window;
    assert k == 0 || k == 1 || k == -1 || 2 <= k || k <= -2;
  }

  lemma Distribute(window: nat, p: nat, q: nat)
    ensures window * (p - q) == window * p - window * q
  {
  }

  lemma OnlySignMatters(number: nat, expected: nat, window: nat, a: int, b: int)
    requires (a == 0 <==> b == 0) && (a <= 0 <==> b <= 0)
    ensures RecoverableIn(number, expected, window, a) <==> RecoverableIn(number, expected, window, b)
  {
  }

  /** The same with the two products named, so that only sums remain. */
  lemma ChooseShifted(number: nat, expected: nat, window: nat, top: nat, base: nat, blocks: int, r: nat, s: nat)
    requires 0 < window == 2 * (window / 2) && number <= MAX_VARINT
    requires number == top + r && expected == base + s && r < window && s < window
    requires var shift := top - base;
             && (shift == 0 <==> blocks == 0) && (shift <= 0 <==> blocks <= 0)
             && (shift == 0 || shift == window || shift == -1 * window || 2 * window <= shift || shift <= -2 * window)
    ensures Choose(expected - s + r, expected, window) == number <==> RecoverableIn(number, expected, window, blocks)
  {
    hide RecoverableIn, Choose;
    OnlySignMatters(number, expected, window, top - base, blocks);
    ChooseIsExact(number, expected - s + r, expected, window / 2, top - base);
  }

  lemma ChooseInBlocks(number: nat, expected: nat, window: nat, p: nat, q: nat, r: nat, s: nat)
    requires 0 < window == 2 * (window / 2) && number <= MAX_VARINT
    requires number == window * p + r && expected == window * q + s && r < window && s < window
    ensures Choose(expected - s + r, expected, window) == number <==> RecoverableIn(number, expected, window, p - q)
  {
    hide RecoverableIn, Choose;
    Distribute(window, p, q);
    Multiples(window, p - q);
    ChooseShifted(number, expected, window, window * p, window * q, p - q, r, s);
  }

  /** The decoder returns the original number if and only if it is recoverable. */
  lemma DecodeIsExact(number: nat, length: nat, largestReceived: nat)
    requires number <= MAX_VARINT && largestReceived <= MAX_VARINT && 1 <= length <= 4
    ensures Decode(number % Window(length), length, largestReceived) == Some(number)
            <==> Recoverable(number, largestReceived + 1, Window(length))
  {
    var window, expected := Window(length), largestReceived + 1;
    DecodeChooses(number % window, length, expected);
    hide Decode, Choose, RecoverableIn;
    assert window == 2 * (window / 2);
    ChooseInBlocks(number, expected, window, number / window, expected / window, number % window, expected % window);
  }

  /**
   * Packet-number recovery: a number whose length was chosen against an acknowledgement the receiver has seen,
   * and that is less than half a window behind what the receiver expects, survives truncation.
   */
  lemma TruncationIsRecovered(number: u64, acked: u64, largestReceived: u64)
    requires acked < number < MAX_VARINT && acked <= largestReceived <= MAX_VARINT
    requires var length := FirstLength(Wrap(2 * (number - acked)), 1);
             length.Some? && largestReceived + 1 < number + Window(length.value) / 2
    ensures var length := FirstLength(Wrap(2 * (number - acked)), 1).value;
            && FromBytes(BigEndian(number, length)) < Window(length)
            && Decode(FromBytes(BigEndian(number, length)), length, largestReceived) == Some(number)
  {
    var gap := number - acked;
    var length := FirstLength(Wrap(2 * gap), 1).value;
    SmallIsNotWrapped(2 * gap);
    FromTruncated(number, length);
    WindowIsPower(length);
    DecodeIsExact(number, length, largestReceived);
  }

  lemma WindowIsPower(length: nat)
    requires 1 <= length <= 4
    ensures Pow256(length) == Window(length)
  {
    assert Pow256(1) == 0x100;
    assert Pow256(2) == 0x1_0000;
    assert Pow256(3) == 0x100_0000;
    assert Pow256(4) == 0x1_0000_0000;
  }

  // ---------------------------------------------------------------- the bytes

  method EncodePacketNumber(number: u64, length: nat, output: array<byte>) returns (written: Option<nat>)
    modifies output
    ensures written.Some? <==> 1 <= length <= 4 && length <= output.Length
    ensures written.Some? ==> written.value == length
    ensures written.Some? ==> output[..] == BigEndian(number, length) + old(output[length..])
    ensures written.None? ==> output[..] == old(output[..])
  {
    if length < 1 || 4 < length || output.Length < length {
      return None;
    }
    hide BigEndian;
    for index := 0 to length
      invariant forall k | 0 <= k < output.Length ::
          output[k] == if k < index then BigEndian(number, length)[k] else old(output[k])
    {
      BigEndianAt(number, length, index);
      output[index] := number / Pow256(length - 1 - index) % 256;
    }
    return Some(length);
  }

  method ReadTruncated(input: seq<byte>, offset: nat, length: nat) returns (r: Option<nat>)
    requires offset <= |input|
    ensures r.Some? <==> 1 <= length <= 4 && length <= |input| - offset
    ensures r.Some? ==> r.value == FromBytes(input[offset..offset + length])
  {
    if length < 1 || 4 < length || |input| - offset < length {
      return None;
    }
    var value: nat := 0;
    assert input[offset..offset] == [];
    for index := 0 to length
      invariant value == FromBytes(input[offset..offset + index])
    {
      var s := input[offset..offset + index + 1];
      assert s[..|s| - 1] == input[offset..offset + index];
      value := value * 256 + input[offset + index];
    }
    return Some(value);
  }

  /** `decode_packet_number`, with its 64-bit additions. */
  method DecodePacketNumber(truncated: u64, length: nat, largestReceived: u64) returns (r: Option<nat>)
    ensures r == Decode(truncated, length, largestReceived)
  {
    hide Wrap, Window;
    if length < 1 || 4 < length {
      return None;
    }
    var window := Window(length);
    if window <= truncated {
      return None;
    }
    var expected := Wrap(largestReceived + 1);
    var half := window / 2;
    var candidate: nat := expected - expected % window + truncated;
    if Wrap(candidate + half) <= expected && candidate < MAX_VARINT - window {
      candidate := candidate + window;
    } else if Wrap(expected + half) < candidate && window <= candidate {
      candidate := candidate - window;
    }
    return Some(candidate);
  }
}
