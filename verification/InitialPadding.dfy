/** The loop that pads client Initial packets to 1200 bytes (packet_pipeline.hpp; section 14.1 of RFC 9000). */
module InitialPadding {
  import opened Bytes
  import opened Common
  import V = Varint

  const MINIMUM: nat := 1200

  /** The header size before the Length field for which the target is unreachable by whole bytes of padding. */
  const GAP: nat := 1135

  /** A long packet with `header` bytes before the Length field and `n` bytes after it. */
  function WireLength(header: nat, n: nat): nat
    requires n <= MAX_VARINT
  {
    header + V.EncodedSize(n) + n
  }

  // ---------------------------------------------------------------- one round at a time

  datatype Round = Done(n: nat) | Fail | Go(n: nat, added: nat)

  /** What the loop does with `n` bytes after the Length field, `added` of them padding. */
  function PadRound(header: nat, n: nat, added: nat): Round {
    if MAX_VARINT < n then Fail else
      var size := WireLength(header, n);
      if size == MINIMUM then Done(n)
      else if MINIMUM < size then
        (if added < size - MINIMUM || n < size - MINIMUM then Fail
         else Go(n - (size - MINIMUM), added - (size - MINIMUM)))
      else Go(n + (MINIMUM - size), added + (MINIMUM - size))
  }

  function Rounds(header: nat, n: nat, added: nat, k: nat): Round
    decreases k
  {
    if k == 0 then Go(n, added) else
      var r := PadRound(header, n, added);
      if r.Go? then Rounds(header, r.n, r.added, k - 1) else r
  }

  /** The one length that makes 1200 bytes. */
  function Target(header: nat): int
    requires header != GAP
  {
    if header < GAP then MINIMUM - 2 - header else MINIMUM - 1 - header
  }

  lemma TargetIsExact(header: nat, n: nat)
    requires n <= MAX_VARINT && header != GAP
    ensures WireLength(header, n) == MINIMUM <==> n == Target(header)
    ensures WireLength(header, n) <= MINIMUM ==> n <= Target(header) <= MAX_VARINT
  {
  }

  /** Where no length makes 1200 bytes: 63 bytes give 1199 and 64 bytes give 1201. */
  lemma NothingFits(n: nat)
    requires n <= MAX_VARINT
    ensures WireLength(GAP, n) != MINIMUM
    ensures WireLength(GAP, n) <= MINIMUM <==> n <= 63
  {
  }

  // ---------------------------------------------------------------- the loop stops, or it does not

  /** From a packet that is short enough, three rounds reach the target unless the header falls in the gap. */
  lemma StopsSoon(header: nat, n: nat)
    requires n <= MAX_VARINT && !(header == GAP && n <= 63)
    ensures Rounds(header, n, 0, 3) == if MINIMUM < WireLength(header, n) then Fail else Done(Target(header))
  {
    if header == GAP {
      NothingFits(n);
    } else {
      TargetIsExact(header, n);
      if WireLength(header, n) <= MINIMUM {
        RoundFrom(header, n);
      }
    }
  }

  lemma RoundFrom(header: nat, n: nat)
    requires n <= MAX_VARINT && header != GAP && WireLength(header, n) <= MINIMUM
    ensures Rounds(header, n, 0, 3) == Done(Target(header))
  {
    var r := PadRound(header, n, 0);
    if r.Go? {
      var q := PadRound(header, r.n, r.added);
      assert Rounds(header, n, 0, 3) == Rounds(header, r.n, r.added, 2);
      if q.Go? {
        assert q.n == Target(header);
        assert Rounds(header, r.n, r.added, 2) == Rounds(header, q.n, q.added, 1);
        assert PadRound(header, q.n, q.added) == Done(q.n);
      }
    }
  }

  /** In the gap the loop swings between 63 and 64 bytes for ever. */
  lemma {:induction false} NeverStops(n: nat, added: nat, k: nat)
    requires n <= 63 || (n == 64 && 1 <= added)
    ensures Rounds(GAP, n, added, k).Go?
    decreases k
  {
    if 0 < k {
      var r := PadRound(GAP, n, added);
      assert r == if n <= 63 then Go(64, added + (64 - n)) else Go(63, added - 1) by {
        NothingFits(n);
      }
      NeverStops(r.n, r.added, k - 1);
    }
  }

  /** A loop that has stopped does nothing in further rounds. */
  lemma {:induction false} RoundsSettle(header: nat, n: nat, added: nat, k: nat, more: nat)
    requires !Rounds(header, n, added, k).Go?
    ensures Rounds(header, n, added, k + more) == Rounds(header, n, added, k)
    decreases k
  {
    if k != 0 {
      var r := PadRound(header, n, added);
      if r.Go? {
        RoundsSettle(header, r.n, r.added, k - 1, more);
      }
    }
  }

  /** Padding is only taken off as far as it was added. */
  lemma {:induction false} RoundsKeepTheFrames(header: nat, n: nat, added: nat, k: nat)
    requires added <= n
    ensures !Rounds(header, n, added, k).Fail? ==> n - added <= Rounds(header, n, added, k).n
    decreases k
  {
    if k != 0 {
      var r := PadRound(header, n, added);
      if r.Go? {
        RoundsKeepTheFrames(header, r.n, r.added, k - 1);
      }
    }
  }

  /** Whenever the loop stops, it does so with the outcome of its first three rounds. */
  lemma StopsOneWay(header: nat, n: nat, k: nat)
    requires !Rounds(header, n, 0, k).Go?
    ensures !(header == GAP && n <= 63)
    ensures Rounds(header, n, 0, k) ==
            if MAX_VARINT < n || MINIMUM < WireLength(header, n) then Fail else Done(Target(header))
  {
    hide Rounds;
    if header == GAP && n <= 63 {
      NeverStops(n, 0, k);
    }
    if MAX_VARINT < n {
      FailsAtOnce(header, n, k);
    } else {
      StopsSoon(header, n);
      if k <= 3 {
        RoundsSettle(header, n, 0, k, 3 - k);
      } else {
        RoundsSettle(header, n, 0, 3, k - 3);
      }
      if WireLength(header, n) <= MINIMUM {
        TargetFits(header, n);
      }
    }
  }

  lemma ThreeRoundsDecide(header: nat, n: nat)
    requires !(header == GAP && n <= 63)
    ensures !Rounds(header, n, 0, 3).Go?
  {
    if n <= MAX_VARINT {
      StopsSoon(header, n);
    }
  }

  lemma FailsAtOnce(header: nat, n: nat, k: nat)
    requires MAX_VARINT < n && !Rounds(header, n, 0, k).Go?
    ensures Rounds(header, n, 0, k) == Fail
  {
  }

  /** The loop ends if and only if it is not started in the gap with at most 63 bytes. */
  lemma PaddingTerminatesExactly(header: nat, n: nat)
    requires n <= MAX_VARINT
    ensures (exists k: nat :: !Rounds(header, n, 0, k).Go?) <==> !(header == GAP && n <= 63)
  {
    if header == GAP && n <= 63 {
      forall k: nat
        ensures Rounds(header, n, 0, k).Go?
      {
        NeverStops(n, 0, k);
      }
    } else {
      StopsSoon(header, n);
      assert !Rounds(header, n, 0, 3).Go?;
    }
  }

  // ---------------------------------------------------------------- implementation

  /** The padded frame bytes: filled up to the target, or nothing if they are too long already. */
  function Padded(frames: seq<byte>, header: nat, extra: nat): Option<seq<byte>>
    requires header != GAP || 63 < extra + |frames|
  {
    var n := extra + |frames|;
    if MAX_VARINT < n || MINIMUM < WireLength(header, n) then None else
      TargetFits(header, n);
      Some(frames + Zeros(Target(header) - n))
  }

  lemma TargetFits(header: nat, n: nat)
    requires n <= MAX_VARINT && WireLength(header, n) <= MINIMUM && !(header == GAP && n <= 63)
    ensures header != GAP && n <= Target(header) <= MAX_VARINT && WireLength(header, Target(header)) == MINIMUM
  {
    if header == GAP {
      NothingFits(n);
    } else {
      TargetIsExact(header, n);
      TargetIsExact(header, Target(header));
    }
  }

  /**
   * The loop, cut off after any number of rounds; `extra` is the packet number and the tag. `Go` means that it would
   * have gone on.
   */
  method PadFor(frames: seq<byte>, header: nat, extra: nat, rounds: nat) returns (r: Round, bytes: seq<byte>)
    ensures r == Rounds(header, extra + |frames|, 0, rounds)
    ensures !r.Fail? ==> |frames| <= |bytes| && bytes == frames + Zeros(|bytes| - |frames|) && extra + |bytes| == r.n
  {
    hide Rounds, PadRound, WireLength, Zeros;
    var added: nat := 0;
    bytes := frames;
    for i := 0 to rounds
      invariant bytes == frames + Zeros(added)
      invariant Rounds(header, extra + |frames|, 0, rounds) == Rounds(header, extra + |bytes|, added, rounds - i)
    {
      var n := extra + |bytes|;
      RoundsStep(header, n, added, rounds - i);
      RoundMeans(header, n, added);
      if MAX_VARINT < n {
        return Fail, [];
      }
      var size := WireLength(header, n);
      if size == MINIMUM {
        return Done(n), bytes;
      }
      var ok;
      ok, bytes, added := Adjust(frames, bytes, added, size);
      if !ok {
        return Fail, [];
      }
    }
    NoRounds(header, extra + |bytes|, added);
    return Go(extra + |bytes|, added), bytes;
  }

  lemma RoundsStep(header: nat, n: nat, added: nat, k: nat)
    requires 0 < k
    ensures var r := PadRound(header, n, added);
            Rounds(header, n, added, k) == if r.Go? then Rounds(header, r.n, r.added, k - 1) else r
  {
  }

  lemma NoRounds(header: nat, n: nat, added: nat)
    ensures Rounds(header, n, added, 0) == Go(n, added)
  {
  }

  lemma RoundMeans(header: nat, n: nat, added: nat)
    requires added <= n
    ensures PadRound(header, n, added) ==
            if MAX_VARINT < n then Fail else
              var size := WireLength(header, n);
              if size == MINIMUM then Done(n)
              else if MINIMUM + added < size then Fail
              else Go(n + MINIMUM - size, added + MINIMUM - size)
  {
  }

  /** Takes padding off an oversized packet, as far as there is any, or adds what is missing. */
  method Adjust(ghost frames: seq<byte>, bytes: seq<byte>, added: nat, size: nat)
    returns (ok: bool, bytes': seq<byte>, added': nat)
    requires bytes == frames + Zeros(added)
    ensures ok <==> size <= MINIMUM + added
    ensures ok ==> added' == added + MINIMUM - size && bytes' == frames + Zeros(added')
  {
    if MINIMUM < size {
      var excess := size - MINIMUM;
      if added < excess {
        return false, bytes, added;
      }
      return true, bytes[..|bytes| - excess], added - excess;
    }
    return true, bytes + Zeros(MINIMUM - size), added + (MINIMUM - size);
  }
}
