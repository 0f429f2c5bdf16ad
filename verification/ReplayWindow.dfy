/** The 0-RTT replay window (zero_rtt.hpp): a ring bitmap that agrees with the plain set of accepted numbers. */
module ReplayWindow {
  import opened Arithmetic

  // ---------------------------------------------------------------- specification

  /** A number is taken when it is new and not a full window or more behind anything taken before. */
  ghost predicate Fresh(window: nat, accepted: set<nat>, n: nat) {
    0 < window && n !in accepted && forall m | m in accepted :: m < n + window
  }

  ghost function Taken(window: nat, accepted: set<nat>, n: nat): set<nat> {
    if Fresh(window, accepted, n) then accepted + {n} else accepted
  }

  /** The numbers accepted out of a sequence of calls. */
  ghost function Accepted(window: nat, calls: seq<nat>): set<nat> {
    if calls == [] then {} else
      Taken(window, Accepted(window, calls[..|calls| - 1]), calls[|calls| - 1])
  }

  ghost predicate Verdict(window: nat, calls: seq<nat>, k: nat)
    requires k < |calls|
  {
    Fresh(window, Accepted(window, calls[..k]), calls[k])
  }

  // ---------------------------------------------------------------- implementation

  /** Two numbers less than a window apart never share a slot. */
  lemma SlotsDiffer(a: nat, b: nat, window: nat)
    requires 0 < window && a < b < a + window
    ensures a % window != b % window
  {
    var q, p := a / window, b / window;
    assert a == window * q + a % window;
    assert b == window * p + b % window;
    MultipleIsFar(window, p - q);
    assert window * (p - q) == window * p - window * q;
  }

  /** Slot by slot, the ring holds membership for the whole window below `largest`. */
  ghost predicate Mirrors(bitmap: seq<bool>, accepted: set<nat>, largest: nat) {
    && 0 < |bitmap|
    && forall n: nat {:trigger n in accepted} | n <= largest < n + |bitmap| :: bitmap[n % |bitmap|] <==> n in accepted
  }

  /** Clears the slots of the numbers in `(previous, n]`; after that the ring mirrors the window below `n`. */
  method ClearPassed(bitmap: seq<bool>, ghost accepted: set<nat>, previous: nat, n: nat) returns (cleared: seq<bool>)
    requires Mirrors(bitmap, accepted, previous) && previous < n < previous + |bitmap|
    requires forall m | m in accepted :: m <= previous
    ensures |cleared| == |bitmap| && Mirrors(cleared, accepted, n)
  {
    var window := |bitmap|;
    cleared := bitmap;
    for offset := 1 to n - previous + 1
      invariant |cleared| == window
      invariant forall m: nat {:trigger m in accepted} | m < previous + offset && n < m + window ::
          cleared[m % window] <==> m in accepted
    {
      var passed := previous + offset;
      forall m: nat | m < passed && n < m + window
        ensures m % window != passed % window
      {
        SlotsDiffer(m, passed, window);
      }
      cleared := cleared[passed % window := false];
    }
  }

  class ReplayProtection {
    const windowSize: nat
    var largestSeen: nat
    var bitmap: seq<bool>
    ghost var accepted: set<nat>

    ghost predicate Valid()
      reads this
    {
      if bitmap == [] then accepted == {} else
        && |bitmap| == windowSize
        && largestSeen in accepted && (forall m | m in accepted :: m <= largestSeen)
        && Mirrors(bitmap, accepted, largestSeen)
    }

    constructor (windowSize: nat)
      ensures Valid() && accepted == {} && this.windowSize == windowSize
    {
      this.windowSize := windowSize;
      largestSeen, bitmap, accepted := 0, [], {};
    }

    method CheckAndRecord(n: nat) returns (ok: bool)
      requires Valid()
      modifies this
      ensures Valid()
      ensures ok <==> Fresh(windowSize, old(accepted), n)
      ensures accepted == Taken(windowSize, old(accepted), n)
    {
      if windowSize == 0 {
        return false;
      }
      if bitmap == [] {
        largestSeen := n;
        bitmap := seq(windowSize, _ => false);
        bitmap := bitmap[n % windowSize := true];
        accepted := {n};
        forall m: nat | m <= n < m + windowSize && m != n
          ensures !bitmap[m % windowSize]
        {
          SlotsDiffer(m, n, windowSize);
        }
        return true;
      }
      if largestSeen < n {
        Advance(n);
        return true;
      }
      if windowSize <= largestSeen - n {
        return false;
      }
      var index := n % windowSize;
      if bitmap[index] {
        assert n in accepted;
        return false;
      }
      assert n !in accepted;
      bitmap := bitmap[index := true];
      RecordInside(old(bitmap), accepted, largestSeen, n);
      accepted := accepted + {n};
      return true;
    }

    /** A number above everything seen: clear the slots the window moves over, then record it. */
    method Advance(n: nat)
      requires Valid() && bitmap != [] && largestSeen < n
      modifies this
      ensures Valid() && bitmap != []
      ensures accepted == old(accepted) + {n}
    {
      if n - largestSeen < windowSize {
        bitmap := ClearPassed(bitmap, accepted, largestSeen, n);
      } else {
        bitmap := seq(windowSize, _ => false);
      }
      largestSeen := n;
      bitmap := bitmap[n % windowSize := true];
      RecordInside(bitmap[n % windowSize := false], accepted, n, n);
      accepted := accepted + {n};
    }

    /** A whole sequence of calls on a fresh window. */
    method CheckAll(calls: seq<nat>) returns (verdicts: seq<bool>)
      requires Valid() && accepted == {}
      modifies this
      ensures Valid() && accepted == Accepted(windowSize, calls)
      ensures |verdicts| == |calls|
      ensures forall k: nat | k < |calls| :: verdicts[k] <==> Verdict(windowSize, calls, k)
    {
      verdicts := [];
      for i := 0 to |calls|
        invariant Valid() && accepted == Accepted(windowSize, calls[..i])
        invariant |verdicts| == i
        invariant forall k: nat | k < i :: verdicts[k] <==> Verdict(windowSize, calls, k)
      {
        var ok := CheckAndRecord(calls[i]);
        assert calls[..i + 1][..i] == calls[..i];
        verdicts := verdicts + [ok];
      }
      assert calls[..|calls|] == calls;
    }
  }

  lemma RecordInside(bitmap: seq<bool>, accepted: set<nat>, largest: nat, n: nat)
    requires Mirrors(bitmap, accepted, largest) && n <= largest < n + |bitmap|
    ensures Mirrors(bitmap[n % |bitmap| := true], accepted + {n}, largest)
  {
    forall m: nat | m <= largest < m + |bitmap| && m != n
      ensures m % |bitmap| != n % |bitmap|
    {
      if m < n {
        SlotsDiffer(m, n, |bitmap|);
      } else {
        SlotsDiffer(n, m, |bitmap|);
      }
    }
  }

  // ---------------------------------------------------------------- over any sequence of calls

  lemma {:induction false} AcceptedMembers(window: nat, calls: seq<nat>, n: nat)
    ensures n in Accepted(window, calls) <==> exists i: nat :: i < |calls| && calls[i] == n && Verdict(window, calls, i)
  {
    if calls != [] {
      var k := |calls| - 1;
      var before := calls[..k];
      AcceptedMembers(window, before, n);
      assert forall i: nat | i < k :: calls[..i] == before[..i] && calls[i] == before[i];
      assert forall i: nat | i < k :: Verdict(window, calls, i) <==> Verdict(window, before, i);
      if n in Accepted(window, before) {
        var i: nat :| i < |before| && before[i] == n && Verdict(window, before, i);
        assert calls[i] == n && Verdict(window, calls, i);
      }
      if n == calls[k] && Fresh(window, Accepted(window, before), n) {
        assert Verdict(window, calls, k);
      }
    }
  }

  /** Every call is at most the largest accepted number, or is accepted itself. */
  lemma {:induction false} CallsAreBelowAccepted(window: nat, calls: seq<nat>, i: nat)
    requires 0 < window && i < |calls|
    ensures exists m :: m in Accepted(window, calls) && calls[i] <= m
  {
    var k := |calls| - 1;
    var before := Accepted(window, calls[..k]);
    if i < k {
      CallsAreBelowAccepted(window, calls[..k], i);
      var m :| m in before && calls[i] <= m;
      assert m in Accepted(window, calls);
    } else if Fresh(window, before, calls[k]) {
      assert calls[k] in Accepted(window, calls);
    } else if calls[k] in before {
      assert calls[k] in Accepted(window, calls);
    } else {
      var m :| m in before && calls[k] + window <= m;
      assert m in Accepted(window, calls);
    }
  }

  /** No number is ever accepted twice. */
  lemma NoReplay(window: nat, calls: seq<nat>, i: nat, j: nat)
    requires i < j < |calls| && calls[i] == calls[j] && Verdict(window, calls, i)
    ensures !Verdict(window, calls, j)
  {
    var before := calls[..j];
    assert before[..i] == calls[..i];
    assert Verdict(window, before, i);
    AcceptedMembers(window, before, calls[j]);
  }

  /**
   * The verdict in plain terms: accepted exactly when no earlier call with the same number was accepted and no
   * earlier call, accepted or not, is a full window or more ahead.
   */
  lemma VerdictInPlainTerms(window: nat, calls: seq<nat>, k: nat)
    requires k < |calls|
    ensures Verdict(window, calls, k) <==>
            && 0 < window
            && (forall i: nat | i < k && calls[i] == calls[k] :: !Verdict(window, calls, i))
            && (forall i: nat | i < k :: calls[i] < calls[k] + window)
  {
    var before := calls[..k];
    assert forall i: nat | i < k :: calls[..i] == before[..i] && calls[i] == before[i];
    assert forall i: nat | i < k :: Verdict(window, calls, i) <==> Verdict(window, before, i);
    AcceptedMembers(window, before, calls[k]);
    if 0 < window && forall m | m in Accepted(window, before) :: m < calls[k] + window {
      forall i: nat | i < k
        ensures calls[i] < calls[k] + window
      {
        CallsAreBelowAccepted(window, before, i);
      }
    }
    forall m | m in Accepted(window, before)
      ensures exists i: nat :: i < k && calls[i] == m
    {
      AcceptedMembers(window, before, m);
      var i: nat :| i < |before| && before[i] == m && Verdict(window, before, i);
      assert calls[i] == m;
    }
  }
}
