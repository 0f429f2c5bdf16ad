/** Round-trip smoothing (ack_loss.hpp) in whole clock ticks, with the division that truncates. */
module Rtt {
  import opened Common

  /** A sample of section 5.3 of RFC 9002; times are in clock ticks and never negative. */
  datatype Sample = Sample(latest: nat, ackDelay: nat, maxAckDelay: nat, confirmed: bool)

  datatype Estimate = Estimate(hasSample: bool, latest: nat, min: nat, smoothed: nat, variance: nat)

  const NoEstimate := Estimate(false, 0, 0, 0, 0)

  function Scale(duration: nat, numerator: nat, denominator: nat): nat
    requires 0 < denominator
  {
    duration * numerator / denominator
  }

  function Abs(d: int): nat {
    if d < 0 then -d else d
  }

  /** The sample without the delay the peer reports, unless that would fall below the minimum. */
  function Adjusted(min: nat, s: Sample): nat
    requires min <= s.latest
  {
    var delay := Min(s.ackDelay, s.maxAckDelay);
    if s.confirmed && delay < s.latest - min then s.latest - delay else s.latest
  }

  function Update(e: Estimate, s: Sample): Estimate {
    if !e.hasSample then Estimate(true, s.latest, s.latest, s.latest, s.latest / 2) else
      var min := Min(e.min, s.latest);
      var adjusted := Adjusted(min, s);
      Estimate(true, s.latest, min,
               Scale(e.smoothed, 7, 8) + Scale(adjusted, 1, 8),
               Scale(e.variance, 3, 4) + Scale(Abs(e.smoothed - adjusted), 1, 4))
  }

  function Run(e: Estimate, samples: seq<Sample>): Estimate
    decreases samples
  {
    if samples == [] then e else Run(Update(e, samples[0]), samples[1..])
  }

  class RttEstimator {
    var hasSample: bool
    var latestRtt: nat
    var minRtt: nat
    var smoothedRtt: nat
    var rttVariance: nat

    ghost function Abstract(): Estimate
      reads this
    {
      Estimate(hasSample, latestRtt, minRtt, smoothedRtt, rttVariance)
    }

    constructor ()
      ensures Abstract() == NoEstimate
    {
      hasSample, latestRtt, minRtt, smoothedRtt, rttVariance := false, 0, 0, 0, 0;
    }

    method UpdateRtt(s: Sample)
      modifies this
      ensures Abstract() == Update(old(Abstract()), s)
    {
      latestRtt := s.latest;
      if !hasSample {
        hasSample := true;
        minRtt := s.latest;
        smoothedRtt := s.latest;
        rttVariance := s.latest / 2;
        return;
      }
      minRtt := Min(minRtt, s.latest);
      var adjusted := s.latest;
      if s.confirmed {
        var delay := Min(s.ackDelay, s.maxAckDelay);
        if delay < s.latest - minRtt {
          adjusted := adjusted - delay;
        }
      }
      rttVariance := Scale(rttVariance, 3, 4) + Scale(Abs(smoothedRtt - adjusted), 1, 4);
      smoothedRtt := Scale(smoothedRtt, 7, 8) + Scale(adjusted, 1, 8);
    }
  }

  // ---------------------------------------------------------------- one update

  /** A duration divided and rounded down. */
  predicate Rounded(x: nat, numerator: nat, denominator: nat) {
    denominator * x <= numerator < denominator * x + denominator
  }

  /** The reported delay counts if and only if the handshake is confirmed and the rest stays above the minimum. */
  lemma AdjustedExactly(min: nat, s: Sample)
    requires min <= s.latest
    ensures var delay := if s.ackDelay < s.maxAckDelay then s.ackDelay else s.maxAckDelay;
            && Adjusted(min, s) == (if s.confirmed && min < s.latest - delay then s.latest - delay else s.latest)
            && min <= Adjusted(min, s) <= s.latest
  {
  }

  /**
   * One update after the first: the variance is three quarters of the old one and a quarter of the deviation, the
   * smoothed value seven eighths of the old one and an eighth of the sample, each part rounded down; so truncation
   * takes less than two ticks from the exact means.
   */
  lemma UpdateExactly(e: Estimate, s: Sample) returns (kept: nat, moved: nat, base: nat, step: nat)
    requires e.hasSample
    ensures var next := Update(e, s);
            var adjusted := Adjusted(if s.latest < e.min then s.latest else e.min, s);
            var deviation := if adjusted < e.smoothed then e.smoothed - adjusted else adjusted - e.smoothed;
            && next.hasSample && next.latest == s.latest
            && next.min == (if s.latest < e.min then s.latest else e.min)
            && Rounded(kept, 3 * e.variance, 4) && Rounded(moved, deviation, 4) && next.variance == kept + moved
            && Rounded(base, 7 * e.smoothed, 8) && Rounded(step, adjusted, 8) && next.smoothed == base + step
            && 4 * next.variance <= 3 * e.variance + deviation < 4 * next.variance + 8
            && 8 * next.smoothed <= 7 * e.smoothed + adjusted < 8 * next.smoothed + 16
  {
    var adjusted := Adjusted(Min(e.min, s.latest), s);
    kept, moved := Scale(e.variance, 3, 4), Scale(Abs(e.smoothed - adjusted), 1, 4);
    base, step := Scale(e.smoothed, 7, 8), Scale(adjusted, 1, 8);
  }

  /** The first sample is taken as it is, with half of it as the variance. */
  lemma FirstSampleExactly(e: Estimate, s: Sample)
    requires !e.hasSample
    ensures var next := Update(e, s);
            && next.hasSample && next.latest == next.min == next.smoothed == s.latest
            && Rounded(next.variance, s.latest, 2)
  {
  }

  /** Samples that agree: whatever delay the peer reports, it does not count. */
  ghost predicate Steady(samples: seq<Sample>, latest: nat) {
    forall i | 0 <= i < |samples| :: samples[i].latest == latest
  }

  /** An estimate that has only seen samples of this length. */
  ghost predicate Settled(e: Estimate, latest: nat) {
    e.hasSample && e.latest == e.min == latest && latest / 8 * 8 <= e.smoothed <= latest
  }

  lemma SettledStays(e: Estimate, s: Sample)
    requires Settled(e, s.latest)
    ensures Settled(Update(e, s), s.latest)
    ensures 3 * e.variance < 4 * Update(e, s).variance + 4 && 4 * Update(e, s).variance <= 3 * e.variance + 7
    ensures s.latest % 8 == 0 ==> Update(e, s).smoothed == s.latest && 4 * Update(e, s).variance <= 3 * e.variance
  {
    var next := Update(e, s);
    AdjustedExactly(s.latest, s);
    MeanIsBetween(e.smoothed, s.latest, s.latest / 8, s.latest);
    var kept, moved, base, step := UpdateExactly(e, s);
    assert moved <= 1;
  }

  /**
   * Equal samples: the smoothed value stays within seven ticks of them, on them if they are multiples of eight, and
   * every sample lets the variance fall by a quarter, up to rounding.
   */
  lemma {:induction false} SteadySamplesSettle(samples: seq<Sample>, latest: nat)
    requires Steady(samples, latest) && samples != []
    ensures var e := Run(NoEstimate, samples);
            && e.latest == e.min == latest && latest - 7 <= e.smoothed <= latest
            && (latest % 8 == 0 ==> e.smoothed == latest)
    ensures var before, e := Run(NoEstimate, samples[..|samples| - 1]), Run(NoEstimate, samples);
            1 < |samples| ==> 3 * before.variance < 4 * e.variance + 4 && 4 * e.variance <= 3 * before.variance + 7
  {
    FirstSampleExactly(NoEstimate, samples[0]);
    SettleFrom(Update(NoEstimate, samples[0]), samples[1..], latest);
    if 1 < |samples| {
      assert samples[..|samples| - 1][1..] == samples[1..][..|samples| - 2];
    }
  }

  lemma {:induction false} SettleFrom(e: Estimate, samples: seq<Sample>, latest: nat)
    requires Steady(samples, latest) && Settled(e, latest) && (latest % 8 == 0 ==> e.smoothed == latest)
    ensures var f := Run(e, samples); Settled(f, latest) && (latest % 8 == 0 ==> f.smoothed == latest)
    ensures samples != [] ==>
              var before, f := Run(e, samples[..|samples| - 1]), Run(e, samples);
              3 * before.variance < 4 * f.variance + 4 && 4 * f.variance <= 3 * before.variance + 7
    decreases samples
  {
    if samples != [] {
      SettledStays(e, samples[0]);
      SettleFrom(Update(e, samples[0]), samples[1..], latest);
      if 1 < |samples| {
        assert samples[..|samples| - 1][1..] == samples[1..][..|samples| - 2];
      } else {
        assert samples[..0] == [] && samples[1..] == [];
      }
    }
  }

  // ---------------------------------------------------------------- bounds over whole runs

  /** `high` bounds every sample so far. */
  ghost predicate Bounded(e: Estimate, high: nat) {
    e.hasSample ==>
      && e.min <= e.latest <= high
      && e.min / 8 * 8 <= e.smoothed <= high
      && e.variance <= high
  }

  /** The weighted mean of two numbers, each division truncated, stays between their multiples of eight. */
  lemma MeanIsBetween(a: nat, b: nat, low: nat, high: nat)
    requires low * 8 <= a <= high && low * 8 <= b <= high
    ensures low * 8 <= Scale(a, 7, 8) + Scale(b, 1, 8) <= high
  {
  }

  lemma UpdateKeepsBounds(e: Estimate, s: Sample, high: nat)
    requires Bounded(e, high) && s.latest <= high
    ensures Bounded(Update(e, s), high)
  {
    if e.hasSample {
      var min := Min(e.min, s.latest);
      var adjusted := Adjusted(min, s);
      assert min <= adjusted <= high;
      assert min / 8 <= e.min / 8;
      MeanIsBetween(e.smoothed, adjusted, min / 8, high);
    }
  }

  lemma {:induction false} RunKeepsBounds(e: Estimate, samples: seq<Sample>, high: nat)
    requires Bounded(e, high) && forall i | 0 <= i < |samples| :: samples[i].latest <= high
    ensures Bounded(Run(e, samples), high)
    decreases samples
  {
    if samples != [] {
      UpdateKeepsBounds(e, samples[0], high);
      RunKeepsBounds(Update(e, samples[0]), samples[1..], high);
    }
  }

  lemma {:induction false} RunTracksMinimum(e: Estimate, samples: seq<Sample>)
    requires samples != []
    ensures Run(e, samples).hasSample
    ensures forall i | 0 <= i < |samples| :: Run(e, samples).min <= samples[i].latest
    ensures e.hasSample ==> Run(e, samples).min <= e.min
    ensures || (e.hasSample && Run(e, samples).min == e.min)
            || exists i :: 0 <= i < |samples| && Run(e, samples).min == samples[i].latest
    decreases samples
  {
    var e', rest := Update(e, samples[0]), samples[1..];
    assert e'.min == if e.hasSample then Min(e.min, samples[0].latest) else samples[0].latest;
    if rest != [] {
      RunTracksMinimum(e', rest);
      assert forall i | 1 <= i < |samples| :: samples[i] == rest[i - 1];
      var r := Run(e', rest);
      assert forall i | 0 <= i < |samples| :: r.min <= samples[i].latest;
      if exists i :: 0 <= i < |rest| && r.min == rest[i].latest {
        var i :| 0 <= i < |rest| && r.min == rest[i].latest;
        assert samples[i + 1] == rest[i];
      }
    }
  }

  /**
   * For any run of samples the smoothed value never exceeds the largest sample, and truncation never takes it
   * more than seven ticks below the smallest one; the variance stays within the largest sample.
   */
  lemma SmoothingIsBounded(samples: seq<Sample>, high: nat)
    requires samples != [] && forall i | 0 <= i < |samples| :: samples[i].latest <= high
    ensures var e := Run(NoEstimate, samples);
            && (forall i | 0 <= i < |samples| :: e.min <= samples[i].latest)
            && (exists i :: 0 <= i < |samples| && e.min == samples[i].latest)
            && e.min - 7 <= e.smoothed <= high
            && e.variance <= high
  {
    RunKeepsBounds(NoEstimate, samples, high);
    RunTracksMinimum(NoEstimate, samples);
  }

  /** While every sample is seven ticks, each update loses one tick to truncation. */
  lemma {:induction false} SevenTickDecay(e: Estimate, samples: seq<Sample>)
    requires e.hasSample && e.min == 7 && e.smoothed == |samples| <= 7
    requires forall i | 0 <= i < |samples| :: samples[i] == Sample(7, 0, 0, false)
    ensures Run(e, samples).min == 7 && Run(e, samples).smoothed == 0
    decreases samples
  {
    if samples != [] {
      SevenTickDecay(Update(e, samples[0]), samples[1..]);
    }
  }

  /** Seven ticks is exact: eight samples of seven ticks drive the smoothed value to zero. */
  lemma SevenTicksIsReached()
    ensures var e := Run(NoEstimate, seq(8, _ => Sample(7, 0, 0, false))); e.smoothed == e.min - 7
  {
    var samples := seq(8, _ => Sample(7, 0, 0, false));
    SevenTickDecay(Update(NoEstimate, samples[0]), samples[1..]);
  }
}
