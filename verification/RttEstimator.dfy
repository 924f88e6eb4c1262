/** The round-trip estimator of src/tcp_reliability.cpp (RFC 6298, section 2), in
    milliseconds. */
module RttEstimator {
  import opened Widths

  const RTT_K: nat := 4
  const RTT_G: nat := 100
  const MIN_RTO: nat := 200
  const MAX_RTO: nat := 60000

  datatype Estimate = Estimate(srtt: nat, rttvar: nat, rto: nat)

  function ClampRto(rto: nat): nat {
    Min(Max(rto, MIN_RTO), MAX_RTO)
  }

  function RtoFor(srtt: nat, rttvar: nat): nat {
    ClampRto(srtt + Max(RTT_G, RTT_K * rttvar))
  }

  /** One measurement, in truncated integer arithmetic; the variance uses the old mean. */
  function Update(e: Estimate, rtt: nat): Estimate {
    var srtt, rttvar :=
      if e.srtt == 0 then rtt else (7 * e.srtt + rtt) / 8,
      if e.srtt == 0 then rtt / 2 else (3 * e.rttvar + Abs(e.srtt - rtt)) / 4;
    Estimate(srtt, rttvar, RtoFor(srtt, rttvar))
  }

  function Updates(e: Estimate, samples: seq<nat>): Estimate {
    if |samples| == 0 then e else Update(Updates(e, samples[..|samples| - 1]), samples[|samples| - 1])
  }

  // ----- the weighted means of the program -----

  /** The program weighs with 0.25 and 0.125 in floating point and truncates; on exact
      values that is integer division. */
  lemma WeightedMeans(rttvar: nat, diff: nat, srtt: nat, rtt: nat)
    ensures ((1.0 - 0.25) * (rttvar as real) + 0.25 * (diff as real)).Floor == (3 * rttvar + diff) / 4
    ensures ((1.0 - 0.125) * (srtt as real) + 0.125 * (rtt as real)).Floor == (7 * srtt + rtt) / 8
  {
  }

  lemma Distance(a: nat, b: nat)
    ensures Abs(a - b) == if b < a then a - b else b - a
  {
  }

  /** RFC 6298, rule 2.3: after the first sample both estimates are the weighted means of
      the standard, the variance against the old mean, rounded down by less than 1 ms. */
  lemma UpdateIsRfc6298(e: Estimate, rtt: nat)
    requires e.srtt != 0
    ensures var f := Update(e, rtt);
            var srtt := 0.875 * e.srtt as real + 0.125 * rtt as real;
            var rttvar := 0.75 * e.rttvar as real + 0.25 * Abs(e.srtt - rtt) as real;
            && f.srtt as real <= srtt < f.srtt as real + 1.0
            && f.rttvar as real <= rttvar < f.rttvar as real + 1.0
  {
    WeightedMeans(e.rttvar, Abs(e.srtt - rtt), e.srtt, rtt);
  }

  /** RFC 6298, rules 2.2 and 2.3 and the clamp of the program, in milliseconds: the timeout
      is the mean and four times the variance, of which at least 100 counts; a result outside
      200 to 60000 becomes the nearer end. A first sample gives half of itself as variance. */
  lemma TimeoutIsRfc6298(e: Estimate, rtt: nat)
    ensures var f := Update(e, rtt);
            && (e.srtt == 0 ==> f.srtt == rtt && f.rttvar == rtt / 2)
            && (f.rttvar >= 25 && 200 <= f.srtt + 4 * f.rttvar <= 60000 ==> f.rto == f.srtt + 4 * f.rttvar)
            && (f.rttvar < 25 && 200 <= f.srtt + 100 <= 60000 ==> f.rto == f.srtt + 100)
            && (f.srtt + 4 * f.rttvar < 200 && f.srtt + 100 < 200 ==> f.rto == 200)
            && (f.srtt + 4 * f.rttvar > 60000 || f.srtt + 100 > 60000 ==> f.rto == 60000)
  {
  }

  // ----- hull -----

  predicate InHull(e: Estimate, m: nat, M: nat) {
    && m <= e.srtt <= M
    && e.rttvar <= Max(M / 2, M - m)
    && e.rto == RtoFor(e.srtt, e.rttvar)
  }

  lemma UpdateStaysInHull(e: Estimate, rtt: nat, m: nat, M: nat)
    requires m <= rtt <= M && (e.srtt == 0 || InHull(e, m, M))
    ensures InHull(Update(e, rtt), m, M)
  {
  }

  /** After any non-empty run of samples from a fresh estimator the mean lies in the
      samples' hull, the variance below its width (or half its top), and the timeout
      between 200 ms and 60 s with at least 100 ms of slack where the cap allows. */
  lemma {:induction false} SamplesHull(initial: nat, samples: seq<nat>, m: nat, M: nat)
    requires |samples| > 0 && forall i :: 0 <= i < |samples| ==> m <= samples[i] <= M
    ensures var e := Updates(Estimate(0, 0, initial), samples);
            && InHull(e, m, M)
            && MIN_RTO <= e.rto <= MAX_RTO && e.rto >= Min(MAX_RTO, e.srtt + RTT_G)
  {
    var before, last := samples[..|samples| - 1], samples[|samples| - 1];
    if |before| > 0 {
      SamplesHull(initial, before, m, M);
    }
    UpdateStaysInHull(Updates(Estimate(0, 0, initial), before), last, m, M);
  }

  // ----- convergence -----

  function Iterate<T>(step: T -> T, x: T, n: nat): T {
    if n == 0 then x else step(Iterate(step, x, n - 1))
  }

  lemma {:induction false} IterateSplits<T>(step: T -> T, x: T, a: nat, b: nat)
    ensures Iterate(step, x, a + b) == Iterate(step, Iterate(step, x, a), b)
  {
    if b > 0 {
      IterateSplits(step, x, a, b - 1);
    }
  }

  function Measure(r: nat): Estimate -> Estimate {
    (e: Estimate) => Update(e, r)
  }

  /** n updates with the same sample. */
  function Repeat(e: Estimate, r: nat, n: nat): Estimate {
    Iterate(Measure(r), e, n)
  }

  /** How far the mean is from the band [r-7, r] in which the truncated mean rests. */
  function MeanGap(e: Estimate, r: nat): nat {
    if e.srtt > r then e.srtt - r else if e.srtt < r - 7 then r - 7 - e.srtt else 0
  }

  /** How far the variance is above 7. */
  function VarGap(e: Estimate): nat {
    if e.rttvar > 7 then e.rttvar - 7 else 0
  }

  predicate Settled(e: Estimate, r: nat) {
    r - 7 <= e.srtt <= r && e.rttvar <= 7
  }

  /** One update, whichever branch it takes: the mean closes an eighth of its gap, the
      variance does not leave the larger of the two gaps, and once the mean is in its band
      the variance closes a quarter of its own. */
  lemma GapsShrink(e: Estimate, r: nat)
    ensures MeanGap(Update(e, r), r) <= 7 * MeanGap(e, r) / 8
    ensures VarGap(Update(e, r)) <= Max(VarGap(e), MeanGap(e, r))
    ensures MeanGap(e, r) == 0 ==> VarGap(Update(e, r)) <= 3 * VarGap(e) / 4
  {
  }

  lemma {:induction false} GapsAfter(e: Estimate, r: nat, n: nat, bound: nat)
    requires MeanGap(e, r) <= bound && VarGap(e) <= bound
    ensures MeanGap(Repeat(e, r, n), r) <= MeanGap(e, r)
    ensures VarGap(Repeat(e, r, n)) <= bound
  {
    if n > 0 {
      GapsAfter(e, r, n - 1, bound);
      GapsShrink(Repeat(e, r, n - 1), r);
    }
  }

  lemma SixHalve(e: Estimate, r: nat, bound: nat)
    requires MeanGap(e, r) <= 2 * bound + 1
    ensures MeanGap(Repeat(e, r, 6), r) <= bound
  {
    hide Update, MeanGap;
    var g := seq(7, i requires 0 <= i => MeanGap(Repeat(e, r, i), r));
    forall i | 0 <= i < 6
      ensures g[i + 1] <= 7 * g[i] / 8
    {
      GapsShrink(Repeat(e, r, i), r);
    }
    assert g[0] <= 2 * bound + 1;
    EighthsHalve(g[0], g[1], g[2], g[3], g[4], g[5], g[6], bound);
  }

  lemma EighthsHalve(g0: nat, g1: nat, g2: nat, g3: nat, g4: nat, g5: nat, g6: nat, bound: nat)
    requires g0 <= 2 * bound + 1 && g1 <= 7 * g0 / 8 && g2 <= 7 * g1 / 8 && g3 <= 7 * g2 / 8
    requires g4 <= 7 * g3 / 8 && g5 <= 7 * g4 / 8 && g6 <= 7 * g5 / 8
    ensures g6 <= bound
  {
  }

  lemma ThreeHalve(e: Estimate, r: nat, bound: nat)
    requires MeanGap(e, r) == 0 && VarGap(e) <= 2 * bound + 1
    ensures MeanGap(Repeat(e, r, 3), r) == 0 && VarGap(Repeat(e, r, 3)) <= bound
  {
    GapsShrink(e, r);
    GapsShrink(Repeat(e, r, 1), r);
    GapsShrink(Repeat(e, r, 2), r);
    assert Repeat(e, r, 1) == Update(e, r);
    assert Repeat(e, r, 2) == Update(Repeat(e, r, 1), r);
    QuartersHalve(VarGap(e), VarGap(Repeat(e, r, 1)), VarGap(Repeat(e, r, 2)), VarGap(Repeat(e, r, 3)), bound);
  }

  lemma QuartersHalve(g0: nat, g1: nat, g2: nat, g3: nat, bound: nat)
    requires g0 <= 2 * bound + 1 && g1 <= 3 * g0 / 4 && g2 <= 3 * g1 / 4 && g3 <= 3 * g2 / 4
    ensures g3 <= bound
  {
  }

  lemma HalveMean(e: Estimate, r: nat, k: nat, bound: nat) returns (f: Estimate)
    requires k > 0 && MeanGap(e, r) < Pow2(k) && MeanGap(e, r) <= bound && VarGap(e) <= bound
    ensures MeanGap(f, r) < Pow2(k - 1) && MeanGap(f, r) <= bound && VarGap(f) <= bound
    ensures Repeat(e, r, 6 * k) == Repeat(f, r, 6 * (k - 1))
  {
    f := Repeat(e, r, 6);
    SixHalve(e, r, Pow2(k - 1) - 1);
    GapsAfter(e, r, 6, bound);
    SplitRounds(e, r, 6, k);
  }

  lemma SplitRounds(e: Estimate, r: nat, length: nat, k: nat)
    requires k > 0
    ensures Repeat(e, r, length * k) == Repeat(Repeat(e, r, length), r, length * (k - 1))
  {
    assert length * k == length + length * (k - 1);
    IterateSplits(Measure(r), e, length, length * (k - 1));
  }

  lemma {:induction false} MeanSettles(e: Estimate, r: nat, k: nat, bound: nat)
    requires MeanGap(e, r) < Pow2(k) && MeanGap(e, r) <= bound && VarGap(e) <= bound
    ensures MeanGap(Repeat(e, r, 6 * k), r) == 0 && VarGap(Repeat(e, r, 6 * k)) <= bound
    decreases k
  {
    if k > 0 {
      var f := HalveMean(e, r, k, bound);
      MeanSettles(f, r, k - 1, bound);
    }
  }

  lemma {:induction false} VarianceSettles(e: Estimate, r: nat, k: nat)
    requires MeanGap(e, r) == 0 && VarGap(e) < Pow2(k)
    ensures Settled(Repeat(e, r, 3 * k), r)
    decreases k
  {
    if k > 0 {
      ThreeHalve(e, r, Pow2(k - 1) - 1);
      VarianceSettles(Repeat(e, r, 3), r, k - 1);
      SplitRounds(e, r, 3, k);
    }
  }

  lemma {:induction false} StaysSettled(e: Estimate, r: nat, n: nat)
    requires Settled(e, r)
    ensures Settled(Repeat(e, r, n), r)
  {
    if n > 0 {
      StaysSettled(e, r, n - 1);
      GapsShrink(Repeat(e, r, n - 1), r);
    }
  }

  /** From any estimate whose mean and variance are below 2^k, a constant sample r < 2^k
      brings the mean into [r-7, r] and the variance to at most 7 within 9k updates, for
      good, and the timeout to the clamped mean plus 100 ms. */
  lemma Convergence(e: Estimate, r: nat, k: nat, n: nat)
    requires e.srtt < Pow2(k) && e.rttvar < Pow2(k) && r < Pow2(k)
    requires n >= 9 * k && n > 0
    ensures Settled(Repeat(e, r, n), r)
    ensures Repeat(e, r, n).rto == ClampRto(Repeat(e, r, n).srtt + RTT_G)
  {
    hide Settled, Pow2, ClampRto, Update;
    SettlesBy(e, r, k);
    StaysSettled(Repeat(e, r, 9 * k), r, n - 9 * k);
    IterateSplits(Measure(r), e, 9 * k, n - 9 * k);
    RtoOfSettled(Repeat(e, r, n - 1), r);
  }

  lemma SettlesBy(e: Estimate, r: nat, k: nat)
    requires e.srtt < Pow2(k) && e.rttvar < Pow2(k) && r < Pow2(k)
    ensures Settled(Repeat(e, r, 9 * k), r)
  {
    MeanSettles(e, r, k, Pow2(k) - 1);
    VarianceSettles(Repeat(e, r, 6 * k), r, k);
    IterateSplits(Measure(r), e, 6 * k, 3 * k);
  }

  lemma RtoOfSettled(e: Estimate, r: nat)
    ensures Settled(Update(e, r), r) ==> Update(e, r).rto == ClampRto(Update(e, r).srtt + RTT_G)
  {
  }

  /** The band cannot be made narrower: for every sample of 8 ms or more the truncated mean
      rests 7 below it, and a variance of 7 stays with it. */
  lemma {:induction false} BandIsTight(e: Estimate, r: nat, n: nat)
    requires r >= 8 && e.srtt == r - 7
    ensures Repeat(e, r, n).srtt == r - 7
    ensures e.rttvar == 7 ==> Repeat(e, r, n).rttvar == 7
  {
    if n > 0 {
      BandIsTight(e, r, n - 1);
    }
  }
}
