/**
 * The discrete part of the Peak-to-Trough (P2T) estimator (`_ecg_rsa_p2t`):
 * consecutive inspiration onsets delimit respiratory cycles; the R-peaks of each
 * cycle give its inter-beat intervals, and the cycle's RSA estimate is the spread
 * (longest minus shortest) of those intervals, in seconds. A cycle with fewer than
 * two intervals gets no estimate (NaN in the source, `None` here); the summary
 * counts those cycles and averages the others.
 */
module PeakToTrough {
  import opened Wrappers
  import opened ArrayOps

  /** The beats of `rpeaks` in the half-open window [lo, hi), in their original order. */
  function BeatsIn(rpeaks: seq<int>, lo: int, hi: int): (r: seq<int>)
    ensures |r| <= |rpeaks|
    ensures forall k :: 0 <= k < |r| ==> lo <= r[k] < hi
    ensures hi <= lo ==> r == []
  {
    if |rpeaks| == 0 then []
    else
      var rest := BeatsIn(rpeaks[1..], lo, hi);
      if lo <= rpeaks[0] < hi then [rpeaks[0]] + rest else rest
  }

  /** A beat belongs to a cycle exactly when it is one of the R-peaks and lies in the cycle's window. */
  lemma {:induction false} BeatsInMembership(rpeaks: seq<int>, lo: int, hi: int)
    ensures forall b :: b in BeatsIn(rpeaks, lo, hi) <==> b in rpeaks && lo <= b < hi
  {
    if |rpeaks| > 0 {
      BeatsInMembership(rpeaks[1..], lo, hi);
      assert rpeaks == [rpeaks[0]] + rpeaks[1..];
    }
  }

  /** The inter-beat intervals of a cycle in seconds: `np.diff(cycle) / sampling_rate`. */
  function Intervals(cycle: seq<int>, samplingRate: real): (rris: seq<real>)
    requires samplingRate > 0.0
    ensures |rris| == if |cycle| == 0 then 0 else |cycle| - 1
  {
    Scale(Diff(cycle), samplingRate)
  }

  /** Each interval is the time between two consecutive beats of the cycle. */
  lemma IntervalsAt(cycle: seq<int>, samplingRate: real)
    requires samplingRate > 0.0
    ensures forall k :: 0 <= k < |Intervals(cycle, samplingRate)| ==>
      Intervals(cycle, samplingRate)[k] == (cycle[k + 1] - cycle[k]) as real / samplingRate
  {
    ScaleAt(Diff(cycle), samplingRate);
  }

  /** `np.max(rris) - np.min(rris)`. */
  function Spread(rris: seq<real>): (r: real)
    requires |rris| > 0
    ensures r >= 0.0
  {
    ArgMaxIsMax(rris);
    rris[ArgMax(rris)] - rris[ArgMin(rris)]
  }

  /**
   * The RSA estimate of one cycle: defined exactly when the cycle holds more than one
   * interval (at least three beats), and then never negative.
   */
  function CycleValue(cycle: seq<int>, samplingRate: real): (v: Option<real>)
    requires samplingRate > 0.0
    ensures v.Some? <==> |cycle| >= 3
    ensures v.Some? ==> v.value >= 0.0
  {
    var rris := Intervals(cycle, samplingRate);
    if |rris| > 1 then
      Some(Spread(rris))
    else
      None
  }

  /**
   * A defined estimate is the spread of the cycle's intervals: no two intervals differ
   * by more, and some two differ by exactly that much.
   */
  lemma CycleValueIsIntervalSpread(cycle: seq<int>, samplingRate: real)
    requires samplingRate > 0.0 && |cycle| >= 3
    ensures var v, rris := CycleValue(cycle, samplingRate), Intervals(cycle, samplingRate);
      && (forall i, j :: 0 <= i < |rris| && 0 <= j < |rris| ==> rris[i] - rris[j] <= v.value)
      && (exists i, j :: 0 <= i < |rris| && 0 <= j < |rris| && rris[i] - rris[j] == v.value)
  {
    var rris := Intervals(cycle, samplingRate);
    var hi, lo := ArgMax(rris), ArgMin(rris);
    ArgMaxIsMax(rris);
    ArgMinIsMin(rris);
    assert rris[hi] - rris[lo] == CycleValue(cycle, samplingRate).value;
  }

  /** The number of respiratory cycles delimited by the onsets: `len(range(len(onsets) - 1))`. */
  function CycleCount(onsets: seq<int>): (n: nat)
    ensures |onsets| > 0 ==> n == |onsets| - 1
    ensures |onsets| == 0 ==> n == 0
  {
    if |onsets| < 2 then 0 else |onsets| - 1
  }

  /** The per-cycle estimates as a value: entry i is the estimate of the beats between onsets i and i + 1. */
  function Estimates(onsets: seq<int>, rpeaks: seq<int>, samplingRate: real): seq<Option<real>>
    requires samplingRate > 0.0
  {
    seq(CycleCount(onsets), i requires 0 <= i < CycleCount(onsets) =>
      CycleValue(BeatsIn(rpeaks, onsets[i], onsets[i + 1]), samplingRate))
  }

  /** The first loop of `_ecg_rsa_p2t`: the R-peaks of each cycle, appended to `cyclesRri`. */
  method CollectCycles(onsets: seq<int>, rpeaks: seq<int>) returns (cyclesRri: seq<seq<int>>)
    ensures |cyclesRri| == CycleCount(onsets)
    ensures forall k :: 0 <= k < |cyclesRri| ==> cyclesRri[k] == BeatsIn(rpeaks, onsets[k], onsets[k + 1])
  {
    cyclesRri := [];
    var idx := 0;
    while idx < |onsets| - 1
      invariant idx == |cyclesRri| <= CycleCount(onsets)
      invariant forall k :: 0 <= k < idx ==> cyclesRri[k] == BeatsIn(rpeaks, onsets[k], onsets[k + 1])
    {
      var cycleInit := onsets[idx];
      var cycleEnd := onsets[idx + 1];
      cyclesRri := cyclesRri + [BeatsIn(rpeaks, cycleInit, cycleEnd)];
      idx := idx + 1;
    }
  }

  /**
   * The second loop of `_ecg_rsa_p2t`: a NaN-initialised array receives the estimate
   * of every cycle that has more than one interval.
   */
  method EstimateCycles(cyclesRri: seq<seq<int>>, samplingRate: real) returns (values: seq<Option<real>>)
    requires samplingRate > 0.0
    ensures |values| == |cyclesRri|
    ensures forall k :: 0 <= k < |values| ==> values[k] == CycleValue(cyclesRri[k], samplingRate)
  {
    var rsaValues := new Option<real>[|cyclesRri|](_ => None);
    for i := 0 to |cyclesRri|
      invariant forall k :: 0 <= k < i ==> rsaValues[k] == CycleValue(cyclesRri[k], samplingRate)
      invariant forall k :: i <= k < |cyclesRri| ==> rsaValues[k] == None
    {
      var rris := Intervals(cyclesRri[i], samplingRate);
      if |rris| > 1 {
        rsaValues[i] := Some(Spread(rris));
      }
    }
    values := rsaValues[..];
  }

  /**
   * The per-cycle estimates of `_ecg_rsa_p2t`: one value per consecutive onset pair,
   * computed from the beats in that pair's window.
   */
  method P2TValues(onsets: seq<int>, rpeaks: seq<int>, samplingRate: real) returns (values: seq<Option<real>>)
    requires samplingRate > 0.0
    ensures |values| == CycleCount(onsets)
    ensures forall i :: 0 <= i < |values| ==>
      values[i] == CycleValue(BeatsIn(rpeaks, onsets[i], onsets[i + 1]), samplingRate)
    ensures values == Estimates(onsets, rpeaks, samplingRate)
  {
    var cyclesRri := CollectCycles(onsets, rpeaks);
    values := EstimateCycles(cyclesRri, samplingRate);
  }

  // ---------------------------------------------------------------------------
  // Summary statistics (non-continuous mode)
  // ---------------------------------------------------------------------------

  /** The defined estimates, in cycle order (the NaN entries dropped). */
  function Defined(values: seq<Option<real>>): (d: seq<real>)
    ensures |d| <= |values|
    ensures forall x :: x in d <==> Some(x) in values
  {
    if |values| == 0 then []
    else
      var rest := Defined(values[1..]);
      assert forall x :: Some(x) in values <==> Some(x) == values[0] || Some(x) in values[1..];
      if values[0].Some? then [values[0].value] + rest else rest
  }

  /** `RSA_P2T_NoRSA`: the number of cycles whose estimate is undefined. */
  function NoRsa(values: seq<Option<real>>): (n: nat)
    ensures n + |Defined(values)| == |values|
    ensures n == 0 <==> forall i :: 0 <= i < |values| ==> values[i].Some?
  {
    if |values| == 0 then 0
    else
      var rest := NoRsa(values[1..]);
      assert forall i :: 1 <= i < |values| ==> values[i] == values[1..][i - 1];
      (if values[0].None? then 1 else 0) + rest
  }

  function Sum(xs: seq<real>): real
  {
    if |xs| == 0 then 0.0 else xs[0] + Sum(xs[1..])
  }

  /**
   * `RSA_P2T_Mean` (`np.nanmean`): the average of the defined estimates; undefined
   * (NaN) when no cycle has an estimate.
   */
  function NanMean(values: seq<Option<real>>): (m: Option<real>)
    ensures m.None? <==> |Defined(values)| == 0
    ensures m.Some? ==> m.value * |Defined(values)| as real == Sum(Defined(values))
  {
    var d := Defined(values);
    if |d| == 0 then None else Some(Sum(d) / |d| as real)
  }

  datatype P2TSummary = P2TSummary(mean: Option<real>, noRsa: nat)

  /** The discrete statistics of the non-continuous result. */
  function Summarize(values: seq<Option<real>>): (s: P2TSummary)
    ensures s.noRsa <= |values|
    ensures s.mean.None? <==> s.noRsa == |values|
  {
    P2TSummary(NanMean(values), NoRsa(values))
  }

  // ---------------------------------------------------------------------------
  // Properties of the cycle bucketing
  // ---------------------------------------------------------------------------

  /** Windowing distributes over concatenation: the beats keep their original order. */
  lemma {:induction false} BeatsInConcat(s: seq<int>, t: seq<int>, lo: int, hi: int)
    ensures BeatsIn(s + t, lo, hi) == BeatsIn(s, lo, hi) + BeatsIn(t, lo, hi)
  {
    if |s| > 0 {
      assert (s + t)[1..] == s[1..] + t;
      BeatsInConcat(s[1..], t, lo, hi);
    } else {
      assert s + t == t;
    }
  }

  /** With non-decreasing onsets, every beat of an earlier cycle precedes every beat of a later one. */
  lemma CyclesOrdered(onsets: seq<int>, rpeaks: seq<int>, i: nat, j: nat)
    requires NonDecreasing(onsets)
    requires i < j && j + 1 < |onsets|
    ensures var early, late := BeatsIn(rpeaks, onsets[i], onsets[i + 1]), BeatsIn(rpeaks, onsets[j], onsets[j + 1]);
      forall p, q :: 0 <= p < |early| && 0 <= q < |late| ==> early[p] < late[q]
  {
    assert onsets[i + 1] <= onsets[j];
  }

  /** The number of leading entries below `x`; for a sorted list, its number of entries below `x`. */
  function CountBelow(s: seq<int>, x: int): (n: nat)
    ensures n <= |s|
  {
    if |s| == 0 || s[0] >= x then 0 else 1 + CountBelow(s[1..], x)
  }

  lemma {:induction false} CountBelowMonotone(s: seq<int>, x: int, y: int)
    requires NonDecreasing(s) && x <= y
    ensures CountBelow(s, x) <= CountBelow(s, y)
  {
    if |s| > 0 && s[0] < x {
      CountBelowMonotone(s[1..], x, y);
    }
  }

  lemma CountBelowNone(s: seq<int>, x: int)
    requires NonDecreasing(s) && |s| > 0 && s[0] >= x
    ensures CountBelow(s, x) == 0
  {
  }

  /** For a sorted beat list, a cycle's beats are one contiguous run of it. */
  lemma {:induction false} BeatsInSlice(rpeaks: seq<int>, lo: int, hi: int)
    requires NonDecreasing(rpeaks) && lo <= hi
    ensures CountBelow(rpeaks, lo) <= CountBelow(rpeaks, hi)
    ensures BeatsIn(rpeaks, lo, hi) == rpeaks[CountBelow(rpeaks, lo)..CountBelow(rpeaks, hi)]
  {
    CountBelowMonotone(rpeaks, lo, hi);
    if |rpeaks| > 0 {
      var tail := rpeaks[1..];
      assert NonDecreasing(tail);
      BeatsInSlice(tail, lo, hi);
      if rpeaks[0] < lo {
        assert rpeaks[CountBelow(rpeaks, lo)..CountBelow(rpeaks, hi)]
            == tail[CountBelow(tail, lo)..CountBelow(tail, hi)];
      } else if rpeaks[0] < hi {
        if |tail| > 0 {
          CountBelowNone(tail, lo);
        }
        assert rpeaks[0..CountBelow(rpeaks, hi)] == [rpeaks[0]] + tail[0..CountBelow(tail, hi)];
      } else {
        if |tail| > 0 {
          CountBelowNone(tail, lo);
          CountBelowNone(tail, hi);
        }
      }
    }
  }

  /** Two adjacent cycles together hold exactly the beats of their joint window, in order. */
  lemma AdjacentCyclesJoin(rpeaks: seq<int>, lo: int, mid: int, hi: int)
    requires NonDecreasing(rpeaks) && lo <= mid <= hi
    ensures BeatsIn(rpeaks, lo, mid) + BeatsIn(rpeaks, mid, hi) == BeatsIn(rpeaks, lo, hi)
  {
    BeatsInSlice(rpeaks, lo, mid);
    BeatsInSlice(rpeaks, mid, hi);
    BeatsInSlice(rpeaks, lo, hi);
    SliceJoin(rpeaks, CountBelow(rpeaks, lo), CountBelow(rpeaks, mid), CountBelow(rpeaks, hi));
  }

  /** The beats of all cycles, concatenated in cycle order. */
  function AllCycleBeats(onsets: seq<int>, rpeaks: seq<int>): seq<int>
  {
    if |onsets| < 2 then []
    else BeatsIn(rpeaks, onsets[0], onsets[1]) + AllCycleBeats(onsets[1..], rpeaks)
  }

  /**
   * The cycles partition the beats between the first and the last onset: each such
   * beat falls in exactly one cycle, and reading the cycles in order gives the beats
   * in their original order.
   */
  lemma {:induction false} CyclesCoverSpan(onsets: seq<int>, rpeaks: seq<int>)
    requires NonDecreasing(onsets) && NonDecreasing(rpeaks) && |onsets| >= 2
    ensures AllCycleBeats(onsets, rpeaks) == BeatsIn(rpeaks, onsets[0], onsets[|onsets| - 1])
  {
    if |onsets| == 2 {
      assert AllCycleBeats(onsets[1..], rpeaks) == [];
    } else {
      var tail := onsets[1..];
      assert NonDecreasing(tail);
      CyclesCoverSpan(tail, rpeaks);
      AdjacentCyclesJoin(rpeaks, onsets[0], onsets[1], onsets[|onsets| - 1]);
    }
  }

  /** A cycle whose intervals are all equal has estimate 0 (or none). */
  lemma ConstantIntervalsGiveZero(cycle: seq<int>, samplingRate: real, c: real)
    requires samplingRate > 0.0
    requires forall k :: 0 <= k < |Intervals(cycle, samplingRate)| ==> Intervals(cycle, samplingRate)[k] == c
    ensures CycleValue(cycle, samplingRate) in {None, Some(0.0)}
  {
  }

  /** Evenly spaced beats. */
  predicate EvenlySpaced(s: seq<int>, period: nat)
  {
    forall k :: 0 <= k < |s| - 1 ==> s[k + 1] - s[k] == period
  }

  lemma EvenSlice(s: seq<int>, period: nat, a: nat, b: nat)
    requires EvenlySpaced(s, period) && a <= b <= |s|
    ensures EvenlySpaced(s[a..b], period)
  {
    var t := s[a..b];
    forall k | 0 <= k < |t| - 1 ensures t[k + 1] - t[k] == period {
      assert t[k + 1] == s[a + k + 1] && t[k] == s[a + k];
    }
  }

  lemma EvenCycleGivesZero(cycle: seq<int>, period: nat, samplingRate: real)
    requires samplingRate > 0.0 && EvenlySpaced(cycle, period)
    ensures CycleValue(cycle, samplingRate) in {None, Some(0.0)}
  {
    var rris := Intervals(cycle, samplingRate);
    IntervalsAt(cycle, samplingRate);
    forall k | 0 <= k < |rris| ensures rris[k] == period as real / samplingRate {
      assert cycle[k + 1] - cycle[k] == period;
    }
    ConstantIntervalsGiveZero(cycle, samplingRate, period as real / samplingRate);
  }

  /**
   * Constant heart period gives zero RSA: when successive R-peaks are evenly spaced,
   * every defined cycle estimate is 0.
   */
  lemma EvenBeatsGiveZero(rpeaks: seq<int>, period: nat, lo: int, hi: int, samplingRate: real)
    requires samplingRate > 0.0 && EvenlySpaced(rpeaks, period)
    ensures CycleValue(BeatsIn(rpeaks, lo, hi), samplingRate) in {None, Some(0.0)}
  {
    if lo <= hi {
      EvenIsSorted(rpeaks, period);
      BeatsInSlice(rpeaks, lo, hi);
      EvenSlice(rpeaks, period, CountBelow(rpeaks, lo), CountBelow(rpeaks, hi));
      EvenCycleGivesZero(BeatsIn(rpeaks, lo, hi), period, samplingRate);
    }
  }

  lemma {:induction false} EvenIsSorted(rpeaks: seq<int>, period: nat)
    requires EvenlySpaced(rpeaks, period)
    ensures NonDecreasing(rpeaks)
  {
    if |rpeaks| > 1 {
      EvenIsSorted(rpeaks[1..], period);
      assert forall j :: 0 < j < |rpeaks| ==> rpeaks[0] <= rpeaks[1] <= rpeaks[j];
    }
  }

  // ---------------------------------------------------------------------------
  // Properties of the summary
  // ---------------------------------------------------------------------------

  /** The number of cycles holding fewer than three beats. */
  function SparseCycles(onsets: seq<int>, rpeaks: seq<int>): nat
  {
    if |onsets| < 2 then 0
    else (if |BeatsIn(rpeaks, onsets[0], onsets[1])| < 3 then 1 else 0) + SparseCycles(onsets[1..], rpeaks)
  }

  /** `RSA_P2T_NoRSA` of the per-cycle estimates is the number of cycles with fewer than three beats. */
  lemma {:induction false} NoRsaCountsSparseCycles(onsets: seq<int>, rpeaks: seq<int>, samplingRate: real,
                                                   values: seq<Option<real>>)
    requires samplingRate > 0.0
    requires |values| == CycleCount(onsets)
    requires forall i :: 0 <= i < |values| ==>
      values[i] == CycleValue(BeatsIn(rpeaks, onsets[i], onsets[i + 1]), samplingRate)
    ensures NoRsa(values) == SparseCycles(onsets, rpeaks)
  {
    if |onsets| >= 2 {
      var tail := onsets[1..];
      assert forall i :: 0 <= i < |values[1..]| ==> values[1..][i] == values[i + 1];
      NoRsaCountsSparseCycles(tail, rpeaks, samplingRate, values[1..]);
    }
  }

  lemma {:induction false} SumBounds(xs: seq<real>, lo: real, hi: real)
    requires forall k :: 0 <= k < |xs| ==> lo <= xs[k] <= hi
    ensures |xs| as real * lo <= Sum(xs) <= |xs| as real * hi
  {
    if |xs| > 0 {
      SumBounds(xs[1..], lo, hi);
    }
  }

  lemma QuotientBounds(total: real, n: real, lo: real, hi: real)
    requires n > 0.0 && n * lo <= total <= n * hi
    ensures lo <= total / n <= hi
  {
    var q := total / n;
    assert q * n == total;
  }

  /** The mean lies within any bounds that hold for every defined estimate. */
  lemma MeanWithinBounds(values: seq<Option<real>>, lo: real, hi: real)
    requires forall i :: 0 <= i < |values| && values[i].Some? ==> lo <= values[i].value <= hi
    ensures NanMean(values).Some? ==> lo <= NanMean(values).value <= hi
  {
    var d := Defined(values);
    forall k | 0 <= k < |d| ensures lo <= d[k] <= hi {
      assert d[k] in d;
      var i :| 0 <= i < |values| && values[i] == Some(d[k]);
    }
    SumBounds(d, lo, hi);
    if |d| > 0 {
      QuotientBounds(Sum(d), |d| as real, lo, hi);
    }
  }

  /** The mean of estimates that are never negative is not negative. */
  lemma MeanNonNegative(values: seq<Option<real>>)
    requires forall i :: 0 <= i < |values| && values[i].Some? ==> values[i].value >= 0.0
    ensures NanMean(values).Some? ==> NanMean(values).value >= 0.0
  {
    var defined := Defined(values);
    if |defined| > 0 {
      var top := defined[ArgMax(defined)];
      ArgMaxIsMax(defined);
      forall i | 0 <= i < |values| && values[i].Some?
        ensures 0.0 <= values[i].value <= top
      {
        assert values[i].value in defined;
      }
      MeanWithinBounds(values, 0.0, top);
    }
  }

  /**
   * The summary of the per-cycle estimates: NoRSA counts the cycles with fewer than
   * three beats, and the mean of the defined estimates is not negative.
   */
  lemma SummaryOfEstimates(onsets: seq<int>, rpeaks: seq<int>, samplingRate: real, values: seq<Option<real>>)
    requires samplingRate > 0.0
    requires |values| == CycleCount(onsets)
    requires forall i :: 0 <= i < |values| ==>
      values[i] == CycleValue(BeatsIn(rpeaks, onsets[i], onsets[i + 1]), samplingRate)
    ensures Summarize(values).noRsa == SparseCycles(onsets, rpeaks)
    ensures Summarize(values).mean.Some? ==> Summarize(values).mean.value >= 0.0
  {
    NoRsaCountsSparseCycles(onsets, rpeaks, samplingRate, values);
    forall i | 0 <= i < |values| && values[i].Some? ensures values[i].value >= 0.0 {
      var cycle := BeatsIn(rpeaks, onsets[i], onsets[i + 1]);
      assert values[i] == CycleValue(cycle, samplingRate);
    }
    MeanNonNegative(values);
  }

  /** Undefined cycles do not shift the mean: an undefined estimate anywhere leaves it unchanged. */
  lemma MeanIgnoresUndefined(a: seq<Option<real>>, b: seq<Option<real>>)
    ensures NanMean(a + [None] + b) == NanMean(a + b)
  {
    DefinedConcat(a + [None], b);
    DefinedConcat(a, [None]);
    DefinedConcat(a, b);
    var undefined: seq<Option<real>> := [None];
    assert undefined[1..] == [];
    assert Defined(undefined) == [];
    assert Defined(a + [None] + b) == Defined(a + b);
  }

  /** Dropping the undefined estimates commutes with concatenation. */
  lemma {:induction false} DefinedConcat(x: seq<Option<real>>, y: seq<Option<real>>)
    ensures Defined(x + y) == Defined(x) + Defined(y)
  {
    if |x| == 0 {
      assert x + y == y;
    } else {
      assert (x + y)[1..] == x[1..] + y;
      DefinedConcat(x[1..], y);
    }
  }

  /** Each defined value occurs among the defined estimates as often as cycles have it as their estimate. */
  lemma {:induction false} DefinedCounts(values: seq<Option<real>>)
    ensures forall x :: multiset(Defined(values))[x] == multiset(values)[Some(x)]
  {
    if |values| > 0 {
      DefinedCounts(values[1..]);
      assert values == [values[0]] + values[1..];
      assert multiset(values) == multiset([values[0]]) + multiset(values[1..]);
      if values[0].Some? {
        assert Defined(values) == [values[0].value] + Defined(values[1..]);
        assert multiset(Defined(values)) == multiset([values[0].value]) + multiset(Defined(values[1..]));
      }
    }
  }
}
