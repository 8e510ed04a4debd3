/**
 * Respiratory cycle extraction (`_ecg_rsa_cycles`): from the per-sample respiratory
 * phase phaseLabel (1 = inspiration, 0 = expiration; any other integer stands for a
 * sample with no phase, such as the NaN before the first detected breath) and the
 * flag "phase completion is 0" (the sample where a phase begins), find the
 * inspiration onsets, the expiration onsets and the cycle lengths.
 */
module RsaCycles {
  import opened ArrayOps

  datatype RspCycles = RspCycles(
    inspirationOnsets: seq<nat>,
    expirationOnsets: seq<nat>,
    cyclesLength: seq<int>)

  /** The onsets of the phase labelled `phaseLabel`: samples carrying that phaseLabel whose completion is 0. */
  function PhaseOnsets(phase: seq<int>, completionZero: seq<bool>, phaseLabel: int): (r: seq<nat>)
    requires |phase| == |completionZero|
    ensures forall i: nat :: i in r <==> i < |phase| && phase[i] == phaseLabel && completionZero[i]
    ensures forall k :: 0 <= k < |r| ==> r[k] < |phase|
    ensures StrictlyIncreasing(r)
  {
    var labelled := Where(EqualsMask(phase, phaseLabel));
    var starts := Where(completionZero);
    var r := Intersect(labelled, starts);
    IntersectIncreasing(labelled, starts);
    assert forall k :: 0 <= k < |r| ==> r[k] in r;
    r
  }

  /** The full result of `_ecg_rsa_cycles`. */
  function ExtractCycles(phase: seq<int>, completionZero: seq<bool>): (c: RspCycles)
    requires |phase| == |completionZero|
    ensures forall i: nat :: i in c.inspirationOnsets <==> i < |phase| && phase[i] == 1 && completionZero[i]
    ensures forall i: nat :: i in c.expirationOnsets <==> i < |phase| && phase[i] == 0 && completionZero[i]
    ensures StrictlyIncreasing(c.inspirationOnsets) && StrictlyIncreasing(c.expirationOnsets)
    ensures forall i: nat :: !(i in c.inspirationOnsets && i in c.expirationOnsets)
    ensures |c.cyclesLength| == if |c.inspirationOnsets| == 0 then 0 else |c.inspirationOnsets| - 1
    ensures forall k :: 0 <= k < |c.cyclesLength| ==>
      c.cyclesLength[k] == c.inspirationOnsets[k + 1] - c.inspirationOnsets[k] > 0
  {
    var inspiration := PhaseOnsets(phase, completionZero, 1);
    var expiration := PhaseOnsets(phase, completionZero, 0);
    var lengths := Diff(inspiration);
    assert forall k :: 0 <= k < |lengths| ==> lengths[k] > 0 by {
      forall k | 0 <= k < |lengths| ensures lengths[k] > 0 {
        assert inspiration[k] < inspiration[k + 1];
      }
    }
    RspCycles(inspiration, expiration, lengths)
  }

  /**
   * The cycles are laid end to end: the onsets plus the lengths reach each next onset,
   * so the lengths add up to the span from the first onset to the last.
   */
  lemma {:induction false} CycleLengthsSpanOnsets(onsets: seq<int>, n: nat)
    requires 1 <= n <= |onsets|
    ensures SumOf(Diff(onsets)[..n - 1]) == onsets[n - 1] - onsets[0]
  {
    if n > 1 {
      CycleLengthsSpanOnsets(onsets, n - 1);
      var d := Diff(onsets);
      assert d[..n - 1] == d[..n - 2] + [d[n - 2]];
      SumOfAppend(d[..n - 2], d[n - 2]);
    }
  }

  /** The sum of the integer cycle lengths, added from the last entry back. */
  function SumOf(s: seq<int>): int
  {
    if |s| == 0 then 0 else SumOf(s[..|s| - 1]) + s[|s| - 1]
  }

  lemma SumOfAppend(s: seq<int>, x: int)
    ensures SumOf(s + [x]) == SumOf(s) + x
  {
    assert (s + [x])[..|s|] == s;
  }

  /** The intersection the source computes is the set of samples satisfying both conditions at once. */
  lemma OnsetsAreWhereBothHold(phase: seq<int>, completionZero: seq<bool>, phaseLabel: int)
    requires |phase| == |completionZero|
    ensures PhaseOnsets(phase, completionZero, phaseLabel)
         == Where(seq(|phase|, i requires 0 <= i < |phase| => phase[i] == phaseLabel && completionZero[i]))
  {
    var both := seq(|phase|, i requires 0 <= i < |phase| => phase[i] == phaseLabel && completionZero[i]);
    IncreasingDeterminedByElements(PhaseOnsets(phase, completionZero, phaseLabel), Where(both));
  }

  /** The onsets of one phase in the worked example below. */
  lemma {:induction false} ExampleOnsets(phase: seq<int>, zero: seq<bool>, phaseLabel: int, first: nat, second: nat)
    requires phase == [1, 1, 1, 0, 0, 0, 1, 1, 0, 0]
    requires zero == [true, false, false, true, false, false, true, false, true, false]
    requires first < second < 10
    requires forall i: nat :: i < 10 ==> (phase[i] == phaseLabel && zero[i] <==> i == first || i == second)
    ensures PhaseOnsets(phase, zero, phaseLabel) == [first, second]
  {
    var r := PhaseOnsets(phase, zero, phaseLabel);
    forall x: int ensures x in r <==> x in [first, second] {
      if x in r {
        var i: nat := x;
        assert i < 10 && phase[i] == phaseLabel && zero[i];
      }
      if x == first {
        assert phase[first] == phaseLabel && zero[first];
      }
      if x == second {
        assert phase[second] == phaseLabel && zero[second];
      }
    }
    IncreasingDeterminedByElements(r, [first, second]);
  }

  /** The worked example: phases 1,1,1,0,0,0,1,1,0,0 with a phase beginning at samples 0, 3, 6 and 8. */
  lemma PhaseExample(phase: seq<int>, zero: seq<bool>)
    requires phase == [1, 1, 1, 0, 0, 0, 1, 1, 0, 0]
    requires zero == [true, false, false, true, false, false, true, false, true, false]
    ensures ExtractCycles(phase, zero) == RspCycles([0, 6], [3, 8], [6])
  {
    forall i: nat | i < 10
      ensures (phase[i] == 1 && zero[i]) <==> (i == 0 || i == 6)
      ensures (phase[i] == 0 && zero[i]) <==> (i == 3 || i == 8)
    {
    }
    ExampleOnsets(phase, zero, 1, 0, 6);
    ExampleOnsets(phase, zero, 0, 3, 8);
    assert Diff([0, 6]) == [6];
  }
}
