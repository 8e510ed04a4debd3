/**
 * Respiratory-peak alignment in `ecg_rsa` (before P2T): the inspiration peaks kept
 * are those strictly after the first inspiration onset; when there are then as many
 * peaks as onsets, the last peak is dropped, so that each cycle is paired with one
 * peak. A count that still does not match only raises a diagnostic.
 */
module PeakAlignment {
  import opened Wrappers
  import opened ArrayOps

  /** `rsp_onsets[0]` on an empty onset list is an IndexError in the source. */
  datatype AlignmentError = NoInspirationOnset

  /** The aligned peaks and whether the "couldn't find rsp cycles onsets and centers" diagnostic fires. */
  datatype AlignedPeaks = AlignedPeaks(peaks: seq<nat>, countMismatch: bool)

  /** The samples whose `RSP_Peaks` marker is 1, in increasing order. */
  function RespiratoryPeaks(peakColumn: seq<int>): (r: seq<nat>)
    ensures forall p: nat :: p in r <==> p < |peakColumn| && peakColumn[p] == 1
    ensures StrictlyIncreasing(r)
  {
    Where(EqualsMask(peakColumn, 1))
  }

  /** `s[s > t]`: the entries above `t`, in their original order. */
  function After(s: seq<nat>, t: int): (r: seq<nat>)
    ensures |r| <= |s|
    ensures forall x: nat :: x in r <==> x in s && x > t
  {
    if |s| == 0 then [] else (if s[0] > t then [s[0]] else []) + After(s[1..], t)
  }

  lemma {:induction false} AfterIncreasing(s: seq<nat>, t: int)
    requires StrictlyIncreasing(s)
    ensures StrictlyIncreasing(After(s, t))
  {
    if |s| > 0 {
      var rest := After(s[1..], t);
      AfterIncreasing(s[1..], t);
      forall k | 0 <= k < |rest| ensures s[0] < rest[k] {
        assert rest[k] in rest;
      }
      PrependIncreasing(s[0], rest);
    }
  }

  /** The peak selection of `ecg_rsa` (the branch on the counts and the diagnostic). */
  function AlignPeaks(peakColumn: seq<int>, onsets: seq<nat>): (r: Result<AlignedPeaks, AlignmentError>)
    ensures r.Failure? <==> |onsets| == 0
    ensures r.Success? ==> forall p: nat :: p in r.value.peaks ==>
      p > onsets[0] && p < |peakColumn| && peakColumn[p] == 1
    ensures r.Success? ==> StrictlyIncreasing(r.value.peaks)
    ensures r.Success? ==> (r.value.countMismatch <==> |r.value.peaks| != |onsets| - 1)
  {
    if |onsets| == 0 then Failure(NoInspirationOnset)
    else
      var kept := After(RespiratoryPeaks(peakColumn), onsets[0]);
      AfterIncreasing(RespiratoryPeaks(peakColumn), onsets[0]);
      var trimmed := if |kept| == |onsets| then kept[..|kept| - 1] else kept;
      assert forall k :: 0 <= k < |trimmed| ==> trimmed[k] in kept;
      Success(AlignedPeaks(trimmed, |trimmed| - |onsets| != -1))
  }

  /**
   * The trimming removes at most the last peak: the result is the list of marked peaks
   * after the first onset, minus its last entry exactly when the counts were equal
   * (after which no diagnostic fires), and otherwise the whole list, diagnostic or not.
   */
  lemma TrimDropsOnlyLastPeak(peakColumn: seq<int>, onsets: seq<nat>)
    requires |onsets| > 0
    ensures var kept, r := After(RespiratoryPeaks(peakColumn), onsets[0]), AlignPeaks(peakColumn, onsets).value;
      && (|kept| == |onsets| ==> r.peaks + [kept[|kept| - 1]] == kept && !r.countMismatch)
      && (|kept| != |onsets| ==> r.peaks == kept)
  {
    var kept := After(RespiratoryPeaks(peakColumn), onsets[0]);
    if |kept| == |onsets| {
      assert kept[..|kept| - 1] + [kept[|kept| - 1]] == kept;
    }
  }

  /** Every marked peak after the first onset is kept, except possibly the last one. */
  lemma KeepsAllButPossiblyLast(peakColumn: seq<int>, onsets: seq<nat>, p: nat)
    requires |onsets| > 0
    requires p < |peakColumn| && peakColumn[p] == 1 && p > onsets[0]
    ensures var kept := After(RespiratoryPeaks(peakColumn), onsets[0]);
      p in AlignPeaks(peakColumn, onsets).value.peaks || (|kept| == |onsets| && p == kept[|kept| - 1])
  {
    var kept := After(RespiratoryPeaks(peakColumn), onsets[0]);
    assert p in kept;
    var k :| 0 <= k < |kept| && kept[k] == p;
    if |kept| == |onsets| && k < |kept| - 1 {
      assert kept[..|kept| - 1][k] == p;
    }
  }
}
