/**
 * The P2T path of `ecg_rsa`: check the cardiac columns, extract the respiratory
 * cycles, align the respiratory peaks, estimate RSA per cycle and summarise.
 */
module EcgRsa {
  import opened Wrappers
  import opened ArrayOps
  import opened RsaCycles
  import opened PeakToTrough
  import opened PeakAlignment
  import opened FormatInput

  /** The errors that abort the computation. */
  datatype RsaError = InputFailure(inputError: InputError) | AlignmentFailure(alignmentError: AlignmentError)

  /** The non-continuous P2T features together with the aligned peaks. */
  datatype P2TFeatures = P2TFeatures(mean: Option<real>, noRsa: nat, peaks: AlignedPeaks)

  /**
   * `ecg_rsa(..., continuous=False)` restricted to the P2T features. The respiratory
   * columns `RSP_Phase`, `RSP_Phase_Completion == 0` and `RSP_Peaks` of the aligned
   * table are given directly, together with the R-peak sample indices.
   */
  method EcgRsaP2T(ecg: Table, phase: seq<int>, completionZero: seq<bool>, peakColumn: seq<int>,
                   rpeaks: seq<int>, samplingRate: real) returns (r: Result<P2TFeatures, RsaError>)
    requires |phase| == |completionZero|
    requires samplingRate > 0.0
    ensures HeartRateSource(ecg).Failure? ==> r == Failure(InputFailure(NoHeartRateSignal))
    ensures var onsets := ExtractCycles(phase, completionZero).inspirationOnsets;
      HeartRateSource(ecg).Success? ==>
        && (r.Failure? <==> |onsets| == 0)
        && (r.Failure? ==> r.error == AlignmentFailure(NoInspirationOnset))
        && (r.Success? ==>
              && r.value.noRsa == SparseCycles(onsets, rpeaks)
              && r.value.noRsa <= |onsets| - 1
              && (r.value.mean.None? <==> r.value.noRsa == |onsets| - 1)
              && r.value.mean == NanMean(Estimates(onsets, rpeaks, samplingRate))
              && (r.value.mean.Some? ==> r.value.mean.value >= 0.0)
              && Success(r.value.peaks) == AlignPeaks(peakColumn, onsets))
  {
    var source := HeartRateSource(ecg);
    if source.Failure? {
      return Failure(InputFailure(source.error));
    }
    var cycles := ExtractCycles(phase, completionZero);
    var onsets := cycles.inspirationOnsets;
    var aligned := AlignPeaks(peakColumn, onsets);
    if aligned.Failure? {
      return Failure(AlignmentFailure(aligned.error));
    }
    var values := P2TValues(onsets, rpeaks, samplingRate);
    var summary := Summarize(values);
    SummaryOfEstimates(onsets, rpeaks, samplingRate, values);
    r := Success(P2TFeatures(summary.mean, summary.noRsa, aligned.value));
  }
}
