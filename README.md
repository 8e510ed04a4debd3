# Respiratory sinus arrhythmia: the discrete peak-to-trough engine

This project models the index-based core of NeuroKit's RSA computation
(`neurokit2/ecg/ecg_rsa.py`) and proves properties of it in Dafny 4.11.

RSA is the variation of heart period that follows the breathing cycle. The
peak-to-trough (P2T) method works in four steps:

1. Find the respiratory cycles. An inspiration (or expiration) onset is a sample
   whose `RSP_Phase` is 1 (or 0) and whose `RSP_Phase_Completion` is 0.
   Consecutive inspiration onsets delimit one cycle.
2. Bucket the R-peaks (heartbeat sample indices) of each cycle. A beat belongs to a
   cycle when it lies in the half-open window `[onset_i, onset_{i+1})`.
3. Compute each cycle's estimate from its inter-beat intervals in seconds
   (`diff / sampling_rate`): the longest interval minus the shortest. A cycle with
   at most one interval (fewer than three beats) gets NaN.
4. Summarise. `RSA_P2T_NoRSA` counts the NaN cycles and `RSA_P2T_Mean` averages
   the others.

Before P2T runs, the respiratory peaks after the first inspiration onset are
selected, and the last one is dropped when there are as many peaks as onsets. The
input check picks the heart-rate column (`ECG_Rate`, else `ECG_R_Peaks`, else
an error) and the respiration series (`RSP_Clean`, else `RSP_Raw`, else `RSP`,
else none).

Modules, one per part of the source:

- `Wrappers`: `Option` (NaN, absent column) and `Result` (raised errors).
- `ArrayOps`: the numpy primitives the code uses, as sequence functions:
  `np.where`, `np.intersect1d`, `np.diff`, `np.max`/`np.min` (as arg-max/arg-min),
  element-wise `==` and element-wise division.
- `RsaCycles`: `_ecg_rsa_cycles`. Pure functions.
- `PeakToTrough`: the discrete part of `_ecg_rsa_p2t`. The two loops of the source
  are imperative methods. The first appends to a sequence. The second fills a
  NaN-initialised array in place. Both are proved against the specification
  functions `BeatsIn` and `CycleValue`. The summary statistics are functions.
- `PeakAlignment`: the respiratory-peak trimming of `ecg_rsa` (lines 132-138).
- `FormatInput`: the column selections of `_ecg_rsa_formatinput`.
- `EcgRsa`: the P2T path of `ecg_rsa` (non-continuous mode), composing the above.

Modelling choices:

- Phase labels are integers. A label other than 0 or 1 stands for a sample without
  a phase, such as the NaN before the first detected breath.
- Phase completion is reduced to the flag "completion == 0".
- NaN estimates are `None`.
- Arithmetic is exact (`int` for sample indices, `real` for seconds).
- The sampling rate is a positive real.
- A table is its columns in order, each a name and a series.
- The "cycle/peak count mismatch" message is the boolean `countMismatch`. It is
  computed exactly where the source prints the message, and it changes nothing else.
- An estimate needs more than one interval, so a cycle needs at least three beats
  (`len(RRis) > 1`, line 179). A cycle with two beats has one interval and gets NaN.
  The model follows this code.

## Model

| member | source | states |
|---|---|---|
| ArrayOps.EqualsMask | neurokit2/ecg/ecg_rsa.py:305-311 | the element-wise comparison `column == v`: same length, and entry i holds iff the column's entry i equals v |
| ArrayOps.Where | neurokit2/ecg/ecg_rsa.py:305-311 | `np.where(mask)[0]`: a position is in the result iff the mask holds there; the result is strictly increasing and within bounds |
| ArrayOps.Intersect | neurokit2/ecg/ecg_rsa.py:305-311 | `intersect1d`: a value is in the result iff it is in both inputs |
| ArrayOps.IntersectIncreasing | neurokit2/ecg/ecg_rsa.py:305-307 | intersecting a strictly increasing index list gives a strictly increasing (sorted, duplicate-free) list, as numpy does |
| ArrayOps.Diff | neurokit2/ecg/ecg_rsa.py:313 | `np.diff`: one entry fewer than the input (none for an empty input), each the difference of two consecutive entries |
| ArrayOps.IncreasingDeterminedByElements | neurokit2/ecg/ecg_rsa.py:305-307 | two strictly increasing lists with the same elements are equal, so an onset list is fixed by its membership condition |
| ArrayOps.Scale | neurokit2/ecg/ecg_rsa.py:178 | the element-wise division `d / sampling_rate` has one entry per difference |
| ArrayOps.ScaleAt | neurokit2/ecg/ecg_rsa.py:178 | entry k of the division is entry k of the differences divided by the rate |
| ArrayOps.ArgMax | neurokit2/ecg/ecg_rsa.py:180 | a position inside a non-empty sequence; with ArgMaxIsMax, the position of its largest entry (`np.max`) |
| ArrayOps.ArgMaxIsMax | neurokit2/ecg/ecg_rsa.py:180 | no entry exceeds the entry at ArgMax |
| ArrayOps.ArgMin | neurokit2/ecg/ecg_rsa.py:180 | a position inside a non-empty sequence; with ArgMinIsMin, the position of its smallest entry (`np.min`) |
| ArrayOps.ArgMinIsMin | neurokit2/ecg/ecg_rsa.py:180 | no entry is below the entry at ArgMin |
| RsaCycles.PhaseOnsets | neurokit2/ecg/ecg_rsa.py:305-311 | the onsets of a phase are exactly the samples with that phase label and completion 0, strictly increasing and in range |
| RsaCycles.ExtractCycles | neurokit2/ecg/ecg_rsa.py:301-319 | inspiration onsets are exactly the samples with phase 1 and completion 0, expiration onsets those with phase 0 and completion 0; both strictly increasing; no sample is both; cycle lengths number one fewer than the inspiration onsets and each is the positive gap to the next onset |
| RsaCycles.OnsetsAreWhereBothHold | neurokit2/ecg/ecg_rsa.py:305-311 | the intersection the code computes equals `np.where` of the conjunction of the two conditions |
| RsaCycles.CycleLengthsSpanOnsets | neurokit2/ecg/ecg_rsa.py:313 | the first n-1 cycle lengths add up to the distance from the first onset to the n-th |
| RsaCycles.PhaseExample | neurokit2/ecg/ecg_rsa.py:301-319 | phases 1,1,1,0,0,0,1,1,0,0 with phase starts at samples 0, 3, 6 and 8 give inspiration onsets [0, 6], expiration onsets [3, 8] and cycle lengths [6] |
| PeakToTrough.CycleCount | neurokit2/ecg/ecg_rsa.py:169 | `len(range(len(rsp_onsets) - 1))`: one fewer than the onsets, and 0 for no onset |
| PeakToTrough.BeatsIn | neurokit2/ecg/ecg_rsa.py:172 | every beat assigned to the window [lo, hi) lies in it; an empty or inverted window holds no beat |
| PeakToTrough.BeatsInMembership | neurokit2/ecg/ecg_rsa.py:172 | a beat is in a cycle iff it is one of the R-peaks and lies in the cycle's half-open window |
| PeakToTrough.BeatsInConcat | neurokit2/ecg/ecg_rsa.py:172 | bucketing distributes over concatenation of the beat list, so beats keep their original order |
| PeakToTrough.CyclesOrdered | neurokit2/ecg/ecg_rsa.py:169-172 | with non-decreasing onsets every beat of an earlier cycle is smaller than every beat of a later cycle, so the cycles' beat sets are pairwise disjoint |
| PeakToTrough.BeatsInSlice | neurokit2/ecg/ecg_rsa.py:172 | for a sorted beat list a cycle's beats are one contiguous run of that list |
| PeakToTrough.AdjacentCyclesJoin | neurokit2/ecg/ecg_rsa.py:169-172 | two adjacent cycles together hold exactly the beats of their joined window, in order |
| PeakToTrough.CyclesCoverSpan | neurokit2/ecg/ecg_rsa.py:169-172 | for sorted onsets and R-peaks, the cycles' beats, read cycle after cycle, are exactly the beats from the first onset up to the last onset (excluded), in their original order |
| PeakToTrough.Intervals | neurokit2/ecg/ecg_rsa.py:178 | a cycle of n beats has n-1 intervals (none when empty) |
| PeakToTrough.IntervalsAt | neurokit2/ecg/ecg_rsa.py:178 | each interval is the gap between two consecutive beats divided by the sampling rate |
| PeakToTrough.Spread | neurokit2/ecg/ecg_rsa.py:180 | `np.max(RRis) - np.min(RRis)` is never negative; CycleValueIsIntervalSpread states it is the largest difference of two intervals |
| PeakToTrough.CycleValue | neurokit2/ecg/ecg_rsa.py:176-180 | a cycle's estimate is defined iff the cycle has more than one interval (at least three beats); a defined estimate is never negative |
| PeakToTrough.CycleValueIsIntervalSpread | neurokit2/ecg/ecg_rsa.py:180 | a defined estimate is max(intervals) - min(intervals): no two intervals differ by more, and some two differ by exactly that much |
| PeakToTrough.CollectCycles | neurokit2/ecg/ecg_rsa.py:168-172 | the first loop yields one beat list per consecutive onset pair (none with fewer than two onsets), each the beats of that pair's window |
| PeakToTrough.EstimateCycles | neurokit2/ecg/ecg_rsa.py:175-180 | the second loop, over a NaN-filled array, leaves each cycle's entry equal to its estimate: NaN unless the cycle has more than one interval |
| PeakToTrough.P2TValues | neurokit2/ecg/ecg_rsa.py:168-180 | exactly one value per consecutive onset pair (none with fewer than two onsets); value i is the estimate of the beats in [onset_i, onset_{i+1}); the whole array is `Estimates` of the onsets and R-peaks |
| PeakToTrough.Defined | neurokit2/ecg/ecg_rsa.py:183 | the non-NaN estimates: x is among them iff some cycle's estimate is x |
| PeakToTrough.DefinedCounts | neurokit2/ecg/ecg_rsa.py:183 | each value occurs among the defined estimates exactly as many times as cycles have it as their estimate, so repeated estimates keep their weight in the mean |
| PeakToTrough.NoRsa | neurokit2/ecg/ecg_rsa.py:186 | the NaN count plus the number of defined estimates is the number of cycles; it is 0 iff every cycle has an estimate |
| PeakToTrough.NanMean | neurokit2/ecg/ecg_rsa.py:183 | the mean is NaN iff no estimate is defined; otherwise it times the number of defined estimates equals their sum |
| PeakToTrough.Summarize | neurokit2/ecg/ecg_rsa.py:182-186 | NoRSA is at most the number of cycles, and the mean is NaN iff every cycle is NaN |
| PeakToTrough.NoRsaCountsSparseCycles | neurokit2/ecg/ecg_rsa.py:176-186 | `RSA_P2T_NoRSA` of the per-cycle estimates is the number of cycles holding fewer than three beats |
| PeakToTrough.MeanWithinBounds | neurokit2/ecg/ecg_rsa.py:183 | the mean lies within any bounds that every defined estimate lies within |
| PeakToTrough.MeanNonNegative | neurokit2/ecg/ecg_rsa.py:183 | the mean of never-negative estimates is never negative |
| PeakToTrough.MeanIgnoresUndefined | neurokit2/ecg/ecg_rsa.py:183 | a NaN cycle at any position does not change the mean: the mean of `a + [NaN] + b` is that of `a + b` |
| PeakToTrough.DefinedConcat | neurokit2/ecg/ecg_rsa.py:183 | dropping the NaN entries of two joined estimate lists gives the joined lists of their defined estimates |
| PeakToTrough.SummaryOfEstimates | neurokit2/ecg/ecg_rsa.py:168-186 | for the estimates P2T computes, NoRSA counts the cycles with fewer than three beats and the mean is not negative |
| PeakToTrough.ConstantIntervalsGiveZero | neurokit2/ecg/ecg_rsa.py:178-180 | a cycle whose intervals are all equal has estimate 0 or none |
| PeakToTrough.EvenCycleGivesZero | neurokit2/ecg/ecg_rsa.py:178-180 | a cycle of evenly spaced beats has estimate 0 or none |
| PeakToTrough.EvenBeatsGiveZero | neurokit2/ecg/ecg_rsa.py:170-180 | for evenly spaced R-peaks (constant heart period), every cycle's estimate is 0 or none |
| PeakAlignment.RespiratoryPeaks | neurokit2/ecg/ecg_rsa.py:132 | the respiratory peaks are exactly the samples marked 1 in `RSP_Peaks`, strictly increasing |
| PeakAlignment.After | neurokit2/ecg/ecg_rsa.py:133 | `s[s > t]`: a value is kept iff it is in the list and above the threshold |
| PeakAlignment.AfterIncreasing | neurokit2/ecg/ecg_rsa.py:133 | the filter keeps a strictly increasing list strictly increasing |
| PeakAlignment.AlignPeaks | neurokit2/ecg/ecg_rsa.py:132-138 | with no inspiration onset the selection fails (the `rsp_onsets[0]` IndexError); otherwise every kept peak is a marked peak strictly after the first onset, the peaks are increasing, and the mismatch diagnostic fires iff the peak count is not one less than the onset count |
| PeakAlignment.TrimDropsOnlyLastPeak | neurokit2/ecg/ecg_rsa.py:135-138 | when the filtered count equals the onset count exactly the last peak is removed and no diagnostic fires; otherwise the filtered list is returned unchanged, diagnostic or not |
| PeakAlignment.KeepsAllButPossiblyLast | neurokit2/ecg/ecg_rsa.py:133-136 | every marked peak after the first onset is kept, except the last one when the counts were equal |
| FormatInput.ContainsTextOccurs | neurokit2/ecg/ecg_rsa.py:329-334 | Python's substring test `pattern in col`: it holds iff the pattern occurs at some position of the name |
| FormatInput.RespirationRank | neurokit2/ecg/ecg_rsa.py:377-382 | the priority order of the respiration columns: rank 0 iff `RSP_Clean`, 1 iff `RSP_Raw`, 2 iff `RSP`, 3 for every other name |
| FormatInput.FirstColumnContaining | neurokit2/ecg/ecg_rsa.py:329-334 | `[col for col in columns if pattern in col][0]`: the first column whose name contains the pattern, none iff no name does |
| FormatInput.HeartRateSource | neurokit2/ecg/ecg_rsa.py:328-340 | a column whose name contains `ECG_Rate` is used (the first one) whenever one exists; the rate comes from the R-peaks iff there is none but a name contains `ECG_R_Peaks`; the input error is raised iff neither exists |
| FormatInput.Lookup | neurokit2/ecg/ecg_rsa.py:377-382 | a column of exactly the given name is present iff a series is returned, and the series is that column's |
| FormatInput.RespirationSignal | neurokit2/ecg/ecg_rsa.py:376-384 | none iff no column is named `RSP_Clean`, `RSP_Raw` or `RSP`; otherwise the series of such a column whose rank is not beaten by any present column (`RSP_Clean` before `RSP_Raw` before `RSP`) |
| EcgRsa.EcgRsaP2T | neurokit2/ecg/ecg_rsa.py:127-151 | fails with the input error when no heart-rate column exists and otherwise with the alignment error iff there is no inspiration onset; on success NoRSA counts the cycles with fewer than three beats, the mean is the nanmean of the per-cycle estimates `Estimates` (NaN iff every cycle is, and not negative), and the peaks are those of the alignment |

## Left out

- Porges-Bohrer estimator `_ecg_rsa_pb` (lines 197-229): it is built on resampling and Savitzky-Golay/band-pass filtering routines whose code is not part of this model, and on floating-point variance and logarithms.
- `RSA_P2T_Mean_log` and `RSA_P2T_SD` (lines 184-185): a natural logarithm and a square root on floating point; only the mean and the NaN count are modelled.
- Continuous mode (lines 154, 188-192): the interpolation routine `signal_interpolate` is not part of this model. The aligned peaks are computed, but their use as interpolation abscissae is not modelled.
- Surrogate respiration (lines 341-364): deriving a respiration signal from the ECG (`ecg_rsp`, `rsp_process`) and the "two `RSP_Phase` columns" test that triggers it are not modelled. These routines are not part of this model.
- HeartRateSource: when only `ECG_R_Peaks` exists the rate is derived by `signal_rate` (line 336), which is not part of this model; the result is the tag `RateFromRPeaks`.
- R-peak sanitising `_signal_formatpeaks_sanitize` (lines 366-372) and its error are not part of this model; R-peaks enter as a list of sample indices.
- Tuple unwrapping and non-DataFrame inputs (lines 324-328) and the column-wise `pd.concat` (line 374) are not modelled; the respiratory columns enter as equal-length sequences of the aligned table.
- RespirationSignal and HeartRateSource: pandas returns a sub-table when two columns share the chosen name (lines 378-382, and `ecg_signals[ecg_cols[0]]` at line 331); the model takes one column of that name.
- Printed warnings: the peak-count message is the boolean `countMismatch`; the surrogate warning is not modelled.
- The commented-out experimental estimators (lines 232-295) are dead code.
- `neurokit2/signal/signal_distort.py` is not modelled: it generates seeded random noise and sinusoids and resamples through external routines, with no discrete core.
- Floating point: intervals, estimates and the mean are exact reals. NaN is `None`, and the all-NaN mean (numpy's NaN with a runtime warning) is `None`.
- P2TValues: it requires a positive sampling rate. The source, given a zero rate, would divide by zero and produce infinities or NaN.
