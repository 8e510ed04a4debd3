/**
 * Input-column selection of `_ecg_rsa_formatinput`: which column supplies the heart
 * rate and which one the respiration signal. A signal table is its columns in order;
 * the heart-rate columns are found by substring match on the column name, the
 * respiration columns by exact name, each in a fixed priority.
 */
module FormatInput {
  import opened Wrappers

  datatype Column = Column(name: string, values: seq<real>)

  type Table = seq<Column>

  /** The source of the heart period: a rate column of the table, or the R-peak markers. */
  datatype HeartSource = RateColumn(values: seq<real>) | RateFromRPeaks

  /** "Wrong input, we couldn't extract heart rate signal." */
  datatype InputError = NoHeartRateSignal

  const RateName := "ECG_Rate"
  const RPeaksName := "ECG_R_Peaks"
  const CleanName := "RSP_Clean"
  const RawName := "RSP_Raw"
  const GenericName := "RSP"

  /** Whether `pattern` starts `s`. */
  predicate StartsWith(s: string, pattern: string)
  {
    |pattern| <= |s| && s[..|pattern|] == pattern
  }

  /** Python's `pattern in s` on strings: `pattern` occurs somewhere in `s`. */
  predicate ContainsText(s: string, pattern: string)
    decreases |s|
  {
    StartsWith(s, pattern) || (|s| > 0 && ContainsText(s[1..], pattern))
  }

  /** `pattern` occurs in `s` starting at position `i`. */
  predicate OccursAt(s: string, pattern: string, i: int)
  {
    0 <= i && i + |pattern| <= |s| && s[i..i + |pattern|] == pattern
  }

  /** `ContainsText` holds exactly when `pattern` occurs at some position of `s`. */
  lemma {:induction false} ContainsTextOccurs(s: string, pattern: string)
    ensures ContainsText(s, pattern) <==> exists i :: OccursAt(s, pattern, i)
    decreases |s|
  {
    if StartsWith(s, pattern) {
      assert s[0..|pattern|] == pattern;
      assert OccursAt(s, pattern, 0);
    }
    if |s| > 0 {
      var t := s[1..];
      ContainsTextOccurs(t, pattern);
      if ContainsText(t, pattern) {
        var i :| OccursAt(t, pattern, i);
        assert s[i + 1..i + 1 + |pattern|] == t[i..i + |pattern|];
        assert OccursAt(s, pattern, i + 1);
      }
      if exists i :: OccursAt(s, pattern, i) {
        var i :| OccursAt(s, pattern, i);
        if i > 0 {
          assert t[i - 1..i - 1 + |pattern|] == s[i..i + |pattern|];
          assert OccursAt(t, pattern, i - 1);
        } else {
          assert s[..|pattern|] == s[0..|pattern|];
        }
      }
    } else if exists i :: OccursAt(s, pattern, i) {
      var i :| OccursAt(s, pattern, i);
      assert s[..|pattern|] == s[i..i + |pattern|];
    }
  }

  /** The position of the first column whose name contains `pattern` (`[col for col in ... if pattern in col][0]`). */
  function FirstColumnContaining(t: Table, pattern: string): (r: Option<nat>)
    ensures r.None? <==> forall j :: 0 <= j < |t| ==> !ContainsText(t[j].name, pattern)
    ensures r.Some? ==> r.value < |t| && ContainsText(t[r.value].name, pattern)
    ensures r.Some? ==> forall j :: 0 <= j < r.value ==> !ContainsText(t[j].name, pattern)
  {
    if |t| == 0 then None
    else if ContainsText(t[0].name, pattern) then Some(0)
    else
      var rest := FirstColumnContaining(t[1..], pattern);
      assert forall j :: 1 <= j < |t| ==> t[j] == t[1..][j - 1];
      if rest.Some? then Some(rest.value + 1) else None
  }

  /** Lines 329-340: an `ECG_Rate` column is preferred, then `ECG_R_Peaks`, else an error. */
  function HeartRateSource(ecg: Table): (r: Result<HeartSource, InputError>)
    ensures r.Failure? <==>
      forall j :: 0 <= j < |ecg| ==> !ContainsText(ecg[j].name, RateName) && !ContainsText(ecg[j].name, RPeaksName)
    ensures (r.Success? && r.value.RateColumn?) <==> exists j :: 0 <= j < |ecg| && ContainsText(ecg[j].name, RateName)
    ensures r.Success? && r.value.RateColumn? ==>
      exists k :: 0 <= k < |ecg| && ContainsText(ecg[k].name, RateName) && ecg[k].values == r.value.values
               && forall j :: 0 <= j < k ==> !ContainsText(ecg[j].name, RateName)
    ensures r == Success(RateFromRPeaks) <==>
      && (forall j :: 0 <= j < |ecg| ==> !ContainsText(ecg[j].name, RateName))
      && (exists j :: 0 <= j < |ecg| && ContainsText(ecg[j].name, RPeaksName))
  {
    var rate := FirstColumnContaining(ecg, RateName);
    if rate.Some? then Success(RateColumn(ecg[rate.value].values))
    else if FirstColumnContaining(ecg, RPeaksName).Some? then Success(RateFromRPeaks)
    else Failure(NoHeartRateSignal)
  }

  /** `name in signals.columns`: the values of the first column with exactly this name. */
  function Lookup(t: Table, name: string): (r: Option<seq<real>>)
    ensures r.None? <==> forall j :: 0 <= j < |t| ==> t[j].name != name
    ensures r.Some? ==> exists j :: 0 <= j < |t| && t[j].name == name && t[j].values == r.value
  {
    if |t| == 0 then None
    else if t[0].name == name then Some(t[0].values)
    else
      var rest := Lookup(t[1..], name);
      assert forall j :: 1 <= j < |t| ==> t[j] == t[1..][j - 1];
      rest
  }

  /** The rank of a respiration column name: `RSP_Clean` before `RSP_Raw` before `RSP`; 3 for other columns. */
  function RespirationRank(name: string): (r: nat)
    ensures r <= 3
    ensures r == 0 <==> name == CleanName
    ensures r == 1 <==> name == RawName
    ensures r == 2 <==> name == GenericName
  {
    if name == CleanName then 0 else if name == RawName then 1 else if name == GenericName then 2 else 3
  }

  /**
   * Lines 377-384: the respiration signal comes from a respiration column of the best
   * rank present; there is none when no respiration column is present.
   */
  function RespirationSignal(signals: Table): (r: Option<seq<real>>)
    ensures r.None? <==> forall j :: 0 <= j < |signals| ==> RespirationRank(signals[j].name) == 3
    ensures r.Some? ==>
      exists k :: 0 <= k < |signals| && RespirationRank(signals[k].name) < 3 && signals[k].values == r.value
               && forall j :: 0 <= j < |signals| ==> RespirationRank(signals[k].name) <= RespirationRank(signals[j].name)
  {
    var clean := Lookup(signals, CleanName);
    if clean.Some? then clean
    else
      var raw := Lookup(signals, RawName);
      if raw.Some? then raw
      else Lookup(signals, GenericName)
  }
}
