/**
 * The handful of array primitives the RSA engine uses (np.where, np.intersect1d,
 * np.diff, np.max, np.min and element-wise comparison/division), stated on sequences.
 */
module ArrayOps {

  /** Every element is smaller than every later one. */
  predicate StrictlyIncreasing(s: seq<int>)
  {
    forall i, j :: 0 <= i < j < |s| ==> s[i] < s[j]
  }

  /** Every element is at most every later one (a sorted index list). */
  predicate NonDecreasing(s: seq<int>)
  {
    forall i, j :: 0 <= i < j < |s| ==> s[i] <= s[j]
  }

  /** The element-wise comparison `column == v`. */
  function EqualsMask(column: seq<int>, v: int): (m: seq<bool>)
    ensures |m| == |column|
    ensures forall i :: 0 <= i < |m| ==> (m[i] <==> column[i] == v)
  {
    seq(|column|, i requires 0 <= i < |column| => column[i] == v)
  }

  /** `np.where(mask)[0]`: the positions holding true, in increasing order. */
  function Where(mask: seq<bool>): (r: seq<nat>)
    ensures forall i: nat :: i in r <==> i < |mask| && mask[i]
    ensures forall k :: 0 <= k < |r| ==> r[k] < |mask|
    ensures StrictlyIncreasing(r)
  {
    if |mask| == 0 then []
    else
      var front := Where(mask[..|mask| - 1]);
      assert forall i: nat :: i < |mask| - 1 ==> mask[..|mask| - 1][i] == mask[i];
      front + (if mask[|mask| - 1] then [|mask| - 1] else [])
  }

  /**
   * `np.intersect1d(a, b, assume_unique=True)`: the values present in both inputs.
   * For a strictly increasing `a` (as produced by `Where`) the result is sorted and
   * free of duplicates, as numpy's is (lemma IntersectIncreasing).
   */
  function Intersect(a: seq<nat>, b: seq<nat>): (r: seq<nat>)
    ensures forall x: nat :: x in r <==> x in a && x in b
  {
    if |a| == 0 then []
    else (if a[0] in b then [a[0]] else []) + Intersect(a[1..], b)
  }

  lemma {:induction false} IntersectIncreasing(a: seq<nat>, b: seq<nat>)
    requires StrictlyIncreasing(a)
    ensures StrictlyIncreasing(Intersect(a, b))
  {
    if |a| > 0 {
      var rest := Intersect(a[1..], b);
      IntersectIncreasing(a[1..], b);
      forall k | 0 <= k < |rest| ensures a[0] < rest[k] {
        assert rest[k] in rest;
      }
      PrependIncreasing(a[0], rest);
    }
  }

  /** Putting a value below every element in front of a strictly increasing sequence keeps it so. */
  lemma PrependIncreasing(x: int, s: seq<int>)
    requires StrictlyIncreasing(s)
    requires forall k :: 0 <= k < |s| ==> x < s[k]
    ensures StrictlyIncreasing([x] + s)
  {
  }

  /** `np.diff(s)`: the forward differences of consecutive entries. */
  function Diff(s: seq<int>): (d: seq<int>)
    ensures |d| == if |s| == 0 then 0 else |s| - 1
    ensures forall k :: 0 <= k < |d| ==> d[k] == s[k + 1] - s[k]
  {
    if |s| <= 1 then [] else [s[1] - s[0]] + Diff(s[1..])
  }

  /** The element-wise division `d / rate`. */
  function Scale(d: seq<int>, rate: real): (r: seq<real>)
    requires rate > 0.0
    ensures |r| == |d|
  {
    if |d| == 0 then [] else [d[0] as real / rate] + Scale(d[1..], rate)
  }

  lemma {:induction false} ScaleAt(d: seq<int>, rate: real)
    requires rate > 0.0
    ensures forall k :: 0 <= k < |d| ==> Scale(d, rate)[k] == d[k] as real / rate
  {
    if |d| > 0 {
      ScaleAt(d[1..], rate);
    }
  }

  /** A position of a largest entry (its value is `np.max`); see ArgMaxIsMax. */
  function ArgMax(s: seq<real>): (k: nat)
    requires |s| > 0
    ensures k < |s|
  {
    if |s| == 1 then 0
    else
      var t := ArgMax(s[1..]) + 1;
      if s[0] >= s[t] then 0 else t
  }

  /** A position of a smallest entry (its value is `np.min`); see ArgMinIsMin. */
  function ArgMin(s: seq<real>): (k: nat)
    requires |s| > 0
    ensures k < |s|
  {
    if |s| == 1 then 0
    else
      var t := ArgMin(s[1..]) + 1;
      if s[0] <= s[t] then 0 else t
  }

  lemma {:induction false} ArgMaxIsMax(s: seq<real>)
    requires |s| > 0
    ensures forall j :: 0 <= j < |s| ==> s[j] <= s[ArgMax(s)]
  {
    if |s| > 1 {
      ArgMaxIsMax(s[1..]);
    }
  }

  lemma {:induction false} ArgMinIsMin(s: seq<real>)
    requires |s| > 0
    ensures forall j :: 0 <= j < |s| ==> s[ArgMin(s)] <= s[j]
  {
    if |s| > 1 {
      ArgMinIsMin(s[1..]);
    }
  }

  /** Adjacent slices join into one. */
  lemma SliceJoin<T>(s: seq<T>, a: nat, b: nat, c: nat)
    requires a <= b <= c <= |s|
    ensures s[a..b] + s[b..c] == s[a..c]
  {
  }

  /** Two strictly increasing sequences with the same elements are the same sequence. */
  lemma {:induction false} IncreasingDeterminedByElements(a: seq<int>, b: seq<int>)
    requires StrictlyIncreasing(a) && StrictlyIncreasing(b)
    requires forall x :: x in a <==> x in b
    ensures a == b
  {
    if |a| > 0 {
      assert a[0] in a;
      assert a[0] in b;
    }
    if |b| > 0 {
      assert b[0] in b;
      assert b[0] in a;
    }
    if |a| > 0 {
      assert a[0] == b[0] by {
        assert a[0] in b;
        assert b[0] in a;
      }
      forall x
        ensures x in a[1..] <==> x in b[1..]
      {
        if x in a[1..] {
          assert x in a && x > a[0];
        }
        if x in b[1..] {
          assert x in b && x > b[0];
        }
      }
      IncreasingDeterminedByElements(a[1..], b[1..]);
      assert a == [a[0]] + a[1..];
      assert b == [b[0]] + b[1..];
    }
  }
}
