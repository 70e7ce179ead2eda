/**
 * Model of `Bytes\Helpers\Random\Random`: a weighted population in which
 * the value at 0-based position `i` of the iterated range (or list) is
 * appended `i + 2` times, and a draw of one element of that population.
 */
module Random {
  import opened Wrappers

  // ---------------------------------------------------------------------
  // PHP builtins the class relies on

  /** PHP `range($lo, $hi)` with step 1: ascending when `lo <= hi`, otherwise descending. */
  function PhpRange(lo: int, hi: int): (r: seq<int>)
    ensures |r| == (if lo <= hi then hi - lo else lo - hi) + 1
    ensures forall i :: 0 <= i < |r| ==> r[i] == if lo <= hi then lo + i else lo - i
    decreases if lo <= hi then hi - lo else lo - hi
  {
    if lo == hi then [lo]
    else if lo < hi then [lo] + PhpRange(lo + 1, hi)
    else [lo] + PhpRange(lo - 1, hi)
  }

  /** `array_values(array_reverse($values))` on a list. */
  function Reverse<T>(s: seq<T>): (r: seq<T>)
    ensures |r| == |s|
    ensures forall i :: 0 <= i < |s| ==> r[i] == s[|s| - 1 - i]
  {
    if s == [] then [] else Reverse(s[1..]) + [s[0]]
  }

  // ---------------------------------------------------------------------
  // Specification of the weighted population

  /** `k` copies of `x`. */
  function Repeat<T>(x: T, k: nat): (r: seq<T>)
    ensures |r| == k
    ensures forall i :: 0 <= i < k ==> r[i] == x
  {
    if k == 0 then [] else Repeat(x, k - 1) + [x]
  }

  /**
   * The population built from `values`: every element, in order, repeated
   * once per element of `range(0, index + 1)`, that is `index + 2` times.
   * Its length is the triangular sum `n(n+3)/2`.
   */
  function Weighted<T>(values: seq<T>): (r: seq<T>)
    ensures 2 * |r| == |values| * (|values| + 3)
  {
    if values == [] then []
    else
      var n := |values|;
      Weighted(values[..n - 1]) + Repeat(values[n - 1], n + 1)
  }

  /** Position of the first copy of the element at index `i` in the population. */
  function Offset(i: nat): nat
  {
    if i == 0 then 0 else Offset(i - 1) + i + 1
  }

  /** What `getWeightedArray($values, $weightedHigher)` returns. */
  function WeightedArray<T>(values: seq<T>, weightedHigher: bool): (r: seq<T>)
    ensures 2 * |r| == |values| * (|values| + 3)
  {
    Weighted(if weightedHigher then values else Reverse(values))
  }

  /** What `getRandomWeightedNumberRange($min, $max, $weightedHigher)` returns or throws. */
  function WeightedRange(min: int, max: int, weightedHigher: bool): (r: Result<seq<int>>)
    ensures min == max ==> r == Ok([min])
    ensures r.Err? <==> max < min
    ensures r.Err? ==> r.exception == BadMethodCallException
    ensures min < max ==> r.Ok? && |r.value| >= 5
  {
    if min == max then Ok([min])
    else if max < min then Err(BadMethodCallException)
    else if weightedHigher then Ok(Weighted(PhpRange(min, max)))
    else Ok(Weighted(PhpRange(max, min)))
  }

  ghost predicate Distinct<T>(s: seq<T>)
  {
    forall i, j :: 0 <= i < j < |s| ==> s[i] != s[j]
  }

  predicate NonDecreasing(s: seq<int>)
  {
    forall i, j :: 0 <= i < j < |s| ==> s[i] <= s[j]
  }

  predicate NonIncreasing(s: seq<int>)
  {
    forall i, j :: 0 <= i < j < |s| ==> s[i] >= s[j]
  }

  // ---------------------------------------------------------------------
  // The class's methods

  /** The nested `foreach` loops shared by both builders. */
  method AppendWeighted<T>(values: seq<T>) returns (weightedRandom: seq<T>)
    ensures weightedRandom == Weighted(values)
  {
    weightedRandom := [];
    var index := 0;
    while index < |values|
      invariant 0 <= index <= |values|
      invariant weightedRandom == Weighted(values[..index])
    {
      var value := values[index];
      // foreach (range(0, $index + 1) as $q): index + 2 iterations
      var q := 0;
      while q <= index + 1
        invariant 0 <= q <= index + 2
        invariant weightedRandom == Weighted(values[..index]) + Repeat(value, q)
      {
        weightedRandom := weightedRandom + [value];
        q := q + 1;
      }
      assert values[..index + 1][..index] == values[..index];
      index := index + 1;
    }
    assert values[..index] == values;
  }

  /** `getRandomWeightedNumberRange`: the equality check runs before the order check. */
  method GetRandomWeightedNumberRange(min: int, max: int, weightedHigher: bool) returns (r: Result<seq<int>>)
    ensures min == max ==> r == Ok([min])
    ensures r.Err? <==> max < min
    ensures r == WeightedRange(min, max, weightedHigher)
  {
    if min == max {
      return Ok([min]);
    }
    if max < min {
      return Err(BadMethodCallException);
    }
    var lo, hi := min, max;
    if !weightedHigher {
      var temp := lo;
      lo := hi;
      hi := temp;
    }
    var weightedRandom := AppendWeighted(PhpRange(lo, hi));
    return Ok(weightedRandom);
  }

  /** `getWeightedArray` on a list: optionally reversed, then weighted. */
  method GetWeightedArray<T>(values: seq<T>, weightedHigher: bool) returns (weightedRandom: seq<T>)
    ensures weightedRandom == WeightedArray(values, weightedHigher)
  {
    var vs := values;
    if !weightedHigher {
      vs := Reverse(vs);
    }
    weightedRandom := AppendWeighted(vs);
  }

  /**
   * `getRandomWeightedNumber`: `Arr::random` over the population, modelled as
   * an arbitrary choice of one of its indices.
   */
  method GetRandomWeightedNumber(min: int, max: int, weightedHigher: bool) returns (r: Result<int>)
    ensures r.Err? <==> max < min
    ensures r.Ok? ==> WeightedRange(min, max, weightedHigher).Ok? && r.value in WeightedRange(min, max, weightedHigher).value
    ensures r.Ok? ==> min <= r.value <= max
    ensures min == max ==> r == Ok(min)
  {
    var population := GetRandomWeightedNumberRange(min, max, weightedHigher);
    if population.Err? {
      return Err(population.exception);
    }
    WeightedRangeMembers(min, max, weightedHigher);
    var index :| 0 <= index < |population.value|;
    r := Ok(population.value[index]);
  }

  // ---------------------------------------------------------------------
  // Properties of the population

  lemma {:induction false} OffsetClosedForm(i: nat)
    ensures 2 * Offset(i) == i * (i + 3)
  {
    if i > 0 {
      OffsetClosedForm(i - 1);
    }
  }

  lemma {:induction false} RepeatMultiset<T>(x: T, k: nat)
    ensures multiset(Repeat(x, k)) == multiset{}[x := k]
  {
    if k > 0 {
      RepeatMultiset(x, k - 1);
    }
  }

  /** `r` holds the elements of `s` in order, the one at index `i` as a run of `i + 2` copies. */
  ghost predicate Runs<T>(r: seq<T>, s: seq<T>)
  {
    forall i :: 0 <= i < |s| ==> Offset(i) + i + 2 <= |r| && r[Offset(i)..Offset(i) + i + 2] == Repeat(s[i], i + 2)
  }

  /** The element at index `i` occupies the `i + 2` positions from `Offset(i)` on. */
  lemma {:induction false} WeightedRuns<T>(values: seq<T>)
    ensures Runs(Weighted(values), values)
  {
    if values != [] {
      var n := |values|;
      var prefix := values[..n - 1];
      var w, rep := Weighted(prefix), Repeat(values[n - 1], n + 1);
      WeightedRuns(prefix);
      OffsetClosedForm(n - 1);
      forall i | 0 <= i < n
        ensures Offset(i) + i + 2 <= |w + rep| && (w + rep)[Offset(i)..Offset(i) + i + 2] == Repeat(values[i], i + 2)
      {
        if i < n - 1 {
          assert prefix[i] == values[i];
          assert (w + rep)[Offset(i)..Offset(i) + i + 2] == w[Offset(i)..Offset(i) + i + 2];
        } else {
          assert (w + rep)[Offset(i)..Offset(i) + i + 2] == rep;
        }
      }
    }
  }

  /** Every element of the population comes from the input, and every input element occurs. */
  lemma {:induction false} WeightedMembers<T>(values: seq<T>)
    ensures forall x :: x in Weighted(values) <==> x in values
  {
    if values != [] {
      var n := |values|;
      var prefix := values[..n - 1];
      WeightedMembers(prefix);
      assert values == prefix + [values[n - 1]];
      assert values[n - 1] in Repeat(values[n - 1], n + 1);
    }
  }

  /** A value that is not in the input is not in the population. */
  lemma {:induction false} WeightedCountAbsent<T>(values: seq<T>, x: T)
    requires x !in values
    ensures multiset(Weighted(values))[x] == 0
  {
    if values != [] {
      var n := |values|;
      var prefix := values[..n - 1];
      assert values == prefix + [values[n - 1]];
      WeightedCountAbsent(prefix, x);
      RepeatMultiset(values[n - 1], n + 1);
    }
  }

  /** With distinct inputs, the element at index `i` has exactly `i + 2` copies. */
  lemma {:induction false} WeightedCountAt<T>(values: seq<T>, i: nat)
    requires Distinct(values) && i < |values|
    ensures multiset(Weighted(values))[values[i]] == i + 2
  {
    var n := |values|;
    var prefix := values[..n - 1];
    var last := values[n - 1];
    RepeatMultiset(last, n + 1);
    assert multiset(Weighted(values)) == multiset(Weighted(prefix)) + multiset(Repeat(last, n + 1));
    if i == n - 1 {
      assert last !in prefix by {
        forall j | 0 <= j < n - 1 ensures prefix[j] != last {
          assert prefix[j] == values[j];
        }
      }
      WeightedCountAbsent(prefix, last);
    } else {
      assert Distinct(prefix) by {
        forall j, k | 0 <= j < k < |prefix| ensures prefix[j] != prefix[k] {
          assert prefix[j] == values[j] && prefix[k] == values[k];
        }
      }
      assert prefix[i] == values[i] && values[i] != last;
      WeightedCountAt(prefix, i);
    }
  }

  /** A non-decreasing input gives a non-decreasing population. */
  lemma {:induction false} WeightedNonDecreasing(values: seq<int>)
    requires NonDecreasing(values)
    ensures NonDecreasing(Weighted(values))
  {
    if values != [] {
      var n := |values|;
      var prefix := values[..n - 1];
      var last := values[n - 1];
      WeightedNonDecreasing(prefix);
      WeightedMembers(prefix);
      var w, rep := Weighted(prefix), Repeat(last, n + 1);
      forall i, j | 0 <= i < j < |w + rep| ensures (w + rep)[i] <= (w + rep)[j] {
        if i < |w| {
          assert w[i] in prefix;
          if j >= |w| {
            var p :| 0 <= p < |prefix| && prefix[p] == w[i];
            assert values[p] == w[i];
          }
        }
      }
    }
  }

  /** A non-increasing input gives a non-increasing population. */
  lemma {:induction false} WeightedNonIncreasing(values: seq<int>)
    requires NonIncreasing(values)
    ensures NonIncreasing(Weighted(values))
  {
    if values != [] {
      var n := |values|;
      var prefix := values[..n - 1];
      var last := values[n - 1];
      WeightedNonIncreasing(prefix);
      WeightedMembers(prefix);
      var w, rep := Weighted(prefix), Repeat(last, n + 1);
      forall i, j | 0 <= i < j < |w + rep| ensures (w + rep)[i] >= (w + rep)[j] {
        if i < |w| {
          assert w[i] in prefix;
          if j >= |w| {
            var p :| 0 <= p < |prefix| && prefix[p] == w[i];
            assert values[p] == w[i];
          }
        }
      }
    }
  }

  // ---------------------------------------------------------------------
  // Properties of getWeightedArray

  /**
   * After the optional reversal the element at index `i` appears `i + 2`
   * times, in order, and the length is `n(n+3)/2`. Weighted lower, the
   * element at index `i` of the reversed list is the one at `n - 1 - i`.
   */
  lemma WeightedArrayShape<T>(values: seq<T>, weightedHigher: bool)
    ensures 2 * |WeightedArray(values, weightedHigher)| == |values| * (|values| + 3)
    ensures Runs(WeightedArray(values, weightedHigher), if weightedHigher then values else Reverse(values))
    ensures !weightedHigher ==> forall i :: 0 <= i < |values| ==> Reverse(values)[i] == values[|values| - 1 - i]
  {
    WeightedRuns(if weightedHigher then values else Reverse(values));
  }

  /** No special case for short lists: empty stays empty, one element gets two copies. */
  lemma WeightedArrayShortLists<T>(x: T, weightedHigher: bool)
    ensures var empty: seq<T> := []; WeightedArray(empty, weightedHigher) == empty
    ensures WeightedArray([x], weightedHigher) == [x, x]
  {
    assert Reverse([x]) == [x];
    assert [x][..0] == [];
    assert Repeat(x, 2) == [x, x];
  }

  // ---------------------------------------------------------------------
  // Properties of getRandomWeightedNumberRange

  lemma PhpRangeReversed(min: int, max: int)
    requires min <= max
    ensures Reverse(PhpRange(min, max)) == PhpRange(max, min)
  {
    var up, down := PhpRange(min, max), PhpRange(max, min);
    forall i | 0 <= i < |down| ensures Reverse(up)[i] == down[i] {
      assert Reverse(up)[i] == up[|up| - 1 - i];
    }
  }

  /** For `min < max` the range builder is the array builder applied to `range($min, $max)`. */
  lemma RangeIsWeightedArray(min: int, max: int, weightedHigher: bool)
    requires min < max
    ensures WeightedRange(min, max, weightedHigher) == Ok(WeightedArray(PhpRange(min, max), weightedHigher))
  {
    PhpRangeReversed(min, max);
  }

  /** The two builders agree on `[m, m + 1]`, in both directions. */
  lemma PairAgrees(m: int, weightedHigher: bool)
    ensures WeightedRange(m, m + 1, weightedHigher) == Ok(WeightedArray([m, m + 1], weightedHigher))
  {
    RangeIsWeightedArray(m, m + 1, weightedHigher);
    assert PhpRange(m, m + 1) == [m, m + 1];
  }

  /** Whenever `min <= max` the population is exactly the integers of `[min, max]`. */
  lemma WeightedRangeMembers(min: int, max: int, weightedHigher: bool)
    requires min <= max
    ensures WeightedRange(min, max, weightedHigher).Ok?
    ensures forall x :: x in WeightedRange(min, max, weightedHigher).value <==> min <= x <= max
  {
    if min < max {
      var s := if weightedHigher then PhpRange(min, max) else PhpRange(max, min);
      WeightedMembers(s);
      forall x | min <= x <= max ensures x in s {
        assert s[if weightedHigher then x - min else max - x] == x;
      }
    }
  }

  /** `range($lo, $hi)` lists each integer between the bounds once. */
  lemma PhpRangeFacts(lo: int, hi: int)
    ensures Distinct(PhpRange(lo, hi))
    ensures lo <= hi ==> NonDecreasing(PhpRange(lo, hi))
    ensures hi <= lo ==> NonIncreasing(PhpRange(lo, hi))
  {
  }

  /** The multiplicity of each value in a weighted `range($lo, $hi)`. */
  lemma RangeMultiplicity(lo: int, hi: int, x: int)
    ensures multiset(Weighted(PhpRange(lo, hi)))[x] ==
      if lo <= x <= hi then x - lo + 2
      else if hi <= x <= lo then lo - x + 2
      else 0
  {
    var s := PhpRange(lo, hi);
    PhpRangeFacts(lo, hi);
    if lo <= x <= hi {
      assert s[x - lo] == x;
      WeightedCountAt(s, x - lo);
    } else if hi <= x <= lo {
      assert s[lo - x] == x;
      WeightedCountAt(s, lo - x);
    } else {
      WeightedCountAbsent(s, x);
    }
  }

  /** With `n = max - min + 1` values the population has `n(n+3)/2` elements, in both directions. */
  lemma WeightedRangeLength(min: int, max: int, weightedHigher: bool)
    requires min < max
    ensures WeightedRange(min, max, weightedHigher).Ok?
    ensures 2 * |WeightedRange(min, max, weightedHigher).value| == (max - min + 1) * (max - min + 4)
  {
    var s := if weightedHigher then PhpRange(min, max) else PhpRange(max, min);
    assert |s| == max - min + 1;
    assert 2 * |Weighted(s)| == |s| * (|s| + 3);
  }

  /**
   * Weighted higher, `min < max`: runs of `min`, `min + 1`, ..., `max`, the
   * value at index `i` of `range($min, $max)` (that is `min + i`) as a run of
   * `i + 2` copies; value `x` exactly `x - min + 2` times; non-decreasing;
   * length `n(n+3)/2` with `n = max - min + 1`.
   */
  lemma WeightedHigherShape(min: int, max: int)
    requires min < max
    ensures WeightedRange(min, max, true).Ok?
    ensures Runs(WeightedRange(min, max, true).value, PhpRange(min, max))
    ensures forall x :: multiset(WeightedRange(min, max, true).value)[x] == if min <= x <= max then x - min + 2 else 0
    ensures NonDecreasing(WeightedRange(min, max, true).value)
  {
    var s := PhpRange(min, max);
    var r := Weighted(s);
    assert WeightedRange(min, max, true) == Ok(r);
    WeightedRuns(s);
    forall x ensures multiset(r)[x] == if min <= x <= max then x - min + 2 else 0 {
      RangeMultiplicity(min, max, x);
    }
    PhpRangeFacts(min, max);
    WeightedNonDecreasing(s);
  }

  /**
   * Weighted lower, `min < max`: runs of `max`, `max - 1`, ..., `min`, the
   * value at index `i` of `range($max, $min)` (that is `max - i`) as a run of
   * `i + 2` copies; value `x` exactly `max - x + 2` times, so `min` is the
   * most repeated; non-increasing; length `n(n+3)/2`.
   */
  lemma WeightedLowerShape(min: int, max: int)
    requires min < max
    ensures WeightedRange(min, max, false).Ok?
    ensures Runs(WeightedRange(min, max, false).value, PhpRange(max, min))
    ensures forall x :: multiset(WeightedRange(min, max, false).value)[x] == if min <= x <= max then max - x + 2 else 0
    ensures NonIncreasing(WeightedRange(min, max, false).value)
  {
    var s := PhpRange(max, min);
    var r := Weighted(s);
    assert WeightedRange(min, max, false) == Ok(r);
    WeightedRuns(s);
    forall x ensures multiset(r)[x] == if min <= x <= max then max - x + 2 else 0 {
      RangeMultiplicity(max, min, x);
    }
    PhpRangeFacts(max, min);
    WeightedNonIncreasing(s);
  }

  /** The weighted-higher case of the test suite: `(1, 2)` gives `[1, 1, 2, 2, 2]` from both builders. */
  lemma WeightsHigherExample()
    ensures WeightedRange(1, 2, true) == Ok([1, 1, 2, 2, 2])
    ensures WeightedArray([1, 2], true) == [1, 1, 2, 2, 2]
  {
    assert PhpRange(1, 2) == [1, 2];
    assert [1, 2][..1] == [1];
    assert Repeat(1, 2) == [1, 1] && Repeat(2, 3) == [2, 2, 2];
    assert Weighted([1]) == [1, 1];
    assert Weighted([1, 2]) == Weighted([1]) + Repeat(2, 3);
    assert [1, 1] + [2, 2, 2] == [1, 1, 2, 2, 2];
  }

  /** The weighted-lower case of the test suite: `(1, 2)` gives `[2, 2, 1, 1, 1]` from both builders. */
  lemma WeightsLowerExample()
    ensures WeightedRange(1, 2, false) == Ok([2, 2, 1, 1, 1])
    ensures WeightedArray([1, 2], false) == [2, 2, 1, 1, 1]
  {
    assert PhpRange(2, 1) == [2, 1];
    assert Reverse([1, 2]) == [2, 1];
    assert [2, 1][..1] == [2];
    assert Repeat(2, 2) == [2, 2] && Repeat(1, 3) == [1, 1, 1];
    assert Weighted([2]) == [2, 2];
    assert Weighted([2, 1]) == Weighted([2]) + Repeat(1, 3);
    assert [2, 2] + [1, 1, 1] == [2, 2, 1, 1, 1];
  }
}
