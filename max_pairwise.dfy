/** Maximum pairwise product of a sequence of non-negative integers: the largest
    value of a*b over two values taken at distinct positions of the sequence.
    Two strategies: a brute-force oracle over all pairs of positions, and a
    linear scan that keeps the two largest values seen so far. */
module PairwiseProduct {

  /** The domain of both strategies: every element is at least 0. */
  predicate NonNegative(s: seq<int>)
  {
    forall k :: 0 <= k < |s| ==> s[k] >= 0
  }

  // ---------------------------------------------------------------------------
  // The brute-force oracle: max(map(product, combinations(s, 2)))
  // ---------------------------------------------------------------------------

  /** The unordered pairs of values at positions i < j, in the order the pairs
      of positions are enumerated: (0,1), (0,2), ..., (1,2), ... */
  function Pairs(s: seq<int>): seq<(int, int)>
    decreases |s|
  {
    if |s| == 0 then []
    else seq(|s| - 1, k requires 0 <= k < |s| - 1 => (s[0], s[k + 1])) + Pairs(s[1..])
  }

  /** The product of each pair, in the same order. */
  function Products(ps: seq<(int, int)>): seq<int>
  {
    seq(|ps|, k requires 0 <= k < |ps| => ps[k].0 * ps[k].1)
  }

  /** The largest element of a non-empty sequence. */
  function MaxOf(xs: seq<int>): (m: int)
    requires |xs| > 0
    ensures m in xs
    ensures forall k :: 0 <= k < |xs| ==> xs[k] <= m
    decreases |xs|
  {
    if |xs| == 1 then xs[0]
    else
      var rest := MaxOf(xs[1..]);
      if xs[0] >= rest then xs[0] else rest
  }

  /** The brute-force result. Needs two elements: the maximum of no products
      is undefined. */
  function MaxPairwiseNaive(s: seq<int>): int
    requires |s| >= 2
  {
    PairsNonEmpty(s);
    MaxOf(Products(Pairs(s)))
  }

  lemma PairsNonEmpty(s: seq<int>)
    requires |s| >= 2
    ensures |Pairs(s)| > 0
  {
  }

  /** Every pair of positions i < j is enumerated. */
  lemma {:induction false} PairsComplete(s: seq<int>, i: int, j: int)
    requires 0 <= i < j < |s|
    ensures (s[i], s[j]) in Pairs(s)
    decreases |s|
  {
    var head := seq(|s| - 1, k requires 0 <= k < |s| - 1 => (s[0], s[k + 1]));
    assert Pairs(s) == head + Pairs(s[1..]);
    if i == 0 {
      assert head[j - 1] == (s[i], s[j]);
    } else {
      PairsComplete(s[1..], i - 1, j - 1);
      assert (s[1..][i - 1], s[1..][j - 1]) == (s[i], s[j]);
    }
  }

  /** Only pairs of positions i < j are enumerated. */
  lemma {:induction false} PairsSound(s: seq<int>, p: (int, int))
    requires p in Pairs(s)
    ensures exists i, j :: 0 <= i < j < |s| && p == (s[i], s[j])
    decreases |s|
  {
    var head := seq(|s| - 1, k requires 0 <= k < |s| - 1 => (s[0], s[k + 1]));
    assert Pairs(s) == head + Pairs(s[1..]);
    if p in head {
      var k :| 0 <= k < |head| && head[k] == p;
      assert 0 < k + 1 < |s| && p == (s[0], s[k + 1]);
    } else {
      PairsSound(s[1..], p);
      var i, j :| 0 <= i < j < |s| - 1 && p == (s[1..][i], s[1..][j]);
      assert 0 <= i + 1 < j + 1 < |s| && p == (s[i + 1], s[j + 1]);
    }
  }

  /** Upper bound: no product of two distinct positions exceeds the oracle. */
  lemma NaiveUpperBound(s: seq<int>, i: int, j: int)
    requires 0 <= i < j < |s|
    ensures s[i] * s[j] <= MaxPairwiseNaive(s)
  {
    PairsComplete(s, i, j);
    var ps := Pairs(s);
    var k :| 0 <= k < |ps| && ps[k] == (s[i], s[j]);
    assert Products(ps)[k] == s[i] * s[j];
  }

  /** Attainment: the oracle is the product of two distinct positions, so
      equal values at two positions are paired with each other. */
  lemma NaiveAttained(s: seq<int>)
    requires |s| >= 2
    ensures exists i, j :: 0 <= i < j < |s| && MaxPairwiseNaive(s) == s[i] * s[j]
  {
    PairsNonEmpty(s);
    var ps := Pairs(s);
    var m := MaxPairwiseNaive(s);
    var k :| 0 <= k < |ps| && Products(ps)[k] == m;
    PairsSound(s, ps[k]);
  }

  /** On the domain, the oracle's result is non-negative. */
  lemma NaiveNonNegative(s: seq<int>)
    requires |s| >= 2 && NonNegative(s)
    ensures MaxPairwiseNaive(s) >= 0
  {
  }

  /** Two elements: the result is their product, whatever their order. */
  lemma NaiveOfPair(a: int, b: int)
    ensures MaxPairwiseNaive([a, b]) == a * b
    ensures MaxPairwiseNaive([b, a]) == a * b
  {
    NaiveAttained([a, b]);
    NaiveAttained([b, a]);
  }

  lemma MulMonotone(a: int, b: int, c: int, d: int)
    requires 0 <= a <= c && 0 <= b <= d
    ensures a * b <= c * d
  {
  }

  // ---------------------------------------------------------------------------
  // The two largest values, by position
  // ---------------------------------------------------------------------------

  /** Positions i and j hold "the two largest values" of the prefix s[..n]:
      i != j, s[i] is the maximum of the prefix, and s[j] is the maximum of
      the prefix once position i is removed. Duplicates of the maximum are
      kept apart because positions are used. */
  predicate TopTwoUpTo(s: seq<int>, n: int, i: int, j: int)
  {
    0 <= n <= |s| && 0 <= i < n && 0 <= j < n && i != j &&
    (forall k :: 0 <= k < n ==> s[k] <= s[i]) &&
    (forall k :: 0 <= k < n && k != i ==> s[k] <= s[j])
  }

  /** The two largest values of the whole sequence. */
  predicate IsTopTwo(s: seq<int>, i: int, j: int)
  {
    TopTwoUpTo(s, |s|, i, j)
  }

  /** The sequence with position i removed. */
  function RemoveAt(s: seq<int>, i: int): seq<int>
    requires 0 <= i < |s|
  {
    s[..i] + s[i + 1..]
  }

  /** Top two by value: the first is the maximum, the second the maximum of
      what is left after removing one occurrence of the first. */
  lemma TopTwoValues(s: seq<int>, i: int, j: int)
    requires IsTopTwo(s, i, j)
    ensures s[i] == MaxOf(s)
    ensures s[j] == MaxOf(RemoveAt(s, i))
    ensures s[j] <= s[i]
  {
    var r := RemoveAt(s, i);
    var jr := if j < i then j else j - 1;
    assert r[jr] == s[j];
    var m := MaxOf(r);
    var q :| 0 <= q < |r| && r[q] == m;
    assert m == s[if q < i then q else q + 1];
    assert r[jr] <= m;
  }

  /** On the domain, the product of the top two is the oracle's result. */
  lemma TopTwoIsNaive(s: seq<int>, i: int, j: int)
    requires NonNegative(s) && IsTopTwo(s, i, j)
    ensures s[i] * s[j] == MaxPairwiseNaive(s)
  {
    if i < j { NaiveUpperBound(s, i, j); } else { NaiveUpperBound(s, j, i); }
    NaiveAttained(s);
    var p, q :| 0 <= p < q < |s| && MaxPairwiseNaive(s) == s[p] * s[q];
    if p == i {
      MulMonotone(s[q], s[p], s[j], s[i]);
    } else {
      MulMonotone(s[p], s[q], s[j], s[i]);
    }
  }

  /** Duplicate maxima: a maximum value at two positions yields its square,
      e.g. [5, 5, 3] gives 25. */
  lemma DuplicateMaximum(s: seq<int>, i: int, j: int)
    requires NonNegative(s)
    requires 0 <= i < |s| && 0 <= j < |s| && i != j && s[i] == s[j]
    requires forall k :: 0 <= k < |s| ==> s[k] <= s[i]
    ensures MaxPairwiseNaive(s) == s[i] * s[i]
  {
    TopTwoIsNaive(s, i, j);
  }

  // ---------------------------------------------------------------------------
  // The linear scan
  // ---------------------------------------------------------------------------

  /** A running maximum: an integer, or the "unset" negative infinity both
      running maxima start from. */
  datatype Bound = NegInf | Fin(value: int)

  /** x > b, with every integer above NegInf. */
  predicate Above(x: int, b: Bound)
  {
    match b
    case NegInf => true
    case Fin(v) => x > v
  }

  /** x >= b, with every integer above NegInf. */
  predicate AtLeast(x: int, b: Bound)
  {
    match b
    case NegInf => true
    case Fin(v) => x >= v
  }

  /** One pass keeping `first` (the largest value seen) and `second` (the
      largest value seen besides one occurrence of `first`). An element that
      ties `first` takes the shift branch. That choice decides which
      positions are kept, not which values: a repeated maximum ends up in
      both `first` and `second` whichever branch an equal value takes.
      The ghost `top` and `next` are the positions `first` and `second` were
      read from; the ghost `comparisons` counts the comparisons made: one or
      two per element. */
  method MaxPairwise(s: seq<int>)
    returns (r: int, ghost top: nat, ghost next: nat, ghost comparisons: nat)
    requires |s| >= 2
    ensures IsTopTwo(s, top, next) && r == s[top] * s[next]
    ensures |s| == 2 ==> r == s[0] * s[1]
    ensures NonNegative(s) ==> r == MaxPairwiseNaive(s) && r >= 0
    ensures |s| <= comparisons <= 2 * |s|
  {
    var first, second := NegInf, NegInf;
    ghost var fi, si := 0, 0;
    comparisons := 0;
    for n := 0 to |s|
      invariant n == 0 ==> first == NegInf && second == NegInf
      invariant n == 1 ==> fi == 0 && first == Fin(s[0]) && second == NegInf
      invariant n >= 2 ==> TopTwoUpTo(s, n, fi, si)
      invariant n >= 2 ==> first == Fin(s[fi]) && second == Fin(s[si])
      invariant n <= comparisons <= 2 * n
    {
      var x := s[n];
      comparisons := comparisons + 1;
      if Above(x, second) {
        comparisons := comparisons + 1;
        if AtLeast(x, first) {
          first, second := Fin(x), first;
          fi, si := n, fi;
        } else {
          second := Fin(x);
          si := n;
        }
      }
    }
    r := first.value * second.value;
    top, next := fi, si;
    if NonNegative(s) {
      ScanAgreesWithNaive(s, top, next, r);
    }
  }

  /** Agreement: on the domain, the product the scan returns, that of the top
      two, is the oracle's result, and it is non-negative. This is
      TopTwoIsNaive and NaiveNonNegative applied to the scan's result `r`,
      so that MaxPairwise can conclude agreement about the value it returns. */
  lemma ScanAgreesWithNaive(s: seq<int>, top: int, next: int, r: int)
    requires NonNegative(s) && IsTopTwo(s, top, next) && r == s[top] * s[next]
    ensures r == MaxPairwiseNaive(s) && r >= 0
  {
    TopTwoIsNaive(s, top, next);
    NaiveNonNegative(s);
  }

  // ---------------------------------------------------------------------------
  // Properties of the result as a function of the sequence
  // ---------------------------------------------------------------------------

  lemma MultisetRemoveAt(s: seq<int>, i: int)
    requires 0 <= i < |s|
    ensures multiset(RemoveAt(s, i)) == multiset(s) - multiset{s[i]}
  {
    assert s == s[..i] + [s[i]] + s[i + 1..];
    assert multiset(s) == multiset(s[..i]) + multiset{s[i]} + multiset(s[i + 1..]);
  }

  /** Two distinct positions of s have counterparts at two distinct positions
      of any rearrangement t of s. */
  lemma DistinctCounterparts(s: seq<int>, t: seq<int>, i: int, j: int)
    returns (p: int, q: int)
    requires multiset(s) == multiset(t)
    requires 0 <= i < |s| && 0 <= j < |s| && i != j
    ensures 0 <= p < |t| && 0 <= q < |t| && p != q
    ensures t[p] == s[i] && t[q] == s[j]
  {
    assert s[i] in multiset(s);
    assert s[i] in t;
    p :| 0 <= p < |t| && t[p] == s[i];
    MultisetRemoveAt(s, i);
    MultisetRemoveAt(t, p);
    var rs, rt := RemoveAt(s, i), RemoveAt(t, p);
    assert rs[if j < i then j else j - 1] == s[j];
    assert s[j] in multiset(rs);
    assert s[j] in rt;
    var q' :| 0 <= q' < |rt| && rt[q'] == s[j];
    q := if q' < p then q' else q' + 1;
  }

  lemma NaiveAtMostRearranged(s: seq<int>, t: seq<int>)
    requires |s| >= 2 && multiset(s) == multiset(t)
    ensures |t| >= 2
    ensures MaxPairwiseNaive(s) <= MaxPairwiseNaive(t)
  {
    assert |t| == |multiset(t)| == |multiset(s)| == |s|;
    NaiveAttained(s);
    var i, j :| 0 <= i < j < |s| && MaxPairwiseNaive(s) == s[i] * s[j];
    var p, q := DistinctCounterparts(s, t, i, j);
    if p < q {
      NaiveUpperBound(t, p, q);
    } else {
      NaiveUpperBound(t, q, p);
    }
  }

  /** Permutation invariance: rearranging the sequence does not change the
      result. */
  lemma NaivePermutationInvariant(s: seq<int>, t: seq<int>)
    requires |s| >= 2 && multiset(s) == multiset(t)
    ensures |t| >= 2
    ensures MaxPairwiseNaive(s) == MaxPairwiseNaive(t)
  {
    NaiveAtMostRearranged(s, t);
    NaiveAtMostRearranged(t, s);
  }

  /** Monotonicity: on the domain, raising one element never lowers the
      result. */
  lemma NaiveMonotone(s: seq<int>, k: int, v: int)
    requires |s| >= 2 && NonNegative(s)
    requires 0 <= k < |s| && s[k] <= v
    ensures MaxPairwiseNaive(s) <= MaxPairwiseNaive(s[k := v])
  {
    var t := s[k := v];
    NaiveAttained(s);
    var i, j :| 0 <= i < j < |s| && MaxPairwiseNaive(s) == s[i] * s[j];
    MulMonotone(s[i], s[j], t[i], t[j]);
    NaiveUpperBound(t, i, j);
  }

  // ---------------------------------------------------------------------------
  // Concrete scenarios
  // ---------------------------------------------------------------------------

  /** The integers 1 .. 200000, as in the demonstration. */
  function OneTo(n: nat): seq<int>
  {
    seq(n, k => k + 1)
  }

  /** The demonstration: for 1 .. 200000 the result is 200000 * 199999. */
  lemma DemoOneTo200000()
    ensures MaxPairwiseNaive(OneTo(200000)) == 39999800000
  {
    var s := OneTo(200000);
    assert IsTopTwo(s, 199999, 199998);
    TopTwoIsNaive(s, 199999, 199998);
  }

  /** The demonstration as it runs, on the scan: 1 .. 200000 gives
      200000 * 199999. */
  method DemoScan() returns (r: int)
    ensures r == 39999800000
  {
    ghost var top, next, comparisons;
    r, top, next, comparisons := MaxPairwise(OneTo(200000));
    DemoOneTo200000();
  }

  /** The scan on [100, 1, 1, 100]: the maximum occurs twice, and the
      result is 100 * 100. */
  method TiedScenario() returns (r: int)
    ensures r == 10000
  {
    ghost var top, next, comparisons;
    r, top, next, comparisons := MaxPairwise([100, 1, 1, 100]);
    DuplicateMaximum([100, 1, 1, 100], 0, 3);
  }
}
