# Maximum pairwise product

A Dafny model of `algo_toolbox/week1/max_pairwise.py`. The file computes the
largest product `a*b` of two values at distinct positions of a sequence of
non-negative integers. The model contains two of its strategies, both in module
`PairwiseProduct` (`max_pairwise.dfy`):

- **`max_pairwise_naive`**, the brute-force oracle, is modelled literally as
  `max(map(product, combinations(s, 2)))`. `Pairs` enumerates the pairs of
  values at positions `i < j` in the same order as `combinations(s, 2)`.
  `Products` maps each pair to its product. `MaxOf` is Python's `max` on a
  non-empty sequence. `MaxPairwiseNaive` composes the three.
- **`max_pairwise`**, the linear scan, is the imperative method `MaxPairwise`.
  Its `for` loop runs over the input and updates the two locals `first` and
  `second`, with the same two tests (`x > second`, then `x >= first`) and the
  same two updates as the source. The sentinel `float('-inf')` that both locals
  start from is the constructor `NegInf` of datatype `Bound`. Every integer is
  above it, so the loop takes the same branches as the source on every input.
  Ghost out-parameters give the positions `first` and `second` were read from
  and the number of comparisons made. The method returns only the product.

The loop invariant is the "top two" property `TopTwoUpTo` on the prefix read so
far, witnessed by two ghost positions `fi` and `si`:

- `first` is the maximum of the prefix.
- `second` is the maximum of the prefix once position `fi` is removed.
- `fi` and `si` are two distinct positions.

Ties go to the shift branch (`x >= first`). That rule decides which positions
`first` and `second` are read from, not their values: with `x > first` in its
place, an equal value would take the other branch and become `second`, so a
repeated maximum fills both locals either way. For a non-negative input the
product of the two is the oracle's result (`ScanAgreesWithNaive`). The scan's postcondition therefore says that it
agrees with the oracle.

In Python the input list is only read. Here it is a `seq<int>`, which is an
immutable value, so no model member can change it.

## Model

| member | source | states |
|---|---|---|
| `PairwiseProduct.MaxPairwiseNaive` | algo_toolbox/week1/max_pairwise.py:22-35 | the oracle, `MaxOf(Products(Pairs(s)))`; it requires at least two elements, and its meaning is given by `NaiveUpperBound` and `NaiveAttained` |
| `PairwiseProduct.Pairs` | algo_toolbox/week1/max_pairwise.py:32 | `combinations(s, 2)`: the pairs of values at positions `i < j`, in lexicographic order of positions; `PairsComplete` and `PairsSound` give its meaning |
| `PairwiseProduct.Products` | algo_toolbox/week1/max_pairwise.py:30-33 | the `map` of the pair product over the pairs, in the same order |
| `PairwiseProduct.Bound` | algo_toolbox/week1/max_pairwise.py:43 | the sentinel `float('-inf')` as the constructor `NegInf`, below every integer; `Above` and `AtLeast` are the comparisons `x > b` and `x >= b` of lines 46-47 |
| `PairwiseProduct.MaxOf` | algo_toolbox/week1/max_pairwise.py:35 | `max` of a non-empty sequence returns one of its elements, and no element is larger |
| `PairwiseProduct.PairsComplete` | algo_toolbox/week1/max_pairwise.py:32 | every pair of positions `i < j` appears among the enumerated pairs as `(s[i], s[j])` |
| `PairwiseProduct.PairsSound` | algo_toolbox/week1/max_pairwise.py:32 | every enumerated pair is `(s[i], s[j])` for some positions `i < j` |
| `PairwiseProduct.PairsNonEmpty` | algo_toolbox/week1/max_pairwise.py:30-35 | with at least two elements there is at least one pair, so `max` is defined. The oracle requires at least two elements |
| `PairwiseProduct.NaiveUpperBound` | algo_toolbox/week1/max_pairwise.py:30-35 | for every pair of positions `i < j`, `s[i]*s[j]` is at most the oracle's result |
| `PairwiseProduct.NaiveAttained` | algo_toolbox/week1/max_pairwise.py:30-35 | the oracle's result equals `s[i]*s[j]` for some positions `i < j` |
| `PairwiseProduct.NaiveNonNegative` | algo_toolbox/week1/max_pairwise.py:18-19 | on a non-negative sequence the oracle's result is non-negative |
| `PairwiseProduct.NaiveOfPair` | algo_toolbox/week1/max_pairwise.py:30-35 | for `[a, b]` and `[b, a]` the oracle returns `a*b` |
| `PairwiseProduct.TopTwoValues` | algo_toolbox/week1/max_pairwise.py:45-50 | given the positions of the top two, `first` is `max` of the sequence, `second` is `max` of the sequence with one occurrence of `first` removed, and `second <= first` |
| `PairwiseProduct.TopTwoIsNaive` | algo_toolbox/week1/max_pairwise.py:22-52 | on a non-negative sequence, the product of the top two equals the oracle's result |
| `PairwiseProduct.DuplicateMaximum` | algo_toolbox/week1/max_pairwise.py:32-35 | a maximum value at two distinct positions gives its square (e.g. `[5, 5, 3]` gives 25) |
| `PairwiseProduct.MaxPairwise` | algo_toolbox/week1/max_pairwise.py:38-52 | the scan returns `s[top]*s[next]` for top-two positions `top != next` of the whole sequence; for `[a, b]` it returns `a*b`; on a non-negative sequence it equals the oracle's result and is non-negative; it makes between `n` and `2n` comparisons in total for a sequence of `n` elements, the at most `2n` comparisons of line 7 |
| `PairwiseProduct.ScanAgreesWithNaive` | algo_toolbox/week1/max_pairwise.py:22-52 | on a non-negative sequence, the product of the top two that the scan returns is the oracle's result and is non-negative |
| `PairwiseProduct.TiedScenario` | algo_toolbox/week1/max_pairwise.py:45-52 | on `[100, 1, 1, 100]`, where the maximum occurs twice, the scan returns 10000 |
| `PairwiseProduct.NaivePermutationInvariant` | algo_toolbox/week1/max_pairwise.py:30-35 | rearranging the sequence does not change the oracle's result |
| `PairwiseProduct.NaiveMonotone` | algo_toolbox/week1/max_pairwise.py:30-35 | on a non-negative sequence, raising one element never lowers the oracle's result |
| `PairwiseProduct.DemoOneTo200000` | algo_toolbox/week1/max_pairwise.py:68-73 | for the integers 1 to 200000 the oracle's result is `200000 * 199999 = 39999800000` |
| `PairwiseProduct.DemoScan` | algo_toolbox/week1/max_pairwise.py:69-71 | the scan, as the demonstration calls it on the integers 1 to 200000, returns `39999800000` |

## Left out

- `max_pairwise_numpy` (lines 55-65) is left out. It delegates to numpy's `argpartition` and `product`, which are foreign code. Its specification, the product of the two largest values, is the one `TopTwoIsNaive` proves equal to the oracle's.
- The `__main__` block (lines 68-73) only prints. Its value on the scan is the method `DemoScan`.
- The `NewType` aliases (lines 18-19) are not run-time checks. Non-negativity is the predicate `NonNegative`. The scan assumes it only to conclude agreement with the oracle and a non-negative result. Its top-two property holds for any integers.
- Inputs shorter than two elements are excluded by `requires |s| >= 2` on `MaxPairwiseNaive` and `MaxPairwise`. On such inputs Python's `max` raises `ValueError` for the oracle. The scan returns a float built from the sentinel under IEEE arithmetic: `-inf` for one positive element, `nan` for `[0]`, and `inf` for none (and for one negative element). Neither strategy returns an integer.
- The `2N-3` comparison bound in the comment at lines 41-42 is for an initialisation from the first two elements, which the source does not implement. The model proves the bound of at most `2n` comparisons from line 7 for the scan as written.
- The "minimize number of comparisons" variant named in the docstring is not implemented in the source.
- Python integers are unbounded, and so are Dafny's `int`, so no overflow is modelled.
- The concrete inputs `[1, 2, 3]`, `[0, 0, 0]` and `[5, 5, 3]` have no scenario members of their own. They are instances of `TopTwoIsNaive` and `DuplicateMaximum`.
