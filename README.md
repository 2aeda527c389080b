# Lazy index ranges and storage-free permutations

A Dafny model of `torch/utils/data/_utils/index_utils.py`. It has three parts:

- a `Range` over the domain `[0, size)`. A window `(start, stop, step)` is kept in absolute logical positions and is reduced modulo `size` only when a position is looked up. The range offers length, bounds-checked indexing, slicing that composes, and an iteration cursor.
- trial-division primality and the choice of a prime modulus.
- a `Permutation` that shuffles `[0, size)` without storing a table. It composes the quadratic-residue permutation (qpr) on a prime `p`, a seed shift, and a single cycle-walk step.

## Layout

- `outcomes.dfy` (`Outcomes`): the Python exceptions as an `Error` datatype, plus `Option` and `Result`.
- `arith.dfy` (`Arith`): Python's floor modulo, multiplication and divisibility facts, and a pigeonhole lemma.
- `primes.dfy` (`Primes`): `Prime`, `_is_prime` as `IsPrime`, and `_get_prime` as `GetPrime`.
  - `GetPrime` ends without a fuel bound. `PrimeAbove` gives Euclid's argument: a prime factor of `4·n! − 1` that is 3 mod 4 exceeds `n`.
- `shuffle.dfy` (`Shuffle`): `_permute_qpr` as `PermuteQpr`, `_map` as `Map`, and `Permutation._get` as `Walk`. It also holds seed acceptance and the seed search.
- `views.dfy` (`Views`): the immutable part of an object, a `View` with `Len`, `At` and `Slice`.
  - Its `Resolver` is `Identity` (`Range._get`) or `Shuffled(prime, seed)` (`Permutation._get`).
  - This one datatype stands in for the subclass override.
- `construction.dfy` (`Construction`): `Range.__init__` and `Permutation.__init__`.
- `cursor.dfy` (`Ranges`): the class `Range`. Its `index` cursor is the one field the source updates in place.

Three points where the code's behaviour may not be what a reader expects; the model follows the code:
- The seed kept by a permutation is the first acceptable integer at or after the requested one. It is not reduced into `[0, prime)`.
- The size is not checked by `Range.__init__`. Indexing a range of size 0 therefore raises a division by zero, and a negative size follows Python's sign rule for `%`.
- `stop` may exceed `size`, so a window can hold more than `sys.maxsize` positions. The built-in `len()` then raises OverflowError, and every operation that calls it fails with it: indexing (once the index is known to be non-negative), slicing and `__next__`. The model takes the 64-bit value `Views.MaxSize` = 2^63 − 1 and keeps the order in which Python's chained comparisons call `len()`.

## Model

| member | source | states |
|---|---|---|
| `Construction.MakeRange` | torch/utils/data/_utils/index_utils.py:15-22 | missing bounds become start 0, stop size, step 1; AssertionError exactly when not 0 <= start <= stop and 0 < step; stop may exceed size |
| `Views.View.Len` | torch/utils/data/_utils/index_utils.py:24-27 | length is non-negative, 0 exactly when start == stop, and otherwise the n with (n-1)*step < stop-start <= n*step, that is ceil((stop - start) / step) |
| `Arith.PyMod` | torch/utils/data/_utils/index_utils.py:41 | Python's remainder: in [0, m) for m > 0, in (m, 0] for m < 0, and congruent to the dividend |
| `Views.View.At` | torch/utils/data/_utils/index_utils.py:38-43 | IndexError for i < 0; OverflowError for i >= 0 when len exceeds sys.maxsize; otherwise IndexError for i >= len; division by zero for size 0; otherwise, for size > 0, a value in [0, size), which for a plain range is congruent to start + i*step |
| `Views.View.Slice` | torch/utils/data/_utils/index_utils.py:29-36 | bounds default to (0, len, 1); OverflowError exactly when len exceeds sys.maxsize and either b is missing or a >= 0; otherwise IndexError unless 0 <= a <= len, a <= b <= len, c > 0; else a valid view with the same size and resolver, start+a*step, start+b*step, step*c |
| `Views.SliceLen` | torch/utils/data/_utils/index_utils.py:59-63 | a slice r[a:b:c] has ceil((b - a) / c) positions: none exactly when a == b, otherwise the n with (n-1)*c < b-a <= n*c; never more than b - a |
| `Views.SliceAt` | torch/utils/data/_utils/index_utils.py:59-63 | position i of r[a:b:c] is position a + i*c of r, which is in range |
| `Views.SliceWhole` | torch/utils/data/_utils/index_utils.py:30-36 | when len fits sys.maxsize, r[:] has the length and every element of r |
| `Views.SliceEmpty` | torch/utils/data/_utils/index_utils.py:34-36 | r[a:a:1] is a valid, empty slice |
| `Views.Elements` | torch/utils/data/_utils/index_utils.py:49-54 | the traversal sequence has len elements (none for an empty window, also over size 0); when len fits sys.maxsize, element i is the successful lookup of position i |
| `Views.PlainRangeElements` | torch/utils/data/_utils/index_utils.py:56-57 | a plain range with default bounds yields 0, 1, ..., size-1, and nothing for size 0 |
| `Ranges.Range.constructor` | torch/utils/data/_utils/index_utils.py:15-22 | a new object holds the given valid view with the cursor at 0 |
| `Ranges.Range.Iter` | torch/utils/data/_utils/index_utils.py:45-47 | the cursor is reset to 0 |
| `Ranges.Range.Next` | torch/utils/data/_utils/index_utils.py:49-54 | OverflowError when len exceeds sys.maxsize; otherwise StopIteration exactly when the cursor equals len, else the lookup at the cursor; the cursor advances by one exactly when the result is a value, and stays in [0, len] |
| `Ranges.Range.Collect` | torch/utils/data/_utils/index_utils.py:45-54 | OverflowError when len exceeds sys.maxsize; division by zero for a non-empty window over size 0; otherwise exactly [r[0], ..., r[len-1]] (empty for an empty window, over size 0 too), with the cursor left at len; on an error the cursor stays at 0, where `__iter__` put it |
| `Ranges.Range.Slice` | torch/utils/data/_utils/index_utils.py:104-111 | slicing an object gives a fresh valid object whose view is the sliced view, sharing size, prime and seed; the view's error otherwise |
| `Primes.IsPrime` | torch/utils/data/_utils/index_utils.py:67-77 | for n >= 0 the result is true exactly when n is prime |
| `Primes.FirstCandidate` | torch/utils/data/_utils/index_utils.py:118 | size + (3 - size % 4) is the least n >= size with n % 4 == 3 |
| `Primes.PrimeAbove` | torch/utils/data/_utils/index_utils.py:119-120 | above every n there is a prime that is 3 mod 4, so the candidate loop ends |
| `Primes.GetPrime` | torch/utils/data/_utils/index_utils.py:114-121 | returns the least prime >= size that is 3 mod 4 |
| `Primes.PrimeChoiceExamples` | torch/utils/data/_utils/index_utils.py:114-121 | the chosen prime is 7 for size 7, 11 for size 10, 3 for sizes 0 and 1 |
| `Shuffle.PermuteQpr` | torch/utils/data/_utils/index_utils.py:137-143 | for a prime p and 0 <= x < p, qpr(x) is in [0, p): the reflected residue is never p |
| `Shuffle.Map` | torch/utils/data/_utils/index_utils.py:129-135 | for a prime p the map lands in [0, p) for every integer argument and seed |
| `Shuffle.Walk` | torch/utils/data/_utils/index_utils.py:94-102 | with an acceptable seed, `_get` returns a value in [0, size) for every integer argument |
| `Views.Resolver.Get` | torch/utils/data/_utils/index_utils.py:94-102 | a permutation's `_get` lands in [0, size); a plain range's `_get` (lines 56-57) returns its argument |
| `Shuffle.QprThree` | torch/utils/data/_utils/index_utils.py:137-143 | qpr is injective on [0, 3) |
| `Shuffle.QprSeven` | torch/utils/data/_utils/index_utils.py:137-143 | qpr is injective on [0, 7) |
| `Shuffle.QprEleven` | torch/utils/data/_utils/index_utils.py:137-143 | qpr is injective on [0, 11) |
| `Shuffle.MapSeedMod` | torch/utils/data/_utils/index_utils.py:133 | the map depends on the seed only modulo p, negative seeds included |
| `Shuffle.MapInjectiveFromQpr` | torch/utils/data/_utils/index_utils.py:129-135 | if qpr is injective on [0, p), the map is injective on [0, p) for every seed |
| `Shuffle.WalkInjective` | torch/utils/data/_utils/index_utils.py:94-102 | if the map is injective on [0, p), size <= p and the seed is acceptable, `_get` is injective on [0, size) |
| `Shuffle.CheckSeed` | torch/utils/data/_utils/index_utils.py:124-125 | true exactly when every a in [size, p) maps below size |
| `Shuffle.GetSeed` | torch/utils/data/_utils/index_utils.py:123-127 | returns the first acceptable seed at or after the given one; None exactly when no integer seed is acceptable |
| `Shuffle.SeedSizeTen` | torch/utils/data/_utils/index_utils.py:123-127 | for size 10 and prime 11, seed 0 is rejected and seed 1 accepted |
| `Views.ShuffleIsPermutation` | torch/utils/data/_utils/index_utils.py:80-83 | if qpr is injective on [0, prime), a permutation with default bounds yields every index of [0, size) exactly once |
| `Construction.NewPermutationAsWritten` | torch/utils/data/_utils/index_utils.py:89-92 | AssertionError from the range checks; ValueError for a negative size; otherwise the derived least prime and first acceptable seed, or SeedSearchDiverges exactly when no seed is acceptable |
| `Construction.SmallSizesHaveNoSeed` | torch/utils/data/_utils/index_utils.py:123-127 | sizes 0 and 1 get prime 3, for which no seed is acceptable |
| `Construction.NewPermutation` | torch/utils/data/_utils/index_utils.py:89-92 | for size >= 2 as written: a successful result is shuffled by the least prime >= size that is 3 mod 4 and the first acceptable seed, and SeedSearchDiverges comes exactly when no seed is acceptable; sizes 0 and 1 keep the identity resolver, so a one-index permutation yields 0 at every position (when len fits sys.maxsize) |

## Left out

- `Primes.IsPrime`: the bound `floor(sqrt(n))` is floating point. The model uses the integer condition `d * d <= n`, which is the exact intent; float rounding for very large `n` is not modelled.
- `Primes.IsPrime`: requires `n >= 0`. For a negative odd `n` the source raises ValueError from `sqrt`. `Construction.NewPermutationAsWritten` reports that case as ValueError for a negative size.
- `pow(x, 2, prime)` is written `(x * x) % prime`. That is its value for a positive modulus.
- `Views.ShuffleIsPermutation`: the bijectivity of qpr on `[0, p)` for every prime `p` that is 3 mod 4 is taken as a hypothesis. It needs Euler's criterion (−1 is not a square mod such a prime). It is checked only for 3, 7 and 11 (`Shuffle.QprThree`, `Shuffle.QprSeven`, `Shuffle.QprEleven`).
- `Shuffle.GetSeed`: the source recurses once per rejected seed. Python's recursion limit is not modelled, so a RecursionError after about a thousand rejections is absent. The model searches `prime` consecutive candidates, which cover every residue of the seed, and reports divergence when none is acceptable.
- The `isinstance(index, slice)` dispatch of `__getitem__` is modelled as two operations, `View.At` and `View.Slice`.
- The `_prime` and `_seed` arguments of `Permutation.__init__` are modelled only along the path that uses them, slicing, which hands the parent's pair on unchanged. Arbitrary caller-supplied pairs are not modelled.
- `Ranges.Range.constructor`: the source leaves `index` unset until `__iter__`, so `__next__` on a fresh object raises AttributeError. The model starts the cursor at 0.
- `__iter__` returning `self` and the rest of the object protocol are not modelled. Non-integer arguments (floats, `None` in other places) are not modelled either.
- `Views.MaxSize`: a 64-bit CPython is assumed. On a 32-bit build `sys.maxsize` is 2^31 − 1.
- The quality of the shuffle's randomness is not a property.

## Findings

| source | as written | input that shows it | evidently intended | confidence | as-written member | corrected member |
|---|---|---|---|---|---|---|
| torch/utils/data/_utils/index_utils.py:123-127 | for size 0 or 1 the prime is 3 and every extra point of [size, 3) would have to map below size, which no seed achieves, so `_get_seed` recurses until Python's recursion limit raises RecursionError | `Permutation(1, 0)` | a one-index permutation yields [0] (and size 0 an empty one) | not executed; follows from the proved lemma | `Construction.SmallSizesHaveNoSeed` | `Construction.NewPermutation` |
