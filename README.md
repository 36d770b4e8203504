# Lin–Kernighan local search: edge pool, tour fingerprint and search drivers

This project models four pieces of a Python travelling-salesman solver in
Dafny and proves properties of the models.

- **Edge pool** (`edge_pool.dfy`, module `EdgePool`). `PoolEdges` stores each
  undirected edge once, as the pair `(min, max)`. It refuses self-loops and
  duplicates in either orientation, and answers orientation-independent
  membership and incident-edge queries. `Graph` adds a running
  `total_length`. The model is a class over a `set<(int, int)>`. Its
  invariant is that every stored pair is strictly ordered. `Graph` also
  keeps a ghost history of accepted edges, and `totalLength` is proved to be
  their price sum.
- **Tour fingerprint** (`fingerprint.dfy`, module `Fingerprint`).
  - `generate_degrees` builds a power table in a loop.
  - `generate_hash_from` is a positional weighted sum modulo `module`.
  - `generate_hash` hashes the tour after rotating it so that node 0 comes
    first.
  - numpy's 64-bit products and sums are wrapped explicitly (`Wrap64`).
    Python's floor `%` is written out (`FloorMod`).
- **Local-search driver** (`local_search.dfy`, module `LocalSearch`). This is
  `AbcOpt` of `lin_kernighan/algorithms/utils/abc_opt.py`.
  - Its `improve` hook is abstract. It is modelled as a fixed function
    `strategy` from the current tour and length to a `Step`: the gain
    reported, the new tour and the new tracked length.
  - The length recomputed from the weight matrix is a fixed function
    `measure`.
  - `optimize` and `meta_heuristic_optimize` are `while gain > 0` loops over
    the object's fields. Each is proved to end in exactly the state given by
    a function of the starting state (`OptimizeLoop`, `MetaLoop` in
    `search_run.dfy`). The properties are proved about those functions.
- **Earlier driver** (`legacy_search.dfy`, module `LegacySearch`). This is
  `AbcOpt` of `src/algorithms/utils/abc_opt.py`. It runs the same `optimize`
  loop, but it makes a new collector on each call and returns only the tour.
  Its `tabu_optimize` never enters its loop.

The hash set is an object (`Fingerprints`). `meta_heuristic_optimize` makes
the driver's `solutions` the very set owned by the tabu list, and the model
keeps that aliasing.

Three points worth knowing before reading the model:

- **Powers in `generate_degrees`.** Its doc-comment (hash.py:15) promises
  the powers `number^i`. The loop squares its running value, so entry `i` is
  `number^(2^i) mod module`. The model follows the code: see
  `DegreesArePowersOfPowersOfTwo` and the counterexample
  `DegreesAreNotPlainPowers`.
- **The length check.** The code compares the recomputed and the tracked
  length for equality after `round(·, 2)`, and the model does the same
  (`Agree`). `AgreementIsCloseness` shows what that means: agreeing lengths
  differ by less than 0.01.
- **Two drivers.** The repository holds two versions of `AbcOpt`
  (`lin_kernighan/` and `src/`). Both are modelled.

A local search that has run out of moves usually reports gain 0 and leaves
the tour as it was. That tour's hash is already stored, so `optimize` then
leaves through the repeated-hash `break`, which the model reports as
CycleDetected, not Converged (`StalledTourIsACycle`).

The loop of `optimize` is stated for any fingerprint function that fails
exactly on tours shorter than two nodes and otherwise lies in
[0, 909090909090909091) (`IsFingerprint`). `generate_hash` with its defaults
is one (`TourHashIsFingerprint`), and both drivers run the loop with it.

## Model

| member | source | states |
|---|---|---|
| Fingerprint.FloorMod | lin_kernighan/algorithms/utils/hash.py:20 | Python's `%` lies in [0, m) for a positive divisor and in (m, 0] for a negative one |
| Fingerprint.FloorModIsCongruent | lin_kernighan/algorithms/utils/hash.py:20 | the result of `a % m` differs from `a` by a multiple of `m`; with the range of FloorMod this makes it the floor remainder |
| Fingerprint.Wrap64 | lin_kernighan/algorithms/utils/hash.py:32 | a numpy int64 result lies in the 64-bit range, differs from the exact value by a multiple of 2^64, and is the exact value when that fits |
| Fingerprint.SquareMod | lin_kernighan/algorithms/utils/hash.py:20 | `number * number % module` lies in the range of the modulus's sign and is congruent to the square |
| Fingerprint.Squared | lin_kernighan/algorithms/utils/hash.py:19-20 | after one or more rounds of the loop, the running value lies in the range of the modulus's sign |
| Fingerprint.Degrees | lin_kernighan/algorithms/utils/hash.py:17-21 | ValueError iff size < 0; IndexError iff 0 <= size < 2; OverflowError when size >= 2 and number does not fit in int64; ZeroDivisionError when module is 0; success whenever size >= 2 and number and module fit in int64 with module != 0; a table of length size, entry 0 is 1, every entry fits in int64 |
| Fingerprint.GenerateDegrees | lin_kernighan/algorithms/utils/hash.py:10-22 | filling the int64 array in place returns exactly the table or the error of Degrees |
| Fingerprint.FillSquares | lin_kernighan/algorithms/utils/hash.py:19-21 | the loop stores `number` squared i times into entry i, leaves entry 0 alone, and succeeds iff every squared value fits in int64 |
| Fingerprint.SquaredIsPowerOfPowerOfTwo | lin_kernighan/algorithms/utils/hash.py:19-21 | after i squarings, the running value is number^(2^i) mod module |
| Fingerprint.DegreesArePowersOfPowersOfTwo | lin_kernighan/algorithms/utils/hash.py:14-21 | for a positive module, entry i >= 1 equals number^(2^i) mod module; with module > 1 every entry lies in [0, module) |
| Fingerprint.DegreesAreNotPlainPowers | lin_kernighan/algorithms/utils/hash.py:15-21 | for number 2, module 1000 and size 3 the table exists and entry 2 is 16, while the promised number^2 mod 1000 is 4 |
| Fingerprint.Term | lin_kernighan/algorithms/utils/hash.py:32 | one entry of `tour * degrees % module`: in [0, module) for a positive module, and congruent to the wrapped int64 product |
| Fingerprint.TermSum | lin_kernighan/algorithms/utils/hash.py:32 | the sum of the first k entries lies in [0, k·(module − 1)] for a positive module |
| Fingerprint.GenerateHashFrom | lin_kernighan/algorithms/utils/hash.py:25-32 | fails exactly when the tour has fewer than 2 nodes (IndexError), module is 0, or number or module does not fit in int64 (OverflowError); otherwise the hash lies in [0, module) for a positive module and in (module, 0] for a negative one |
| Fingerprint.HashFromMatchesPolynomial | lin_kernighan/algorithms/utils/hash.py:31-32 | when no int64 product or sum wraps, the hash is (sum of tour[i]·number^e(i)) mod module, with e(0) = 0 and e(i) = 2^i otherwise |
| Fingerprint.RotateZero | lin_kernighan/algorithms/utils/hash.py:44 | the result has the tour's length, starts with node 0 whenever the tour contains it, and is the tour itself when it does not |
| Fingerprint.RotateZeroIsRotation | lin_kernighan/algorithms/utils/hash.py:44 | the result of rotate_zero is always a rotation of the tour |
| Fingerprint.GenerateHash | lin_kernighan/algorithms/utils/hash.py:36-45 | fails exactly when the tour is shorter than 2, module is 0, or number or module does not fit in int64; for a positive module the hash lies in [0, module) |
| Fingerprint.TourHash | lin_kernighan/algorithms/utils/hash.py:36 | with the defaults 333667 and 909090909090909091, the hash fails exactly on tours shorter than 2 nodes and otherwise lies in [0, 909090909090909091) |
| Fingerprint.RotateZeroOfRotation | lin_kernighan/algorithms/utils/hash.py:44 | every rotation of a tour with a single node 0 has the same image under rotate_zero |
| Fingerprint.GenerateHashRotationInvariant | lin_kernighan/algorithms/utils/hash.py:43-45 | generate_hash gives the same result for every rotation of a tour with a single node 0 |
| EdgePool.EdgeOrderIsStrictTotal | playground/python/src/structures/graph.py:5-9 | the ordering of the `order=True` dataclass on (price, src, dst) is irreflexive, asymmetric, transitive and total |
| EdgePool.Canonical | playground/python/src/structures/graph.py:30 | the stored orientation is one of the two orientations of the given pair, with its smaller endpoint first, strictly so for distinct endpoints |
| EdgePool.CanonicalIsSymmetric | playground/python/src/structures/graph.py:30 | both orientations of a pair have the same stored form |
| EdgePool.PoolEdges.constructor | playground/python/src/structures/graph.py:21-22 | a new pool is empty and satisfies the strict-order invariant |
| EdgePool.PoolEdges.Add | playground/python/src/structures/graph.py:24-34 | raises SelfLoop exactly on (i, i); raises DuplicateEdge when the edge is stored in either orientation; in both cases the set is unchanged; otherwise adds exactly the canonical pair; the strict-order invariant is kept |
| EdgePool.PoolEdges.Search | playground/python/src/structures/graph.py:36-42 | returns exactly the stored edges that have the node as either endpoint, and leaves the pool unchanged |
| EdgePool.PoolEdges.Contains | playground/python/src/structures/graph.py:44-47 | membership holds iff (a, b) or (b, a) is stored; a self-loop is never a member |
| EdgePool.Graph.constructor | playground/python/src/structures/graph.py:53-55 | a new graph has an empty pool and total length 0 |
| EdgePool.Graph.Add | playground/python/src/structures/graph.py:57-68 | as written, with price defaulting to 0: SelfLoop iff a == b; DuplicateEdge iff a < b and the edge is stored; every pair with a > b is accepted; on failure nothing changes; on acceptance the canonical pair is added, total_length grows by the price, and the edge is appended to the accepted history |
| EdgePool.Graph.AddCanonical | playground/python/src/structures/graph.py:57-68 | with the duplicate test on the canonical pair: DuplicateEdge iff the edge is stored in either orientation; on failure nothing changes; acceptance adds the pair, the price and the history entry; no edge is ever counted twice in total_length |
| EdgePool.ReversedReAdd | playground/python/src/structures/graph.py:64-68 | adding (1, 2) and then (2, 1) with price 5 both succeed; the pool holds one edge and total_length is 10 |
| EdgePool.ReversedReAddCanonical | playground/python/src/structures/graph.py:64-68 | with the canonical test, the second add raises DuplicateEdge and total_length stays 5 |
| SearchRun.Round2IsNearestHundredth | lin_kernighan/algorithms/utils/abc_opt.py:59 | `round(x, 2)`, counted in hundredths, is within half a hundredth of x |
| SearchRun.AgreementIsCloseness | lin_kernighan/algorithms/utils/abc_opt.py:59-60 | two lengths that pass the check differ by less than 0.01, and a length always passes against itself |
| SearchRun.Fingerprints.constructor | lin_kernighan/algorithms/utils/abc_opt.py:25 | a new hash set holds exactly the hashes given |
| SearchRun.Collector.constructor | lin_kernighan/algorithms/utils/abc_opt.py:30 | a new collector holds no samples |
| SearchRun.Collector.Update | lin_kernighan/algorithms/utils/abc_opt.py:32 | update appends exactly one (length, gain) sample |
| SearchRun.TabuSet.Append | lin_kernighan/algorithms/utils/abc_opt.py:77 | append returns the tabu list's decision and updates its shared hash set as its policy says |
| SearchRun.BoundedSetSize | lin_kernighan/algorithms/utils/abc_opt.py:53-57 | a set of integers drawn from [0, m) has at most m elements |
| SearchRun.OptimizeLoop | lin_kernighan/algorithms/utils/abc_opt.py:47-60 | the hash set only grows; each round that does not break adds one new hash; the loop stops on a repeated hash (CycleDetected), after a round with gain <= 0 whose new tour was not seen before (Converged, length check passed), on a failed length check, or on a tour too short to hash |
| SearchRun.OptimizeRecordsFinalTour | lin_kernighan/algorithms/utils/abc_opt.py:53-57 | when the loop stops on a repeated tour, or converges after at least one round, the final tour's hash is in the set |
| SearchRun.OptimizeTerminates | lin_kernighan/algorithms/utils/abc_opt.py:47-57 | optimize calls improve at most 909090909090909091 − (hashes already seen in range) + 1 times |
| SearchRun.StalledTourIsACycle | lin_kernighan/algorithms/utils/abc_opt.py:47-57 | an improve that reports gain <= 0 and leaves an already-hashed tour unchanged ends optimize with CycleDetected, not Converged |
| SearchRun.OptimizeNeverLengthens | lin_kernighan/algorithms/utils/abc_opt.py:47-62 | if improve never lengthens the tracked length, optimize returns a length no greater than its starting length |
| SearchRun.MetaLoop | lin_kernighan/algorithms/utils/abc_opt.py:73-84 | stops after a round with gain <= 0 (Converged, length check passed), on a tabu refusal (only possible after a gain > 1e-10), on a failed length check, or when the round budget is used up |
| SearchRun.MetaBudgetIsOnlyABound | lin_kernighan/algorithms/utils/abc_opt.py:73-84 | a run that ends within a budget ends identically under every larger budget |
| SearchRun.MetaSmallGainsSkipTabu | lin_kernighan/algorithms/utils/abc_opt.py:76-79 | append is only called for gains above 1e-10: if improve never gains more, the run is never refused and the shared hash set is untouched |
| LocalSearch.AbcOpt.constructor | lin_kernighan/algorithms/utils/abc_opt.py:17-32 | solutions = {generate_hash(tour)}, size = len(tour), no tabu list; a collector exists, holding (length, 0), iff collect is set |
| LocalSearch.AbcOpt.Improve | lin_kernighan/algorithms/utils/abc_opt.py:34-38 | improve moves to the strategy's tour and length and returns its gain |
| LocalSearch.AbcOpt.Optimize | lin_kernighan/algorithms/utils/abc_opt.py:40-62 | ends in the status, tour, length and hash set of OptimizeLoop with generate_hash from the starting state, and returns the current (length, tour) |
| LocalSearch.AbcOpt.OptimizeWith | lin_kernighan/algorithms/utils/abc_opt.py:44-62 | the while loop, for any fingerprint: ends in exactly the state OptimizeLoop gives from the starting state |
| LocalSearch.AbcOpt.MetaHeuristicOptimize | lin_kernighan/algorithms/utils/abc_opt.py:64-84 | installs the tabu list and collector; solutions becomes the tabu list's own set; ends in the state of MetaLoop and returns the current (length, tour) |
| LegacySearch.AbcOpt.constructor | src/algorithms/utils/abc_opt.py:17-29 | solutions = {generate_hash(tour)}, size = len(tour), and neither a tabu list nor a collector |
| LegacySearch.AbcOpt.Improve | src/algorithms/utils/abc_opt.py:31-35 | improve moves to the strategy's tour and length and returns its gain |
| LegacySearch.AbcOpt.Optimize | src/algorithms/utils/abc_opt.py:37-60 | installs a fresh collector holding (length, 0), ends in the state of OptimizeLoop with the fingerprint, and returns the tour alone |
| LegacySearch.AbcOpt.OptimizeWith | src/algorithms/utils/abc_opt.py:44-60 | the while loop, for any fingerprint: ends in exactly the state OptimizeLoop gives, and leaves the tabu list, collector and hash-set object in place |
| LegacySearch.AbcOpt.TabuOptimize | src/algorithms/utils/abc_opt.py:62-82 | installs the tabu list and collector and records (length, 0) once; improve is never called; tour, length and hash sets are unchanged and the tour is returned |

## Left out

- `playground/python/src/lkh.py` is not part of this model. It only orchestrates classes whose code is not available: the subgradient optimisation, the one-tree, alpha-nearness and the initial tour.
- Logging is left out. It has no effect on the state.
- The collector's column names and options are left out. The model records only the (length, gain) samples.
- `@lru_cache` and numba's `@njit`/`objmode` are left out. They change speed only; the power table is a pure function.
- Floating point is modelled by real numbers. `round(x, 2)` is rounding to hundredths with halves rounded up, ignoring binary representation and round-half-even. The gain threshold `1.e-10` is the exact real 1/10^10.
- `get_length` and the concrete `improve` strategies (2-opt, 3-opt, Lin–Kernighan) are not available. They are the fixed functions `measure` and `strategy`. So `improve` is deterministic in the tour and tracked length, and cannot depend on other state.
- `TabuSet` is not available. Its `append` is modelled by an arbitrary policy over the shared hash set.
- `rotate_zero` is not available. It is modelled as the rotation that brings the first node 0 to the front, leaving a tour without node 0 unchanged.
- `src/algorithms/utils/hash.py` is not part of this model. The earlier driver hashes with `TourHash`, the fingerprint of the later version.
- LocalSearch.AbcOpt.constructor: requires a tour of at least two nodes. On a shorter tour, `generate_hash` raises IndexError inside `__init__`, and a Dafny constructor cannot fail.
- LegacySearch.AbcOpt.constructor: requires a tour of at least two nodes, for the same reason.
- LocalSearch.AbcOpt.MetaHeuristicOptimize: takes a round budget and can stop with BudgetExhausted. The Python loop has no such bound, and it need not terminate: a gain in (0, 1e-10] is never offered to the tabu list. The budget is what makes the model terminate. MetaBudgetIsOnlyABound shows that a run finishing within a budget is the run of every larger budget.
- The exceptions (AssertionError of the length check, IndexError of a too-short tour) are returned as statuses, not raised. The state they leave is the state at the point of raising.
- The body of the loop in `tabu_optimize` (`src/algorithms/utils/abc_opt.py:73-79`) is left out. Its guard is false on entry, so it never runs.
- `Edge.__str__` and `Edge.__repr__` are left out. They are formatting only.
- The tour is a value (`seq<int>`), not a numpy array held by reference. The source keeps the caller's array (`lin_kernighan/algorithms/utils/abc_opt.py:24`) and hands that same array to `tabu_list.append` (`lin_kernighan/algorithms/utils/abc_opt.py:77`). An `improve` that changed it in place would also change the caller's array and any tour the tabu list kept; the model does not capture that aliasing.
- Tour entries are taken to be int64 values, as in an int64 numpy array. Only the products and the sum of `generate_hash_from` are wrapped.
- A `module` that does not fit in int64 makes the array `% module` of `generate_hash_from` fail with OverflowError, as NumPy 2 does. Older NumPy versions may instead convert such an operation to floating point or Python objects; that behaviour is not modelled.

## Findings

| source | as written | input that shows it | evidently intended | confidence | as-written member | corrected member |
|---|---|---|---|---|---|---|
| playground/python/src/structures/graph.py:64 | `Graph.add` tests the pair as given (`edge in self.edges`), while only canonical pairs are stored | `add((1, 2), 5)` then `add((2, 1), 5)`: the second call does not raise, the pool still holds only (1, 2), and `total_length` is 10 | test the canonical pair `temp`, as `PoolEdges.add` does, so the second call raises and `total_length` stays 5 | high; not executed | EdgePool.ReversedReAdd | EdgePool.Graph.AddCanonical |
