# twinning — a Dafny model of data twinning and multiplets

The `twinning` package splits a dataset into statistically similar parts.
`twin(data, r, u1)` returns the row positions of the smaller "twin",
about 1/r of the rows. `multiplet(data, k, strategy)` gives every row a
multiplet id in [0, k). It has three strategies:

1. peel off one multiplet after another with `twin_cpp`;
2. split into equal twins recursively, for k a power of two;
3. deal one nearest-neighbour ordering of all rows round-robin.

`energy(data, points)` checks its inputs, drops `data`'s constant columns
from both arrays, and hands them to a native energy-distance routine.

The model covers two layers.

- **The native loops** (module `Native`).
  - `Twinning::twin` and `Twinning::get_sequence`, written as Dafny methods
    with loop invariants.
  - The nanoflann kd-tree becomes an abstract search over the set of live
    point indices. The only assumption is `Honest`: a query for `count`
    points returns `count` distinct live points whenever the tree holds that
    many.
  - `std::size_t` subtraction is a function whose precondition rules out
    wrap-around. The proof discharges it at every use.
- **The Python orchestration** (modules `Dataset`, `Folds`, `Oracles`,
  `Peeling`, `Bisection`, `RoundRobin` and `Api`).
  - Input checks, in source order, with each exception modelled as an `Err`.
  - The constant-column filter.
  - The three strategies, written as recursive functions over index lists.
  - The final `argsort` that turns the `(row, id)` table into one label per
    row.
  - `twin_cpp` and `multiplet_S3_cpp` are function-valued parameters. The
    Python layer relies only on the contracts the native layer proves:
    `Native.SplitAnswer` for `twin_cpp`, a permutation for
    `multiplet_S3_cpp`.
  - `np.random.randint(m)` is a parameter `pick` reduced modulo m.

Proved results:

- **`twin`:** it returns ceil(N/r) distinct row positions exactly when all the
  checks pass. Otherwise it returns the error for the first check that fails.
- **Every strategy:** every row receives exactly one id in [0, k), and every id is used.
- **Strategy 1:** the rows named by the step-i twin call form multiplet i. The loop always stops after step k-2, and the rows left over form multiplet k-1.
- **Strategy 2:** it makes exactly k non-empty multiplets. The rows the twin
  call leaves out get smaller ids than the rows it names.
- **Strategy 3:** row `s[p]` of the native ordering gets id p mod k, and
  id l goes to exactly floor(N/k) + [l < N mod k] rows.
- **`get_sequence`:** it lists every point exactly once, in ceil(n/r) chunks.
- **`twin` (native loop):** it returns exactly ceil(n/r) distinct points.

## Model

| member | source | states |
|---|---|---|
| Native.Twin | twinning_cpp/twinning.cpp:80-120 | For 1 <= r < n, a start below n and an honest neighbour search, the greedy loop returns exactly ceil(n/r) distinct point indices, all below n. Inside the body, the proof shows that the `N - size*r <= r` test never underflows and that no search asks for more points than the tree holds. |
| Native.Sequence | twinning_cpp/twinning.cpp:122-174 | For 1 <= r <= n, the returned sequence lists every point 0..n-1 exactly once. The chunk sizes taken are those of `ChunkPlan(n, r)`. The next-start query runs on an empty tree exactly when r divides n. |
| Native.ChunkPlanSum | twinning_cpp/twinning.cpp:141-171 | The chunks the loop takes (full chunks of r, then one final chunk of the rest) add up to the n points. |
| Native.ChunkPlanCount | twinning_cpp/twinning.cpp:141-171 | The loop takes exactly ceil(n/r) chunks. |
| Native.ChunkPlanFull | twinning_cpp/twinning.cpp:143-166 | Every chunk but the last holds r points. The final chunk holds between 1 and r points, and holds r exactly when r divides n. |
| Native.TwinCpp | twinning_cpp/twinning.cpp:178-182 | The `twin_cpp` entry point returns ceil(n/r) distinct positions below n. |
| Native.MultipletS3Cpp | twinning_cpp/twinning.cpp:185-189 | The `multiplet_S3_cpp` entry point returns a permutation of 0..n-1. |
| Arith.CeilDiv | build/lib/twinning/twinning.py:141 | `math.ceil(n / r)` on non-negative integers is the least q with q*r >= n. |
| Arith.BitTestIsPowerOfTwo | build/lib/twinning/twinning.py:133-134 | For k >= 1, `k & (k - 1) == 0` holds exactly when k is a power of two, in both directions. |
| Dataset.KeptColumns | build/lib/twinning/twinning.py:7-8 | The column mask keeps column j < c exactly when some row differs from row 0 in column j. The kept columns are listed in increasing order. |
| Dataset.DataFormat | build/lib/twinning/twinning.py:6-8 | The filtered data has the same rows in the same order. Each row is cut down to `KeptColumns`, which are exactly the non-constant columns in increasing order, so each row keeps exactly as many entries as there are non-constant columns. |
| Dataset.EnergyInputs | build/lib/twinning/twinning.py:192-209 | Checks are made in source order and each failure gives its own error. Data with no rows fails when row 0 is indexed. On success, both arrays keep exactly the columns that are non-constant in `data`. |
| Folds.Reconstruct | build/lib/twinning/twinning.py:130 | When the table's rows are a permutation of 0..n-1, sorting by row gives n labels, and each row's label is the id paired with it in the table. |
| Folds.ReconstructFold | build/lib/twinning/twinning.py:130 | The rows labelled l after sorting are exactly the rows paired with l in the table. |
| Oracles.Draw | build/lib/twinning/twinning.py:114 | The random start is a valid position of the current subset. |
| Oracles.SplitSides | build/lib/twinning/twinning.py:118-121 | Masking with `negate` leaves the rows the answer did not name. Masking with its inverse keeps exactly the named rows. Both sides stay increasing, stay aligned with the data rows, and have sizes \|data\|-\|hit\| and \|hit\|. |
| Peeling.Peel | build/lib/twinning/twinning.py:113-128 | From step i on, the peeling loop labels every remaining row exactly once, with ids in [i, k). The rows the step-i `twin_cpp` call names are exactly the rows labelled i. Every id from i to k-1 is used, so the loop stops only after step k-2 and its remainder becomes multiplet k-1. |
| Peeling.PeelStep | build/lib/twinning/twinning.py:114-126 | One loop pass: the `twin_cpp` call is within its contract and names at least one row, and at least one row is left over. The loop continues exactly when i+3 <= k, and then its invariant holds again, including at least (k-i-1)·floor(N/k) rows left. |
| Peeling.PeelBounds | build/lib/twinning/twinning.py:114-123 | Taking ceil(n/(k-i)) of n rows takes at least one row and leaves at least 2(k-i-1) rows and at most N(k-i-1)/k. |
| Peeling.PeelShare | build/lib/twinning/twinning.py:114-126 | Let q = floor(N/k). A step that starts from at least (k-i)·q rows leaves at least (k-i-1)·q rows. More than N/k rows are left over exactly when i+3 <= k. |
| Peeling.Strategy1 | build/lib/twinning/twinning.py:109-130 | Strategy 1 gives each of the N rows one multiplet id in [0, k). A row gets id 0 exactly when the first `twin_cpp` call names it, and every id 0..k-1 is used. |
| Bisection.Bisect | build/lib/twinning/twinning.py:140-151 | `equal_twins` labels every row of its subset exactly once, with consecutive ids from the shared counter. The counter always advances, and a leaf advances it by exactly one. |
| Bisection.BisectStep | build/lib/twinning/twinning.py:141-151 | A subset larger than ceil(N/k) has at least 3 rows, so `twin_cpp(data, 2, …)` is valid. Both halves are strictly smaller and together hold the subset's rows. |
| Bisection.ComplementFirst | build/lib/twinning/twinning.py:150-151 | The rows the twin call did not name are numbered before the rows it named. |
| Bisection.BisectLeaves | build/lib/twinning/twinning.py:140-153 | Take k = a*b with b a power of two and a subset of size between floor(N/a) and ceil(N/a). The recursion below it produces exactly b leaves and uses every id next..next+b-1. |
| Bisection.Strategy2 | build/lib/twinning/twinning.py:132-154 | For k a power of two, every row gets one id in [0, k) and every id 0..k-1 is used. |
| RoundRobin.TileEntry | build/lib/twinning/twinning.py:158 | Position p of `np.tile(np.arange(k), reps)` holds p mod k. |
| RoundRobin.Deal | build/lib/twinning/twinning.py:158 | The table pairs the p-th row of the sequence with id p mod k. |
| RoundRobin.Strategy3 | build/lib/twinning/twinning.py:156-159 | Row `s[p]` of the native ordering gets id p mod k. Every row gets one id in [0, k). |
| RoundRobin.ResiduesCount | build/lib/twinning/twinning.py:158-159 | Below N there are floor(N/k) positions congruent to l mod k, plus one when l < N mod k. |
| RoundRobin.Strategy3Balanced | build/lib/twinning/twinning.py:156-159 | Id l is given to exactly floor(N/k) + (1 if l < N mod k) rows, so every id is used. |
| RoundRobin.Strategy3UsesAll | build/lib/twinning/twinning.py:156-159 | Every id 0..k-1 labels some row. |
| Api.Twin | build/lib/twinning/twinning.py:51-66 | Each failed check yields its own error, in source order: ndim, finiteness, u1 (or an empty random draw), r. The result is Ok exactly when all checks pass, and then holds ceil(N/r) distinct row positions below N. |
| Api.Multiplet | build/lib/twinning/twinning.py:97-159 | Errors come in source order. Once the checks pass, an error occurs exactly when strategy 2 gets a k that is not a power of two. `None` is returned exactly for an unknown strategy. Otherwise every row gets one id in [0, k), and every id 0..k-1 is used. |

## Left out

- Scaling each column to zero mean and unit standard deviation, and the C-contiguous copy (build/lib/twinning/twinning.py:9-14 and 211-220), are left out because they are floating-point and memory-layout work. The model passes the column-filtered values to the native calls. The native calls' contracts do not depend on the values, so this changes none of the proved results.
- The energy distance itself is left out. `energy_cpp` is imported by build/lib/twinning/twinning.py:1 and called at line 222, but none of the source files defines it. Only the input checks and the column filter of `energy` are modelled.
- The kd-tree (nanoflann `KDTreeSingleIndexDynamicAdaptor`, `leaf_size`, distances, tie-breaking, `removePoint`) is modelled only as an abstract search. Which points are nearest is therefore not modelled, and neither is the statistical similarity of the parts.
- `np.random.randint` is not modelled as random. The draw is an arbitrary function of the subset's original row numbers, reduced into range, and the proved results hold for every such function.
- The type tests `type(data) != np.ndarray` and the Python-int reading of `r`, `k`, `u1` and `strategy` are simplified. A non-array is folded into "ndim != 2", and the parameters are integers.
- `math.floor(N / 2)`, `math.ceil(N / k)` and `data.shape[0] <= N / k` use float division in Python but are modelled as exact integer arithmetic. The two agree for sizes below 2^53.
- The pybind11 glue (array conversion, `uint64` casts, `PYBIND11_MODULE` registration) is left out because it only marshals data.
- twinning/twinning.py, twinning/__init__.py, twinning_cpp/src/twinning.cpp, twinning_functions.py and setup.py are not part of this model. They are an older copy of the module, the package exports, a template, helper scripts and the build script.

## Notes on the source

- Strategy 2 recurses on the complement of the twin (the `negate` side) first and on the named twin second. Multiplet ids therefore go first to the unnamed half. `Bisection.ComplementFirst` states this order.
- A dataset whose columns are all constant raises nothing. The filter leaves rows of width 0 and the native call receives them, so the model has no separate error for it.
- Two failures come from numpy rather than from an explicit check:
  - `twin` with `u1` omitted on an array with no rows fails in `randint(0)` (`EmptyDraw`);
  - `energy` on a `data` with no rows fails at `data[0, :]` (`NoFirstRow`).
