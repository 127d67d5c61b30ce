# Ordinal logistic regression: the exact index logic, in Dafny

This project models the discrete, exactly statable part of minirank's ordinal
logistic regression (`minirank/logistic.py`). The fitted model is a weight
vector `w` (length D) and one threshold per class (length K). Both are packed
into one parameter vector `x0 = [w; theta0]`. The model covers:

- the ordering constraints `f_ineqcons` and their Jacobian `f_ineqcons_grad`;
- the threshold shift inside `elem_b`. It replaces every per-sample threshold
  by the next smaller distinct threshold, and the smallest by minus infinity
  (`Shift.Bound.NegInf`);
- the assembly of `f_grad` from the link values `a` and `b`: the zero floor on
  `a - b`, the weight part `X^T c`, the per-class scatter loop, and the final
  layout `[weights; -thresholds]`;
- the bookkeeping of `ordinal_logistic`: the sort permutation and its inverse,
  the dense relabelling of the labels, the starting point, the bounds list, and
  the per-sample thresholds returned in the caller's sample order;
- `predict_logistic`: the reference points built from the distinct thresholds,
  and the nearest-point argmin with the first index winning ties.

Everything is over `real` and `int`. `np.unique` is defined once, in `Distinct`
over `real`. Integer labels reach it through `Distinct.AsReals`.

numpy's masked and scatter assignments (`a[a == t] = v`, `idx_inv[idx] = ...`,
slice writes) are Dafny `forall` statements, which assign all entries at once.
Python `for` loops are `for`/`while` loops with invariants. Each loop is
proved against a specification function.

Points where the code's behaviour is easy to misread:

- The returned per-sample thresholds (line 96) are `theta[y][idx_inv]` as the
  solver left them. No lowest-class value is replaced by minus infinity there.
  Minus infinity appears only inside `elem_b`.
- The Jacobian is the negated Toeplitz matrix (line 42): -1 on the diagonal and
  +1 just above it. These are the signs that make the Jacobian times `x0` equal
  `np.diff` (`Constraints.JacobianTimesPoint`).
- Nothing checks the number of distinct labels at entry. Two cases fail later:
  - With no samples (K = 0), the gradient check at line 87 calls `f_obj` and
    `f_grad`. These reach `elem_b`, where `unique_theta[0]` (line 21) raises
    `IndexError`. This is `Shift.ShiftDown`'s `IndexError(0, 0)` case.
  - With one distinct label (K = 1), `elem_b` succeeds. `f_ineqcons_grad`
    fails at `e2[1]` (line 41), which is `Constraints.IneqConsGrad`'s
    `IndexError(1, 1)` case. That function is reached only when the SLSQP
    solver, which is not part of this model, asks for the constraint
    Jacobian. This happens after the gradient check at lines 87-88.

## Model

| member | source | states |
|---|---|---|
| Distinct.Unique | minirank/logistic.py:16 | `np.unique` returns the values of its input, strictly increasing, each once |
| Distinct.UniqueBySet | minirank/logistic.py:99 | `np.unique` depends only on the set of values, not on order or repetition |
| Distinct.UniqueOfIncreasing | minirank/logistic.py:99 | an already sorted distinct vector is returned unchanged |
| Distinct.UniqueIdempotent | minirank/logistic.py:99 | applying `np.unique` twice is the same as once |
| Distinct.SortedDistinctEqual | minirank/logistic.py:16 | two strictly increasing vectors with the same values are equal |
| Distinct.RankOrder | minirank/logistic.py:81-83 | ranks among the distinct values compare exactly as the values do (both directions, and equality) |
| Distinct.RankOnto | minirank/logistic.py:81-83 | every index below the number of distinct values is the rank of some input value |
| Distinct.UniqueInts | minirank/logistic.py:81 | `np.unique` on integer labels: strictly increasing, the same labels, agreeing with the real-valued version |
| Params.Weights | minirank/logistic.py:34 | `np.split(x0, [D])[0]` is the length-D prefix (all of `x0` when it is shorter) |
| Params.Thresholds | minirank/logistic.py:34 | `np.split(x0, [D])[1]` is the rest, so that weights followed by thresholds give back `x0` |
| Constraints.Diff | minirank/logistic.py:35 | `np.diff` has one entry fewer (none for an empty input), entry i being `v[i+1] - v[i]` |
| Constraints.IneqCons | minirank/logistic.py:33-35 | `f_ineqcons` returns K-1 values (none when K = 0), entry i being the gap `x0[D+i+1] - x0[D+i]` between neighbouring thresholds |
| Constraints.ConstraintsMeanOrdered | minirank/logistic.py:33-35 | all constraints are non-negative if and only if the thresholds are non-decreasing |
| Constraints.ConstraintsStrictMeanIncreasing | minirank/logistic.py:33-35 | all constraints are positive if and only if the thresholds are strictly increasing |
| Constraints.Toeplitz | minirank/logistic.py:42 | `scipy.linalg.toeplitz(c, r)` has shape len(c) x len(r) |
| Constraints.IneqConsGrad | minirank/logistic.py:37-46 | `f_ineqcons_grad` succeeds exactly when K >= 2, and otherwise fails with `IndexError` at index 1 of a length-K axis |
| Constraints.JacobianBanded | minirank/logistic.py:39-45 | the Jacobian is (K-1) x (D+K), zero in the D weight columns, and row i holds -1 at D+i and +1 at D+i+1 |
| Constraints.JacobianConstant | minirank/logistic.py:37-46 | the Jacobian depends on the length of `x0` only, not on its values |
| Constraints.JacobianTimesPoint | minirank/logistic.py:33-46 | the Jacobian times `x0` equals `f_ineqcons(x0)` |
| Shift.ShiftDown | minirank/logistic.py:15-21 | the in-place rewrite of `_theta` gives each sample its value-based predecessor, never cascading; an empty input fails at `unique_theta[0]` |
| Shift.RoundStep | minirank/logistic.py:17-20 | one round of the loop moves exactly the entries currently equal to the next distinct threshold down to the current one, and touches no entry moved earlier |
| Shift.ShiftedIsNextSmaller | minirank/logistic.py:15-21 | a shifted entry is minus infinity exactly for the smallest threshold; otherwise it is a threshold below the entry with no threshold strictly in between |
| Shift.ShiftedOneRankDown | minirank/logistic.py:17-20 | every finite shifted entry is exactly one rank below the original entry |
| Shift.UniqueOfAllClasses | minirank/logistic.py:16 | with every class present, the distinct per-sample thresholds are the class thresholds |
| Shift.ShiftedIsLowerBoundary | minirank/logistic.py:15-21 | for strictly increasing `theta0` and every class present, sample i shifts to `theta0[y[i]-1]`, or to minus infinity when `y[i] = 0` |
| Gradient.FlooredDiff | minirank/logistic.py:55-56 | every entry of `quot` is nonzero; it equals `a[i]-b[i]` where those differ and 1e-32 where they are equal |
| Gradient.FloorQuotient | minirank/logistic.py:55-56 | the subtraction followed by the masked overwrite yields `FlooredDiff(a, b)` |
| Gradient.WeightCoefficients | minirank/logistic.py:57 | `tmp` has one coefficient per sample, which times `quot` gives `a(1-a) - b(1-b)` |
| Gradient.Terms | minirank/logistic.py:61-62 | `tmp_a` (from `a`) and `tmp_b` (from `b`): one term per sample, which times `quot` gives the spread `p(1-p)` |
| Gradient.CoefficientsSplit | minirank/logistic.py:57-62 | the weight coefficient of each sample is its upper term `tmp_a` minus its lower term `tmp_b` |
| Gradient.ScaleRows | minirank/logistic.py:58 | `X * tmp[:, None]` has the shape of `X`, entry (i, d) being `X[i][d] * c[i]` |
| Gradient.ColumnSums | minirank/logistic.py:58 | `.sum(0)` has one entry per feature, entry d being the sum of column d |
| Gradient.WeightPartIsTransposeProduct | minirank/logistic.py:57-58 | summing the scaled rows of `X` gives `X^T c`, one inner product per feature column |
| Gradient.ScatterThresholds | minirank/logistic.py:63-71 | after the loop, `tmp3[k]` is the sum of `tmp_a` over class k minus the sum of `tmp_b` over class k+1 |
| Gradient.ScatterStep | minirank/logistic.py:64-71 | one more sample adds its `tmp_a` term at its class and subtracts its `tmp_b` term at the class below, leaving every other entry as it was |
| Gradient.TopThresholdHasNoLowerTerm | minirank/logistic.py:63-71 | index K-1 never receives a `tmp_b` term |
| Gradient.ClassZeroNeverSubtracts | minirank/logistic.py:69-71 | the `tmp_b` values of class-0 samples have no effect on `tmp3` |
| Gradient.Grad | minirank/logistic.py:48-72 | the gradient has D+K entries: `X^T c` for the weights, then the negated scatter sums for the thresholds |
| Driver.InvertPermutation | minirank/logistic.py:76-77 | `idx_inv` is a permutation and the two-sided inverse of `idx` |
| Driver.InverseOfPermutation | minirank/logistic.py:76-77 | a left inverse of a permutation is also a right inverse, and is itself a permutation |
| Driver.UnpermuteRoundTrip | minirank/logistic.py:75-77 | `v[idx][idx_inv] == v` |
| Driver.DenseRanksFaithful | minirank/logistic.py:80-83 | the relabelled values lie in 0..K-1, reach every value there, and compare exactly as the original labels |
| Driver.PermutedLabelsSameClasses | minirank/logistic.py:79-81 | sorting the samples leaves the distinct labels unchanged |
| Driver.RanksOfSortedLabels | minirank/logistic.py:80-83 | labels in sorted order receive non-decreasing ranks |
| Driver.RelabelInPlace | minirank/logistic.py:81-83 | the loop as written applies one masked rewrite per distinct label, each against the partly relabelled array |
| Driver.RoundsKeepRank | minirank/logistic.py:82-83 | through the rounds as written, an entry whose label is the r-th distinct label ends as r, provided no distinct label u[k] equals an earlier round's result, i.e. lies in [0, k) |
| Driver.NoCollisionKeepsRank | minirank/logistic.py:81-83 | when no distinct label u[k] lies in [0, k), every entry ends the loop as written at its dense rank |
| Driver.CascadeCarriesPast | minirank/logistic.py:82-83 | when a distinct label u[k] equals an earlier rank m < k, the entries labelled u[m] become m in round m, are rewritten again in round k, and end at k or above |
| Driver.RelabelAsWrittenIff | minirank/logistic.py:81-83 | the loop as written yields the dense ranks if and only if no distinct label u[k] lies in [0, k) |
| Driver.RelabelInPlaceRanksNonNegative | minirank/logistic.py:81-83 | on non-negative labels, which the data loader guarantees (line 115), the loop as written computes the dense ranks |
| Driver.RelabelCascadesOnNegativeLabels | minirank/logistic.py:82-83 | on labels [-1, 0] the loop as written gives [1, 1], not the ranks [0, 1] |
| Driver.DenseRelabel | minirank/logistic.py:81-83 | masking against the incoming labels turns every label into its dense rank, for any integer labels |
| Driver.LinspaceSpans | minirank/logistic.py:85 | `np.linspace(-1, 1, K)` for K >= 2 starts at -1, ends at 1, stays in [-1, 1] and is strictly increasing |
| Driver.Linspace | minirank/logistic.py:85 | `np.linspace(lo, hi, n)` has n entries, the first `lo` and, for n >= 2, the last `hi` |
| Driver.StartPoint | minirank/logistic.py:84-85 | `x0` has D+K entries: its weight part is all ones and its threshold part is `np.linspace(-1, 1, K)` |
| Driver.InitialPoint | minirank/logistic.py:84-85 | the starting point is D ones followed by `np.linspace(-1, 1, K)` |
| Driver.Bounds | minirank/logistic.py:90 | D+K boxes, `(-BIG, BIG)` for each weight and `(-1, 1)` for each threshold, each with its lower end below its upper end |
| Driver.StartPointFeasible | minirank/logistic.py:84-90 | the starting point lies within the length-(D+K) bounds list and satisfies every ordering constraint strictly |
| Driver.SortedRanksNonDecreasing | minirank/logistic.py:80-83 | after `y[idx]`, the dense ranks of the sorted labels are non-decreasing |
| Driver.SortedRelabelAsWritten | minirank/logistic.py:80-83 | on the sorted labels, the loop as written agrees with the dense ranks exactly when no distinct label u[k] lies in [0, k) |
| Driver.Prepare | minirank/logistic.py:75-90 | the solver receives the sorted samples, their dense ranks (non-decreasing), the starting point and the bounds; the inverse permutation is kept; those labels equal the loop as written exactly when no distinct label u[k] lies in [0, k) |
| Driver.Recover | minirank/logistic.py:95-96 | the weights followed by the thresholds give back the solver's result, and the i-th returned threshold is the result's entry at `D + labels[idx_inv[i]]` |
| Driver.RankAfterSort | minirank/logistic.py:75-81 | a sorted sample keeps the rank of its label among the distinct labels |
| Driver.RecoverInOriginalOrder | minirank/logistic.py:95-96 | whatever the solver returns, the weights are its first D entries, and sample j of the caller's input receives the fitted threshold of its own class |
| Predict.Midpoints | minirank/logistic.py:101-103 | `mu` has one entry per distinct threshold (one if there are none) and starts at -1 |
| Predict.BuildMidpoints | minirank/logistic.py:99-103 | the append loop yields -1 followed by the means of neighbouring distinct thresholds |
| Predict.MidpointsSeparate | minirank/logistic.py:101-103 | each midpoint lies strictly between the two thresholds it separates; with thresholds at or above -1 the whole `mu` is strictly increasing |
| Predict.Distance | minirank/logistic.py:107 | the 1-D distance is non-negative and zero exactly for equal points |
| Predict.Nearest | minirank/logistic.py:107-108 | the argmin is an index of a nearest point, and the first such index on ties |
| Predict.PredictLogistic | minirank/logistic.py:98-108 | each output is the index of a `mu` entry nearest to `X.w`, below the number of entries of `mu` |
| Predict.PredictionsIgnoreDuplicates | minirank/logistic.py:99 | passing a sorted deduplicated threshold vector gives the same output as the raw per-sample vector |
| Predict.PredictionsOfUniqueThresholds | minirank/logistic.py:99 | predicting from `np.unique(theta)` gives the same output as predicting from `theta` |

## Findings

| source | as written | input that shows it | evidently intended | confidence | as-written member | corrected member |
|---|---|---|---|---|---|---|
| minirank/logistic.py:82-83 | `y[y == u] = i` tests the partly relabelled `y`, so an entry already set to rank i is rewritten again when a later distinct label equals i | labels `[-1, 0]` become `[1, 1]`; in general the result differs from the ranks exactly when some distinct label u[k] lies in [0, k) | every label replaced by its rank among the distinct labels: `[0, 1]` | not executed; low, since the data loader shifts labels to start at 0, where the loop is correct | Driver.RelabelCascadesOnNegativeLabels | Driver.DenseRelabel |

The driver model (`Driver.Prepare`) uses the corrected relabelling.
`Driver.RelabelAsWrittenIff` gives the exact condition under which it agrees
with the loop as written. The condition holds for every input without a
negative label, and so for the labels the loader produces.

## Left out

- The sigmoid in `elem_a` and at the end of `elem_b`, and the objective `f_obj` (`-sum(log(...))`). These are floating-point numerics. The link values `a` and `b` are inputs of `Gradient.Grad`.
- `optimize.check_grad` with its `assert check < 1.`, and `optimize.fmin_slsqp`. These are SciPy solvers whose source is not part of this model. The solver's result is the input `out` of `Driver.Recover`, and `Driver.RecoverInOriginalOrder` holds for every such result.
- Driver.Prepare: relabels with the corrected `Driver.DenseRelabel`, not the loop at lines 82-83 as written. The labels it hands the solver differ from the source's only when some distinct label u[k] lies in [0, k). That needs a negative label, which the data loader never produces. Its ensures states this condition as an if-and-only-if.
- Which permutation `np.argsort` picks. Its default sort is not stable. `Driver.Prepare` takes any permutation that sorts `y` (`Driver.SortsBy`).
- `sklearn`'s `pairwise_distances`. It is modelled directly as the absolute difference on the line (`Predict.Distance`).
- Floating-point rounding. All arithmetic is over exact reals: the floor 1e-32 is an exact real, summation order does not matter, and `np.linspace` is exact.
- `astype(np.int)` on the labels: the model takes integer labels as input, so truncation of non-integral labels is not modelled.
- numpy's negative-index wrap-around in `theta0[y]` and `e[y[i]]`. The labels reaching those lines are dense ranks 0..K-1, and the model requires that range.
- `load_data` (file input), the cross-validation script under `__main__`, the baseline `LogisticRegression` and all printing. These are glue and reporting.
- `ranking/sofia_ml.py`. It writes a temporary file and calls a compiled extension that is not part of this model.
