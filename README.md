# Modularity co-clustering (CoclustMod) in Dafny

This project models `CoclustMod.fit` in `coclust/CoclustMod.py`. The method co-clusters the rows and the columns of a data matrix X by greedily raising graph modularity (Ailem, Role and Nadif, 2015).

`fit` works in four steps:

1. It builds the modularity matrix `B = X - r·cᵗ / N`. Here r holds the row sums of X, c its column sums, and N its total mass.
2. The row pass rewrites every row of the row indicator Z. Row i becomes the one-hot row at the first argmax of row i of `B·W`.
3. The column pass rewrites every row of the column indicator W the same way. It uses `Bᵗ·Z` with the new Z.
4. It computes `m_end = trace(Zᵗ·BW)` with the `BW` formed before the column pass. It repeats until `|m_end - m_begin| <= 1e-9`. The first round always continues, because `m_begin` starts at minus infinity.

The project has four files:

- `matrices.dfy` (module `Matrices`) holds dense real matrices as sequences of rows. It covers sums, dot products, matrix products, transposes, traces, numpy's first-index argmax, one-hot rows and the absolute value. It also holds the summation lemmas the proofs rest on.
- `modularity.dfy` (module `Modularity`) holds the modularity matrix and its zero margins. It also defines the criterion `trace(Zᵗ·B·W)` and proves that each pass is an exact coordinate-ascent step on it. The criterion is also bounded for indicator matrices.
- `stopping.dfy` (module `StoppingRule`) holds the stopping rule over a sequence of criterion values v(1), v(2), …. Round n moves when `|v(n) - v(n-1)| > 1e-9`. `StopsAfter(v, n)` says that rounds 2 to n-1 moved and round n did not. When the values never fall and stay under a bound, `StopRound` finds that round, so the loop terminates.
- `coclust_mod.dfy` (module `CoclustModel`) holds the class `CoclustMod`, with the fields and the default arguments of `__init__`, and its `Fit` method. Z and W are `array2<real>` values rewritten in place, one row at a time. W is the caller's own `init` array when one is configured. `AssignOneHot` is the row-by-row overwrite that both passes share. `Round` is one round of the loop on values, and `Reassign` performs it on the arrays. `Run(b, w0, k, n)` is what round n leaves from the starting W `w0`, and `Values` lists the criterion value of each round. `Ascend` is the `while change` loop, with `Step` as its body.

The model proves these properties:

- Every row of Z and of W is one-hot after its pass.
- Each 1 sits at the first maximal entry of the row it was chosen from.
- `m_end` is the sum of the row maxima of the `B·W` that the row pass read.
- No indicator matrix in place of Z scores more against that W. No indicator matrix in place of W scores more against the new Z.
- Every row and every column of B adds up to zero.
- A round of the loop never lowers the criterion, once the W it starts from is an indicator.
- In exact arithmetic the loop terminates. From the second round on, the criterion never falls and never exceeds the sum of the absolute values of B, so rounds that move it by more than the tolerance run out.
- The loop runs exactly the rounds the stopping rule allows for the values of a run from the caller's W, and leaves Z, W and `m_end` as the last of those rounds does. That last round is settled. Its row pass is optimal against the W it started from, `W_prev`, and its column pass is optimal against the new Z. This holds of every round; it does not make the returned pair (Z, W) a coordinate-wise optimum. `m_end` scores Z against `W_prev`, not against the returned W, so the loop can stop while one more round would raise the criterion. For example (labels and row numbers count from 0), take X = [[0,0,1,0],[1,0,0,0],[0,1,0,1],[1,0,0,1]], k = 3, and a starting W with column labels [1,2,2,2]. Round 1 has value 2 and leaves W labels [1,2,2,0]. Round 2 leaves Z labels [2,1,0,0] and W labels [1,0,2,0], again with value 2, so the loop stops. The returned pair scores 5/2, and moving row 3 to cluster 1 scores 17/6, which is what round 3 would reach.

## Model

| member | source | states |
|---|---|---|
| `Matrices.ArgMax` | coclust/CoclustMod.py:78 | the chosen index holds a maximal entry of the row, and every entry before it is strictly smaller (numpy's first-argmax tie-break) |
| `Matrices.ArgMaxUnique` | coclust/CoclustMod.py:78 | those two properties leave no other index: any index that has both is the argmax |
| `Matrices.ArgMaxRows` | coclust/CoclustMod.py:78-80 | the matrix whose row i is one-hot at the argmax of row i of the scores is an indicator matrix, one one-hot row per input row |
| `Matrices.OneHotIffBinaryUnitSum` | coclust/CoclustMod.py:79-80 | a row is one-hot exactly when all its entries are 0 or 1 and they add up to 1 |
| `Matrices.DotOneHot` | coclust/CoclustMod.py:93-94 | the dot product of a one-hot row with a vector is the vector's entry at the row's 1 |
| `Matrices.DotOneHotAtMost` | coclust/CoclustMod.py:76-80 | no one-hot row gets a larger dot product with a row than the one placed at its argmax, which gets the row's maximum |
| `Matrices.SumSwap` | coclust/CoclustMod.py:63-65 | adding a matrix up by rows and by columns gives the same total, so the column sums of X add up to N |
| `Matrices.TraceOfTransposeProduct` | coclust/CoclustMod.py:93-94 | `trace(Zᵗ·S)` equals the sum over rows i of the dot product of row i of Z and row i of S |
| `Modularity.ModularityMatrix` | coclust/CoclustMod.py:63-67 | `B = X - r·cᵗ/N`, defined when N is non-zero; B has the shape of X. Its margins are stated by `ModularityMatrixMargins` |
| `Modularity.ModularityMatrixMargins` | coclust/CoclustMod.py:63-67 | with N non-zero, every row and every column of `B = X - r·cᵗ/N` adds up to zero |
| `Modularity.Criterion` | coclust/CoclustMod.py:93-94 | `trace(Zᵗ·(B·W))`, the value the loop compares; what it measures is stated by the lemmas below |
| `Modularity.RowPassOptimal` | coclust/CoclustMod.py:76-80 | with W fixed, the Z chosen by the row pass maximises `trace(Zᵗ·B·W)` over all indicator matrices, and the maximum is the sum of the row maxima of `B·W` |
| `Modularity.CriterionTransposed` | coclust/CoclustMod.py:85-86 | `trace(Zᵗ·B·W) == trace(Wᵗ·Bᵗ·Z)`, so the column pass on `Bᵗ·Z` works on the same criterion as the row pass |
| `Modularity.ColumnPassOptimal` | coclust/CoclustMod.py:85-89 | with Z fixed, the W chosen by the column pass maximises the criterion over all indicator matrices |
| `Modularity.RoundImproves` | coclust/CoclustMod.py:72-94 | from an indicator W, a column pass and then a row pass never lower the criterion |
| `Modularity.CriterionBounded` | coclust/CoclustMod.py:93-94 | for indicator Z and W the criterion is at most the sum of the absolute values of B |
| `StoppingRule.Moved` | coclust/CoclustMod.py:96 | round n moved the criterion by more than 1e-9 from round n-1, so the loop goes on |
| `StoppingRule.StopsAfter` | coclust/CoclustMod.py:70-98 | the loop ends after exactly n rounds: the first round always continues, rounds 2 to n-1 moved and round n did not |
| `StoppingRule.StopsAfterUnique` | coclust/CoclustMod.py:70-98 | the stopping rule picks a single round count |
| `StoppingRule.MovedBeforeStop` | coclust/CoclustMod.py:96-98 | up to the round where the loop stops, a round moves the criterion exactly when it is not the last |
| `StoppingRule.HeadroomShrinks` | coclust/CoclustMod.py:96 | a climb of more than the tolerance that stays under the bound lowers the number of tolerance-sized steps left |
| `StoppingRule.RoundUsesHeadroom` | coclust/CoclustMod.py:72-98 | when the values never fall and stay under the bound, every round after the second that moves uses up headroom |
| `StoppingRule.StopRound` | coclust/CoclustMod.py:72-98 | for values that never fall and stay under a bound, the round where the loop stops exists and is at least the round the search starts from |
| `StoppingRule.StopRoundStops` | coclust/CoclustMod.py:72-98 | the loop stops after `StopRound` rounds, in the sense of `StopsAfter` |
| `StoppingRule.GoesOnUntil` | coclust/CoclustMod.py:96-98 | for the round `stop` after which the stopping rule ends the loop, the test after an earlier round n+1 (always true after the first round, otherwise "moved") holds exactly when n+1 comes before `stop` |
| `CoclustModel.AssignOneHot` | coclust/CoclustMod.py:78-80 | after the row-by-row overwrite (zero the row, then set 1 at the argmax), the array equals the indicator of the row argmaxes of the scores |
| `CoclustModel.Round` | coclust/CoclustMod.py:75-94 | one round on values: Z from the row pass against W, the new W from the column pass against that Z, and `trace(Zᵗ·B·W)`; both indicators have the shapes of Z and W |
| `CoclustModel.RoundValue` | coclust/CoclustMod.py:76-94 | the value of a round is the sum of the row maxima of the `B·W` the row pass read |
| `CoclustModel.Reassign` | coclust/CoclustMod.py:76-94 | one round on the arrays: Z, W and `m_end` end as `Round` gives them from the old W |
| `CoclustModel.Run` | coclust/CoclustMod.py:72-94 | what round n leaves from the starting W; rounds after the first start from the W the round before left |
| `CoclustModel.Before` | coclust/CoclustMod.py:72-89 | the W round n starts from: the caller's for the first round, the previous round's afterwards |
| `CoclustModel.RunIndicators` | coclust/CoclustMod.py:78-89 | whatever W a run starts from, every round leaves an indicator Z and an indicator W |
| `CoclustModel.RunStep` | coclust/CoclustMod.py:72-94 | round n (n >= 2) is `Round` applied to the W round n-1 left |
| `CoclustModel.ValueNeverFalls` | coclust/CoclustMod.py:72-94 | from the second round on, no round's value is smaller than the one before it |
| `CoclustModel.ValueBounded` | coclust/CoclustMod.py:93-94 | from the second round on, a round's value is at most the sum of the absolute values of B |
| `CoclustModel.Values` | coclust/CoclustMod.py:93-94 | the criterion value of every round of a run |
| `CoclustModel.ValuesClimb` | coclust/CoclustMod.py:72-98 | the values of every run never fall from the second round on and stay under the absolute mass of B, so the stopping rule ends the loop |
| `CoclustModel.ValuesRise` | coclust/CoclustMod.py:72-98 | round n+1 (n >= 2) is no lower than round n and stays under the bound |
| `CoclustModel.ValueAt` | coclust/CoclustMod.py:93-94 | the value the stopping rule sees for round n is that round's `m_end` |
| `CoclustModel.MovedOnRun` | coclust/CoclustMod.py:96 | round n+1 moved, for the stopping rule, exactly when its `m_end` differs from round n's by more than 1e-9 |
| `CoclustModel.LoopTest` | coclust/CoclustMod.py:70-98 | the loop's own test, against `m_begin` unset before the first round, is the stopping rule's test on the run's values |
| `CoclustModel.Advance` | coclust/CoclustMod.py:75-94 | a round on the arrays that starts from the W round n+1 starts from leaves them as round n+1 of the run does |
| `CoclustModel.Step` | coclust/CoclustMod.py:73-98 | one pass of the loop body leaves Z, W and `m_end` as round n+1 of the run does, and sets `change` exactly when it is the first round or round n+1 moved, that is, exactly when round n+1 comes before the round after which the stopping rule ends the loop |
| `CoclustModel.Settled` | coclust/CoclustMod.py:96-98 | the exit state: Z and W are one round from an indicator `W_prev`, `m_end` is its criterion, and it is within 1e-9 of the value before it |
| `CoclustModel.RoundSettles` | coclust/CoclustMod.py:96-98 | a round n >= 2 that moves the criterion by no more than 1e-9 leaves a settled state |
| `CoclustModel.StopsAfterSettles` | coclust/CoclustMod.py:96-98 | the round after which the stopping rule ends the loop leaves a settled state |
| `CoclustModel.LastPassesOptimal` | coclust/CoclustMod.py:76-94 | for the last round, or any settled round, `m_end` is the sum of the row maxima of `B·W_prev`; no indicator beats Z against `W_prev`, and none beats W against Z. It does not say that (Z, W) is a coordinate-wise optimum |
| `CoclustModel.RunStops` | coclust/CoclustMod.py:70-98 | for every starting W and every positive cluster count, some round count satisfies the stopping rule, so the loop ends |
| `CoclustModel.Ascend` | coclust/CoclustMod.py:69-98 | the loop runs exactly the number of rounds at which the stopping rule ends it for the values of a run from the starting W, and leaves Z, W and `m_end` as the last of those rounds does |
| `CoclustModel.CoclustMod.constructor` | coclust/CoclustMod.py:42-45 | stores `n_clusters`, `init` and `max_iter` unchanged, with the defaults 2, none and 20 |
| `CoclustModel.CoclustMod.Fit` | coclust/CoclustMod.py:48-98 | W is `init` when one is configured, and it is overwritten in place. Z is fresh and `n_rows x n_clusters`. X is left unchanged. Zero mass, W with the wrong number of rows, and zero clusters each give an error status, with Z all zero and W untouched. Otherwise the loop runs the rounds the stopping rule allows from the starting W, and Z, W and `m_end` are what the last of them leaves |

## Left out

- `bin/coclust.py` is not part of this model. It parses the command line, loads files, prints, plots and computes external metrics. Its line 103 reads `model.row_labels_`, which `fit` never sets.
- The class docstring names `row_labels_` and `column_labels_` attributes (coclust/CoclustMod.py:26-31), but `fit` stores nothing on the object. The model returns the final Z, W and `m_end` instead.
- `max_iter` is documented as an iteration cap (line 23), but the loop never reads it. The model stores it and leaves it unread.
- `random_init` (line 55) is not shown and draws on a random source. When no `init` is configured, `Fit` takes the matrix it would return as the parameter `drawn`, shaped `n_cols x n_clusters`; when `init` is configured, `drawn` is ignored and may have any shape.
- `smart_init` is imported (line 6) but never called, so nothing stands for it.
- The class docstring describes `init` as `{'random','smart'}` (line 20). The code instead treats `init` as None or as the starting W itself (lines 54-58), and the model follows the code: `init` is a nullable matrix.
- The parameter `y=None` of `fit` (line 48) is never read, so `Fit` does not take it.
- The sparse-matrix plumbing is left out: `lil_matrix`, the csr conversions, `.toarray()` and `.todense()`. Matrices are dense `real` matrices. As written, line 86 calls `.toarray()` on `B.T * Z`. In scipy, a sparse matrix times the dense ndarray Z (line 60) is a dense ndarray, which has no such method. The model follows the matrix semantics that the code evidently intends.
- Floating point is left out. Arithmetic is exact, the tolerance is the real 0.000000001, and minus infinity is `None`. So the termination proof does not cover a loop that rounding could make cycle.
- Division by a zero N is modelled as the status `ZeroDivision`. Scipy divides a sparse matrix by a scalar by multiplying by `1./N`, which raises in Python when N is 0.
- The `print` statements (lines 46 and 100) are left out. The printed `m_end` is returned in `Fitted(mEnd)`.
- `get_indices`, `get_shape` and `get_submatrix` (lines 102-109) have `pass` bodies, so there is no behaviour to model.
- `n_clusters` is a natural number. For a negative value, `np.zeros` (line 60) raises before any arithmetic.
- CoclustModel.CoclustMod.Fit: requires the W it uses to have `n_clusters` columns. In the source, a W with another column count fails with an index error or runs on, depending on the data.
- The loop keeps no round counter. `Ascend` and `Fit` return the number of rounds as a ghost output, `rounds`, so that their contracts can name the round the loop stops after.
