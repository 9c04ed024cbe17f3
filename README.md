# SimOTA label assignment in Dafny

This project models the SimOTA label assigner of the detector's training
loop (`SimOTAAssigner` in `mmdet/core/bbox/assigners/sim_ota_assigner.py`).
For one image it decides which priors (anchor points with a stride) are
foreground, and which ground-truth box each foreground prior is matched to.
The model follows the source's five stages and proves properties about them:

- **CandidateFilter.** This is `get_in_gt_and_in_center_info`. A prior is
  *in-box* for a box when all four margins from its centre to the box edges
  are strictly positive. It is *in-centre* when the same strict test holds
  against a square around the box centroid with half-size
  `center_radius * stride`. The *candidate mask* marks the priors that are
  in-box or in-centre for some box. The *box-and-centre matrix* has one row
  per candidate and marks the pairs that are both in-box and in-centre.
- **CostMatrix.** This is the cost assembly of `_assign`:
  `cls_cost + 3 * iou_cost + 1e8 * (not in box and centre)`.
- **DynamicK and Matching.** This is `dynamic_k_matching`.
  - Each box gets a dynamic k: the sum of its `candidate_topk` best IoUs
    truncated to an integer, raised to 1 when below.
  - The `for gt_idx` loop marks each box's k cheapest candidates in a 0/1
    matching matrix.
  - A candidate marked for several boxes is moved to the cheapest column
    of its cost row.
  - The candidate mask is narrowed in place to the foreground.
  - Class, IoU and box index are gathered per foreground prior.

  DynamicK holds these stages as functions. Matching holds the imperative
  procedure over an `array2<bool>` matching buffer and the caller's
  `array<bool>` mask. Each method is proved to compute exactly the
  functions.
- **Assigner.** This is `_assign` as a method proved equal to the function
  `AssignSpec`, and `assign`, which retries `_assign` once after a
  `RuntimeError` and lets any other error through.
- **Scenarios.** These are worked examples. Where the priors and boxes
  matter they are concrete; costs and IoUs are given by the inequalities
  or values the example needs:
  - three priors with one box;
  - two boxes claiming the same candidate;
  - a conflict that moves a candidate to a box that never selected it.

An error is a value here: `Result<_, AssignError>`. It is one of:

- `OutOfMemory`, when the device runs out of memory (a `RuntimeError`);
- `TopKOutOfRange`, when `torch.topk` is asked for more rows than the
  column has (a `RuntimeError`);
- `PosIdxUnbound`, the `UnboundLocalError` that `del ..., pos_idx`
  (line 200) raises when the `for gt_idx` loop never ran. This is a
  `NameError`, not a `RuntimeError`.

Tie order is a modelling decision. For `torch.topk`, equal values are
reported lower row first. `torch.min` and `argmax` return the first index.

### Behaviours of the code worth noting

- **Dynamic k over few candidates.** Line 192 passes `self.candidate_topk`
  to `topk` unclamped, so `topk` raises when there are fewer candidates
  than `candidate_topk`. `DynamicK.FinalMatching` and
  `Assigner.AssignSucceeds` capture this: with IoUs in [0, 1] and
  `candidate_topk >= 1`, `_assign` succeeds exactly when the number of
  candidates is at least `candidate_topk`.
- **Zero ground truths.** Nothing is special-cased. No prior is a
  candidate, so `_assign` always raises (`Assigner.ZeroGroundTruths`).
  With `candidate_topk > 0` the `topk` of line 192 raises. With
  `candidate_topk = 0` that `topk` succeeds, the loop never runs, and the
  `del` of line 200 raises an `UnboundLocalError`.
- **Which failures are retried.** Lines 53-58 catch every `RuntimeError`,
  not only running out of memory. The out-of-range `topk` error is one as
  well, so it is retried once and raised again. The `UnboundLocalError` is
  not caught, so it is raised after one attempt (`Assigner.Assign`).
- **No clamping before the square root.** Line 130 applies `sqrt_` to the
  scores directly. A negative score becomes NaN, and
  `F.binary_cross_entropy` (line 129) rejects it. On CPU it raises a
  `RuntimeError` at once. On a CUDA device the check is a device-side
  assert, reported later inside `_assign`. The class cost is an input of
  this model, so this failure is not captured (see `Assigner.AssignSpec`
  under "Left out").

Matching keeps to plausible pairs when the 1e8 penalty dominates the other
cost terms and every box has at least `candidate_topk` plausible
candidates (`Assigner.MatchedPairsPlausible`). Conflict resolution does
not stay within the boxes that claimed a candidate: `cost_argmin` ranges
over the whole row. So a box can lose all its matches although its
dynamic k is positive (`Scenarios.ConflictMovesToUnclaimedColumn`).

## Model

All source paths are `mmdet/core/bbox/assigners/sim_ota_assigner.py`.

| member | source | states |
|---|---|---|
| Matrix.Column | mmdet/core/bbox/assigners/sim_ota_assigner.py:196-198 | `m[:, j]`: one entry per row, entry `r` is `m[r][j]` |
| Matrix.SelectRows | mmdet/core/bbox/assigners/sim_ota_assigner.py:115-116 | indexing rows by a list of row numbers keeps exactly those rows, in that order |
| Matrix.CountTruePositive | mmdet/core/bbox/assigners/sim_ota_assigner.py:160 | a 0/1 vector sums to more than 0 exactly when some entry is set |
| Matrix.RowsPositive | mmdet/core/bbox/assigners/sim_ota_assigner.py:177-180 | `m.sum(dim=1) > 0` holds for a row exactly when the row has a set entry |
| Matrix.CountTrueOne | mmdet/core/bbox/assigners/sim_ota_assigner.py:213 | a row summing to 1 has no set entry besides the one found |
| Matrix.CountTrueSet | mmdet/core/bbox/assigners/sim_ota_assigner.py:198 | setting an unset entry raises the sum by exactly 1 |
| Matrix.CountTrueIsCard | mmdet/core/bbox/assigners/sim_ota_assigner.py:209 | the sum of a 0/1 vector is the number of its set positions |
| Matrix.OneHot | mmdet/core/bbox/assigners/sim_ota_assigner.py:206-207 | a zeroed row with one entry set to 1 sums to 1 and is set only at that column |
| Matrix.CountTrue | mmdet/core/bbox/assigners/sim_ota_assigner.py:208-209 | `.sum()` of a 0/1 tensor, the number of set entries, never more than the length |
| Matrix.TrueIndices | mmdet/core/bbox/assigners/sim_ota_assigner.py:115-116 | boolean-mask indexing keeps exactly the set positions, each once, in increasing order |
| Matrix.TrueIndexRank | mmdet/core/bbox/assigners/sim_ota_assigner.py:211 | the `k`-th set position has exactly `k` set positions before it |
| Matrix.SumUnitBounds | mmdet/core/bbox/assigners/sim_ota_assigner.py:194 | a sum of `n` values in [0, 1] lies in [0, n] |
| Matrix.Sum | mmdet/core/bbox/assigners/sim_ota_assigner.py:194 | `.sum(0)` of the top IoUs of one column, added in row order |
| Matrix.ArgMin | mmdet/core/bbox/assigners/sim_ota_assigner.py:204-205 | `torch.min(dim=1)` index: no entry is smaller, and every earlier entry is strictly larger |
| Matrix.FirstTrue | mmdet/core/bbox/assigners/sim_ota_assigner.py:213 | `argmax` of a 0/1 row: a set entry with none set before it, or 0 for an all-zero row |
| Matrix.MaskedSumOneHot | mmdet/core/bbox/assigners/sim_ota_assigner.py:216-217 | `(row * vals).sum()` for a row with a single 1 is the value at that column |
| Matrix.MaskedSumZero | mmdet/core/bbox/assigners/sim_ota_assigner.py:216-217 | `(row * vals).sum()` of an all-zero row is 0 |
| Matrix.MaskedSum | mmdet/core/bbox/assigners/sim_ota_assigner.py:216-217 | `(matching_matrix * pair_wise_ious).sum(1)` for one row: the sum of the values at the set columns |
| Selection.BestFrom | mmdet/core/bbox/assigners/sim_ota_assigner.py:196-197 | the next row `topk` reports: not yet taken, and before every other row not yet taken |
| Selection.Before | mmdet/core/bbox/assigners/sim_ota_assigner.py:196-197 | the order `topk` reports rows in: larger (or, with `largest=False`, smaller) first, and the lower row first among equal values |
| Selection.TopK | mmdet/core/bbox/assigners/sim_ota_assigner.py:192-197 | `k` distinct rows in range, best first, and every row left out comes after every row taken |
| Selection.TopKOne | mmdet/core/bbox/assigners/sim_ota_assigner.py:196-197 | with `k = 1`, `topk` returns the row that comes before all others |
| Selection.TopKExtends | mmdet/core/bbox/assigners/sim_ota_assigner.py:196-197 | `topk(k)` begins with `topk(k - 1)`: asking for one more row only appends it |
| Selection.BeforeAntisymmetric | mmdet/core/bbox/assigners/sim_ota_assigner.py:196-197 | the report order is a strict order: two rows each no later than the other are equal |
| Selection.SmallestAreSmallest | mmdet/core/bbox/assigners/sim_ota_assigner.py:196-197 | `largest=False`: no row left out is strictly cheaper than a row taken |
| Selection.MarkedCount | mmdet/core/bbox/assigners/sim_ota_assigner.py:198 | marking `topk`'s distinct rows in a zero column leaves exactly `k` ones |
| Selection.TopKSumBounds | mmdet/core/bbox/assigners/sim_ota_assigner.py:192-194 | with IoUs in [0, 1], the sum of the `k` largest lies in [0, k] |
| Selection.TopKSum | mmdet/core/bbox/assigners/sim_ota_assigner.py:192-194 | `topk(...).values.sum(0)` for one column: the sum of the values at the `k` rows `topk` reports |
| CandidateFilter.MinMargin | mmdet/core/bbox/assigners/sim_ota_assigner.py:158-159 | `deltas.min(dim=1)`: at most each of the four margins and equal to one of them |
| CandidateFilter.InBox | mmdet/core/bbox/assigners/sim_ota_assigner.py:153-159 | in-box exactly when all four margins `cx-x1`, `cy-y1`, `x2-cx`, `y2-cy` are strictly positive |
| CandidateFilter.InCenter | mmdet/core/bbox/assigners/sim_ota_assigner.py:163-176 | in-centre exactly when the centre lies strictly inside the centroid square of half-size `center_radius * stride`, per axis with that prior's stride |
| CandidateFilter.InGtsMatrix | mmdet/core/bbox/assigners/sim_ota_assigner.py:147-159 | `is_in_gts`: one row per prior, one column per box, entry is the in-box test of that pair |
| CandidateFilter.InCtsMatrix | mmdet/core/bbox/assigners/sim_ota_assigner.py:163-176 | `is_in_cts`: one row per prior, one column per box, entry is the in-centre test of that pair |
| CandidateFilter.ValidMask | mmdet/core/bbox/assigners/sim_ota_assigner.py:159-180 | a prior is a candidate exactly when it is in-box or in-centre for some box; with no boxes, none is |
| CandidateFilter.GetInGtAndInCenterInfo | mmdet/core/bbox/assigners/sim_ota_assigner.py:144-186 | the mask is `ValidMask`; the matrix has one row per candidate in prior order, marking exactly the pairs both in-box and in-centre |
| CandidateFilter.InBoxesAndCenters | mmdet/core/bbox/assigners/sim_ota_assigner.py:183-185 | `is_in_gts[rows, :] & is_in_cts[rows, :]`: one row per listed prior, entry set exactly when that prior is both in-box and in-centre for the box |
| CandidateFilter.NoPairLost | mmdet/core/bbox/assigners/sim_ota_assigner.py:183-186 | a prior is in-box and in-centre for box `j` exactly when it is a candidate whose row has column `j` set |
| CandidateFilter.CandidateEntryPlausible | mmdet/core/bbox/assigners/sim_ota_assigner.py:183-186 | a set entry of the matrix marks its prior as in-box and in-centre for that box |
| CostMatrix.BaseCost | mmdet/core/bbox/assigners/sim_ota_assigner.py:133 | entry `(r, j)` is `cls_cost + 3.0 * iou_cost` of that pair |
| CostMatrix.Cost | mmdet/core/bbox/assigners/sim_ota_assigner.py:133-134 | the cost exceeds the base cost by exactly `100000000` on the pairs not both in-box and in-centre, and by nothing elsewhere |
| CostMatrix.PenaltySeparates | mmdet/core/bbox/assigners/sim_ota_assigner.py:133-134 | when base costs lie within `INF / 2` of 0, every plausible pair costs less than `INF / 2` and every implausible pair more |
| CostMatrix.DominanceSelected | mmdet/core/bbox/assigners/sim_ota_assigner.py:115-134 | restricting the cost terms to some of their rows keeps the base costs within `INF / 2` of 0 |
| CostMatrix.SelectionAvoidsPenalty | mmdet/core/bbox/assigners/sim_ota_assigner.py:196-197 | under that separation, `topk(k, largest=False)` takes only plausible rows as long as a column has at least `k` of them |
| DynamicK.Truncate | mmdet/core/bbox/assigners/sim_ota_assigner.py:194 | `.int()` truncates toward zero: the result is within 1 of the value, on the side of 0 |
| DynamicK.DynamicK | mmdet/core/bbox/assigners/sim_ota_assigner.py:192-194 | the dynamic k is at least 1; it is 1 when the sum of the `candidate_topk` largest IoUs is below 1, and otherwise the integer part of that sum |
| DynamicK.DynamicKBounds | mmdet/core/bbox/assigners/sim_ota_assigner.py:192-194 | with IoUs in [0, 1], `1 <= k <= candidate_topk`, hence at most the number of candidates |
| DynamicK.DynamicKs | mmdet/core/bbox/assigners/sim_ota_assigner.py:192-194 | one dynamic k per box, each computed from that box's IoU column |
| DynamicK.IsRuntimeError | mmdet/core/bbox/assigners/sim_ota_assigner.py:58 | the test of `except RuntimeError`: running out of memory and the out-of-range `topk` are `RuntimeError`s, the `UnboundLocalError` of line 200 is not |
| DynamicK.KsWithinPlausible | mmdet/core/bbox/assigners/sim_ota_assigner.py:192-197 | a box with at least `candidate_topk` plausible candidates has at least its dynamic k of them |
| DynamicK.InitialMatching | mmdet/core/bbox/assigners/sim_ota_assigner.py:190-198 | the matrix after the `for gt_idx` loop has one row per candidate and one column per box; what each column holds is stated by `InitialColumn` |
| DynamicK.InitialEntry | mmdet/core/bbox/assigners/sim_ota_assigner.py:195-198 | after the loop, entry `(r, j)` is set exactly when `topk` of column `j` took row `r` |
| DynamicK.InitialColumn | mmdet/core/bbox/assigners/sim_ota_assigner.py:190-198 | column `j` holds exactly `ks[j]` ones, and no unset row is cheaper in that column than a set one |
| DynamicK.MatchedColumn | mmdet/core/bbox/assigners/sim_ota_assigner.py:213 | `argmax` of a foreground row is a set column with none set before it |
| DynamicK.Resolve | mmdet/core/bbox/assigners/sim_ota_assigner.py:202-207 | every row sums to at most 1; rows with at most one 1 are unchanged; a conflicting row keeps a single 1, at a column of minimum cost with every earlier column strictly dearer |
| DynamicK.FinalPairsPlausible | mmdet/core/bbox/assigners/sim_ota_assigner.py:195-207 | under the penalty separation, and with at least `ks[j]` plausible rows per box, every 1 left after resolution marks a plausible pair |
| DynamicK.ForegroundRows | mmdet/core/bbox/assigners/sim_ota_assigner.py:208 | `fg_mask_inboxes`: a row is foreground exactly when it has a set entry |
| DynamicK.Gather | mmdet/core/bbox/assigners/sim_ota_assigner.py:209-217 | `num_fg` is the number of foreground rows, and each gathered sequence has that length |
| DynamicK.GatherConsistent | mmdet/core/bbox/assigners/sim_ota_assigner.py:213-217 | the `f`-th foreground row has its only 1 at `matched_gt_inds[f]`, its class is that box's label and its IoU is that pair's IoU |
| DynamicK.ForegroundPlausible | mmdet/core/bbox/assigners/sim_ota_assigner.py:202-217 | under the conditions of `FinalPairsPlausible`, the `f`-th foreground row is matched to a box it is plausible for |
| DynamicK.MatchedRowsPlausible | mmdet/core/bbox/assigners/sim_ota_assigner.py:188-217 | with IoUs in [0, 1], the penalty separation and at least `candidate_topk` plausible rows per box, matching succeeds exactly when there is a box, and then every foreground row is matched plausibly |
| DynamicK.Scatter | mmdet/core/bbox/assigners/sim_ota_assigner.py:211 | `mask[mask.clone()] = vals` keeps the mask's length; its contents are stated by `ScatterNarrows` |
| DynamicK.ScatterNarrows | mmdet/core/bbox/assigners/sim_ota_assigner.py:211 | only set positions can stay set; the `k`-th set position takes `vals[k]`; the count afterwards is the count of true values |
| DynamicK.ScatterKeepsUnset | mmdet/core/bbox/assigners/sim_ota_assigner.py:211 | a position unset before narrowing stays unset |
| DynamicK.ScatterPlaces | mmdet/core/bbox/assigners/sim_ota_assigner.py:211 | the `k`-th set position of the mask takes the `k`-th value |
| DynamicK.ScatterTrueIndices | mmdet/core/bbox/assigners/sim_ota_assigner.py:211-213 | the `f`-th set position after narrowing is the original position of the `f`-th foreground row |
| DynamicK.FinalMatching | mmdet/core/bbox/assigners/sim_ota_assigner.py:190-207 | fails only with the `topk` error or the `del pos_idx` error; the `del` error exactly when there is no box and the first `topk` fits; success exactly when there is a box and every `topk` fits; on success every row sums to at most 1 |
| DynamicK.FinalMatchingFails | mmdet/core/bbox/assigners/sim_ota_assigner.py:192-200 | with IoUs in [0, 1] and `candidate_topk >= 1`, matching succeeds exactly when there is a box and `candidate_topk` does not exceed the number of candidates, and fails with the `topk` error exactly when it exceeds it |
| Matching.Rows | mmdet/core/bbox/assigners/sim_ota_assigner.py:190 | the matching buffer read as a matrix of its current entries |
| Matching.MarkColumns | mmdet/core/bbox/assigners/sim_ota_assigner.py:195-198 | the loop succeeds exactly when every dynamic k fits the column, and then leaves the buffer equal to `InitialMatching` |
| Matching.ResolveConflicts | mmdet/core/bbox/assigners/sim_ota_assigner.py:202-207 | the in-place zeroing and re-setting leaves the buffer equal to `Resolve` of its old contents |
| Matching.NarrowMask | mmdet/core/bbox/assigners/sim_ota_assigner.py:211 | the mask array afterwards is `Scatter` of its old contents |
| Matching.DynamicKMatching | mmdet/core/bbox/assigners/sim_ota_assigner.py:188-219 | on a `topk` failure or the `del pos_idx` failure the mask is untouched and that error returned; on success the result is `Gather` of the resolved matrix and the mask is narrowed to the foreground |
| Assigner.ValidRows | mmdet/core/bbox/assigners/sim_ota_assigner.py:115-116 | the candidate row numbers all name priors |
| Assigner.ValidCost | mmdet/core/bbox/assigners/sim_ota_assigner.py:115-134 | `cost_matrix` has one row per candidate and one column per box |
| Assigner.ValidIous | mmdet/core/bbox/assigners/sim_ota_assigner.py:115-120 | `pair_wise_ious` has one row per candidate and one column per box |
| Assigner.AssignSpec | mmdet/core/bbox/assigners/sim_ota_assigner.py:83-142 | one run of `_assign`: among the failures modelled, it fails only with the `topk` or the line-200 error; a result has one mask entry per prior, at most as many foreground priors as candidates, and one class, IoU and box index per foreground prior |
| Assigner.AssignOnce | mmdet/core/bbox/assigners/sim_ota_assigner.py:83-142 | `_assign` returns exactly `AssignSpec`: filter, candidate rows, cost, matching, narrowed mask and gathered results |
| Assigner.Attempt | mmdet/core/bbox/assigners/sim_ota_assigner.py:53-74 | one call of `_assign` either runs out of memory or returns `AssignSpec` |
| Assigner.Assign | mmdet/core/bbox/assigners/sim_ota_assigner.py:53-81 | `_assign` runs a second time exactly when the first attempt raises a `RuntimeError`; succeeds exactly when `_assign` can succeed and not both attempts run out of memory; a success is the direct result; any other error is the one `_assign` raises |
| Assigner.AssignResultConsistent | mmdet/core/bbox/assigners/sim_ota_assigner.py:208-217 | the mask is narrowed from the candidate mask; `num_fg` counts it; `num_fg <= num_valid <= num_priors`; the `f`-th foreground prior carries its box's index, label and IoU |
| Assigner.ForegroundConsistent | mmdet/core/bbox/assigners/sim_ota_assigner.py:208-217 | the `f`-th foreground prior is the candidate behind the `f`-th foreground row of the resolved matching; `matched_gt_inds[f]` is the column of that row's 1; the prior carries that box's label and the IoU of that pair |
| Assigner.MatchedIousInUnit | mmdet/core/bbox/assigners/sim_ota_assigner.py:216-217 | with IoUs in [0, 1], every returned IoU is in [0, 1] |
| Assigner.ValidIousInUnit | mmdet/core/bbox/assigners/sim_ota_assigner.py:115-120 | restricting IoUs in [0, 1] to candidate rows keeps them in [0, 1] |
| Assigner.AssignSucceeds | mmdet/core/bbox/assigners/sim_ota_assigner.py:192 | with IoUs in [0, 1] and `candidate_topk >= 1`, and among the failures modelled, `_assign` succeeds exactly when there are at least `candidate_topk` candidates, and otherwise fails with the `topk` error |
| Assigner.ZeroGroundTruths | mmdet/core/bbox/assigners/sim_ota_assigner.py:177-200 | with no boxes, `_assign` always fails: with the `topk` error when `candidate_topk > 0`, and with the `del pos_idx` error when it is 0 |
| Assigner.CandidateCostSeparates | mmdet/core/bbox/assigners/sim_ota_assigner.py:115-134 | penalty separation over all priors carries over to the candidate rows |
| Assigner.CandidatesPlausible | mmdet/core/bbox/assigners/sim_ota_assigner.py:188-207 | under penalty dominance and enough plausible candidates per box, the candidate matching succeeds and every foreground row is matched plausibly |
| Assigner.MatchedPairsPlausible | mmdet/core/bbox/assigners/sim_ota_assigner.py:112-142 | under the same conditions `_assign` succeeds, and every foreground prior lies in its matched box and in that box's centre region |
| Scenarios.OneBoxPlacement | mmdet/core/bbox/assigners/sim_ota_assigner.py:153-176 | box (10,10,50,50), stride-8 priors at (20,20), (30,30), (100,100), radius 2.5: the first two are in box and centre, the third in neither |
| Scenarios.CandidatesFromPlacement | mmdet/core/bbox/assigners/sim_ota_assigner.py:144-186 | for any three priors and one box placed that way: mask `[true, true, false]`, both candidates in box and centre |
| Scenarios.OneBoxCandidates | mmdet/core/bbox/assigners/sim_ota_assigner.py:144-186 | so the one-box priors give mask `[true, true, false]` with both candidates in box and centre |
| Scenarios.OneBoxCandidateInputs | mmdet/core/bbox/assigners/sim_ota_assigner.py:115-134 | the candidates are priors 0 and 1, and their cost carries no penalty |
| Scenarios.TopKOfPair | mmdet/core/bbox/assigners/sim_ota_assigner.py:192-197 | on a two-row column whose first row comes first, `topk` returns `[0]` and then `[0, 1]` |
| Scenarios.OneBoxDynamicK | mmdet/core/bbox/assigners/sim_ota_assigner.py:192-194 | candidate IoUs 0.9 and 0.8 with `candidate_topk = 2` give dynamic k `int(1.7) = 1` |
| Scenarios.OneBoxInitial | mmdet/core/bbox/assigners/sim_ota_assigner.py:195-198 | on a two-row cost whose first row is cheaper, k = 1 marks the first row alone |
| Scenarios.OneBoxMatching | mmdet/core/bbox/assigners/sim_ota_assigner.py:190-207 | with that cost and those IoUs no conflict arises, so the matching is that single mark |
| Scenarios.OneBoxGather | mmdet/core/bbox/assigners/sim_ota_assigner.py:208-217 | the single mark gives one foreground row, with box 0, label 2 and the IoU of row 0 |
| Scenarios.OneBoxNarrowed | mmdet/core/bbox/assigners/sim_ota_assigner.py:211 | narrowing the mask `[true, true, false]` by `[true, false]` keeps only prior 0 |
| Scenarios.OneBoxSingleMatch | mmdet/core/bbox/assigners/sim_ota_assigner.py:83-142 | end to end, for IoUs 0.9 and 0.8 on the candidates: `_assign` returns classes `[2]`, mask `[true, false, false]`, IoUs `[0.9]`, indices `[0]` and `num_fg = 1` |
| Scenarios.OneBoxDefaultFails | mmdet/core/bbox/assigners/sim_ota_assigner.py:192 | with the default `candidate_topk = 10`, two candidates are too few and `_assign` fails with the `topk` error, whatever the IoUs |
| Scenarios.ConflictDynamicK | mmdet/core/bbox/assigners/sim_ota_assigner.py:192-194 | one candidate with IoUs in [0, 1] for two boxes gives both dynamic k 1 |
| Scenarios.TopKSumSingle | mmdet/core/bbox/assigners/sim_ota_assigner.py:192 | the top-1 sum of a one-row column is its entry |
| Scenarios.ConflictInitial | mmdet/core/bbox/assigners/sim_ota_assigner.py:195-198 | with one candidate and both dynamic ks 1, both boxes mark it |
| Scenarios.ConflictGoesToCheaper | mmdet/core/bbox/assigners/sim_ota_assigner.py:202-207 | when that candidate is cheaper for box 1, it keeps only box 1 and box 0 loses its match |
| Scenarios.UnclaimedCostHasShape | mmdet/core/bbox/assigners/sim_ota_assigner.py:196-207 | the cost `[[1, 2, 2], [0, 9, 9]]` has the shape of the next three lemmas |
| Scenarios.UnclaimedSelections | mmdet/core/bbox/assigners/sim_ota_assigner.py:196-197 | on a two-row, three-box cost where row 1 is cheaper for box 0 and row 0 for boxes 1 and 2, `topk(k=1)` picks those rows |
| Scenarios.UnclaimedInitial | mmdet/core/bbox/assigners/sim_ota_assigner.py:195-198 | with every dynamic k 1, box 0 marks candidate 1 and boxes 1 and 2 mark candidate 0 |
| Scenarios.ConflictMovesToUnclaimedColumn | mmdet/core/bbox/assigners/sim_ota_assigner.py:202-207 | when box 0 is candidate 0's cheapest box, candidate 0 moves to box 0, which never selected it, and boxes 1 and 2 end with no match |

## Left out

- The float cost terms are not modelled. This covers `bbox_overlaps`, `-log(iou + eps)`, `F.one_hot`, `sqrt_` and `F.binary_cross_entropy` (lines 120-131). The IoU, IoU-cost and class-cost matrices are inputs over all priors. `_assign` restricts them to the candidate rows. This equals computing them on the restricted boxes and scores, because each row depends only on its own prior.
- Floating point is not modelled. Costs and IoUs are exact reals, so float32 rounding is not captured. The `1e8` penalty is exact.
- DynamicK.Truncate: `.int()` truncates toward zero as in the source, but its int32 range is not modelled. With IoUs in [0, 1] the sum is at most `candidate_topk`, so it overflows only for a `candidate_topk` beyond 2^31 - 1.
- A negative `candidate_topk` is not modelled, because `candidate_topk` is a `nat`. In the source, `topk` at line 192 raises a `RuntimeError` for it, which `assign` retries once and raises again.
- Assigner.AssignSpec: the `RuntimeError`s raised by the cost calls themselves are not modelled. `F.one_hot` (line 124) raises one for a label outside `[0, num_classes)`. `F.binary_cross_entropy` (line 129) raises one for a square-rooted score outside [0, 1], which includes the NaN that `sqrt_` (line 130) makes of a negative score. When the first attempt runs on CPU, `assign` would retry either error once and then raise it again. On a CUDA device both checks are device-side asserts, reported as a `RuntimeError` at a later call inside `_assign` that waits for the device. They leave the device unusable, so the except branch's own device calls (lines 64-66) raise again and the second `_assign` (line 72) does not run. The model has no `num_classes` and takes the class cost as an input, so it assumes that cost could be computed. `Assigner.AssignSucceeds` holds under the same assumption.
- Assigner.WellFormed: inputs whose shapes disagree are outside the model. Every `_assign` member requires one label per box and one row per prior and one column per box in each cost or IoU matrix. In the source a label count that differs from the box count gives `gt_onehot_label` (line 124) and the repeated scores (line 128) different sizes, so `F.binary_cross_entropy` (line 129) raises a `ValueError`. That is not a `RuntimeError`, so `assign` raises it at once without a retry.
- `eps` and `gt_bboxes_ignore` have no effect outside the cost terms, so they are not modelled.
- Device handling is left out: `.cpu()`, `.float()`, `.to(origin_device)`, `torch.cuda.empty_cache()` and `warnings.warn` (lines 59-81). Device moves are the identity.
- Assigner.Attempt: running out of memory is a boolean input per attempt. It is not a point inside the computation. Each attempt has no effect outside itself, so that point does not change the outcome.
- Selection.TopK: `torch.topk` leaves the order of equal values open. The model reports the lower row first. Results that depend on ties hold for this order only.
- The matching matrix holds booleans, not the float `0.0`/`1.0` of `zeros_like(cost)`. `*= 0.0` and `= 1.0` become clearing and setting. Of the `del` at line 200 only its failure is modelled: it raises when the loop never bound `pos_idx` (`PosIdxUnbound`). Otherwise it only frees memory.
- The rest of the repository is not part of this model. That covers the training hooks (`yolox_process_hook.py`, the cosine learning-rate hook), `tools/dist_test.py`, `COCO_CR.py`, `DataTransformer.py` and `infer.py`: orchestration, I/O, distributed communication and float schedules outside the assigner.
