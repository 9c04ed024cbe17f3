/** The stages of `dynamic_k_matching` as functions of their inputs: the
    dynamic k of each ground truth, the matching matrix the `for gt_idx`
    loop builds, conflict resolution, the foreground rows and the gathered
    per-foreground results. The imperative procedure in module `Matching`
    is proved to compute exactly these. */
module DynamicK {
  import opened Wrappers
  import opened Matrix
  import opened Selection
  import opened CostMatrix

  /** What one run of `_assign` can raise: the accelerator running out of
      memory; `topk` asked for more entries than a column has; and
      `UnboundLocalError` from `del pos_idx` when the `for gt_idx` loop never
      ran, so never bound `pos_idx`. */
  datatype AssignError = OutOfMemory | TopKOutOfRange | PosIdxUnbound

  /** The first two are `RuntimeError`s; `UnboundLocalError` is a `NameError`. */
  predicate IsRuntimeError(e: AssignError) {
    e.OutOfMemory? || e.TopKOutOfRange?
  }

  /** `.int()` of a real: truncation toward zero. */
  function Truncate(x: real): (n: int)
    ensures x >= 0.0 ==> n as real <= x < n as real + 1.0
    ensures x < 0.0 ==> n as real - 1.0 < x <= n as real
  {
    if x >= 0.0 then x.Floor else -((-x).Floor)
  }

  /** `dynamic_ks[j] = clamp(topk(ious[:, j], candidate_topk).sum().int(), min=1)`:
      1 when the sum of the top IoUs is below 1, and otherwise its integer
      part. */
  function DynamicK(iouCol: seq<real>, candidateTopk: nat): (k: nat)
    requires candidateTopk <= |iouCol|
    ensures k >= 1
    ensures TopKSum(iouCol, candidateTopk) < 1.0 ==> k == 1
    ensures TopKSum(iouCol, candidateTopk) >= 1.0 ==> k as real <= TopKSum(iouCol, candidateTopk) < k as real + 1.0
  {
    var t := Truncate(TopKSum(iouCol, candidateTopk));
    if t < 1 then 1 else t
  }

  /** With IoUs in [0, 1], each dynamic k lies between 1 and `candidate_topk`
      (when that is at least 1), hence never exceeds the number of rows. */
  lemma DynamicKBounds(iouCol: seq<real>, candidateTopk: nat)
    requires 1 <= candidateTopk <= |iouCol|
    requires forall r :: 0 <= r < |iouCol| ==> 0.0 <= iouCol[r] <= 1.0
    ensures 1 <= DynamicK(iouCol, candidateTopk) <= candidateTopk
  {
    TopKSumBounds(iouCol, candidateTopk);
  }

  /** The dynamic k of every ground-truth column. */
  function DynamicKs(ious: seq<seq<real>>, numGt: nat, candidateTopk: nat): (ks: seq<nat>)
    requires IsMatrix(ious, |ious|, numGt) && candidateTopk <= |ious|
    ensures |ks| == numGt
    ensures forall j :: 0 <= j < numGt ==> ks[j] == DynamicK(Column(ious, j), candidateTopk)
  {
    seq(numGt, j requires 0 <= j < numGt => DynamicK(Column(ious, j), candidateTopk))
  }

  /** With IoUs in [0, 1], a ground truth whose column of `inBoxesAndCenters`
      holds at least `candidate_topk` plausible rows holds at least its
      dynamic k of them. */
  lemma KsWithinPlausible(ious: seq<seq<real>>, inBoxesAndCenters: seq<seq<bool>>, numGt: nat, candidateTopk: nat)
    requires IsMatrix(ious, |ious|, numGt) && IsMatrix(inBoxesAndCenters, |ious|, numGt)
    requires 1 <= candidateTopk <= |ious|
    requires forall r, j :: 0 <= r < |ious| && 0 <= j < numGt ==> 0.0 <= ious[r][j] <= 1.0
    requires forall j :: 0 <= j < numGt ==> candidateTopk <= CountTrue(Column(inBoxesAndCenters, j))
    ensures forall j :: 0 <= j < numGt ==>
      DynamicKs(ious, numGt, candidateTopk)[j] <= CountTrue(Column(inBoxesAndCenters, j)) <= |ious|
  {
    forall j | 0 <= j < numGt
      ensures DynamicKs(ious, numGt, candidateTopk)[j] <= CountTrue(Column(inBoxesAndCenters, j)) <= |ious|
    {
      DynamicKBounds(Column(ious, j), candidateTopk);
    }
  }

  /** The matrix after the `for gt_idx` loop: entry `(r, j)` is set exactly
      when row `r` is among the rows `topk(cost[:, j], ks[j], largest=False)`
      returns. */
  function InitialMatching(cost: seq<seq<real>>, ks: seq<nat>): (m: seq<seq<bool>>)
    requires IsMatrix(cost, |cost|, |ks|)
    requires forall j :: 0 <= j < |ks| ==> ks[j] <= |cost|
    ensures IsMatrix(m, |cost|, |ks|)
  {
    seq(|cost|, r requires 0 <= r < |cost| =>
      seq(|ks|, j requires 0 <= j < |ks| => r in TopK(Column(cost, j), ks[j], false)))
  }

  /** After the loop, entry `(r, j)` is set exactly when `topk` selected row
      `r` for column `j`. */
  lemma InitialEntry(cost: seq<seq<real>>, ks: seq<nat>, r: nat, j: nat)
    requires IsMatrix(cost, |cost|, |ks|)
    requires forall c :: 0 <= c < |ks| ==> ks[c] <= |cost|
    requires r < |cost| && j < |ks|
    ensures InitialMatching(cost, ks)[r][j] <==> r in TopK(Column(cost, j), ks[j], false)
  {
  }

  /** Before resolution, column `j` holds exactly `ks[j]` ones; no row left
      at 0 is strictly cheaper in that column than a row set to 1, and among
      equal costs the lower rows are the ones set. */
  lemma {:induction false} InitialColumn(cost: seq<seq<real>>, ks: seq<nat>, j: nat)
    requires IsMatrix(cost, |cost|, |ks|)
    requires forall c :: 0 <= c < |ks| ==> ks[c] <= |cost|
    requires j < |ks|
    ensures CountTrue(Column(InitialMatching(cost, ks), j)) == ks[j]
    ensures forall s, u ::
      (0 <= s < |cost| && 0 <= u < |cost| && InitialMatching(cost, ks)[s][j] && !InitialMatching(cost, ks)[u][j]) ==>
      cost[s][j] < cost[u][j] || (cost[s][j] == cost[u][j] && s < u)
  {
    var m := InitialMatching(cost, ks);
    var col := Column(cost, j);
    var idx := TopK(col, ks[j], false);
    assert Column(m, j) == seq(|cost|, r => r in idx);
    MarkedCount(idx, |cost|);
    forall s, u | 0 <= s < |cost| && 0 <= u < |cost| && m[s][j] && !m[u][j]
      ensures cost[s][j] < cost[u][j] || (cost[s][j] == cost[u][j] && s < u)
    {
      var a :| 0 <= a < |idx| && idx[a] == s;
      assert Before(col, false, idx[a], u);
    }
  }

  /** The column of a row with a single 1 (`argmax` of a foreground row). */
  function MatchedColumn(row: seq<bool>): (c: nat)
    requires CountTrue(row) > 0
    ensures c < |row| && row[c]
    ensures forall i :: 0 <= i < c ==> !row[i]
  {
    CountTruePositive(row);
    FirstTrue(row)
  }

  /** Conflict resolution: a row set for several ground truths is cleared and
      keeps a single 1 at its cheapest column (the first such column); every
      other row passes through. Afterwards each row holds at most one 1. */
  function Resolve(m: seq<seq<bool>>, cost: seq<seq<real>>, cols: nat): (res: seq<seq<bool>>)
    requires IsMatrix(m, |m|, cols) && IsMatrix(cost, |m|, cols)
    ensures IsMatrix(res, |m|, cols)
    ensures forall r :: 0 <= r < |m| ==> CountTrue(res[r]) <= 1
    ensures forall r :: 0 <= r < |m| && CountTrue(m[r]) <= 1 ==> res[r] == m[r]
    ensures forall r :: 0 <= r < |m| && CountTrue(m[r]) > 1 ==> CountTrue(res[r]) == 1
    ensures forall r, c :: 0 <= r < |m| && 0 <= c < cols && CountTrue(m[r]) > 1 && res[r][c] ==>
      (forall c' :: 0 <= c' < cols ==> cost[r][c] <= cost[r][c']) &&
      (forall c' :: 0 <= c' < c ==> cost[r][c] < cost[r][c'])
  {
    seq(|m|, r requires 0 <= r < |m| =>
      if CountTrue(m[r]) > 1 then OneHot(cols, ArgMin(cost[r])) else m[r])
  }

  /** When each plausible pair costs below `INF / 2`, each implausible pair
      above it, and every ground truth has at least its dynamic k plausible
      rows, every 1 left after resolution marks a pair that is both in-box
      and in-centre: a moved row lands on its cheapest column, which is no
      dearer than the plausible column that had claimed it. */
  lemma FinalPairsPlausible(cost: seq<seq<real>>, inBoxesAndCenters: seq<seq<bool>>, ks: seq<nat>, r: nat, c: nat)
    requires IsMatrix(cost, |cost|, |ks|) && IsMatrix(inBoxesAndCenters, |cost|, |ks|)
    requires forall j :: 0 <= j < |ks| ==> ks[j] <= CountTrue(Column(inBoxesAndCenters, j)) <= |cost|
    requires forall row, j :: 0 <= row < |cost| && 0 <= j < |ks| ==>
      if inBoxesAndCenters[row][j] then cost[row][j] < INF / 2.0 else cost[row][j] > INF / 2.0
    requires r < |cost| && c < |ks|
    requires Resolve(InitialMatching(cost, ks), cost, |ks|)[r][c]
    ensures inBoxesAndCenters[r][c]
  {
    var init := InitialMatching(cost, ks);
    if CountTrue(init[r]) <= 1 {
      SelectionAvoidsPenalty(cost, inBoxesAndCenters, |ks|, c, ks[c]);
    } else {
      CountTruePositive(init[r]);
      var j :| 0 <= j < |ks| && init[r][j];
      SelectionAvoidsPenalty(cost, inBoxesAndCenters, |ks|, j, ks[j]);
      assert cost[r][c] <= cost[r][j];
    }
  }

  /** `matching_matrix.sum(1) > 0`: the rows holding a 1. */
  function ForegroundRows(m: seq<seq<bool>>): (fg: seq<bool>)
    ensures |fg| == |m|
    ensures forall r :: 0 <= r < |m| ==> (fg[r] <==> exists c :: 0 <= c < |m[r]| && m[r][c])
  {
    RowsPositive(m);
    seq(|m|, r requires 0 <= r < |m| => CountTrue(m[r]) > 0)
  }

  /** What `dynamic_k_matching` returns besides the narrowed mask. */
  datatype Matched = Matched(numFg: nat, gtMatchedClasses: seq<int>, predIousThisMatching: seq<real>, matchedGtInds: seq<nat>)

  /** Gathering the results for the foreground rows, in row order:
      `argmax` of the row, the label of that ground truth, and
      `(matching_matrix * pair_wise_ious).sum(1)` of the row. */
  function Gather(m: seq<seq<bool>>, ious: seq<seq<real>>, gtClasses: seq<int>): (res: Matched)
    requires IsMatrix(m, |m|, |gtClasses|) && IsMatrix(ious, |m|, |gtClasses|)
    ensures res.numFg == CountTrue(ForegroundRows(m)) <= |m|
    ensures |res.gtMatchedClasses| == |res.predIousThisMatching| == |res.matchedGtInds| == res.numFg
  {
    var fg := ForegroundRows(m);
    var rows := TrueIndices(fg);
    var inds := seq(|rows|, f requires 0 <= f < |rows| => (RowsPositive(m); MatchedColumn(m[rows[f]])));
    Matched(
      CountTrue(fg),
      seq(|rows|, f requires 0 <= f < |rows| => gtClasses[inds[f]]),
      seq(|rows|, f requires 0 <= f < |rows| => MaskedSum(m[rows[f]], ious[rows[f]])),
      inds)
  }

  /** After resolution, the `f`-th foreground row holds its only 1 at
      `matchedGtInds[f]`; its class is that ground truth's label and its IoU
      is the IoU of that (row, ground truth) pair. */
  lemma {:induction false} GatherConsistent(m: seq<seq<bool>>, ious: seq<seq<real>>, gtClasses: seq<int>, f: nat)
    requires IsMatrix(m, |m|, |gtClasses|) && IsMatrix(ious, |m|, |gtClasses|)
    requires forall r :: 0 <= r < |m| ==> CountTrue(m[r]) <= 1
    requires f < CountTrue(ForegroundRows(m))
    ensures var res := Gather(m, ious, gtClasses);
      var row := TrueIndices(ForegroundRows(m))[f];
      var c := res.matchedGtInds[f];
      row < |m| && c < |gtClasses| && m[row][c] &&
      (forall c' :: 0 <= c' < |gtClasses| && c' != c ==> !m[row][c']) &&
      res.gtMatchedClasses[f] == gtClasses[c] &&
      res.predIousThisMatching[f] == ious[row][c]
  {
    var res := Gather(m, ious, gtClasses);
    var fg := ForegroundRows(m);
    var row := TrueIndices(fg)[f];
    var c := res.matchedGtInds[f];
    RowsPositive(m);
    assert c == MatchedColumn(m[row]);
    assert CountTrue(m[row]) == 1;
    CountTrueOne(m[row], c);
    MaskedSumOneHot(m[row], ious[row], c);
  }

  /** Under the conditions of `FinalPairsPlausible`, the `f`-th foreground
      row of the resolved matrix is matched to a ground truth it is
      plausible for. */
  lemma ForegroundPlausible(cost: seq<seq<real>>, ious: seq<seq<real>>, inBoxesAndCenters: seq<seq<bool>>,
                            gtClasses: seq<int>, ks: seq<nat>, f: nat)
    requires IsMatrix(cost, |cost|, |ks|) && IsMatrix(ious, |cost|, |ks|) && IsMatrix(inBoxesAndCenters, |cost|, |ks|)
    requires |gtClasses| == |ks|
    requires forall j :: 0 <= j < |ks| ==> ks[j] <= CountTrue(Column(inBoxesAndCenters, j)) <= |cost|
    requires forall r, j :: 0 <= r < |cost| && 0 <= j < |ks| ==>
      if inBoxesAndCenters[r][j] then cost[r][j] < INF / 2.0 else cost[r][j] > INF / 2.0
    requires f < CountTrue(ForegroundRows(Resolve(InitialMatching(cost, ks), cost, |ks|)))
    ensures var m := Resolve(InitialMatching(cost, ks), cost, |ks|);
      var row := TrueIndices(ForegroundRows(m))[f];
      var c := Gather(m, ious, gtClasses).matchedGtInds[f];
      row < |cost| && c < |ks| && inBoxesAndCenters[row][c]
  {
    var m := Resolve(InitialMatching(cost, ks), cost, |ks|);
    GatherConsistent(m, ious, gtClasses, f);
    FinalPairsPlausible(cost, inBoxesAndCenters, ks, TrueIndices(ForegroundRows(m))[f], Gather(m, ious, gtClasses).matchedGtInds[f]);
  }

  /** The whole matching keeps to plausible pairs: with IoUs in [0, 1],
      `INF / 2` separating plausible from implausible costs and at least
      `candidate_topk` plausible rows per ground truth, the matching
      succeeds exactly when there is a ground truth, and then the `f`-th
      foreground row is matched to a ground truth it is plausible for. */
  lemma {:induction false} MatchedRowsPlausible(cost: seq<seq<real>>, ious: seq<seq<real>>, inBoxesAndCenters: seq<seq<bool>>,
                                                gtClasses: seq<int>, candidateTopk: nat, f: nat)
    requires IsMatrix(cost, |cost|, |gtClasses|) && IsMatrix(ious, |cost|, |gtClasses|)
    requires IsMatrix(inBoxesAndCenters, |cost|, |gtClasses|)
    requires 1 <= candidateTopk <= |cost|
    requires forall r, j :: 0 <= r < |cost| && 0 <= j < |gtClasses| ==> 0.0 <= ious[r][j] <= 1.0
    requires forall j :: 0 <= j < |gtClasses| ==> candidateTopk <= CountTrue(Column(inBoxesAndCenters, j))
    requires forall r, j :: 0 <= r < |cost| && 0 <= j < |gtClasses| ==>
      if inBoxesAndCenters[r][j] then cost[r][j] < INF / 2.0 else cost[r][j] > INF / 2.0
    ensures FinalMatching(cost, ious, |gtClasses|, candidateTopk).Ok? <==> 0 < |gtClasses|
    ensures var r := FinalMatching(cost, ious, |gtClasses|, candidateTopk);
      r.Ok? && f < CountTrue(ForegroundRows(r.value)) ==>
      var m := r.value;
        var row := TrueIndices(ForegroundRows(m))[f];
        var c := Gather(m, ious, gtClasses).matchedGtInds[f];
        row < |cost| && c < |gtClasses| && inBoxesAndCenters[row][c]
  {
    var numGt := |gtClasses|;
    FinalMatchingFails(cost, ious, numGt, candidateTopk);
    if numGt == 0 {
      return;
    }
    var ks := DynamicKs(ious, numGt, candidateTopk);
    assert FinalMatching(cost, ious, numGt, candidateTopk).value == Resolve(InitialMatching(cost, ks), cost, numGt);
    KsWithinPlausible(ious, inBoxesAndCenters, numGt, candidateTopk);
    if f < CountTrue(ForegroundRows(Resolve(InitialMatching(cost, ks), cost, numGt))) {
      ForegroundPlausible(cost, ious, inBoxesAndCenters, gtClasses, ks, f);
    }
  }

  /** `mask[mask.clone()] = vals`: the true positions of `mask`, in order,
      take the successive entries of `vals`; every false position stays
      false. Defined from the last position, as `CountTrue` is. */
  function Scatter(mask: seq<bool>, vals: seq<bool>): (res: seq<bool>)
    requires CountTrue(mask) == |vals|
    ensures |res| == |mask|
    decreases |mask|
  {
    if |mask| == 0 then []
    else
      var n := |mask| - 1;
      var c := CountTrue(mask[..n]);
      Scatter(mask[..n], vals[..c]) + [mask[n] && vals[c]]
  }

  /** Scattering narrows the mask: only originally set positions can remain
      set, the `k`-th set position carries `vals[k]`, and the number of set
      positions afterwards is the number of true values scattered. */
  lemma ScatterNarrows(mask: seq<bool>, vals: seq<bool>)
    requires CountTrue(mask) == |vals|
    ensures forall i :: 0 <= i < |mask| && Scatter(mask, vals)[i] ==> mask[i]
    ensures forall k :: 0 <= k < |vals| ==> Scatter(mask, vals)[TrueIndices(mask)[k]] == vals[k]
    ensures CountTrue(Scatter(mask, vals)) == CountTrue(vals)
  {
    ScatterKeepsUnset(mask, vals);
    forall k | 0 <= k < |vals| ensures Scatter(mask, vals)[TrueIndices(mask)[k]] == vals[k] {
      ScatterPlaces(mask, vals, k);
    }
    ScatterCount(mask, vals);
  }

  /** A position left false by the mask stays false. */
  lemma {:induction false} ScatterKeepsUnset(mask: seq<bool>, vals: seq<bool>)
    requires CountTrue(mask) == |vals|
    ensures forall i :: 0 <= i < |mask| && Scatter(mask, vals)[i] ==> mask[i]
    decreases |mask|
  {
    if |mask| > 0 {
      var n := |mask| - 1;
      ScatterLast(mask, vals);
      ScatterKeepsUnset(mask[..n], vals[..CountTrue(mask[..n])]);
    }
  }

  /** The `k`-th set position of the mask takes the `k`-th value. */
  lemma {:induction false} ScatterPlaces(mask: seq<bool>, vals: seq<bool>, k: nat)
    requires CountTrue(mask) == |vals| && k < |vals|
    ensures Scatter(mask, vals)[TrueIndices(mask)[k]] == vals[k]
    decreases |mask|
  {
    var n := |mask| - 1;
    var p := mask[..n];
    var c := CountTrue(p);
    ScatterLast(mask, vals);
    if k < c {
      ScatterPlaces(p, vals[..c], k);
      TrueIndicesPrefix(mask, k);
    } else {
      TrueIndicesLast(mask);
    }
  }

  /** The last position of a scatter, and the scatter of the prefix before it. */
  lemma ScatterLast(mask: seq<bool>, vals: seq<bool>)
    requires CountTrue(mask) == |vals| && |mask| > 0
    ensures var n := |mask| - 1;
      CountTrue(mask[..n]) <= |vals| &&
      Scatter(mask, vals) == Scatter(mask[..n], vals[..CountTrue(mask[..n])]) + [mask[n] && vals[CountTrue(mask[..n])]]
  {
  }

  /** Scattering into a mask and then dropping its last position is
      scattering the matching prefix of the values into the shorter mask. */
  lemma ScatterPrefix(mask: seq<bool>, vals: seq<bool>)
    requires CountTrue(mask) == |vals| && |mask| > 0
    ensures var n := |mask| - 1;
      CountTrue(mask[..n]) <= |vals| &&
      Scatter(mask, vals)[..n] == Scatter(mask[..n], vals[..CountTrue(mask[..n])])
  {
    ScatterLast(mask, vals);
  }

  lemma {:induction false} ScatterCount(mask: seq<bool>, vals: seq<bool>)
    requires CountTrue(mask) == |vals|
    ensures CountTrue(Scatter(mask, vals)) == CountTrue(vals)
  {
    if |mask| > 0 {
      var n := |mask| - 1;
      var p := mask[..n];
      var c := CountTrue(p);
      var pv := vals[..c];
      ScatterPrefix(mask, vals);
      ScatterCount(p, pv);
      assert mask[..n] == p;
      if mask[n] {
        assert vals[..|vals| - 1] == pv;
      } else {
        assert pv == vals;
      }
    }
  }

  /** The `f`-th set position after scattering is the `k`-th set position
      of the original mask, where `k` is the `f`-th true value: the narrowed
      mask lists the chosen positions in the same order as the values. */
  lemma {:induction false} ScatterTrueIndices(mask: seq<bool>, vals: seq<bool>, f: nat)
    requires CountTrue(mask) == |vals| && f < CountTrue(vals)
    ensures CountTrue(Scatter(mask, vals)) == CountTrue(vals)
    ensures TrueIndices(Scatter(mask, vals))[f] == TrueIndices(mask)[TrueIndices(vals)[f]]
    decreases |mask|
  {
    ScatterCount(mask, vals);
    assert |mask| > 0;
    var n := |mask| - 1;
    var c := CountTrue(mask[..n]);
    if mask[n] {
      assert vals[..|vals| - 1] == vals[..c];
    } else {
      assert vals[..c] == vals;
    }
    if mask[n] && f == CountTrue(vals[..c]) {
      ScatterTrueIndicesLast(mask, vals, f);
    } else {
      ScatterTrueIndices(mask[..n], vals[..c], f);
      ScatterTrueIndicesPrefix(mask, vals, f);
    }
  }

  /** Inductive step of `ScatterTrueIndices` for a value scattered before
      the last position. */
  lemma ScatterTrueIndicesPrefix(mask: seq<bool>, vals: seq<bool>, f: nat)
    requires CountTrue(mask) == |vals| && |mask| > 0
    requires var c := CountTrue(mask[..|mask| - 1]);
      c <= |vals| && f < CountTrue(vals[..c]) && (mask[|mask| - 1] ==> c == |vals| - 1) &&
      CountTrue(Scatter(mask[..|mask| - 1], vals[..c])) == CountTrue(vals[..c]) &&
      TrueIndices(Scatter(mask[..|mask| - 1], vals[..c]))[f] == TrueIndices(mask[..|mask| - 1])[TrueIndices(vals[..c])[f]]
    ensures f < CountTrue(vals) && f < CountTrue(Scatter(mask, vals))
    ensures TrueIndices(Scatter(mask, vals))[f] == TrueIndices(mask)[TrueIndices(vals)[f]]
  {
    var n := |mask| - 1;
    var p := mask[..n];
    var c := CountTrue(p);
    var pv := vals[..c];
    var x := TrueIndices(pv)[f];
    var whole := Scatter(mask, vals);
    var shorter := Scatter(p, pv);
    assert f < CountTrue(whole) && TrueIndices(whole)[f] == TrueIndices(shorter)[f] by {
      ScatterLast(mask, vals);
      assert whole[..n] == shorter;
      TrueIndicesTake(whole, n, f);
    }
    assert f < CountTrue(vals) && TrueIndices(vals)[f] == x by {
      TrueIndicesTake(vals, c, f);
    }
    assert TrueIndices(mask)[x] == TrueIndices(p)[x] by {
      TrueIndicesTake(mask, n, x);
    }
  }

  /** Base step of `ScatterTrueIndices`: the value scattered into the last
      position, when the mask sets it. */
  lemma ScatterTrueIndicesLast(mask: seq<bool>, vals: seq<bool>, f: nat)
    requires CountTrue(mask) == |vals| && |mask| > 0 && mask[|mask| - 1]
    requires f == CountTrue(vals[..CountTrue(mask[..|mask| - 1])]) && f < CountTrue(vals)
    ensures CountTrue(Scatter(mask, vals)) == CountTrue(vals)
    ensures TrueIndices(Scatter(mask, vals))[f] == TrueIndices(mask)[TrueIndices(vals)[f]]
  {
    var n := |mask| - 1;
    var c := CountTrue(mask[..n]);
    var pv := vals[..c];
    ScatterCount(mask, vals);
    ScatterLast(mask, vals);
    var whole := Scatter(mask, vals);
    ScatterCount(mask[..n], pv);
    assert whole[..n] == Scatter(mask[..n], pv);
    assert vals[..|vals| - 1] == pv;
    assert vals[c];
    TrueIndicesLast(vals);
    TrueIndicesLast(mask);
    TrueIndicesLast(whole);
  }

  /** The resolved matching matrix, or the first failure: the first `topk`
      asks for `candidate_topk` rows; with no ground truths the loop never
      runs and `del pos_idx` fails; otherwise each per-gt `topk` asks for
      `ks[j]` rows. */
  function FinalMatching(cost: seq<seq<real>>, ious: seq<seq<real>>, numGt: nat, candidateTopk: nat): (r: Result<seq<seq<bool>>, AssignError>)
    requires IsMatrix(cost, |cost|, numGt) && IsMatrix(ious, |cost|, numGt)
    ensures r.Err? ==> r.error == TopKOutOfRange || r.error == PosIdxUnbound
    ensures r == Err(PosIdxUnbound) <==> numGt == 0 && candidateTopk <= |cost|
    ensures r.Ok? <==> (0 < numGt && candidateTopk <= |cost| &&
                        forall j :: 0 <= j < numGt ==> DynamicKs(ious, numGt, candidateTopk)[j] <= |cost|)
    ensures r.Ok? ==> IsMatrix(r.value, |cost|, numGt) && forall row :: 0 <= row < |cost| ==> CountTrue(r.value[row]) <= 1
  {
    if candidateTopk > |cost| then Err(TopKOutOfRange)
    else if numGt == 0 then Err(PosIdxUnbound)
    else
      var ks := DynamicKs(ious, numGt, candidateTopk);
      if exists j :: 0 <= j < numGt && ks[j] > |cost| then Err(TopKOutOfRange)
      else Ok(Resolve(InitialMatching(cost, ks), cost, numGt))
  }

  /** With IoUs in [0, 1] and `candidate_topk` at least 1, the only way the
      matching can fail is a first `topk` over fewer rows than `candidate_topk`. */
  lemma FinalMatchingFails(cost: seq<seq<real>>, ious: seq<seq<real>>, numGt: nat, candidateTopk: nat)
    requires IsMatrix(cost, |cost|, numGt) && IsMatrix(ious, |cost|, numGt)
    requires 1 <= candidateTopk
    requires forall r, j :: 0 <= r < |cost| && 0 <= j < numGt ==> 0.0 <= ious[r][j] <= 1.0
    ensures FinalMatching(cost, ious, numGt, candidateTopk).Ok? <==> 0 < numGt && candidateTopk <= |cost|
    ensures FinalMatching(cost, ious, numGt, candidateTopk) == Err(TopKOutOfRange) <==> |cost| < candidateTopk
  {
    if candidateTopk <= |cost| {
      forall j | 0 <= j < numGt ensures DynamicKs(ious, numGt, candidateTopk)[j] <= |cost| {
        DynamicKBounds(Column(ious, j), candidateTopk);
      }
    }
  }
}
