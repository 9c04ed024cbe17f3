/** Cost assembly of `_assign`: the classification cost plus three times the
    IoU cost, plus a large penalty for every pair that is not both in-box
    and in-centre. The two cost terms themselves (binary cross-entropy of
    square-rooted scores, `-log(iou + eps)`) are computed outside and given
    as matrices. */
module CostMatrix {
  import opened Matrix
  import opened Selection

  /** `INF` of `_assign`. */
  const INF: real := 100000000.0

  /** The weight of the IoU cost term. */
  const IouWeight: real := 3.0

  /** The part of the cost that does not depend on the spatial test. */
  function BaseCost(clsCost: seq<seq<real>>, iouCost: seq<seq<real>>, rows: nat, cols: nat): (base: seq<seq<real>>)
    requires IsMatrix(clsCost, rows, cols) && IsMatrix(iouCost, rows, cols)
    ensures IsMatrix(base, rows, cols)
    ensures forall r, j :: 0 <= r < rows && 0 <= j < cols ==> base[r][j] == clsCost[r][j] + IouWeight * iouCost[r][j]
  {
    seq(rows, r requires 0 <= r < rows =>
      seq(cols, j requires 0 <= j < cols => clsCost[r][j] + IouWeight * iouCost[r][j]))
  }

  /** `cost_matrix = cls_cost + 3.0 * iou_cost + INF * (~is_in_boxes_and_center)`:
      the penalty `INF` is added exactly to the pairs that are not both
      in-box and in-centre, and nothing else contributes. */
  function Cost(clsCost: seq<seq<real>>, iouCost: seq<seq<real>>, inBoxesAndCenters: seq<seq<bool>>, rows: nat, cols: nat): (cost: seq<seq<real>>)
    requires IsMatrix(clsCost, rows, cols) && IsMatrix(iouCost, rows, cols) && IsMatrix(inBoxesAndCenters, rows, cols)
    ensures IsMatrix(cost, rows, cols)
    ensures forall r, j :: 0 <= r < rows && 0 <= j < cols ==>
      cost[r][j] - BaseCost(clsCost, iouCost, rows, cols)[r][j] == (if inBoxesAndCenters[r][j] then 0.0 else INF)
  {
    var base := BaseCost(clsCost, iouCost, rows, cols);
    seq(rows, r requires 0 <= r < rows =>
      seq(cols, j requires 0 <= j < cols => base[r][j] + (if inBoxesAndCenters[r][j] then 0.0 else INF)))
  }

  /** Base costs small enough for the penalty to dominate them. */
  predicate PenaltyDominates(base: seq<seq<real>>) {
    forall r, j :: 0 <= r < |base| && 0 <= j < |base[r]| ==> -INF / 2.0 < base[r][j] < INF / 2.0
  }

  /** When the penalty dominates the base costs, `INF / 2` separates the
      two kinds of pair: every spatially plausible pair costs less, every
      implausible pair more. */
  lemma PenaltySeparates(clsCost: seq<seq<real>>, iouCost: seq<seq<real>>, inBoxesAndCenters: seq<seq<bool>>,
                         rows: nat, cols: nat)
    requires IsMatrix(clsCost, rows, cols) && IsMatrix(iouCost, rows, cols) && IsMatrix(inBoxesAndCenters, rows, cols)
    requires PenaltyDominates(BaseCost(clsCost, iouCost, rows, cols))
    ensures var cost := Cost(clsCost, iouCost, inBoxesAndCenters, rows, cols);
      forall r, j :: 0 <= r < rows && 0 <= j < cols ==>
        if inBoxesAndCenters[r][j] then cost[r][j] < INF / 2.0 else cost[r][j] > INF / 2.0
  {
    var base := BaseCost(clsCost, iouCost, rows, cols);
    var cost := Cost(clsCost, iouCost, inBoxesAndCenters, rows, cols);
    forall r, j | 0 <= r < rows && 0 <= j < cols
      ensures if inBoxesAndCenters[r][j] then cost[r][j] < INF / 2.0 else cost[r][j] > INF / 2.0
    {
      assert -INF / 2.0 < base[r][j] < INF / 2.0;
    }
  }

  /** Restricting the inputs to some of their rows keeps the penalty dominant. */
  lemma DominanceSelected(clsCost: seq<seq<real>>, iouCost: seq<seq<real>>, rows: nat, cols: nat, idx: seq<nat>)
    requires IsMatrix(clsCost, rows, cols) && IsMatrix(iouCost, rows, cols)
    requires forall k :: 0 <= k < |idx| ==> idx[k] < rows
    requires PenaltyDominates(BaseCost(clsCost, iouCost, rows, cols))
    ensures PenaltyDominates(BaseCost(SelectRows(clsCost, idx), SelectRows(iouCost, idx), |idx|, cols))
  {
    var base := BaseCost(clsCost, iouCost, rows, cols);
    var sel := BaseCost(SelectRows(clsCost, idx), SelectRows(iouCost, idx), |idx|, cols);
    forall r, j | 0 <= r < |sel| && 0 <= j < |sel[r]| ensures -INF / 2.0 < sel[r][j] < INF / 2.0 {
      assert sel[r][j] == base[idx[r]][j];
    }
  }

  /** In a column where each plausible pair costs below `INF / 2` and each
      implausible pair above it, `topk(cost[:, j], k, largest=False)` takes
      only plausible rows as long as there are at least `k` of them. */
  lemma {:induction false} SelectionAvoidsPenalty(cost: seq<seq<real>>, inBoxesAndCenters: seq<seq<bool>>, cols: nat, j: nat, k: nat)
    requires IsMatrix(cost, |cost|, cols) && IsMatrix(inBoxesAndCenters, |cost|, cols) && j < cols
    requires forall r :: 0 <= r < |cost| ==>
      if inBoxesAndCenters[r][j] then cost[r][j] < INF / 2.0 else cost[r][j] > INF / 2.0
    requires k <= CountTrue(Column(inBoxesAndCenters, j))
    ensures forall s :: s in TopK(Column(cost, j), k, false) ==> s < |cost| && inBoxesAndCenters[s][j]
  {
    var col := Column(cost, j);
    var idx := TopK(col, k, false);
    var plausible := TrueIndices(Column(inBoxesAndCenters, j));
    forall s | s in idx ensures s < |cost| && inBoxesAndCenters[s][j] {
      if !inBoxesAndCenters[s][j] {
        var others := Without(idx, s);
        if forall x :: 0 <= x < |plausible| ==> plausible[x] in idx {
          forall x | 0 <= x < |plausible| ensures plausible[x] in others {
            assert inBoxesAndCenters[plausible[x]][j];
          }
          DistinctSubsetLength(plausible, others);
          assert false;
        }
      }
    }
  }
}
