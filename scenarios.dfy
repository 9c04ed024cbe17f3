/** Small worked examples of the assignment, each stated as a lemma about
    the model on concrete inputs. */
module Scenarios {
  import opened Wrappers
  import opened Matrix
  import opened Selection
  import opened CandidateFilter
  import opened DynamicK
  import opened Assigner

  /** One ground-truth box `(10, 10, 50, 50)` and three stride-8 priors at
      `(20, 20)`, `(30, 30)` and `(100, 100)`. */
  const OneBoxPriors: seq<Prior> := [Prior(20.0, 20.0, 8.0, 8.0), Prior(30.0, 30.0, 8.0, 8.0), Prior(100.0, 100.0, 8.0, 8.0)]
  const OneBox: seq<GtBox> := [GtBox(10.0, 10.0, 50.0, 50.0)]

  /** The first two priors lie in the box, the third in neither the box
      nor its centre region `(10, 50) x (10, 50)` for radius 2.5. */
  lemma OneBoxPlacement()
    ensures InBox(OneBoxPriors[0], OneBox[0]) && InCenter(OneBoxPriors[0], OneBox[0], 2.5)
    ensures InBox(OneBoxPriors[1], OneBox[0]) && InCenter(OneBoxPriors[1], OneBox[0], 2.5)
    ensures !InBox(OneBoxPriors[2], OneBox[0]) && !InCenter(OneBoxPriors[2], OneBox[0], 2.5)
  {
  }

  /** Three priors and one box where the first two priors are in the box and
      in its centre region and the third is in neither: the first two are
      candidates, both in-box and in-centre, and the third has no row. */
  lemma CandidatesFromPlacement(priors: seq<Prior>, gts: seq<GtBox>, radius: real)
    requires |priors| == 3 && |gts| == 1
    requires InBox(priors[0], gts[0]) && InCenter(priors[0], gts[0], radius)
    requires InBox(priors[1], gts[0]) && InCenter(priors[1], gts[0], radius)
    requires !InBox(priors[2], gts[0]) && !InCenter(priors[2], gts[0], radius)
    ensures ValidMask(priors, gts, radius) == [true, true, false]
    ensures GetInGtAndInCenterInfo(priors, gts, radius).inBoxesAndCenters == [[true], [true]]
  {
    var v := ValidMask(priors, gts, radius);
    ThreeEntries(v, true, true, false);
    FirstTwoOfThree();
    var info := GetInGtAndInCenterInfo(priors, gts, radius);
    assert TrueIndices(info.validMask)[0] == 0 && TrueIndices(info.validMask)[1] == 1;
    var ibc := info.inBoxesAndCenters;
    assert ibc[0][0] && ibc[1][0];
    TwoRows(ibc, [true], [true]);
  }

  /** So the first two one-box priors are candidates and the third is not. */
  lemma OneBoxCandidates()
    ensures ValidMask(OneBoxPriors, OneBox, 2.5) == [true, true, false]
    ensures GetInGtAndInCenterInfo(OneBoxPriors, OneBox, 2.5).inBoxesAndCenters == [[true], [true]]
  {
    OneBoxPlacement();
    CandidatesFromPlacement(OneBoxPriors, OneBox, 2.5);
  }

  /** The true positions of the one-box candidate mask. */
  lemma FirstTwoOfThree()
    ensures CountTrue([true, true, false]) == 2
    ensures TrueIndices([true, true, false]) == [0, 1]
  {
    var mask := [true, true, false];
    assert mask[..2] == [true, true] && mask[..2][..1] == [true] && mask[..2][..1][..0] == [];
  }

  /** The one-box image with label 2 and the given IoUs; the cost terms make
      the first prior the cheaper one. */
  function OneBoxImage(ious: seq<seq<real>>): ImageInputs {
    ImageInputs(OneBoxPriors, OneBox, [2], ious, [[0.1], [0.2], [5.0]], [[0.5], [0.4], [0.3]])
  }

  /** The candidate rows of the one-box image: its first two priors, whose
      cost is the plain `cls + 3 * iou` cost. */
  lemma OneBoxCandidateInputs(a: SimOtaAssigner, ious: seq<seq<real>>)
    requires a.centerRadius == 2.5 && IsMatrix(ious, 3, 1)
    ensures WellFormed(OneBoxImage(ious))
    ensures ValidRows(a, OneBoxImage(ious)) == [0, 1]
    ensures ValidIous(a, OneBoxImage(ious)) == [ious[0], ious[1]]
    ensures ValidCost(a, OneBoxImage(ious)) == [[0.8], [1.0]]
  {
    OneBoxCandidates();
    var inp := OneBoxImage(ious);
    var cost := ValidCost(a, inp);
    assert |cost| == 2 && |cost[0]| == 1 && |cost[1]| == 1;
    assert cost[0][0] == 0.8 && cost[1][0] == 1.0;
    assert cost[0] == [0.8] && cost[1] == [1.0];
  }

  /** On a two-entry column whose first entry comes first, `topk` returns
      the first row, then the second. */
  lemma TopKOfPair(col: seq<real>, largest: bool)
    requires |col| == 2 && Before(col, largest, 0, 1)
    ensures TopK(col, 1, largest) == [0]
    ensures TopK(col, 2, largest) == [0, 1]
  {
    TopKOne(col, largest, 0);
    TopKExtends(col, 2, largest);
    var two := TopK(col, 2, largest);
    assert two[0] == 0 && two[1] == 1;
  }

  /** Candidate IoUs 0.9 and 0.8 give the dynamic k `int(1.7) = 1`. */
  lemma OneBoxDynamicK(ious: seq<seq<real>>)
    requires IsMatrix(ious, 2, 1) && ious[0][0] == 0.9 && ious[1][0] == 0.8
    ensures DynamicKs(ious, 1, 2) == [1]
  {
    var col := Column(ious, 0);
    assert DynamicK.DynamicK(col, 2) == 1 by {
      TopKOfPair(col, true);
      var top := seq(2, t requires 0 <= t < 2 => col[TopK(col, 2, true)[t]]);
      assert top[0] == 0.9 && top[1] == 0.8;
      SumPair(top);
    }
  }

  /** With dynamic k 1 the `for gt_idx` loop marks the cheaper first row. */
  lemma OneBoxInitial(cost: seq<seq<real>>, ks: seq<nat>)
    requires IsMatrix(cost, 2, 1) && cost[0][0] < cost[1][0]
    requires |ks| == 1 && ks[0] == 1
    ensures InitialMatching(cost, ks) == [[true], [false]]
  {
    var init := InitialMatching(cost, ks);
    TopKOfPair(Column(cost, 0), false);
    InitialEntry(cost, ks, 0, 0);
    InitialEntry(cost, ks, 1, 0);
    assert init[0] == [true] && init[1] == [false];
    TwoRows(init, [true], [false]);
  }

  /** Neither row is in conflict, so only the cheaper first row is matched. */
  lemma OneBoxMatching(cost: seq<seq<real>>, ious: seq<seq<real>>)
    requires IsMatrix(cost, 2, 1) && cost[0][0] < cost[1][0]
    requires IsMatrix(ious, 2, 1) && ious[0][0] == 0.9 && ious[1][0] == 0.8
    ensures FinalMatching(cost, ious, 1, 2) == Ok([[true], [false]])
  {
    OneBoxDynamicK(ious);
    var ks := DynamicKs(ious, 1, 2);
    OneBoxInitial(cost, ks);
    var init: seq<seq<bool>> := [[true], [false]];
    assert CountTrue(init[0]) == 1 && CountTrue(init[1]) == 0;
    assert Resolve(init, cost, 1) == init;
  }

  /** Reading the result off the matched matrix: one foreground row, matched
      to ground truth 0 with label 2 and that row's IoU. */
  lemma OneBoxGather(ious: seq<seq<real>>)
    requires IsMatrix(ious, 2, 1)
    ensures ForegroundRows([[true], [false]]) == [true, false]
    ensures Gather([[true], [false]], ious, [2]) == Matched(1, [2], [ious[0][0]], [0])
  {
    var m: seq<seq<bool>> := [[true], [false]];
    assert CountTrue(m[0]) == 1 && CountTrue(m[1]) == 0;
    assert ForegroundRows(m) == [true, false];
    assert TrueIndices([true, false]) == [0];
    assert MatchedColumn(m[0]) == 0;
    assert MaskedSum(m[0], ious[0]) == ious[0][0] by {
      MaskedSumOneHot(m[0], ious[0], 0);
    }
  }

  /** Narrowing the candidate mask keeps only the first prior. */
  lemma OneBoxNarrowed()
    ensures Scatter([true, true, false], [true, false]) == [true, false, false]
  {
    var mask := [true, true, false];
    FirstTwoOfThree();
    ScatterNarrows(mask, [true, false]);
    var sc := Scatter(mask, [true, false]);
    assert sc[0] && !sc[1] && !sc[2];
  }

  /** With `candidate_topk = 2` and candidate IoUs 0.9 and 0.8, only the
      cheaper candidate is foreground, with label 2, its IoU and ground
      truth 0. */
  lemma OneBoxSingleMatch(ious: seq<seq<real>>)
    requires IsMatrix(ious, 3, 1) && ious[0][0] == 0.9 && ious[1][0] == 0.8
    ensures AssignSpec(SimOtaAssigner(2.5, 2), OneBoxImage(ious)) ==
      Ok(AssignResult([2], [true, false, false], [0.9], [0], 1))
  {
    var a := SimOtaAssigner(2.5, 2);
    OneBoxCandidates();
    OneBoxCandidateInputs(a, ious);
    var candidateIous := ValidIous(a, OneBoxImage(ious));
    OneBoxMatching([[0.8], [1.0]], candidateIous);
    OneBoxGather(candidateIous);
    OneBoxNarrowed();
  }

  /** With the default `candidate_topk = 10` the two candidates are too few
      and the first `topk` fails. */
  lemma OneBoxDefaultFails(ious: seq<seq<real>>)
    requires IsMatrix(ious, 3, 1)
    ensures AssignSpec(DefaultAssigner, OneBoxImage(ious)) == Err(TopKOutOfRange)
  {
    OneBoxCandidates();
    OneBoxCandidateInputs(DefaultAssigner, ious);
  }

  /** Two ground truths with one candidate row whose IoUs lie in [0, 1]:
      each dynamic k is `max(1, int(iou)) = 1`. */
  lemma ConflictDynamicK(ious: seq<seq<real>>)
    requires IsMatrix(ious, 1, 2) && 0.0 <= ious[0][0] <= 1.0 && 0.0 <= ious[0][1] <= 1.0
    ensures DynamicKs(ious, 2, 1) == [1, 1]
  {
    TopKSumSingle(Column(ious, 0));
    TopKSumSingle(Column(ious, 1));
  }

  /** The sum of the single top entry of a one-entry column is that entry. */
  lemma TopKSumSingle(col: seq<real>)
    requires |col| == 1
    ensures TopKSum(col, 1) == col[0]
  {
    TopKOne(col, true, 0);
    var top := seq(1, t requires 0 <= t < 1 => col[TopK(col, 1, true)[t]]);
    assert top[..0] == [] && top[0] == col[0];
    assert Sum(top) == Sum(top[..0]) + top[0];
  }

  /** Both ground truths select the single candidate row. */
  lemma ConflictInitial(cost: seq<seq<real>>, ks: seq<nat>)
    requires IsMatrix(cost, 1, 2) && |ks| == 2 && ks[0] == 1 && ks[1] == 1
    ensures InitialMatching(cost, ks) == [[true, true]]
  {
    var init := InitialMatching(cost, ks);
    TopKOne(Column(cost, 0), false, 0);
    TopKOne(Column(cost, 1), false, 0);
    InitialEntry(cost, ks, 0, 0);
    InitialEntry(cost, ks, 0, 1);
    assert init[0] == [true, true];
  }

  /** Both ground truths claim the single candidate row; conflict
      resolution leaves that row with the ground truth it is cheaper for,
      here ground truth 1, and ground truth 0 loses its only match. */
  lemma ConflictGoesToCheaper(cost: seq<seq<real>>, ious: seq<seq<real>>)
    requires IsMatrix(cost, 1, 2) && cost[0][1] < cost[0][0]
    requires IsMatrix(ious, 1, 2) && 0.0 <= ious[0][0] <= 1.0 && 0.0 <= ious[0][1] <= 1.0
    ensures FinalMatching(cost, ious, 2, 1) == Ok([[false, true]])
  {
    ConflictDynamicK(ious);
    ConflictInitial(cost, DynamicKs(ious, 2, 1));
    var init: seq<seq<bool>> := [[true, true]];
    assert CountTrue(init[0]) == 2;
    assert ArgMin(cost[0]) == 1;
    var res := Resolve(init, cost, 2);
    assert res[0] == [false, true];
    assert res == [[false, true]];
  }

  /** Two candidates and three boxes: candidate 1 is the cheaper one for
      box 0, candidate 0 the cheaper one for boxes 1 and 2, and box 0 is
      candidate 0's cheapest box. */
  predicate UnclaimedShape(cost: seq<seq<real>>) {
    IsMatrix(cost, 2, 3) &&
    cost[1][0] < cost[0][0] && cost[0][1] < cost[1][1] && cost[0][2] < cost[1][2] &&
    cost[0][0] <= cost[0][1] && cost[0][0] <= cost[0][2]
  }

  /** A cost of that shape. */
  const UnclaimedCost: seq<seq<real>> := [[1.0, 2.0, 2.0], [0.0, 9.0, 9.0]]

  /** So the shape can be met and the lemmas below are not vacuous. */
  lemma UnclaimedCostHasShape()
    ensures UnclaimedShape(UnclaimedCost)
  {
  }

  /** Each column's `topk(k=1, largest=False)` on a cost of that shape. */
  lemma UnclaimedSelections(cost: seq<seq<real>>)
    requires UnclaimedShape(cost)
    ensures TopK(Column(cost, 0), 1, false) == [1]
    ensures TopK(Column(cost, 1), 1, false) == [0]
    ensures TopK(Column(cost, 2), 1, false) == [0]
  {
    TopKOne(Column(cost, 0), false, 1);
    TopKOne(Column(cost, 1), false, 0);
    TopKOne(Column(cost, 2), false, 0);
  }

  /** Every box's dynamic k is 1. */
  predicate AllOne(ks: seq<nat>) {
    |ks| == 3 && ks[0] == 1 && ks[1] == 1 && ks[2] == 1
  }

  /** The `for gt_idx` loop on such a cost with every dynamic k 1:
      box 0 selects candidate 1, boxes 1 and 2 select candidate 0. */
  lemma UnclaimedInitial(cost: seq<seq<real>>, ks: seq<nat>)
    requires UnclaimedShape(cost) && AllOne(ks)
    ensures InitialMatching(cost, ks) == [[false, true, true], [true, false, false]]
  {
    var init := InitialMatching(cost, ks);
    assert init[0] == [false, true, true] by {
      UnclaimedSelections(cost);
      InitialEntry(cost, ks, 0, 0);
      InitialEntry(cost, ks, 0, 1);
      InitialEntry(cost, ks, 0, 2);
      ThreeEntries(init[0], false, true, true);
    }
    assert init[1] == [true, false, false] by {
      UnclaimedSelections(cost);
      InitialEntry(cost, ks, 1, 0);
      InitialEntry(cost, ks, 1, 1);
      InitialEntry(cost, ks, 1, 2);
      ThreeEntries(init[1], true, false, false);
    }
    TwoRows(init, [false, true, true], [true, false, false]);
  }

  /** `cost_argmin` ranges over the whole row, so a candidate in conflict can
      move to a box that never selected it: candidate 0 is claimed by boxes 1
      and 2 but is cheapest for box 0, which candidate 1 already holds.
      Afterwards box 0 has two candidates and boxes 1 and 2 none, although
      each had dynamic k 1. */
  lemma ConflictMovesToUnclaimedColumn(cost: seq<seq<real>>, ks: seq<nat>)
    requires UnclaimedShape(cost) && AllOne(ks)
    ensures Resolve(InitialMatching(cost, ks), cost, 3) == [[true, false, false], [true, false, false]]
  {
    UnclaimedInitial(cost, ks);
    var init: seq<seq<bool>> := [[false, true, true], [true, false, false]];
    assert CountTrue(init[0]) == 2 && CountTrue(init[1]) == 1;
    assert ArgMin(cost[0]) == 0;
    var res := Resolve(init, cost, 3);
    assert res[0] == [true, false, false] && res[1] == [true, false, false];
  }
}
