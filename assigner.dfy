/** The SimOTA assigner for one image: `_assign` runs the candidate filter,
    the cost assembly and dynamic-k matching; `assign` retries `_assign`
    once, on CPU copies of the inputs, when the first attempt raises a
    `RuntimeError`; any other error propagates at once. */
module Assigner {
  import opened Wrappers
  import opened Matrix
  import opened CandidateFilter
  import opened CostMatrix
  import opened DynamicK
  import opened Matching

  /** The assigner's settings, fixed at construction. */
  datatype SimOtaAssigner = SimOtaAssigner(centerRadius: real, candidateTopk: nat)

  /** The default settings: `center_radius=2.5, candidate_topk=10`. */
  const DefaultAssigner: SimOtaAssigner := SimOtaAssigner(2.5, 10)

  /** One image's inputs. Row `i` of each matrix belongs to prior `i` and
      column `j` to ground truth `j`: the IoU of the prior's decoded box with
      the ground-truth box, its IoU cost and its classification cost, all
      computed outside this model. */
  datatype ImageInputs = ImageInputs(
    priors: seq<Prior>,
    gtBboxes: seq<GtBox>,
    gtLabels: seq<int>,
    pairWiseIous: seq<seq<real>>,
    iouCost: seq<seq<real>>,
    clsCost: seq<seq<real>>)

  /** The shapes agree: one label per box, one row per prior, one column per box. */
  predicate WellFormed(inp: ImageInputs) {
    |inp.gtLabels| == |inp.gtBboxes| &&
    IsMatrix(inp.pairWiseIous, |inp.priors|, |inp.gtBboxes|) &&
    IsMatrix(inp.iouCost, |inp.priors|, |inp.gtBboxes|) &&
    IsMatrix(inp.clsCost, |inp.priors|, |inp.gtBboxes|)
  }

  /** `(gt_matched_classes, valid_mask, pred_ious_this_matching, matched_gt_inds, num_fg)`. */
  datatype AssignResult = AssignResult(
    gtMatchedClasses: seq<int>,
    validMask: seq<bool>,
    predIousThisMatching: seq<real>,
    matchedGtInds: seq<nat>,
    numFg: nat)

  /** The candidate rows of the per-prior inputs, as `[valid_mask]` keeps them. */
  function ValidRows(a: SimOtaAssigner, inp: ImageInputs): (rows: seq<nat>)
    ensures forall k :: 0 <= k < |rows| ==> rows[k] < |inp.priors|
  {
    TrueIndices(ValidMask(inp.priors, inp.gtBboxes, a.centerRadius))
  }

  /** `cost_matrix` over the candidate rows. */
  function ValidCost(a: SimOtaAssigner, inp: ImageInputs): (cost: seq<seq<real>>)
    requires WellFormed(inp)
    ensures IsMatrix(cost, |ValidRows(a, inp)|, |inp.gtBboxes|)
  {
    var rows := ValidRows(a, inp);
    var info := GetInGtAndInCenterInfo(inp.priors, inp.gtBboxes, a.centerRadius);
    Cost(SelectRows(inp.clsCost, rows), SelectRows(inp.iouCost, rows), info.inBoxesAndCenters, |rows|, |inp.gtBboxes|)
  }

  /** `pair_wise_ious` over the candidate rows. */
  function ValidIous(a: SimOtaAssigner, inp: ImageInputs): (ious: seq<seq<real>>)
    requires WellFormed(inp)
    ensures IsMatrix(ious, |ValidRows(a, inp)|, |inp.gtBboxes|)
  {
    SelectRows(inp.pairWiseIous, ValidRows(a, inp))
  }

  /** What one run of `_assign` produces, as a function of its inputs. Of the
      failures modelled it has only those of dynamic-k matching (the cost
      terms are inputs, so their own errors are not modelled); a result has one mask entry per
      prior, at most one foreground prior per candidate, and one class,
      IoU and box index per foreground prior. */
  function AssignSpec(a: SimOtaAssigner, inp: ImageInputs): (r: Result<AssignResult, AssignError>)
    requires WellFormed(inp)
    ensures r.Err? ==> r.error == TopKOutOfRange || r.error == PosIdxUnbound
    ensures r.Ok? ==> |r.value.validMask| == |inp.priors|
    ensures r.Ok? ==> r.value.numFg <= CountTrue(ValidMask(inp.priors, inp.gtBboxes, a.centerRadius))
    ensures r.Ok? ==> |r.value.gtMatchedClasses| == |r.value.predIousThisMatching| == |r.value.matchedGtInds| == r.value.numFg
  {
    var info := GetInGtAndInCenterInfo(inp.priors, inp.gtBboxes, a.centerRadius);
    var ious := ValidIous(a, inp);
    match FinalMatching(ValidCost(a, inp), ious, |inp.gtBboxes|, a.candidateTopk)
    case Err(e) => Err(e)
    case Ok(m) =>
      var matched := Gather(m, ious, inp.gtLabels);
      Ok(AssignResult(matched.gtMatchedClasses, Scatter(info.validMask, ForegroundRows(m)),
        matched.predIousThisMatching, matched.matchedGtInds, matched.numFg))
  }

  /** `_assign`: filter, restrict the per-prior inputs to the candidates,
      assemble the cost and run dynamic-k matching, which narrows the
      candidate mask in place. */
  method AssignOnce(a: SimOtaAssigner, inp: ImageInputs) returns (r: Result<AssignResult, AssignError>)
    requires WellFormed(inp)
    ensures r == AssignSpec(a, inp)
  {
    var numGt := |inp.gtBboxes|;
    var info := GetInGtAndInCenterInfo(inp.priors, inp.gtBboxes, a.centerRadius);
    var validRows := TrueIndices(info.validMask);
    var pairWiseIous := SelectRows(inp.pairWiseIous, validRows);
    var costMatrix := Cost(SelectRows(inp.clsCost, validRows), SelectRows(inp.iouCost, validRows),
      info.inBoxesAndCenters, |validRows|, numGt);
    var validMask := new bool[|info.validMask|](i requires 0 <= i < |info.validMask| => info.validMask[i]);
    assert validMask[..] == info.validMask;
    var matched := DynamicKMatching(costMatrix, pairWiseIous, inp.gtLabels, numGt, validMask, a.candidateTopk);
    match matched {
      case Err(e) =>
        r := Err(e);
      case Ok(m) =>
        r := Ok(AssignResult(m.gtMatchedClasses, validMask[..], m.predIousThisMatching, m.matchedGtInds, m.numFg));
    }
  }

  /** One attempt of `_assign` on a device whose memory may run out part
      way; the attempt touches nothing outside itself, so running out of
      memory anywhere in it is the same outcome. */
  method Attempt(a: SimOtaAssigner, inp: ImageInputs, outOfMemory: bool) returns (r: Result<AssignResult, AssignError>)
    requires WellFormed(inp)
    ensures r == if outOfMemory then Err(OutOfMemory) else AssignSpec(a, inp)
  {
    if outOfMemory {
      return Err(OutOfMemory);
    }
    r := AssignOnce(a, inp);
  }

  /** `assign`: the first attempt runs on the accelerator; a `RuntimeError`
      (running out of memory, or `topk` out of range) leads to exactly one
      more attempt on CPU copies of the inputs (copies hold the same values),
      whose outcome is returned as it is, while the `UnboundLocalError` of an
      image without ground truths is raised at once. `attempts` counts the
      runs of `_assign`. Succeeding on the fallback gives the very result of
      succeeding directly. */
  method Assign(a: SimOtaAssigner, inp: ImageInputs, gpuOutOfMemory: bool, cpuOutOfMemory: bool)
    returns (r: Result<AssignResult, AssignError>, attempts: nat)
    requires WellFormed(inp)
    ensures attempts == if gpuOutOfMemory || (AssignSpec(a, inp).Err? && IsRuntimeError(AssignSpec(a, inp).error)) then 2 else 1
    ensures r.Ok? <==> AssignSpec(a, inp).Ok? && !(gpuOutOfMemory && cpuOutOfMemory)
    ensures r.Ok? ==> r == AssignSpec(a, inp)
    ensures r == Err(OutOfMemory) <==> cpuOutOfMemory && attempts == 2
    ensures r.Err? && r.error != OutOfMemory ==> r == AssignSpec(a, inp)
  {
    r := Attempt(a, inp, gpuOutOfMemory);
    attempts := 1;
    if r.Err? && IsRuntimeError(r.error) {
      var cpuInputs := inp;
      r := Attempt(a, cpuInputs, cpuOutOfMemory);
      attempts := 2;
    }
  }

  /** IoUs of every (prior, ground truth) pair lie in [0, 1]. */
  predicate UnitIous(inp: ImageInputs) {
    forall i, j :: 0 <= i < |inp.pairWiseIous| && 0 <= j < |inp.pairWiseIous[i]| ==> 0.0 <= inp.pairWiseIous[i][j] <= 1.0
  }

  /** The `f`-th foreground prior of a successful assignment, in prior
      order, is the candidate behind the `f`-th foreground row of the
      resolved matching; `matched_gt_inds[f]` is the column of that row's 1,
      and the prior carries that box's label and the IoU of that very
      (prior, box) pair. */
  lemma ForegroundConsistent(a: SimOtaAssigner, inp: ImageInputs, f: nat)
    requires WellFormed(inp) && AssignSpec(a, inp).Ok?
    requires f < AssignSpec(a, inp).value.numFg
    ensures var res := AssignSpec(a, inp).value;
      f < CountTrue(res.validMask) &&
      TrueIndices(res.validMask)[f] < |inp.priors| && f < |res.matchedGtInds| && res.matchedGtInds[f] < |inp.gtBboxes| &&
      f < |res.gtMatchedClasses| && res.gtMatchedClasses[f] == inp.gtLabels[res.matchedGtInds[f]] &&
      f < |res.predIousThisMatching| &&
      res.predIousThisMatching[f] == inp.pairWiseIous[TrueIndices(res.validMask)[f]][res.matchedGtInds[f]]
    ensures var res := AssignSpec(a, inp).value;
      var m := FinalMatching(ValidCost(a, inp), ValidIous(a, inp), |inp.gtBboxes|, a.candidateTopk).value;
      f < CountTrue(ForegroundRows(m)) &&
      var row := TrueIndices(ForegroundRows(m))[f];
      row < |ValidRows(a, inp)| && TrueIndices(res.validMask)[f] == ValidRows(a, inp)[row] &&
      f < |res.matchedGtInds| && res.matchedGtInds[f] < |inp.gtBboxes| && m[row][res.matchedGtInds[f]]
  {
    var res := AssignSpec(a, inp).value;
    var info := GetInGtAndInCenterInfo(inp.priors, inp.gtBboxes, a.centerRadius);
    var rows := ValidRows(a, inp);
    var ious := ValidIous(a, inp);
    var m := FinalMatching(ValidCost(a, inp), ious, |inp.gtBboxes|, a.candidateTopk).value;
    var fg := ForegroundRows(m);
    var matched := Gather(m, ious, inp.gtLabels);
    assert res.validMask == Scatter(info.validMask, fg) && res.matchedGtInds == matched.matchedGtInds &&
      res.gtMatchedClasses == matched.gtMatchedClasses && res.predIousThisMatching == matched.predIousThisMatching &&
      res.numFg == matched.numFg;
    ScatterTrueIndices(info.validMask, fg, f);
    GatherConsistent(m, ious, inp.gtLabels, f);
    var row := TrueIndices(fg)[f];
    assert TrueIndices(res.validMask)[f] == rows[row];
    assert ious[row] == inp.pairWiseIous[rows[row]];
  }

  /** What a result promises about the inputs it was computed from (`valid`
      is the candidate mask):
      - the returned mask is narrowed from the candidate mask and counts
        the foreground, `num_fg <= num_valid <= num_priors`;
      - the `f`-th foreground prior (in prior order) is matched to box
        `matched_gt_inds[f]`, carries that box's label and the IoU of that
        very (prior, box) pair. */
  predicate ConsistentResult(inp: ImageInputs, valid: seq<bool>, res: AssignResult)
    requires WellFormed(inp)
  {
    |res.validMask| == |valid| == |inp.priors| &&
    (forall i :: 0 <= i < |valid| && res.validMask[i] ==> valid[i]) &&
    res.numFg == CountTrue(res.validMask) <= CountTrue(valid) <= |inp.priors| &&
    |res.gtMatchedClasses| == |res.predIousThisMatching| == |res.matchedGtInds| == res.numFg &&
    forall f :: 0 <= f < res.numFg ==>
      TrueIndices(res.validMask)[f] < |inp.priors| && res.matchedGtInds[f] < |inp.gtBboxes| &&
      res.gtMatchedClasses[f] == inp.gtLabels[res.matchedGtInds[f]] &&
      res.predIousThisMatching[f] == inp.pairWiseIous[TrueIndices(res.validMask)[f]][res.matchedGtInds[f]]
  }

  /** A successful assignment is consistent with its own inputs. */
  lemma AssignResultConsistent(a: SimOtaAssigner, inp: ImageInputs)
    requires WellFormed(inp) && AssignSpec(a, inp).Ok?
    ensures ConsistentResult(inp, ValidMask(inp.priors, inp.gtBboxes, a.centerRadius), AssignSpec(a, inp).value)
  {
    var res := AssignSpec(a, inp).value;
    var valid := ValidMask(inp.priors, inp.gtBboxes, a.centerRadius);
    assert |res.validMask| == |valid| && (forall i :: 0 <= i < |valid| && res.validMask[i] ==> valid[i]) &&
      CountTrue(res.validMask) == res.numFg by {
      var info := GetInGtAndInCenterInfo(inp.priors, inp.gtBboxes, a.centerRadius);
      var m := FinalMatching(ValidCost(a, inp), ValidIous(a, inp), |inp.gtBboxes|, a.candidateTopk).value;
      var fg := ForegroundRows(m);
      assert res.validMask == Scatter(info.validMask, fg) && res.numFg == CountTrue(fg);
      ScatterNarrows(info.validMask, fg);
    }
    forall f | 0 <= f < res.numFg
      ensures TrueIndices(res.validMask)[f] < |inp.priors| && res.matchedGtInds[f] < |inp.gtBboxes| &&
        res.gtMatchedClasses[f] == inp.gtLabels[res.matchedGtInds[f]] &&
        res.predIousThisMatching[f] == inp.pairWiseIous[TrueIndices(res.validMask)[f]][res.matchedGtInds[f]]
    {
      ForegroundConsistent(a, inp, f);
    }
  }

  /** With IoUs in [0, 1], every returned IoU lies in [0, 1]. */
  lemma MatchedIousInUnit(a: SimOtaAssigner, inp: ImageInputs)
    requires WellFormed(inp) && UnitIous(inp) && AssignSpec(a, inp).Ok?
    ensures var res := AssignSpec(a, inp).value;
      forall f :: 0 <= f < |res.predIousThisMatching| ==> 0.0 <= res.predIousThisMatching[f] <= 1.0
  {
    AssignResultConsistent(a, inp);
  }

  /** The candidate rows keep the IoUs of their priors, hence stay in [0, 1]. */
  lemma ValidIousInUnit(a: SimOtaAssigner, inp: ImageInputs)
    requires WellFormed(inp) && UnitIous(inp)
    ensures var ious := ValidIous(a, inp);
      forall r, j :: 0 <= r < |ious| && 0 <= j < |inp.gtBboxes| ==> 0.0 <= ious[r][j] <= 1.0
  {
    var ious := ValidIous(a, inp);
    var rows := ValidRows(a, inp);
    forall r, j | 0 <= r < |ious| && 0 <= j < |inp.gtBboxes| ensures 0.0 <= ious[r][j] <= 1.0 {
      assert ious[r] == inp.pairWiseIous[rows[r]];
    }
  }

  /** With IoUs in [0, 1] and `candidate_topk` at least 1, and with
      the cost terms computable, `_assign` succeeds exactly when there are at least `candidate_topk` candidate
      priors; otherwise the first `topk` fails. */
  lemma AssignSucceeds(a: SimOtaAssigner, inp: ImageInputs)
    requires WellFormed(inp) && UnitIous(inp) && 1 <= a.candidateTopk
    ensures AssignSpec(a, inp).Ok? <==> a.candidateTopk <= CountTrue(ValidMask(inp.priors, inp.gtBboxes, a.centerRadius))
    ensures AssignSpec(a, inp).Err? ==> AssignSpec(a, inp).error == TopKOutOfRange
  {
    ValidIousInUnit(a, inp);
    CountTruePositive(ValidMask(inp.priors, inp.gtBboxes, a.centerRadius));
    FinalMatchingFails(ValidCost(a, inp), ValidIous(a, inp), |inp.gtBboxes|, a.candidateTopk);
  }

  /** With no ground truths no prior is a candidate, so `_assign` always
      fails: the first `topk` asks `candidate_topk` rows of an empty matrix,
      and when `candidate_topk` is 0 that succeeds but the loop over ground
      truths never runs and `del pos_idx` raises. */
  lemma ZeroGroundTruths(a: SimOtaAssigner, inp: ImageInputs)
    requires WellFormed(inp) && |inp.gtBboxes| == 0
    ensures a.candidateTopk > 0 ==> AssignSpec(a, inp) == Err(TopKOutOfRange)
    ensures a.candidateTopk == 0 ==> AssignSpec(a, inp) == Err(PosIdxUnbound)
  {
    var valid := ValidMask(inp.priors, inp.gtBboxes, a.centerRadius);
    CountTruePositive(valid);
    assert |ValidCost(a, inp)| == 0;
  }

  /** Over the candidate rows, `INF / 2` separates plausible pairs from
      implausible ones whenever it does so over all priors. */
  lemma CandidateCostSeparates(a: SimOtaAssigner, inp: ImageInputs)
    requires WellFormed(inp)
    requires PenaltyDominates(BaseCost(inp.clsCost, inp.iouCost, |inp.priors|, |inp.gtBboxes|))
    ensures var cost := ValidCost(a, inp);
      var ibc := GetInGtAndInCenterInfo(inp.priors, inp.gtBboxes, a.centerRadius).inBoxesAndCenters;
      forall r, j :: 0 <= r < |cost| && 0 <= j < |inp.gtBboxes| ==>
        if ibc[r][j] then cost[r][j] < INF / 2.0 else cost[r][j] > INF / 2.0
  {
    var ibc := GetInGtAndInCenterInfo(inp.priors, inp.gtBboxes, a.centerRadius).inBoxesAndCenters;
    var rows := ValidRows(a, inp);
    var numGt := |inp.gtBboxes|;
    DominanceSelected(inp.clsCost, inp.iouCost, |inp.priors|, numGt, rows);
    PenaltySeparates(SelectRows(inp.clsCost, rows), SelectRows(inp.iouCost, rows), ibc, |rows|, numGt);
  }

  /** Over the candidate rows, the penalty keeps the matching plausible:
      the `f`-th foreground row is matched to a ground truth its prior is
      both contained in and centred for. */
  lemma CandidatesPlausible(a: SimOtaAssigner, inp: ImageInputs, f: nat)
    requires WellFormed(inp) && UnitIous(inp)
    requires 1 <= a.candidateTopk <= CountTrue(ValidMask(inp.priors, inp.gtBboxes, a.centerRadius))
    requires PenaltyDominates(BaseCost(inp.clsCost, inp.iouCost, |inp.priors|, |inp.gtBboxes|))
    requires forall j :: 0 <= j < |inp.gtBboxes| ==>
      a.candidateTopk <= CountTrue(Column(GetInGtAndInCenterInfo(inp.priors, inp.gtBboxes, a.centerRadius).inBoxesAndCenters, j))
    ensures FinalMatching(ValidCost(a, inp), ValidIous(a, inp), |inp.gtBboxes|, a.candidateTopk).Ok?
    ensures var m := FinalMatching(ValidCost(a, inp), ValidIous(a, inp), |inp.gtBboxes|, a.candidateTopk).value;
      f < CountTrue(ForegroundRows(m)) ==>
        var row := TrueIndices(ForegroundRows(m))[f];
        var c := Gather(m, ValidIous(a, inp), inp.gtLabels).matchedGtInds[f];
        row < |ValidCost(a, inp)| && c < |inp.gtBboxes| &&
        GetInGtAndInCenterInfo(inp.priors, inp.gtBboxes, a.centerRadius).inBoxesAndCenters[row][c]
  {
    ValidIousInUnit(a, inp);
    CandidateCostSeparates(a, inp);
    CountTruePositive(ValidMask(inp.priors, inp.gtBboxes, a.centerRadius));
    MatchedRowsPlausible(ValidCost(a, inp), ValidIous(a, inp),
      GetInGtAndInCenterInfo(inp.priors, inp.gtBboxes, a.centerRadius).inBoxesAndCenters, inp.gtLabels, a.candidateTopk, f);
  }

  /** When the penalty dominates the base costs and every ground truth is
      both contained and centred for at least `candidate_topk` candidates,
      the assignment succeeds and keeps every match plausible: the `f`-th
      foreground prior lies inside its matched box and inside that box's
      centre region. */
  lemma {:induction false} MatchedPairsPlausible(a: SimOtaAssigner, inp: ImageInputs, f: nat)
    requires WellFormed(inp) && UnitIous(inp)
    requires 1 <= a.candidateTopk <= CountTrue(ValidMask(inp.priors, inp.gtBboxes, a.centerRadius))
    requires PenaltyDominates(BaseCost(inp.clsCost, inp.iouCost, |inp.priors|, |inp.gtBboxes|))
    requires forall j :: 0 <= j < |inp.gtBboxes| ==>
      a.candidateTopk <= CountTrue(Column(GetInGtAndInCenterInfo(inp.priors, inp.gtBboxes, a.centerRadius).inBoxesAndCenters, j))
    ensures AssignSpec(a, inp).Ok?
    ensures var res := AssignSpec(a, inp).value;
      f < res.numFg ==>
        f < |TrueIndices(res.validMask)| && f < |res.matchedGtInds| &&
        var i := TrueIndices(res.validMask)[f];
        var c := res.matchedGtInds[f];
        i < |inp.priors| && c < |inp.gtBboxes| &&
        InBox(inp.priors[i], inp.gtBboxes[c]) && InCenter(inp.priors[i], inp.gtBboxes[c], a.centerRadius)
  {
    CandidatesPlausible(a, inp, f);
    var res := AssignSpec(a, inp).value;
    var info := GetInGtAndInCenterInfo(inp.priors, inp.gtBboxes, a.centerRadius);
    var ious := ValidIous(a, inp);
    var m := FinalMatching(ValidCost(a, inp), ious, |inp.gtBboxes|, a.candidateTopk).value;
    var fg := ForegroundRows(m);
    assert res.validMask == Scatter(info.validMask, fg);
    assert res.matchedGtInds == Gather(m, ious, inp.gtLabels).matchedGtInds;
    if f < res.numFg {
      var row := TrueIndices(fg)[f];
      var c := res.matchedGtInds[f];
      ScatterTrueIndices(info.validMask, fg, f);
      CandidateEntryPlausible(inp.priors, inp.gtBboxes, a.centerRadius, row, c);
    }
  }
}
