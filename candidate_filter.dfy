/** The spatial candidate filter of the SimOTA assigner
    (`get_in_gt_and_in_center_info`): which priors lie inside which
    ground-truth boxes and inside which centre regions. */
module CandidateFilter {
  import opened Matrix

  /** A prior in `[cx, cy, stride_w, stride_h]` form: the anchor point and the
      stride of the feature level it belongs to. */
  datatype Prior = Prior(x: real, y: real, strideX: real, strideY: real)

  /** A ground-truth box in `[tl_x, tl_y, br_x, br_y]` form. */
  datatype GtBox = GtBox(x1: real, y1: real, x2: real, y2: real)

  /** `stack([l, t, r, b]).min()`: the smallest of four margins. */
  function MinMargin(l: real, t: real, r: real, b: real): (m: real)
    ensures m <= l && m <= t && m <= r && m <= b
    ensures m == l || m == t || m == r || m == b
  {
    var lt := if l <= t then l else t;
    var rb := if r <= b then r else b;
    if lt <= rb then lt else rb
  }

  /** `is_in_gts[i, j]`: the smallest of the four margins from the prior's
      point to the box edges is positive, that is, the point lies strictly
      inside the box. */
  function InBox(p: Prior, g: GtBox): (b: bool)
    ensures b <==> p.x - g.x1 > 0.0 && p.y - g.y1 > 0.0 && g.x2 - p.x > 0.0 && g.y2 - p.y > 0.0
  {
    MinMargin(p.x - g.x1, p.y - g.y1, g.x2 - p.x, g.y2 - p.y) > 0.0
  }

  /** `is_in_cts[i, j]`: the same strict test against the centre region, a
      box around the gt centroid whose half-width and half-height are
      `radius` times the prior's own strides. */
  function InCenter(p: Prior, g: GtBox, radius: real): (b: bool)
    ensures b <==>
      var cx := (g.x1 + g.x2) / 2.0;
      var cy := (g.y1 + g.y2) / 2.0;
      cx - radius * p.strideX < p.x < cx + radius * p.strideX &&
      cy - radius * p.strideY < p.y < cy + radius * p.strideY
  {
    var cx := (g.x1 + g.x2) / 2.0;
    var cy := (g.y1 + g.y2) / 2.0;
    var left := cx - radius * p.strideX;
    var top := cy - radius * p.strideY;
    var right := cx + radius * p.strideX;
    var bottom := cy + radius * p.strideY;
    MinMargin(p.x - left, p.y - top, right - p.x, bottom - p.y) > 0.0
  }

  /** The `[num_priors, num_gt]` matrix `is_in_gts`. */
  function InGtsMatrix(priors: seq<Prior>, gts: seq<GtBox>): (m: seq<seq<bool>>)
    ensures IsMatrix(m, |priors|, |gts|)
    ensures forall i, j :: 0 <= i < |priors| && 0 <= j < |gts| ==> m[i][j] == InBox(priors[i], gts[j])
  {
    seq(|priors|, i requires 0 <= i < |priors| =>
      seq(|gts|, j requires 0 <= j < |gts| => InBox(priors[i], gts[j])))
  }

  /** The `[num_priors, num_gt]` matrix `is_in_cts`. */
  function InCtsMatrix(priors: seq<Prior>, gts: seq<GtBox>, radius: real): (m: seq<seq<bool>>)
    ensures IsMatrix(m, |priors|, |gts|)
    ensures forall i, j :: 0 <= i < |priors| && 0 <= j < |gts| ==> m[i][j] == InCenter(priors[i], gts[j], radius)
  {
    seq(|priors|, i requires 0 <= i < |priors| =>
      seq(|gts|, j requires 0 <= j < |gts| => InCenter(priors[i], gts[j], radius)))
  }

  /** `is_in_gts_or_centers`: a prior is a candidate when it is in the box or
      in the centre region of at least one ground truth, so with no ground
      truths no prior is a candidate. */
  function ValidMask(priors: seq<Prior>, gts: seq<GtBox>, radius: real): (v: seq<bool>)
    ensures |v| == |priors|
    ensures forall i :: 0 <= i < |priors| ==>
      (v[i] <==> exists j :: 0 <= j < |gts| && (InBox(priors[i], gts[j]) || InCenter(priors[i], gts[j], radius)))
    ensures |gts| == 0 ==> forall i :: 0 <= i < |v| ==> !v[i]
  {
    var inGts := InGtsMatrix(priors, gts);
    var inCts := InCtsMatrix(priors, gts, radius);
    RowsPositive(inGts);
    RowsPositive(inCts);
    seq(|priors|, i requires 0 <= i < |priors| => CountTrue(inGts[i]) > 0 || CountTrue(inCts[i]) > 0)
  }

  /** What the filter hands on: the N-length candidate mask and, for the
      candidates only, which ground truths they are both in-box and
      in-centre for. */
  datatype CandidateInfo = CandidateInfo(validMask: seq<bool>, inBoxesAndCenters: seq<seq<bool>>)

  /** The filter. Row `r` of the matrix belongs to the `r`-th candidate in
      prior order, and entry `(r, j)` holds exactly when that prior is both
      in box `j` and in the centre region of box `j`. */
  function GetInGtAndInCenterInfo(priors: seq<Prior>, gts: seq<GtBox>, radius: real): (info: CandidateInfo)
    ensures info.validMask == ValidMask(priors, gts, radius)
    ensures IsMatrix(info.inBoxesAndCenters, CountTrue(info.validMask), |gts|)
    ensures forall r, j :: 0 <= r < CountTrue(info.validMask) && 0 <= j < |gts| ==>
      var i := TrueIndices(info.validMask)[r];
      (info.inBoxesAndCenters[r][j] <==> InBox(priors[i], gts[j]) && InCenter(priors[i], gts[j], radius))
  {
    var valid := ValidMask(priors, gts, radius);
    CandidateInfo(valid, InBoxesAndCenters(priors, gts, radius, TrueIndices(valid)))
  }

  /** `is_in_gts[rows, :] & is_in_cts[rows, :]`: row `r` belongs to prior
      `rows[r]`, and entry `(r, j)` holds exactly when that prior is both
      in box `j` and in the centre region of box `j`. */
  function InBoxesAndCenters(priors: seq<Prior>, gts: seq<GtBox>, radius: real, rows: seq<nat>): (m: seq<seq<bool>>)
    requires forall k :: 0 <= k < |rows| ==> rows[k] < |priors|
    ensures IsMatrix(m, |rows|, |gts|)
    ensures forall r, j :: 0 <= r < |rows| && 0 <= j < |gts| ==>
      (m[r][j] <==> InBox(priors[rows[r]], gts[j]) && InCenter(priors[rows[r]], gts[j], radius))
  {
    var inGts := InGtsMatrix(priors, gts);
    var inCts := InCtsMatrix(priors, gts, radius);
    seq(|rows|, r requires 0 <= r < |rows| =>
      seq(|gts|, j requires 0 <= j < |gts| => inGts[rows[r]][j] && inCts[rows[r]][j]))
  }

  /** Restricting to candidate rows loses no pair: a prior is in box `j` and
      in centre `j` exactly when it is a candidate whose row holds a true
      entry in column `j`; every true entry belongs to a candidate. */
  lemma NoPairLost(priors: seq<Prior>, gts: seq<GtBox>, radius: real, i: nat, j: nat)
    requires i < |priors| && j < |gts|
    ensures var info := GetInGtAndInCenterInfo(priors, gts, radius);
      var rows := TrueIndices(info.validMask);
      (InBox(priors[i], gts[j]) && InCenter(priors[i], gts[j], radius)) <==>
      (info.validMask[i] && exists r :: 0 <= r < |rows| && rows[r] == i && info.inBoxesAndCenters[r][j])
  {
    var info := GetInGtAndInCenterInfo(priors, gts, radius);
    var rows := TrueIndices(info.validMask);
    if InBox(priors[i], gts[j]) && InCenter(priors[i], gts[j], radius) {
      assert info.validMask[i];
      assert i in rows;
      var r :| 0 <= r < |rows| && rows[r] == i;
      assert info.inBoxesAndCenters[r][j];
    }
  }

  /** A true entry of the box-and-centre matrix marks its prior as both in
      the box and in the centre region of that ground truth. */
  lemma CandidateEntryPlausible(priors: seq<Prior>, gts: seq<GtBox>, radius: real, r: nat, j: nat)
    requires r < CountTrue(ValidMask(priors, gts, radius)) && j < |gts|
    requires GetInGtAndInCenterInfo(priors, gts, radius).inBoxesAndCenters[r][j]
    ensures var i := TrueIndices(ValidMask(priors, gts, radius))[r];
      i < |priors| && InBox(priors[i], gts[j]) && InCenter(priors[i], gts[j], radius)
  {
  }
}
