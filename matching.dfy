/** `dynamic_k_matching`: the matching matrix is a buffer filled column by
    column, rewritten where rows conflict, and the caller's candidate mask
    is narrowed in place. Each vectorised masked assignment of the source is
    a `forall` statement here; the `for gt_idx` loop is the one loop. */
module Matching {
  import opened Wrappers
  import opened Matrix
  import opened Selection
  import opened DynamicK

  /** The current contents of a matrix buffer, row by row. */
  function Rows(m: array2<bool>): (s: seq<seq<bool>>)
    reads m
    ensures IsMatrix(s, m.Length0, m.Length1)
    ensures forall r, c :: 0 <= r < m.Length0 && 0 <= c < m.Length1 ==> s[r][c] == m[r, c]
  {
    seq(m.Length0, r requires 0 <= r < m.Length0 reads m =>
      seq(m.Length1, c requires 0 <= c < m.Length1 reads m => m[r, c]))
  }

  /** Two matrices of the same shape with the same entries are equal. */
  lemma MatrixEquality(a: seq<seq<bool>>, b: seq<seq<bool>>, rows: nat, cols: nat)
    requires IsMatrix(a, rows, cols) && IsMatrix(b, rows, cols)
    requires forall r, c :: 0 <= r < rows && 0 <= c < cols ==> a[r][c] == b[r][c]
    ensures a == b
  {
    forall r | 0 <= r < rows ensures a[r] == b[r] {
      assert forall c :: 0 <= c < cols ==> a[r][c] == b[r][c];
    }
  }

  /** The `for gt_idx` loop: column `j` of the zeroed buffer gets a 1 at
      each row `topk(cost[:, j], ks[j], largest=False)` returns. It stops at
      the first column whose `topk` would ask for more rows than there are. */
  method MarkColumns(matching: array2<bool>, cost: seq<seq<real>>, dynamicKs: seq<nat>) returns (ok: bool)
    requires matching.Length0 == |cost| && matching.Length1 == |dynamicKs|
    requires IsMatrix(cost, |cost|, |dynamicKs|)
    requires forall row, c :: 0 <= row < |cost| && 0 <= c < |dynamicKs| ==> !matching[row, c]
    modifies matching
    ensures ok <==> forall c :: 0 <= c < |dynamicKs| ==> dynamicKs[c] <= |cost|
    ensures ok ==> Rows(matching) == InitialMatching(cost, dynamicKs)
  {
    var gtIdx := 0;
    while gtIdx < |dynamicKs|
      invariant 0 <= gtIdx <= |dynamicKs|
      invariant forall c :: 0 <= c < gtIdx ==> dynamicKs[c] <= |cost|
      invariant forall row, c :: 0 <= row < |cost| && 0 <= c < |dynamicKs| ==>
        matching[row, c] == (c < gtIdx && row in TopK(Column(cost, c), dynamicKs[c], false))
    {
      if dynamicKs[gtIdx] > |cost| {
        return false;
      }
      var posIdx := TopK(Column(cost, gtIdx), dynamicKs[gtIdx], false);
      forall t | 0 <= t < |posIdx| {
        matching[posIdx[t], gtIdx] := true;
      }
      gtIdx := gtIdx + 1;
    }
    MatrixEquality(Rows(matching), InitialMatching(cost, dynamicKs), |cost|, |dynamicKs|);
    return true;
  }

  /** Conflict resolution in place: the rows summing to more than 1 are
      multiplied by 0 and then get a 1 at their `cost_argmin` column. */
  method ResolveConflicts(matching: array2<bool>, cost: seq<seq<real>>)
    requires IsMatrix(cost, matching.Length0, matching.Length1)
    modifies matching
    ensures Rows(matching) == Resolve(old(Rows(matching)), cost, matching.Length1)
  {
    var initial := Rows(matching);
    var priorMatchGtMask := seq(matching.Length0, row requires 0 <= row < matching.Length0 => CountTrue(initial[row]) > 1);
    if CountTrue(priorMatchGtMask) > 0 {
      forall row, c | 0 <= row < matching.Length0 && 0 <= c < matching.Length1 && priorMatchGtMask[row] {
        matching[row, c] := false;
      }
      assert forall row, c :: 0 <= row < matching.Length0 && 0 <= c < matching.Length1 ==>
        matching[row, c] == (!priorMatchGtMask[row] && initial[row][c]);
      forall row | 0 <= row < matching.Length0 && priorMatchGtMask[row] {
        matching[row, ArgMin(cost[row])] := true;
      }
    } else {
      CountTruePositive(priorMatchGtMask);
    }
    var expected := Resolve(initial, cost, matching.Length1);
    forall row, c | 0 <= row < matching.Length0 && 0 <= c < matching.Length1
      ensures matching[row, c] == expected[row][c]
    {
      if priorMatchGtMask[row] {
        assert expected[row] == OneHot(matching.Length1, ArgMin(cost[row]));
      } else {
        assert expected[row] == initial[row];
      }
    }
    MatrixEquality(Rows(matching), Resolve(initial, cost, matching.Length1), matching.Length0, matching.Length1);
  }

  /** `fg_mask[fg_mask.clone()] = fg_mask_inboxes`. */
  method NarrowMask(fgMask: array<bool>, fgMaskInboxes: seq<bool>)
    requires CountTrue(fgMask[..]) == |fgMaskInboxes|
    modifies fgMask
    ensures fgMask[..] == Scatter(old(fgMask[..]), fgMaskInboxes)
  {
    var narrowed := Scatter(fgMask[..], fgMaskInboxes);
    forall i | 0 <= i < fgMask.Length {
      fgMask[i] := narrowed[i];
    }
  }

  /** Dynamic-k matching of the `|cost|` candidate rows against `numGt`
      ground truths. On success the result is what `Gather` reads off the
      resolved matrix and `fgMask` is narrowed to the candidates whose row is
      foreground; a `topk` asked for more rows than there are, or `del` of
      the `pos_idx` that no loop iteration bound, fails before anything is
      written to `fgMask`. */
  method DynamicKMatching(cost: seq<seq<real>>, pairWiseIous: seq<seq<real>>, gtClasses: seq<int>, numGt: nat,
                          fgMask: array<bool>, candidateTopk: nat)
    returns (r: Result<Matched, AssignError>)
    requires IsMatrix(cost, |cost|, numGt) && IsMatrix(pairWiseIous, |cost|, numGt) && |gtClasses| == numGt
    requires CountTrue(fgMask[..]) == |cost|
    modifies fgMask
    ensures match FinalMatching(cost, pairWiseIous, numGt, candidateTopk)
      case Err(e) => r == Err(e) && fgMask[..] == old(fgMask[..])
      case Ok(m) => r == Ok(Gather(m, pairWiseIous, gtClasses)) && fgMask[..] == Scatter(old(fgMask[..]), ForegroundRows(m))
  {
    var matching := new bool[|cost|, numGt]((_, _) => false);
    if candidateTopk > |cost| {
      return Err(TopKOutOfRange);
    }
    var dynamicKs := DynamicKs(pairWiseIous, numGt, candidateTopk);
    var ok := MarkColumns(matching, cost, dynamicKs);
    if !ok {
      return Err(TopKOutOfRange);
    }
    // `del topk_ious, dynamic_ks, pos_idx`: only the loop binds `pos_idx`.
    if numGt == 0 {
      return Err(PosIdxUnbound);
    }
    ResolveConflicts(matching, cost);
    var resolved := Rows(matching);
    NarrowMask(fgMask, ForegroundRows(resolved));
    r := Ok(Gather(resolved, pairWiseIous, gtClasses));
  }
}
