/** `torch.topk` along one column: the indices of the `k` best entries, best
    first. The library leaves the order of equal entries unspecified; this
    model breaks ties towards the lower row index. */
module Selection {
  import opened Wrappers
  import opened Matrix

  /** Row `a` is reported before row `b`: its value is better (larger when
      `largest`, smaller otherwise), or equal with a lower index. */
  predicate Before(col: seq<real>, largest: bool, a: nat, b: nat)
    requires a < |col| && b < |col|
  {
    (if largest then col[a] > col[b] else col[a] < col[b]) || (col[a] == col[b] && a < b)
  }

  /** The first row, in `Before` order, among the rows `i..` not yet taken. */
  function BestFrom(col: seq<real>, largest: bool, taken: seq<nat>, i: nat): (m: Option<nat>)
    requires i <= |col|
    decreases |col| - i
    ensures m.None? <==> forall k :: i <= k < |col| ==> k in taken
    ensures m.Some? ==> i <= m.value < |col| && m.value !in taken
    ensures m.Some? ==> forall k :: i <= k < |col| && k !in taken && k != m.value ==> Before(col, largest, m.value, k)
  {
    if i == |col| then None
    else
      var rest := BestFrom(col, largest, taken, i + 1);
      if i in taken then rest
      else if rest.None? || Before(col, largest, i, rest.value) then Some(i)
      else rest
  }

  /** `s` with every occurrence of `v` dropped. */
  function Without(s: seq<nat>, v: nat): (r: seq<nat>)
    ensures |r| <= |s|
    ensures v in s ==> |r| < |s|
    ensures forall x :: x in r <==> x in s && x != v
  {
    if |s| == 0 then []
    else (if s[0] == v then [] else [s[0]]) + Without(s[1..], v)
  }

  /** Fewer than `n` indices cannot cover all of `0..n`. */
  lemma {:induction false} Pigeonhole(idx: seq<nat>, n: nat)
    requires |idx| < n
    ensures exists u :: 0 <= u < n && u !in idx
    decreases n
  {
    if n - 1 in idx {
      var rest := Without(idx, n - 1);
      Pigeonhole(rest, n - 1);
      var u :| 0 <= u < n - 1 && u !in rest;
      assert u !in idx;
    } else {
      assert n - 1 !in idx;
    }
  }

  /** Distinct values all found in `b` are no more numerous than `b`. */
  lemma {:induction false} DistinctSubsetLength(a: seq<nat>, b: seq<nat>)
    requires forall x, y :: 0 <= x < y < |a| ==> a[x] != a[y]
    requires forall x :: 0 <= x < |a| ==> a[x] in b
    ensures |a| <= |b|
  {
    if |a| > 0 {
      var last := a[|a| - 1];
      var rest := Without(b, last);
      var init := a[..|a| - 1];
      forall x | 0 <= x < |init| ensures init[x] in rest {
        assert init[x] == a[x] != last;
      }
      DistinctSubsetLength(init, rest);
    }
  }

  /** `topk(col, k, largest)`'s indices: `k` distinct rows, best first, and
      every row left out comes after every row taken. */
  function TopK(col: seq<real>, k: nat, largest: bool): (idx: seq<nat>)
    requires k <= |col|
    ensures |idx| == k
    ensures forall a :: 0 <= a < k ==> idx[a] < |col|
    ensures forall a, b :: 0 <= a < b < k ==> Before(col, largest, idx[a], idx[b])
    ensures forall a, b :: 0 <= a < b < k ==> idx[a] != idx[b]
    ensures forall a, u :: 0 <= a < k && 0 <= u < |col| && u !in idx ==> Before(col, largest, idx[a], u)
    decreases k
  {
    if k == 0 then []
    else
      var prev := TopK(col, k - 1, largest);
      Pigeonhole(prev, |col|);
      var m := BestFrom(col, largest, prev, 0);
      prev + [m.value]
  }

  /** `topk` with `k` extends `topk` with `k - 1` by one more row. */
  lemma TopKExtends(col: seq<real>, k: nat, largest: bool)
    requires 0 < k <= |col|
    ensures TopK(col, k, largest)[..k - 1] == TopK(col, k - 1, largest)
  {
  }

  /** `Before` is antisymmetric: two rows each reported no later than the
      other are the same row. */
  lemma BeforeAntisymmetric(col: seq<real>, largest: bool, a: nat, b: nat)
    requires a < |col| && b < |col|
    requires a == b || Before(col, largest, a, b)
    requires a == b || Before(col, largest, b, a)
    ensures a == b
  {
  }

  /** `topk(col, 1, largest)` returns the row that comes before every other. */
  lemma TopKOne(col: seq<real>, largest: bool, m: nat)
    requires m < |col|
    requires forall u :: 0 <= u < |col| && u != m ==> Before(col, largest, m, u)
    ensures TopK(col, 1, largest) == [m]
  {
    var idx := TopK(col, 1, largest);
    var v := idx[0];
    assert v == m || Before(col, largest, v, m);
    BeforeAntisymmetric(col, largest, v, m);
  }

  /** A row left out of `topk(col, k, largest=False)` costs no less than any
      row taken: no unselected row is strictly cheaper than a selected one. */
  lemma SmallestAreSmallest(col: seq<real>, k: nat, s: nat, u: nat)
    requires k <= |col| && s in TopK(col, k, false) && u < |col| && u !in TopK(col, k, false)
    ensures col[s] <= col[u]
  {
    var idx := TopK(col, k, false);
    var a :| 0 <= a < k && idx[a] == s;
    assert Before(col, false, idx[a], u);
  }

  /** The rows of `topk` are distinct, so marking them in a column of `n`
      zeros leaves exactly `k` ones there. */
  lemma {:induction false} MarkedCount(idx: seq<nat>, n: nat)
    requires forall a :: 0 <= a < |idx| ==> idx[a] < n
    requires forall a, b :: 0 <= a < b < |idx| ==> idx[a] != idx[b]
    ensures CountTrue(seq(n, r => r in idx)) == |idx|
  {
    var marks := seq(n, r => r in idx);
    if |idx| == 0 {
      CountTruePositive(marks);
    } else {
      var p := idx[..|idx| - 1];
      var x := idx[|idx| - 1];
      MarkedCount(p, n);
      var before := seq(n, r => r in p);
      assert x !in p;
      assert marks == before[x := true];
      CountTrueSet(before, x);
    }
  }

  /** Sum of the `k` largest entries of `col`: `topk(col, k).values.sum()`. */
  function TopKSum(col: seq<real>, k: nat): real
    requires k <= |col|
  {
    var idx := TopK(col, k, true);
    Sum(seq(k, a requires 0 <= a < k => col[idx[a]]))
  }

  /** With all entries in [0, 1] the sum of the `k` largest lies in [0, k]. */
  lemma TopKSumBounds(col: seq<real>, k: nat)
    requires k <= |col|
    requires forall r :: 0 <= r < |col| ==> 0.0 <= col[r] <= 1.0
    ensures 0.0 <= TopKSum(col, k) <= k as real
  {
    var idx := TopK(col, k, true);
    SumUnitBounds(seq(k, a requires 0 <= a < k => col[idx[a]]));
  }
}
