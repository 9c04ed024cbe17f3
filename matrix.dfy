/** Dense vectors and matrices as the assignment stages use them: boolean
    masks and their sums, the index list of a mask (what indexing a tensor
    by a boolean mask keeps), row selection, and the reductions `sum`,
    `min(dim=1)` and `argmax(1)` of the tensor library. */
module Matrix {

  /** `m` has `rows` rows of `cols` entries each. */
  predicate IsMatrix<T>(m: seq<seq<T>>, rows: nat, cols: nat) {
    |m| == rows && forall r :: 0 <= r < rows ==> |m[r]| == cols
  }

  /** Column `j` of `m`, the slice `m[:, j]`. */
  function Column<T>(m: seq<seq<T>>, j: nat): (c: seq<T>)
    requires forall r :: 0 <= r < |m| ==> j < |m[r]|
    ensures |c| == |m| && forall r :: 0 <= r < |m| ==> c[r] == m[r][j]
  {
    seq(|m|, r requires 0 <= r < |m| => m[r][j])
  }

  /** The rows of `m` at the indices `idx`, in that order: `m[mask]` when
      `idx` lists the true positions of `mask`. */
  function SelectRows<T>(m: seq<seq<T>>, idx: seq<nat>): (s: seq<seq<T>>)
    requires forall k :: 0 <= k < |idx| ==> idx[k] < |m|
    ensures |s| == |idx| && forall k :: 0 <= k < |idx| ==> s[k] == m[idx[k]]
  {
    seq(|idx|, k requires 0 <= k < |idx| => m[idx[k]])
  }

  /** A three-element sequence is determined by its three entries. */
  lemma ThreeEntries<T>(s: seq<T>, a: T, b: T, c: T)
    requires |s| == 3 && s[0] == a && s[1] == b && s[2] == c
    ensures s == [a, b, c]
  {
  }

  /** A two-row matrix is determined by its two rows. */
  lemma TwoRows<T>(m: seq<seq<T>>, a: seq<T>, b: seq<T>)
    requires |m| == 2 && m[0] == a && m[1] == b
    ensures m == [a, b]
  {
  }

  /** The sum of a 0/1 vector, i.e. the number of its true entries. */
  function CountTrue(s: seq<bool>): (n: nat)
    ensures n <= |s|
  {
    if |s| == 0 then 0 else CountTrue(s[..|s| - 1]) + (if s[|s| - 1] then 1 else 0)
  }

  /** `s.sum() > 0` holds exactly when some entry is true. */
  lemma {:induction false} CountTruePositive(s: seq<bool>)
    ensures CountTrue(s) > 0 <==> exists i :: 0 <= i < |s| && s[i]
  {
    if |s| > 0 {
      var p := s[..|s| - 1];
      CountTruePositive(p);
      if CountTrue(p) > 0 {
        var i :| 0 <= i < |p| && p[i];
        assert s[i];
      }
      if exists i :: 0 <= i < |s| && s[i] {
        var i :| 0 <= i < |s| && s[i];
        if i < |p| {
          assert p[i];
        }
      }
    }
  }

  /** `m.sum(dim=1) > 0` holds for a row exactly when the row has a true entry. */
  lemma RowsPositive(m: seq<seq<bool>>)
    ensures forall i :: 0 <= i < |m| ==> (CountTrue(m[i]) > 0 <==> exists j :: 0 <= j < |m[i]| && m[i][j])
  {
    forall i | 0 <= i < |m| {
      CountTruePositive(m[i]);
    }
  }

  /** A vector whose sum is 1 has exactly one true entry. */
  lemma {:induction false} CountTrueOne(s: seq<bool>, c: nat)
    requires c < |s| && s[c] && CountTrue(s) == 1
    ensures forall i :: 0 <= i < |s| && i != c ==> !s[i]
  {
    var p := s[..|s| - 1];
    if c == |s| - 1 {
      assert CountTrue(p) == 0;
      CountTruePositive(p);
      forall i | 0 <= i < |s| && i != c ensures !s[i] {
        assert s[i] == p[i];
      }
    } else {
      assert p[c];
      CountTruePositive(p);
      assert !s[|s| - 1];
      CountTrueOne(p, c);
      forall i | 0 <= i < |s| && i != c ensures !s[i] {
        if i < |p| {
          assert s[i] == p[i];
        }
      }
    }
  }

  /** Raising one false entry to true adds one to the sum. */
  lemma {:induction false} CountTrueSet(s: seq<bool>, x: nat)
    requires x < |s| && !s[x]
    ensures CountTrue(s[x := true]) == CountTrue(s) + 1
  {
    var n := |s| - 1;
    if x == n {
      assert s[x := true][..n] == s[..n];
    } else {
      CountTrueSet(s[..n], x);
      assert s[x := true][..n] == s[..n][x := true];
    }
  }

  /** The sum of a vector equals the number of its true positions. */
  lemma {:induction false} CountTrueIsCard(s: seq<bool>)
    ensures CountTrue(s) == |set i | 0 <= i < |s| && s[i]|
  {
    if |s| > 0 {
      var n := |s| - 1;
      var p := s[..n];
      CountTrueIsCard(p);
      var before := set i | 0 <= i < |p| && p[i];
      var after := set i | 0 <= i < |s| && s[i];
      if s[n] {
        assert after == before + {n};
      } else {
        assert after == before;
      }
    }
  }

  /** A vector with exactly the entry `c` true. */
  function OneHot(n: nat, c: nat): (s: seq<bool>)
    requires c < n
    ensures |s| == n && s[c] && CountTrue(s) == 1
    ensures forall i :: 0 <= i < n ==> s[i] == (i == c)
  {
    var s := seq(n, i requires 0 <= i < n => i == c);
    CountTrueIsCard(s);
    assert (set i | 0 <= i < |s| && s[i]) == {c};
    s
  }

  /** The positions of the true entries of `s`, in increasing order: what
      indexing by the boolean mask `s` keeps, and in which order. */
  function TrueIndices(s: seq<bool>): (idx: seq<nat>)
    ensures |idx| == CountTrue(s)
    ensures forall k :: 0 <= k < |idx| ==> idx[k] < |s| && s[idx[k]]
    ensures forall k, l :: 0 <= k < l < |idx| ==> idx[k] < idx[l]
    ensures forall i :: 0 <= i < |s| && s[i] ==> i in idx
  {
    if |s| == 0 then []
    else
      var prefix := TrueIndices(s[..|s| - 1]);
      if s[|s| - 1] then prefix + [|s| - 1] else prefix
  }

  /** The true positions of a prefix are the first true positions of the whole. */
  lemma TrueIndicesPrefix(s: seq<bool>, k: nat)
    requires |s| > 0 && k < CountTrue(s[..|s| - 1])
    ensures k < CountTrue(s) && TrueIndices(s)[k] == TrueIndices(s[..|s| - 1])[k]
  {
    var p := s[..|s| - 1];
    assert TrueIndices(s) == if s[|s| - 1] then TrueIndices(p) + [|s| - 1] else TrueIndices(p);
  }

  /** The true positions of any prefix `s[..c]` are the first true
      positions of `s`. */
  lemma {:induction false} TrueIndicesTake(s: seq<bool>, c: nat, f: nat)
    requires c <= |s| && f < CountTrue(s[..c])
    ensures f < CountTrue(s) && TrueIndices(s)[f] == TrueIndices(s[..c])[f]
    decreases |s|
  {
    if c < |s| {
      var p := s[..|s| - 1];
      assert p[..c] == s[..c];
      TrueIndicesTake(p, c, f);
      TrueIndicesPrefix(s, f);
    } else {
      assert s[..c] == s;
    }
  }

  /** A true last position is the last true position. */
  lemma TrueIndicesLast(s: seq<bool>)
    requires |s| > 0 && s[|s| - 1]
    ensures CountTrue(s[..|s| - 1]) < CountTrue(s) && TrueIndices(s)[CountTrue(s[..|s| - 1])] == |s| - 1
  {
    var p := s[..|s| - 1];
    assert TrueIndices(s) == TrueIndices(p) + [|s| - 1];
  }

  /** The `k`-th true position of `s` has exactly `k` true positions before it. */
  lemma {:induction false} TrueIndexRank(s: seq<bool>, k: nat)
    requires k < CountTrue(s)
    ensures CountTrue(s[..TrueIndices(s)[k]]) == k
  {
    var n := |s| - 1;
    var p := s[..n];
    assert TrueIndices(s) == if s[n] then TrueIndices(p) + [n] else TrueIndices(p);
    if s[n] && k == CountTrue(p) {
      assert TrueIndices(s)[k] == n;
    } else {
      var j := TrueIndices(p)[k];
      assert TrueIndices(s)[k] == j;
      TrueIndexRank(p, k);
      assert s[..j] == p[..j];
    }
  }

  /** The sum of a real vector. */
  function Sum(s: seq<real>): real {
    if |s| == 0 then 0.0 else Sum(s[..|s| - 1]) + s[|s| - 1]
  }

  lemma SumPair(s: seq<real>)
    requires |s| == 2
    ensures Sum(s) == s[0] + s[1]
  {
    assert s[..1][..0] == [] && s[..1][0] == s[0];
    assert Sum(s[..1]) == s[0];
  }

  /** A sum of values in [0, 1] lies in [0, length]. */
  lemma {:induction false} SumUnitBounds(s: seq<real>)
    requires forall i :: 0 <= i < |s| ==> 0.0 <= s[i] <= 1.0
    ensures 0.0 <= Sum(s) <= |s| as real
  {
    if |s| > 0 {
      SumUnitBounds(s[..|s| - 1]);
    }
  }

  /** `s.min()`'s index: the first position holding the least value (the
      tensor library returns the first minimal index). */
  function ArgMin(s: seq<real>): (m: nat)
    requires |s| > 0
    ensures m < |s|
    ensures forall i :: 0 <= i < |s| ==> s[m] <= s[i]
    ensures forall i :: 0 <= i < m ==> s[m] < s[i]
  {
    if |s| == 1 then 0
    else
      var m := ArgMin(s[..|s| - 1]);
      if s[|s| - 1] < s[m] then |s| - 1 else m
  }

  /** `argmax` over a 0/1 row: the first position holding a 1, or 0 when
      the row holds none (the first maximal index of an all-zero row). */
  function FirstTrue(s: seq<bool>): (m: nat)
    ensures (exists i :: 0 <= i < |s| && s[i]) ==> m < |s| && s[m]
    ensures forall i :: 0 <= i < m && i < |s| ==> !s[i]
    ensures (forall i :: 0 <= i < |s| ==> !s[i]) ==> m == 0
  {
    if |s| == 0 then 0
    else if s[0] then 0
    else
      var m := FirstTrue(s[1..]);
      if m + 1 < |s| && s[m + 1] then m + 1 else 0
  }

  /** `(row * vals).sum()` for a 0/1 row. */
  function MaskedSum(row: seq<bool>, vals: seq<real>): real
    requires |row| == |vals|
  {
    if |row| == 0 then 0.0
    else MaskedSum(row[..|row| - 1], vals[..|vals| - 1]) + (if row[|row| - 1] then vals[|vals| - 1] else 0.0)
  }

  /** A row with a single 1, at `c`, picks out `vals[c]`. */
  lemma {:induction false} MaskedSumOneHot(row: seq<bool>, vals: seq<real>, c: nat)
    requires |row| == |vals| && c < |row| && row[c]
    requires forall i :: 0 <= i < |row| && i != c ==> !row[i]
    ensures MaskedSum(row, vals) == vals[c]
  {
    var n := |row| - 1;
    if c == n {
      MaskedSumZero(row[..n], vals[..n]);
    } else {
      MaskedSumOneHot(row[..n], vals[..n], c);
    }
  }

  /** An all-zero row sums to nothing. */
  lemma {:induction false} MaskedSumZero(row: seq<bool>, vals: seq<real>)
    requires |row| == |vals|
    requires forall i :: 0 <= i < |row| ==> !row[i]
    ensures MaskedSum(row, vals) == 0.0
  {
    if |row| > 0 {
      MaskedSumZero(row[..|row| - 1], vals[..|vals| - 1]);
    }
  }
}
