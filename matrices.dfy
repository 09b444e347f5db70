/**
 * Integer matrices as the numpy arrays of the model-design code use them:
 * a column count that survives an empty row list, boolean column selection
 * (`Z[:, mask]`) and horizontal concatenation (`np.concatenate(..., axis=1)`).
 */
module Matrices {

  datatype Matrix = Matrix(width: nat, rows: seq<seq<int>>)
  {
    /** Every row has `width` entries. */
    predicate Wf()
    {
      forall r :: 0 <= r < |rows| ==> |rows[r]| == width
    }
  }

  /** The sum of a sequence of counts. */
  function Sum(s: seq<nat>): nat
  {
    if s == [] then 0 else Sum(s[..|s| - 1]) + s[|s| - 1]
  }

  lemma {:induction false} SumPrefixMonotone(s: seq<nat>, i: nat, j: nat)
    requires i <= j <= |s|
    ensures Sum(s[..i]) <= Sum(s[..j])
    decreases j - i
  {
    if i < j {
      assert s[..j][..j - 1] == s[..j - 1];
      SumPrefixMonotone(s, i, j - 1);
    }
  }

  /** `Sum(s[..i + 1])` adds the i-th count to the prefix sum before it. */
  lemma SumPrefixStep(s: seq<nat>, i: nat)
    requires i < |s|
    ensures Sum(s[..i + 1]) == Sum(s[..i]) + s[i]
  {
    assert s[..i + 1][..i] == s[..i];
  }

  /** The column counts of a list of matrices. */
  function Widths(ms: seq<Matrix>): (w: seq<nat>)
    ensures |w| == |ms| && forall i :: 0 <= i < |ms| ==> w[i] == ms[i].width
  {
    seq(|ms|, i requires 0 <= i < |ms| => ms[i].width)
  }

  /**
   * The indices `j` with `mask[j]` set, in increasing order: the columns that
   * a boolean index `Z[:, mask]` keeps.
   */
  function Selected(mask: seq<bool>): (s: seq<nat>)
    ensures forall k :: 0 <= k < |s| ==> s[k] < |mask|
  {
    if mask == [] then []
    else
      var s := Selected(mask[..|mask| - 1]);
      if mask[|mask| - 1] then s + [|mask| - 1] else s
  }

  /** Selecting from one more mask bit appends that index exactly when the bit is set. */
  lemma SelectedStep(mask: seq<bool>, n: nat)
    requires n < |mask|
    ensures Selected(mask[..n + 1]) == if mask[n] then Selected(mask[..n]) + [n] else Selected(mask[..n])
  {
    assert mask[..n + 1][..n] == mask[..n];
  }

  /** The selected indices are exactly the set bits, in strictly increasing order. */
  lemma {:induction false} SelectedExactly(mask: seq<bool>)
    ensures forall k :: 0 <= k < |Selected(mask)| ==> mask[Selected(mask)[k]]
    ensures forall j :: 0 <= j < |mask| ==> (mask[j] <==> j in Selected(mask))
    ensures forall k, l :: 0 <= k < l < |Selected(mask)| ==> Selected(mask)[k] < Selected(mask)[l]
  {
    if mask != [] {
      var n := |mask| - 1;
      var init := mask[..n];
      SelectedExactly(init);
      var s := Selected(init);
      assert forall j :: 0 <= j < n ==> mask[j] == init[j];
      if mask[n] {
        assert Selected(mask) == s + [n];
      } else {
        assert Selected(mask) == s;
      }
    }
  }

  /** Mask `mask` flags exactly the interval `[lo, lo + w)`: it selects exactly those indices, in order. */
  lemma SelectedInterval(mask: seq<bool>, lo: nat, w: nat)
    requires lo + w <= |mask|
    requires forall j :: 0 <= j < |mask| ==> (mask[j] <==> lo <= j < lo + w)
    ensures |Selected(mask)| == w && forall k :: 0 <= k < w ==> Selected(mask)[k] == lo + k
  {
    SelectedIntervalPrefix(mask, |mask|, lo, w);
    assert mask[..|mask|] == mask;
  }

  lemma {:induction false} SelectedIntervalPrefix(mask: seq<bool>, n: nat, lo: nat, w: nat)
    requires n <= |mask|
    requires forall j :: 0 <= j < |mask| ==> (mask[j] <==> lo <= j < lo + w)
    ensures var cnt := if n <= lo then 0 else if n <= lo + w then n - lo else w;
      |Selected(mask[..n])| == cnt && forall k :: 0 <= k < cnt ==> Selected(mask[..n])[k] == lo + k
    decreases n
  {
    if n > 0 {
      SelectedIntervalPrefix(mask, n - 1, lo, w);
      SelectedStep(mask, n - 1);
      var s := Selected(mask[..n - 1]);
      var t := Selected(mask[..n]);
      if lo <= n - 1 < lo + w {
        assert mask[n - 1] && t == s + [n - 1] && |s| == n - 1 - lo;
        forall k | 0 <= k < n - lo
          ensures t[k] == lo + k
        {
          if k < n - 1 - lo {
            assert t[k] == s[k];
          }
        }
      } else {
        assert !mask[n - 1] && t == s;
      }
    }
  }

  lemma {:induction false} SelectedAll(mask: seq<bool>)
    requires forall j :: 0 <= j < |mask| ==> mask[j]
    ensures |Selected(mask)| == |mask|
    ensures forall k :: 0 <= k < |mask| ==> Selected(mask)[k] == k
  {
    if mask != [] {
      SelectedAll(mask[..|mask| - 1]);
    }
  }

  /** `m[:, mask]`: the columns whose mask bit is set, in their original order. */
  function SelectColumns(m: Matrix, mask: seq<bool>): (r: Matrix)
    requires m.Wf() && |mask| == m.width
    ensures r.Wf() && |r.rows| == |m.rows| && r.width == |Selected(mask)|
    ensures forall i, k :: 0 <= i < |m.rows| && 0 <= k < r.width ==> r.rows[i][k] == m.rows[i][Selected(mask)[k]]
  {
    var cols := Selected(mask);
    Matrix(|cols|, seq(|m.rows|, i requires 0 <= i < |m.rows| => seq(|cols|, k requires 0 <= k < |cols| => m.rows[i][cols[k]])))
  }

  /** Selecting with a mask of all ones keeps the matrix as it is. */
  lemma SelectAllColumns(m: Matrix, mask: seq<bool>)
    requires m.Wf() && |mask| == m.width
    requires forall j :: 0 <= j < |mask| ==> mask[j]
    ensures SelectColumns(m, mask) == m
  {
    SelectedAll(mask);
    var r := SelectColumns(m, mask);
    forall i | 0 <= i < |m.rows|
      ensures r.rows[i] == m.rows[i]
    {
    }
  }

  /** Every matrix is well formed with `height` rows. */
  ghost predicate AllOfHeight(ms: seq<Matrix>, height: nat)
  {
    forall i :: 0 <= i < |ms| ==> ms[i].Wf() && |ms[i].rows| == height
  }

  /** `np.concatenate(ms, axis=1)`: the blocks side by side, row by row. */
  function HConcat(ms: seq<Matrix>, height: nat): (r: Matrix)
    requires AllOfHeight(ms, height)
    ensures r.Wf() && |r.rows| == height && r.width == Sum(Widths(ms))
  {
    if ms == [] then Matrix(0, seq(height, _ => []))
    else
      var init := ms[..|ms| - 1];
      var last := ms[|ms| - 1];
      var left := HConcat(init, height);
      assert Widths(ms)[..|ms| - 1] == Widths(init);
      Matrix(left.width + last.width, seq(height, i requires 0 <= i < height => left.rows[i] + last.rows[i]))
  }

  /** Row `i` of a concatenation is row `i` of all but the last block, followed by row `i` of the last. */
  lemma HConcatRow(ms: seq<Matrix>, height: nat, i: nat)
    requires AllOfHeight(ms, height) && ms != [] && i < height
    ensures AllOfHeight(ms[..|ms| - 1], height)
    ensures HConcat(ms, height).rows[i] == HConcat(ms[..|ms| - 1], height).rows[i] + ms[|ms| - 1].rows[i]
    ensures Widths(ms)[..|ms| - 1] == Widths(ms[..|ms| - 1])
  {
  }

  /** Column `j` of block `b` sits at column `Sum(widths before b) + j` of the concatenation. */
  lemma {:induction false} HConcatColumn(ms: seq<Matrix>, height: nat, b: nat, i: nat, j: nat)
    requires AllOfHeight(ms, height)
    requires b < |ms| && i < height && j < ms[b].width
    ensures Sum(Widths(ms)[..b]) + j < HConcat(ms, height).width
    ensures HConcat(ms, height).rows[i][Sum(Widths(ms)[..b]) + j] == ms[b].rows[i][j]
    decreases |ms|
  {
    var n := |ms|;
    var init := ms[..n - 1];
    var w := Widths(ms);
    HConcatRow(ms, height, i);
    var left := HConcat(init, height);
    var row := left.rows[i] + ms[n - 1].rows[i];
    assert |left.rows[i]| == left.width;
    if b < n - 1 {
      assert w[..b] == Widths(init)[..b];
      HConcatColumn(init, height, b, i, j);
      var k := Sum(w[..b]) + j;
      assert row[k] == left.rows[i][k];
    } else {
      assert w[..b] == Widths(init);
      assert row[left.width + j] == ms[b].rows[i][j];
    }
  }
}
