/**
 * Variance components: how `build_variance_components` splits the columns of
 * `Z` by a binary incidence matrix, and the incidence matrix `from_collection`
 * builds for a list of column blocks.
 */
module Components {
  import opened Wrappers
  import opened Matrices
  import opened Terms
  import opened TermStore
  import opened Decimal

  /**
   * A `groups` argument: one row per column of `Z`, one column per component.
   * `labels` are the column names when `groups` is a data frame.
   */
  datatype Groups = Groups(bits: Matrix, labels: Option<seq<string>>)

  /** `groups` has one row per `Z` column, and data-frame labels name every component. */
  ghost predicate GroupsFit(g: Groups, z: Matrix)
  {
    g.bits.Wf() && |g.bits.rows| == z.width && (g.labels.Some? ==> |g.labels.value| == g.bits.width)
  }

  /** Without `groups`, one all-ones column: a single component over every column of `Z`. */
  function EffectiveGroups(z: Matrix, groups: Option<Groups>): (g: Groups)
    ensures groups.None? ==> g.bits.width == 1 && g.labels.None?
  {
    if groups.Some? then groups.value else Groups(Matrix(1, seq(z.width, _ => [1])), None)
  }

  /** `groups[:, i].astype(bool)`: which columns of `Z` belong to component `i`. */
  function GroupMask(bits: Matrix, i: nat): (mask: seq<bool>)
    requires bits.Wf() && i < bits.width
    ensures |mask| == |bits.rows|
  {
    seq(|bits.rows|, j requires 0 <= j < |bits.rows| => bits.rows[j][i] != 0)
  }

  /** `VC0`, `VC1`, ...: the names used when neither `names` nor labelled groups are given. */
  function DefaultNames(n: nat): (names: seq<string>)
    ensures |names| == n
    ensures forall i, j :: 0 <= i < j < n ==> names[i] != names[j]
  {
    SuffixedNamesAllDistinct("VC");
    seq(n, i requires 0 <= i < n => "VC" + NatToString(i))
  }

  /** Explicit `names`, else the labels of a data-frame `groups`, else the default names. */
  function ComponentNames(g: Groups, names: Option<seq<string>>): (r: seq<string>)
    ensures names.Some? ==> r == names.value
    ensures names.None? && g.labels.None? ==> |r| == g.bits.width && forall i, j :: 0 <= i < j < |r| ==> r[i] != r[j]
  {
    if names.Some? then names.value else if g.labels.Some? then g.labels.value else DefaultNames(g.bits.width)
  }

  /** What `build_variance_components` needs of its arguments for its array indexing to succeed. */
  ghost predicate ComponentArgsOk(z: Matrix, groups: Option<Groups>, names: Option<seq<string>>)
  {
    z.Wf() &&
    (groups.Some? ==> GroupsFit(groups.value, z)) &&
    (names.Some? ==> |names.value| >= EffectiveGroups(z, groups).bits.width)
  }

  /** `VarComp(name, Z[:, mask])`, with its index vector. */
  function Component(z: Matrix, bits: Matrix, name: string, i: nat): Term
    requires z.Wf() && bits.Wf() && |bits.rows| == z.width && i < bits.width
  {
    var block := SelectColumns(z, GroupMask(bits, i));
    VarComp(name, block, IndexVec(block))
  }

  /** The components `build_variance_components` adds, in group-column order. */
  function ComponentsOf(z: Matrix, groups: Option<Groups>, names: Option<seq<string>>): (cs: seq<Term>)
    requires ComponentArgsOk(z, groups, names)
    ensures |cs| == EffectiveGroups(z, groups).bits.width
  {
    var g := EffectiveGroups(z, groups);
    var ns := ComponentNames(g, names);
    seq(g.bits.width, i requires 0 <= i < g.bits.width => Component(z, g.bits, ns[i], i))
  }

  /** Without `groups` or `names`: exactly one component, "VC0", holding all of `Z`. */
  lemma NoGroupsGivesOneComponent(z: Matrix)
    requires z.Wf()
    ensures ComponentsOf(z, None, None) == [VarComp("VC0", z, IndexVec(z))]
  {
    var g := EffectiveGroups(z, None);
    var mask := GroupMask(g.bits, 0);
    SelectAllColumns(z, mask);
    assert NatToString(0) == "0";
    assert ComponentNames(g, None)[0] == "VC0";
  }

  /**
   * Component `i` holds exactly the columns of `Z` whose incidence bit in
   * group column `i` is set, in their original order, with their values.
   */
  lemma ComponentHoldsFlaggedColumns(z: Matrix, groups: Option<Groups>, names: Option<seq<string>>, i: nat)
    requires ComponentArgsOk(z, groups, names)
    requires i < EffectiveGroups(z, groups).bits.width
    ensures var bits := EffectiveGroups(z, groups).bits;
      var cols := Selected(GroupMask(bits, i));
      var c := ComponentsOf(z, groups, names)[i];
      c.VarComp? && c.block.width == |cols| && |c.block.rows| == |z.rows| &&
      (forall j :: j in cols <==> 0 <= j < z.width && bits.rows[j][i] != 0) &&
      (forall k, l :: 0 <= k < l < |cols| ==> cols[k] < cols[l]) &&
      (forall r, k :: 0 <= r < |z.rows| && 0 <= k < |cols| ==> c.block.rows[r][k] == z.rows[r][cols[k]])
  {
    SelectedExactly(GroupMask(EffectiveGroups(z, groups).bits, i));
  }

  /** A column of `Z` whose incidence row has no set bit is silently left out of every component. */
  lemma UnflaggedColumnIsDropped(z: Matrix, groups: Option<Groups>, names: Option<seq<string>>, j: nat)
    requires ComponentArgsOk(z, groups, names)
    requires j < z.width
    requires forall i :: 0 <= i < EffectiveGroups(z, groups).bits.width ==> EffectiveGroups(z, groups).bits.rows[j][i] == 0
    ensures forall i :: 0 <= i < EffectiveGroups(z, groups).bits.width ==>
      j !in Selected(GroupMask(EffectiveGroups(z, groups).bits, i))
  {
    var bits := EffectiveGroups(z, groups).bits;
    forall i | 0 <= i < bits.width
      ensures j !in Selected(GroupMask(bits, i))
    {
      SelectedExactly(GroupMask(bits, i));
    }
  }

  /** Components named by default never collide with one another. */
  lemma DefaultNamedComponentsAreUnique(z: Matrix, groups: Option<Groups>)
    requires ComponentArgsOk(z, groups, None)
    requires groups.Some? ==> groups.value.labels.None?
    ensures UniqueNames(ComponentsOf(z, groups, None))
  {
    var cs := ComponentsOf(z, groups, None);
    forall i, j | 0 <= i < j < |cs|
      ensures cs[i].name != cs[j].name
    {
      SuffixedNamesDistinct("VC", i, j);
    }
  }

  /** Column `c` of the concatenated blocks lies in block `i`. */
  predicate InBlock(widths: seq<nat>, i: nat, c: nat)
    requires i < |widths|
  {
    Sum(widths[..i]) <= c < Sum(widths[..i]) + widths[i]
  }

  /**
   * The `groups` matrix of `from_collection`: one row per concatenated column,
   * one column per block, and a 1 exactly where the column lies in the block.
   */
  function GroupIncidence(widths: seq<nat>): (g: Matrix)
    ensures g.Wf() && |g.rows| == Sum(widths) && g.width == |widths|
  {
    Matrix(|widths|, seq(Sum(widths), c requires 0 <= c < Sum(widths) =>
      seq(|widths|, i requires 0 <= i < |widths| => if InBlock(widths, i, c) then 1 else 0)))
  }

  /** The block that a concatenated column comes from. */
  function BlockOf(widths: seq<nat>, c: nat): (i: nat)
    requires c < Sum(widths)
    ensures i < |widths| && InBlock(widths, i, c)
  {
    var n := |widths|;
    var init := widths[..n - 1];
    assert widths[..n] == widths;
    SumPrefixStep(widths, n - 1);
    if c >= Sum(init) then n - 1
    else
      var i := BlockOf(init, c);
      assert init[..i] == widths[..i];
      i
  }

  /** Blocks occupy disjoint column ranges. */
  lemma BlocksAreDisjoint(widths: seq<nat>, i: nat, i': nat, c: nat)
    requires i < |widths| && i' < |widths|
    requires InBlock(widths, i, c) && InBlock(widths, i', c)
    ensures i == i'
  {
    if i < i' {
      SumPrefixStep(widths, i);
      SumPrefixMonotone(widths, i + 1, i');
    } else if i' < i {
      SumPrefixStep(widths, i');
      SumPrefixMonotone(widths, i' + 1, i);
    }
  }

  /** Every concatenated column belongs to exactly one group: the only set bit of its row is its block's. */
  lemma EveryColumnInExactlyOneGroup(widths: seq<nat>, c: nat)
    requires c < Sum(widths)
    ensures forall i :: 0 <= i < |widths| ==>
      (GroupIncidence(widths).rows[c][i] == 1 <==> i == BlockOf(widths, c))
    ensures forall i :: 0 <= i < |widths| ==>
      (GroupIncidence(widths).rows[c][i] == 0 <==> i != BlockOf(widths, c))
  {
    var b := BlockOf(widths, c);
    forall i | 0 <= i < |widths| && InBlock(widths, i, c)
      ensures i == b
    {
      BlocksAreDisjoint(widths, i, b, c);
    }
  }

  /**
   * The incidence loop of `from_collection`: start from zeros and, for block
   * `i`, set rows `c` to `c + width - 1` of column `i`, then advance the
   * running offset `c` by the block's width.
   */
  method BuildGroups(widths: seq<nat>) returns (groups: Matrix)
    ensures groups == GroupIncidence(widths)
  {
    var total := Sum(widths);
    var g := new int[total, |widths|]((_, _) => 0);
    var c := 0;
    assert widths[..|widths|] == widths;
    for i := 0 to |widths|
      invariant c == Sum(widths[..i])
      invariant forall q, j :: 0 <= q < total && 0 <= j < |widths| ==>
        g[q, j] == if j < i && InBlock(widths, j, q) then 1 else 0
    {
      var n := widths[i];
      SumPrefixStep(widths, i);
      SumPrefixMonotone(widths, i + 1, |widths|);
      for r := c to c + n
        invariant forall q, j :: 0 <= q < total && 0 <= j < |widths| ==>
          g[q, j] == if (j < i && InBlock(widths, j, q)) || (j == i && c <= q < r) then 1 else 0
      {
        g[r, i] := 1;
      }
      c := c + n;
    }
    groups := Matrix(|widths|, seq(total, q requires 0 <= q < total reads g =>
      seq(|widths|, j requires 0 <= j < |widths| reads g => g[q, j])));
    var spec := GroupIncidence(widths);
    forall q | 0 <= q < total
      ensures groups.rows[q] == spec.rows[q]
    {
    }
  }
}
