/**
 * `GLMMSpec`: the mixed-model specification, an insertion-ordered store of
 * uniquely named terms, filled by `add_term`, `build_fixed_terms`,
 * `build_variance_components`, the constructor and `from_collection`.
 */
module Glmm {
  import opened Wrappers
  import opened Errors
  import opened Matrices
  import opened Terms
  import opened TermStore
  import opened Components
  import opened ModelInputs

  /** The fixed terms `build_fixed_terms` makes from a frame, one per column in column order. */
  function FixedTermsOf(x: Frame): (ts: seq<Term>)
    ensures |ts| == |x.columns|
  {
    seq(|x.columns|, i requires 0 <= i < |x.columns| => TermOfColumn(x.columns[i]))
  }

  /** The label of column `i` also names another column, so `X.loc[:, col]` selects a frame, not one column. */
  predicate Repeated(cols: seq<Column>, i: nat)
    requires i < |cols|
  {
    exists j :: 0 <= j < |cols| && j != i && cols[j].name == cols[i].name
  }

  /** The first column from `i` on whose label is repeated, or `|cols|` when there is none. */
  function FirstRepeated(cols: seq<Column>, i: nat): (k: nat)
    requires i <= |cols|
    ensures i <= k <= |cols|
    ensures forall m :: i <= m < k ==> !Repeated(cols, m)
    ensures k < |cols| ==> Repeated(cols, k)
    decreases |cols| - i
  {
    if i == |cols| then i
    else if Repeated(cols, i) then i
    else FirstRepeated(cols, i + 1)
  }

  /**
   * `build_fixed_terms` on a store: the columns before the first repeated label
   * are added in order, stopping at a duplicate name; if none clashes and a
   * repeated label follows, reading that column's dtype raises.
   */
  function BuildFixed(terms: seq<Term>, x: Frame): Added
  {
    var k := FirstRepeated(x.columns, 0);
    var a := AddAll(terms, FixedTermsOf(x)[..k]);
    if a.error.None? && k < |x.columns| then Added(a.terms, Some(AmbiguousColumn(x.columns[k].name))) else a
  }

  /** Without repeated labels `build_fixed_terms` is `add_term` on each column's term in order. */
  lemma NoRepeatedLabel(x: Frame)
    requires forall i, j :: 0 <= i < j < |x.columns| ==> x.columns[i].name != x.columns[j].name
    ensures FirstRepeated(x.columns, 0) == |x.columns|
  {
    forall m | 0 <= m < |x.columns|
      ensures !Repeated(x.columns, m)
    {
      forall j | 0 <= j < |x.columns| && j != m
        ensures x.columns[j].name != x.columns[m].name
      {
        if j < m {
          assert x.columns[j].name != x.columns[m].name;
        }
      }
    }
  }

  /**
   * `build_fixed_terms` raises exactly when the stored names and the column
   * labels together are not unique; otherwise it appends every column's term.
   */
  lemma BuildFixedFailsIffDuplicate(terms: seq<Term>, x: Frame)
    requires UniqueNames(terms)
    ensures var r := BuildFixed(terms, x);
      UniqueNames(r.terms) &&
      (r.error.None? <==> UniqueNames(terms + FixedTermsOf(x))) &&
      (r.error.None? ==> r.terms == terms + FixedTermsOf(x))
  {
    var news := FixedTermsOf(x);
    var k := FirstRepeated(x.columns, 0);
    AddAllAppends(terms, news[..k]);
    if k == |x.columns| {
      assert news[..k] == news;
      AddAllFailsIffDuplicate(terms, news);
    } else {
      var j :| 0 <= j < |x.columns| && j != k && x.columns[j].name == x.columns[k].name;
      var all := terms + news;
      assert all[|terms| + j].name == all[|terms| + k].name;
    }
  }

  /**
   * On a frame whose column names are distinct and new, `build_fixed_terms`
   * appends one fixed term per column, in column order, named after the column,
   * holding its data, and categorical exactly for str, category and object dtypes.
   */
  lemma BuildFixedTermsAppendsColumns(terms: seq<Term>, x: Frame)
    requires UniqueNames(terms)
    requires forall i, j :: 0 <= i < j < |x.columns| ==> x.columns[i].name != x.columns[j].name
    requires forall i :: 0 <= i < |x.columns| ==> !HasName(terms, x.columns[i].name)
    ensures var r := BuildFixed(terms, x);
      r.error.None? && |r.terms| == |terms| + |x.columns| && r.terms[..|terms|] == terms &&
      forall i :: 0 <= i < |x.columns| ==>
        r.terms[|terms| + i].FixedTerm? &&
        r.terms[|terms| + i].name == x.columns[i].name &&
        r.terms[|terms| + i].values == x.columns[i].data &&
        (r.terms[|terms| + i].IsCategorical() <==> x.columns[i].dtype in {"str", "category", "object"})
  {
    var all := terms + FixedTermsOf(x);
    assert UniqueNames(all) by {
      forall i, j | 0 <= i < j < |all|
        ensures all[i].name != all[j].name
      {
        if j >= |terms| && i < |terms| {
          assert all[j].name == x.columns[j - |terms|].name;
        }
      }
    }
    BuildFixedFailsIffDuplicate(terms, x);
  }

  /**
   * A column whose label is already stored makes `build_fixed_terms` raise, in
   * particular the second call on one frame; with distinct labels the error is
   * the duplicate-term error for a name stored before the call.
   */
  lemma BuildFixedTermsRejectsStoredColumn(terms: seq<Term>, x: Frame, i: nat)
    requires UniqueNames(terms)
    requires i < |x.columns| && HasName(terms, x.columns[i].name)
    ensures BuildFixed(terms, x).error.Some?
    ensures (forall m, n :: 0 <= m < n < |x.columns| ==> x.columns[m].name != x.columns[n].name) ==>
      BuildFixed(terms, x).error.value.DuplicateTerm? && HasName(terms, BuildFixed(terms, x).error.value.name)
  {
    var all := terms + FixedTermsOf(x);
    var p :| 0 <= p < |terms| && terms[p].name == x.columns[i].name;
    assert all[p].name == all[|terms| + i].name;
    BuildFixedFailsIffDuplicate(terms, x);
    if forall m, n :: 0 <= m < n < |x.columns| ==> x.columns[m].name != x.columns[n].name {
      NoRepeatedLabel(x);
      assert FixedTermsOf(x)[..|x.columns|] == FixedTermsOf(x);
      AddAllDuplicateIsStored(terms, FixedTermsOf(x));
    }
  }

  /**
   * When the new names are pairwise distinct, the name a series of `add_term`
   * calls rejects was stored before the series and belongs to one of the new terms.
   */
  lemma {:induction false} AddAllDuplicateIsStored(terms: seq<Term>, news: seq<Term>)
    requires forall m, n :: 0 <= m < n < |news| ==> news[m].name != news[n].name
    ensures var r := AddAll(terms, news);
      r.error.Some? ==> r.error.value.DuplicateTerm? && HasName(terms, r.error.value.name) &&
                        exists k :: 0 <= k < |news| && news[k].name == r.error.value.name
    decreases |news|
  {
    if news != [] && !HasName(terms, news[0].name) {
      var rest := news[1..];
      AddAllDuplicateIsStored(terms + [news[0]], rest);
      var r := AddAll(terms + [news[0]], rest);
      if r.error.Some? {
        var k :| 0 <= k < |rest| && rest[k].name == r.error.value.name;
        assert news[k + 1].name == r.error.value.name;
        var q :| 0 <= q < |terms + [news[0]]| && (terms + [news[0]])[q].name == r.error.value.name;
        assert q < |terms|;
        assert terms[q].name == r.error.value.name;
      }
    }
  }

  /** Running `build_fixed_terms` twice on a frame with a column raises the duplicate error on the first column the second time, changing nothing. */
  lemma BuildFixedTwiceRaises(terms: seq<Term>, x: Frame)
    requires UniqueNames(terms) && |x.columns| > 0
    ensures var a := BuildFixed(terms, x);
      a.error.None? ==> BuildFixed(a.terms, x) == Added(a.terms, Some(DuplicateTerm(x.columns[0].name)))
  {
    var news := FixedTermsOf(x);
    var k := FirstRepeated(x.columns, 0);
    var a := BuildFixed(terms, x);
    BuildFixedFailsIffDuplicate(terms, x);
    if a.error.None? {
      assert k == |x.columns|;
      assert a.terms[|terms|] == news[0];
      assert HasName(a.terms, news[0].name);
    }
  }

  /**
   * A label on two columns makes `build_fixed_terms` raise before storing the
   * first of them; when that is the first column, the error is the ambiguous
   * column and the store is left as it was.
   */
  lemma BuildFixedTermsRejectsRepeatedColumn(terms: seq<Term>, x: Frame, i: nat, j: nat)
    requires UniqueNames(terms)
    requires i < j < |x.columns| && x.columns[i].name == x.columns[j].name
    ensures FirstRepeated(x.columns, 0) <= i
    ensures var r := BuildFixed(terms, x);
      r.error.Some? && r.terms <= terms + FixedTermsOf(x)[..i] &&
      (r.error.value.DuplicateTerm? || r.error.value == AmbiguousColumn(x.columns[FirstRepeated(x.columns, 0)].name))
    ensures i == 0 ==> BuildFixed(terms, x) == Added(terms, Some(AmbiguousColumn(x.columns[0].name)))
  {
    var news := FixedTermsOf(x);
    var k := FirstRepeated(x.columns, 0);
    assert Repeated(x.columns, i);
    assert k <= i;
    AddAllAppends(terms, news[..k]);
    assert (terms + news[..i])[..|terms| + k] == terms + news[..k];
    if i == 0 {
      assert news[..k] == [];
    }
  }

  /** The fixed terms the constructor builds: those of `X`, or none without it. */
  function FixedPart(x: Option<Frame>): seq<Term>
  {
    if x.Some? then FixedTermsOf(x.value) else []
  }

  /** `build_fixed_terms(X)` after earlier steps, skipped once one of them raised or without `X`. */
  function FixedStep(a: Added, x: Option<Frame>): Added
  {
    if a.error.Some? || x.None? then a else BuildFixed(a.terms, x.value)
  }

  /** The fixed step after a run that raised exactly on non-unique `base`, and otherwise kept `base`. */
  lemma FixedStepAfter(a: Added, base: seq<Term>, x: Option<Frame>)
    requires UniqueNames(a.terms)
    requires a.error.None? <==> UniqueNames(base)
    requires a.error.None? ==> a.terms == base
    ensures var b := FixedStep(a, x);
      UniqueNames(b.terms) &&
      (b.error.None? <==> UniqueNames(base + FixedPart(x))) &&
      (b.error.None? ==> b.terms == base + FixedPart(x))
  {
    if a.error.None? && x.Some? {
      BuildFixedFailsIffDuplicate(base, x.value);
    } else {
      UniqueNamesOfPrefix(base, FixedPart(x));
      assert base + [] == base;
    }
  }

  /** The variance components the constructor builds: those of `Z` split by `groups`, or none without `Z`. */
  function ComponentPart(z: Option<Matrix>, groups: Option<Groups>): seq<Term>
    requires z.Some? ==> ComponentArgsOk(z.value, groups, None)
  {
    if z.Some? then ComponentsOf(z.value, groups, None) else []
  }

  /**
   * The constructor's three batches, with any list of components as the last:
   * names stay unique, and the run raises exactly when the names of the three
   * together are not unique, otherwise keeping all of them in order.
   */
  lemma ConstructorSequence(initial: seq<Term>, x: Option<Frame>, cs: seq<Term>)
    ensures var a := Then(FixedStep(AddAll([], initial), x), cs);
      UniqueNames(a.terms) &&
      (a.error.None? ==> a.terms == initial + FixedPart(x) + cs) &&
      (a.error.None? <==> UniqueNames(initial + FixedPart(x) + cs))
  {
    var first := AddAll([], initial);
    AddAllFailsIffDuplicate([], initial);
    AddAllAppends([], initial);
    assert [] + initial == initial;
    FixedStepAfter(first, initial, x);
    var b := FixedStep(first, x);
    ThenStep(b, initial + FixedPart(x), cs);
    AddAllAppends(b.terms, cs);
  }

  /**
   * The constructor's sequence: the given terms, then the fixed terms of `X`,
   * then the variance components of `Z`, stopping at the first error.
   */
  function Populate(initial: seq<Term>, x: Option<Frame>, z: Option<Matrix>, groups: Option<Groups>): (a: Added)
    requires z.Some? ==> ComponentArgsOk(z.value, groups, None)
    ensures UniqueNames(a.terms)
    ensures a.error.None? ==> a.terms == initial + FixedPart(x) + ComponentPart(z, groups)
    ensures a.error.None? <==> UniqueNames(initial + FixedPart(x) + ComponentPart(z, groups))
  {
    var cs := ComponentPart(z, groups);
    ConstructorSequence(initial, x, cs);
    Then(FixedStep(AddAll([], initial), x), cs)
  }

  /** The `Z_list` loop of `from_collection`: one block per descriptor, in order. */
  method CollectBlocks(c: CollectionView, vcs: seq<VcDescriptor>) returns (r: Result<seq<Matrix>, Error>)
    requires c.Wf()
    ensures r == LevelBlocks(c, vcs)
  {
    var zList: seq<Matrix> := [];
    assert vcs[0..] == vcs;
    assert LevelBlocks(c, vcs).Success? ==> [] + LevelBlocks(c, vcs).value == LevelBlocks(c, vcs).value;
    for i := 0 to |vcs|
      invariant LevelBlocks(c, vcs) == PrependOk(zList, LevelBlocks(c, vcs[i..]))
    {
      var vc := vcs[i];
      assert vcs[i..][0] == vc && vcs[i..][1..] == vcs[i + 1..];
      var block: Matrix;
      if vc.levelsFrom.Some? {
        block := c.dummies(vc.levelsFrom.value);
      } else if vc.levels.None? {
        return Failure(MissingKey("Levels"));
      } else {
        var df := c.select(vc.levels.value);
        block := df.Values();
      }
      assert LevelBlock(c, vc) == Success(block);
      PrependOkTwice(zList, block, LevelBlocks(c, vcs[i + 1..]));
      zList := zList + [block];
    }
    assert vcs[|vcs|..] == [] && zList + [] == zList;
    r := Success(zList);
  }

  /** `[vc['Name'] for vc in vcs]`: the component names, or the `KeyError` of the first descriptor without one. */
  method CollectNames(vcs: seq<VcDescriptor>) returns (r: Result<seq<string>, Error>)
    ensures r == ComponentLabelsOf(vcs)
  {
    var names: seq<string> := [];
    assert vcs[0..] == vcs;
    assert ComponentLabelsOf(vcs).Success? ==> [] + ComponentLabelsOf(vcs).value == ComponentLabelsOf(vcs).value;
    for i := 0 to |vcs|
      invariant ComponentLabelsOf(vcs) == PrependOk(names, ComponentLabelsOf(vcs[i..]))
    {
      assert vcs[i..][0] == vcs[i] && vcs[i..][1..] == vcs[i + 1..];
      if vcs[i].name.None? {
        return Failure(MissingKey("Name"));
      }
      PrependOkTwice(names, vcs[i].name.value, ComponentLabelsOf(vcs[i + 1..]));
      names := names + [vcs[i].name.value];
    }
    assert vcs[|vcs|..] == [] && names + [] == names;
    r := Success(names);
  }

  class GLMMSpec {
    /** The terms in insertion order; the dict `terms` keyed by `Term.name`. */
    var terms: seq<Term>
    /** The error-distribution family and link function names. */
    var family: Option<string>
    var link: Option<string>

    /** Names are unique, and every stored `VarComp` carries the index vector of its block. */
    ghost predicate Valid()
      reads this
    {
      UniqueNames(terms) && forall i :: 0 <= i < |terms| ==> terms[i].Wf()
    }

    /** An empty specification. */
    constructor (family: Option<string>, link: Option<string>)
      ensures Valid() && terms == []
      ensures this.family == family && this.link == link
    {
      terms := [];
      this.family := family;
      this.link := link;
    }

    /** `add_term`: raise on a name already present, otherwise append the term. */
    method AddTerm(t: Term) returns (err: Option<Error>)
      requires Valid() && t.Wf()
      modifies this
      ensures Valid() && family == old(family) && link == old(link)
      ensures HasName(old(terms), t.name) ==> err == Some(DuplicateTerm(t.name)) && terms == old(terms)
      ensures !HasName(old(terms), t.name) ==> err.None? && terms == old(terms) + [t]
      ensures Added(terms, err) == AddAll(old(terms), [t])
    {
      AddOne(terms, t);
      if HasName(terms, t.name) {
        return Some(DuplicateTerm(t.name));
      }
      terms := terms + [t];
      err := None;
    }

    /**
     * `build_fixed_terms`: add one fixed term per column of `x`, in column
     * order; a column whose label is repeated raises on reading its dtype.
     */
    method BuildFixedTerms(x: Frame) returns (err: Option<Error>)
      requires Valid()
      modifies this
      ensures Valid() && family == old(family) && link == old(link)
      ensures Added(terms, err) == BuildFixed(old(terms), x)
    {
      var news := FixedTermsOf(x);
      ghost var k := FirstRepeated(x.columns, 0);
      for i := 0 to |x.columns|
        invariant Valid() && family == old(family) && link == old(link)
        invariant i <= k
        invariant AddAll(old(terms), news[..k]) == AddAll(terms, news[i..k])
      {
        var col := x.columns[i];
        if Repeated(x.columns, i) {
          assert i == k && news[i..k] == [];
          return Some(AmbiguousColumn(col.name));
        }
        assert i < k;
        var cat := IsCategoricalDType(col.dtype);
        var t := FixedTerm(col.name, col.data, cat);
        assert news[i..k][0] == t && news[i..k][1..] == news[i + 1..k];
        err := AddTerm(t);
        if err.Some? {
          return;
        }
      }
      assert news[k..k] == [];
      err := None;
    }

    /**
     * `build_variance_components`: for each group column `i`, add a `VarComp`
     * named `names[i]` over the columns of `z` flagged in that group column.
     */
    method BuildVarianceComponents(z: Matrix, groups: Option<Groups>, names: Option<seq<string>>) returns (err: Option<Error>)
      requires Valid() && ComponentArgsOk(z, groups, names)
      modifies this
      ensures Valid() && family == old(family) && link == old(link)
      ensures Added(terms, err) == AddAll(old(terms), ComponentsOf(z, groups, names))
    {
      var g := EffectiveGroups(z, groups);
      var nGrps := g.bits.width;
      var ns := ComponentNames(g, names);
      ghost var news := ComponentsOf(z, groups, names);
      for i := 0 to nGrps
        invariant Valid() && family == old(family) && link == old(link)
        invariant AddAll(old(terms), news) == AddAll(terms, news[i..])
      {
        var zGrp := SelectColumns(z, GroupMask(g.bits, i));
        var vec := DummiesToVec(zGrp);
        var vc := VarComp(ns[i], zGrp, vec);
        assert news[i..][0] == vc && news[i..][1..] == news[i + 1..];
        err := AddTerm(vc);
        if err.Some? {
          return;
        }
      }
      assert news[nGrps..] == [];
      err := None;
    }

    /**
     * The constructor with arguments: add `initial`, then build the fixed terms
     * of `x`, then the variance components of `z` split by `groups`; a duplicate
     * name raises and no specification is returned.
     */
    static method Create(initial: seq<Term>, x: Option<Frame>, z: Option<Matrix>, groups: Option<Groups>,
                         family: Option<string>, link: Option<string>) returns (r: Result<GLMMSpec, Error>)
      requires forall i :: 0 <= i < |initial| ==> initial[i].Wf()
      requires z.Some? ==> ComponentArgsOk(z.value, groups, None)
      ensures var a := Populate(initial, x, z, groups);
        (a.error.Some? ==> r == Failure(a.error.value)) &&
        (a.error.None? ==> r.Success? && fresh(r.value) && r.value.Valid() && r.value.terms == a.terms &&
                           r.value.family == family && r.value.link == link)
    {
      var spec := new GLMMSpec(family, link);
      var err: Option<Error>;
      for i := 0 to |initial|
        invariant fresh(spec) && spec.Valid() && spec.family == family && spec.link == link
        invariant AddAll([], initial) == AddAll(spec.terms, initial[i..])
      {
        assert initial[i..][1..] == initial[i + 1..];
        err := spec.AddTerm(initial[i]);
        if err.Some? {
          return Failure(err.value);
        }
      }
      assert initial[|initial|..] == [];
      ghost var a := Added(spec.terms, None);
      assert a == AddAll([], initial);
      if x.Some? {
        err := spec.BuildFixedTerms(x.value);
        if err.Some? {
          return Failure(err.value);
        }
      }
      ghost var b := Added(spec.terms, None);
      assert b == FixedStep(a, x);
      if z.Some? {
        err := spec.BuildVarianceComponents(z.value, groups, None);
        if err.Some? {
          return Failure(err.value);
        }
      }
      assert Added(spec.terms, None) == Then(b, ComponentPart(z, groups));
      r := Success(spec);
    }

    /**
     * `from_collection`: refuse a sparse run collection before building
     * anything, gather the fixed-effect frame and the `Z` blocks, lay the
     * blocks side by side with an incidence matrix giving each its own
     * column range, and construct the specification.
     */
    static method FromCollection(c: CollectionView, model: ModelDesc) returns (r: Result<GLMMSpec, Error>)
      requires c.Wf()
      ensures c.isRunCollection && !c.allDense ==> r == Failure(SparseVariables)
      ensures SpecArgsOf(c, model).Failure? ==> r == Failure(SpecArgsOf(c, model).error)
      ensures SpecArgsOf(c, model).Success? ==>
        var a := SpecArgsOf(c, model).value;
        var p := Populate([], a.x, a.z, a.groups);
        (p.error.Some? ==> r == Failure(p.error.value)) &&
        (p.error.None? ==> r.Success? && fresh(r.value) && r.value.Valid() && r.value.terms == p.terms &&
                           r.value.family == a.family && r.value.link == a.link)
    {
      if c.isRunCollection && !c.allDense {
        return Failure(SparseVariables);
      }
      var x: Option<Frame> := None;
      if model.x != [] {
        x := Some(c.select(model.x));
      }
      var z: Option<Matrix> := None;
      var groups: Option<Groups> := None;
      var vcs := model.varianceComponents;
      if vcs != [] {
        var blocks := CollectBlocks(c, vcs);
        if blocks.Failure? {
          return Failure(blocks.error);
        }
        var zList := blocks.value;
        var zm := HConcat(zList, c.nObs);
        var bits := BuildGroups(Widths(zList));
        var labels := CollectNames(vcs);
        if labels.Failure? {
          return Failure(labels.error);
        }
        var names := labels.value;
        z := Some(zm);
        groups := Some(Groups(bits, Some(names)));
      }
      var family := ErrorField(model.error, "Family");
      var link := ErrorField(model.error, "Link");
      assert SpecArgsOf(c, model) == Success(SpecArgs(x, z, groups, family, link));
      r := Create([], x, z, groups, family, link);
    }
  }
}
