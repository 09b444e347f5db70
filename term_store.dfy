/**
 * The term store of a `GLMMSpec` as a value: an insertion-ordered list of
 * terms whose names are unique (the Python dict `terms`), the duplicate check
 * of `add_term`, the `fixed_terms` / `variance_components` views and the
 * column labels of the `Z` design matrix.
 */
module TermStore {
  import opened Wrappers
  import opened Errors
  import opened Matrices
  import opened Terms
  import opened Decimal

  /** `name in self.terms`. */
  predicate HasName(ts: seq<Term>, name: string)
  {
    exists i :: 0 <= i < |ts| && ts[i].name == name
  }

  /** No two stored terms share a name: the dict's key invariant. */
  ghost predicate UniqueNames(ts: seq<Term>)
  {
    forall i, j :: 0 <= i < j < |ts| ==> ts[i].name != ts[j].name
  }

  /** The terms after a series of `add_term` calls, and the duplicate error that stopped it, if any. */
  datatype Added = Added(terms: seq<Term>, error: Option<Error>)

  /** `add_term` on each of `news` in order; the first duplicate raises and leaves the terms added so far. */
  function AddAll(terms: seq<Term>, news: seq<Term>): (r: Added)
    ensures terms <= r.terms <= terms + news
    ensures r.error.None? ==> r.terms == terms + news
    ensures r.error.Some? ==> r.error.value.DuplicateTerm? && |r.terms| < |terms| + |news|
    decreases |news|
  {
    if news == [] then Added(terms, None)
    else if HasName(terms, news[0].name) then Added(terms, Some(DuplicateTerm(news[0].name)))
    else AddAll(terms + [news[0]], news[1..])
  }

  /** Continue with `news` unless an earlier step already raised. */
  function Then(a: Added, news: seq<Term>): Added
  {
    if a.error.Some? then a else AddAll(a.terms, news)
  }

  /**
   * Adding keeps names unique and only appends: the result lies between the
   * old terms and the old terms followed by every new one, reaches the latter
   * exactly when nothing was raised, and a raised error names a stored term.
   */
  lemma {:induction false} AddAllAppends(terms: seq<Term>, news: seq<Term>)
    requires UniqueNames(terms)
    ensures var r := AddAll(terms, news);
      UniqueNames(r.terms) && terms <= r.terms && r.terms <= terms + news &&
      (r.error.None? ==> r.terms == terms + news) &&
      (r.error.Some? ==> r.error.value.DuplicateTerm? && HasName(r.terms, r.error.value.name))
    decreases |news|
  {
    if news != [] && !HasName(terms, news[0].name) {
      var next := terms + [news[0]];
      assert UniqueNames(next) by {
        forall i, j | 0 <= i < j < |next|
          ensures next[i].name != next[j].name
        {
          if j == |terms| {
            assert next[i] == terms[i];
          }
        }
      }
      AddAllAppends(next, news[1..]);
      assert next + news[1..] == terms + news;
    }
  }

  /** A series of `add_term` calls raises exactly when the names, old and new together, are not unique. */
  lemma {:induction false} AddAllFailsIffDuplicate(terms: seq<Term>, news: seq<Term>)
    requires UniqueNames(terms)
    ensures AddAll(terms, news).error.None? <==> UniqueNames(terms + news)
    decreases |news|
  {
    if news != [] {
      var all := terms + news;
      if HasName(terms, news[0].name) {
        var i :| 0 <= i < |terms| && terms[i].name == news[0].name;
        assert all[i].name == all[|terms|].name;
      } else {
        var next := terms + [news[0]];
        assert UniqueNames(next) by {
          forall i, j | 0 <= i < j < |next|
            ensures next[i].name != next[j].name
          {
            if j == |terms| {
              assert next[i] == terms[i];
            }
          }
        }
        assert next + news[1..] == all;
        AddAllFailsIffDuplicate(next, news[1..]);
      }
    }
  }

  /** Names unique in a concatenation are unique in its first part. */
  lemma UniqueNamesOfPrefix(base: seq<Term>, q: seq<Term>)
    ensures UniqueNames(base + q) ==> UniqueNames(base)
  {
    if UniqueNames(base + q) {
      forall i, j | 0 <= i < j < |base|
        ensures base[i].name != base[j].name
      {
        assert (base + q)[i] == base[i] && (base + q)[j] == base[j];
      }
    }
  }

  /** One more batch after a run that raised exactly on non-unique `base`, and otherwise kept `base`. */
  lemma ThenStep(a: Added, base: seq<Term>, q: seq<Term>)
    requires a.error.None? <==> UniqueNames(base)
    requires a.error.None? ==> a.terms == base
    ensures Then(a, q).error.None? <==> UniqueNames(base + q)
    ensures Then(a, q).error.None? ==> Then(a, q).terms == base + q
  {
    if a.error.None? {
      AddAllFailsIffDuplicate(base, q);
      AddAllAppends(base, q);
    } else {
      UniqueNamesOfPrefix(base, q);
    }
  }

  /** `add_term` on an existing name raises and changes nothing; on a new name it appends that term. */
  lemma AddOne(terms: seq<Term>, t: Term)
    requires UniqueNames(terms)
    ensures HasName(terms, t.name) ==> AddAll(terms, [t]) == Added(terms, Some(DuplicateTerm(t.name)))
    ensures !HasName(terms, t.name) ==> AddAll(terms, [t]) == Added(terms + [t], None) && UniqueNames(terms + [t])
  {
    AddAllAppends(terms, [t]);
  }

  /** The `fixed_terms` property: the terms that are not variance components, in insertion order. */
  function FixedTerms(ts: seq<Term>): (r: seq<Term>)
    ensures forall i :: 0 <= i < |r| ==> r[i].FixedTerm? && r[i] in ts
  {
    if ts == [] then []
    else
      var init := FixedTerms(ts[..|ts| - 1]);
      if ts[|ts| - 1].FixedTerm? then init + [ts[|ts| - 1]] else init
  }

  /** The `variance_components` property: the variance components, in insertion order. */
  function VarianceComponents(ts: seq<Term>): (r: seq<Term>)
    ensures forall i :: 0 <= i < |r| ==> r[i].VarComp? && r[i] in ts
  {
    if ts == [] then []
    else
      var init := VarianceComponents(ts[..|ts| - 1]);
      if ts[|ts| - 1].VarComp? then init + [ts[|ts| - 1]] else init
  }

  /** Both views keep insertion order: the view of a concatenation is the concatenation of the views. */
  lemma {:induction false} ViewsPreserveOrder(a: seq<Term>, b: seq<Term>)
    ensures FixedTerms(a + b) == FixedTerms(a) + FixedTerms(b)
    ensures VarianceComponents(a + b) == VarianceComponents(a) + VarianceComponents(b)
    decreases |b|
  {
    if b == [] {
      assert a + b == a;
    } else {
      var b' := b[..|b| - 1];
      assert (a + b)[..|a + b| - 1] == a + b';
      ViewsPreserveOrder(a, b');
    }
  }

  /** The two views split the terms: together they hold every term exactly as often as the store does. */
  lemma {:induction false} ViewsPartitionTerms(ts: seq<Term>)
    ensures multiset(FixedTerms(ts)) + multiset(VarianceComponents(ts)) == multiset(ts)
    ensures |FixedTerms(ts)| + |VarianceComponents(ts)| == |ts|
  {
    if ts != [] {
      var init := ts[..|ts| - 1];
      var last := ts[|ts| - 1];
      ViewsPartitionTerms(init);
      assert ts == init + [last];
      assert multiset(ts) == multiset(init) + multiset{last};
      if last.FixedTerm? {
        assert FixedTerms(ts) == FixedTerms(init) + [last];
        assert VarianceComponents(ts) == VarianceComponents(init);
      } else {
        assert FixedTerms(ts) == FixedTerms(init);
        assert VarianceComponents(ts) == VarianceComponents(init) + [last];
      }
    }
  }

  /** Every variance component. */
  ghost predicate AllVarComps(ts: seq<Term>)
  {
    forall i :: 0 <= i < |ts| ==> ts[i].VarComp?
  }

  /** The value blocks of a list of variance components. */
  function Blocks(vcs: seq<Term>): (bs: seq<Matrix>)
    requires AllVarComps(vcs)
    ensures |bs| == |vcs| && forall i :: 0 <= i < |vcs| ==> bs[i] == vcs[i].block
  {
    seq(|vcs|, i requires 0 <= i < |vcs| && vcs[i].VarComp? => vcs[i].block)
  }

  /** `'{}.{}'.format(name, j)` for each column `j` of one component. */
  function ComponentLabels(name: string, width: nat): (r: seq<string>)
    ensures |r| == width && forall j :: 0 <= j < width ==> name + "." <= r[j]
  {
    seq(width, j requires 0 <= j < width => name + "." + NatToString(j))
  }

  /** The labels of one component's columns are pairwise distinct. */
  lemma ComponentLabelsDistinct(name: string, width: nat, i: nat, j: nat)
    requires i < j < width
    ensures ComponentLabels(name, width)[i] != ComponentLabels(name, width)[j]
  {
    SuffixedNamesDistinct(name + ".", i, j);
  }

  /** The column labels of `Z`, component after component. */
  function ZLabels(vcs: seq<Term>): (r: seq<string>)
    requires AllVarComps(vcs)
    ensures |r| == Sum(Widths(Blocks(vcs)))
  {
    if vcs == [] then []
    else
      var last := vcs[|vcs| - 1];
      WidthsOfInit(vcs);
      ZLabels(vcs[..|vcs| - 1]) + ComponentLabels(last.name, last.block.width)
  }

  /** The widths of the first `n - 1` components are the first `n - 1` widths. */
  lemma WidthsOfInit(vcs: seq<Term>)
    requires AllVarComps(vcs) && vcs != []
    ensures AllVarComps(vcs[..|vcs| - 1])
    ensures Widths(Blocks(vcs[..|vcs| - 1])) == Widths(Blocks(vcs))[..|vcs| - 1]
  {
  }

  /**
   * `Z` has one label per column of every component: column `j` of component
   * `b` is labelled "<name>.<j>" and sits after the columns of the components
   * before it.
   */
  lemma {:induction false} ZLabelAt(vcs: seq<Term>, b: nat, j: nat)
    requires AllVarComps(vcs)
    requires b < |vcs| && j < vcs[b].block.width
    ensures Sum(Widths(Blocks(vcs))[..b]) + j < |ZLabels(vcs)|
    ensures ZLabels(vcs)[Sum(Widths(Blocks(vcs))[..b]) + j] == vcs[b].name + "." + NatToString(j)
    decreases |vcs|
  {
    var n := |vcs|;
    var init := vcs[..n - 1];
    var last := vcs[n - 1];
    var w := Widths(Blocks(vcs));
    WidthsOfInit(vcs);
    var wi := Widths(Blocks(init));
    var left := ZLabels(init);
    var tail := ComponentLabels(last.name, last.block.width);
    assert ZLabels(vcs) == left + tail;
    if b < n - 1 {
      ZLabelAt(init, b, j);
      assert wi[..b] == w[..b];
    } else {
      assert w[..b] == wi;
      assert tail[j] == vcs[b].name + "." + NatToString(j);
    }
  }

  /** The variance components can be stacked side by side: all blocks are well formed and of one height. */
  ghost predicate Concatenable(vcs: seq<Term>)
  {
    AllVarComps(vcs) && (vcs != [] ==> AllOfHeight(Blocks(vcs), |vcs[0].block.rows|))
  }

  /** Every variance component's block is rectangular, as a numpy array always is. */
  ghost predicate BlocksWf(vcs: seq<Term>)
  {
    forall i :: 0 <= i < |vcs| ==> vcs[i].VarComp? && vcs[i].block.Wf()
  }

  /** A store of well-formed terms meets the precondition of the `Z` property. */
  lemma StoredBlocksWf(ts: seq<Term>)
    requires forall i :: 0 <= i < |ts| ==> ts[i].Wf()
    ensures BlocksWf(VarianceComponents(ts))
  {
    var vcs := VarianceComponents(ts);
    forall i | 0 <= i < |vcs|
      ensures vcs[i].VarComp? && vcs[i].block.Wf()
    {
      var j :| 0 <= j < |ts| && ts[j] == vcs[i];
      assert ts[j].Wf();
    }
  }

  /** A labelled design matrix. */
  datatype Design = Design(columns: seq<string>, values: Matrix)

  /**
   * The `Z` property: absent without variance components; the `ValueError` of
   * `np.concatenate` when their blocks differ in height; otherwise the blocks
   * side by side, labelled "<name>.<j>", with one label per column.
   */
  function ZDesign(ts: seq<Term>): (r: Result<Option<Design>, Error>)
    requires BlocksWf(VarianceComponents(ts))
    ensures r.Failure? <==> !Concatenable(VarianceComponents(ts))
    ensures r.Failure? ==> r.error == MismatchedHeights
    ensures r.Success? ==> (r.value.Some? <==> VarianceComponents(ts) != [])
    ensures r.Success? && r.value.Some? ==>
      |r.value.value.columns| == r.value.value.values.width == Sum(Widths(Blocks(VarianceComponents(ts)))) &&
      r.value.value.values.Wf()
  {
    var vcs := VarianceComponents(ts);
    if vcs == [] then Success(None)
    else if exists i :: 0 <= i < |vcs| && |vcs[i].block.rows| != |vcs[0].block.rows| then Failure(MismatchedHeights)
    else Success(Some(Design(ZLabels(vcs), HConcat(Blocks(vcs), |vcs[0].block.rows|))))
  }
}
