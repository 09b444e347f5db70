/**
 * The inputs of `GLMMSpec.from_collection`: the variable collection, reduced
 * to what the factory asks of it, the declarative model description, and the
 * constructor arguments the factory derives from the two.
 */
module ModelInputs {
  import opened Wrappers
  import opened Errors
  import opened Matrices
  import opened Terms
  import opened Components

  /**
   * A variable collection as the factory sees it. `select(patterns)` stands for
   * `collection.to_df(collection.match_variables(patterns)).loc[:, names]`,
   * `dummies(name)` for `pd.get_dummies(collection.variables[name].values).values`;
   * `isRunCollection` and `allDense` are the `isinstance` test and `all_dense()`.
   */
  datatype CollectionView = CollectionView(
    isRunCollection: bool,
    allDense: bool,
    nObs: nat,
    select: seq<string> -> Frame,
    dummies: string -> Matrix)
  {
    /** Every block the collection hands out has one row per observation. */
    ghost predicate Wf()
    {
      (forall p :: select(p).Wf() && select(p).nrows == nObs) &&
      (forall v :: dummies(v).Wf() && |dummies(v).rows| == nObs)
    }
  }

  /** One entry of `VarianceComponents`: the `LevelsFrom`, `Levels` and `Name` keys, each possibly absent. */
  datatype VcDescriptor = VcDescriptor(levelsFrom: Option<string>, levels: Option<seq<string>>, name: Option<string>)

  /**
   * The `Model` section: `X` patterns, `VarianceComponents` descriptors and the
   * `Error` dict; an absent key is an empty list or dict, as `model.get` yields.
   */
  datatype ModelDesc = ModelDesc(x: seq<string>, varianceComponents: seq<VcDescriptor>, error: map<string, string>)

  /** The keyword arguments `from_collection` passes to the constructor. */
  datatype SpecArgs = SpecArgs(x: Option<Frame>, z: Option<Matrix>, groups: Option<Groups>, family: Option<string>, link: Option<string>)

  /** The column block of one descriptor: dummies of `LevelsFrom`, else the `Levels` columns. */
  function LevelBlock(c: CollectionView, vc: VcDescriptor): (r: Result<Matrix, Error>)
    requires c.Wf()
    ensures r.Success? ==> r.value.Wf() && |r.value.rows| == c.nObs
    ensures r.Failure? <==> vc.levelsFrom.None? && vc.levels.None?
  {
    if vc.levelsFrom.Some? then Success(c.dummies(vc.levelsFrom.value))
    else if vc.levels.None? then Failure(MissingKey("Levels"))
    else Success(c.select(vc.levels.value).Values())
  }

  /** `done` in front of a successful result; an error passes through. */
  function PrependOk<T>(done: seq<T>, r: Result<seq<T>, Error>): Result<seq<T>, Error>
  {
    if r.Failure? then r else Success(done + r.value)
  }

  /** Prepending twice is prepending the concatenation. */
  lemma PrependOkTwice<T>(done: seq<T>, x: T, r: Result<seq<T>, Error>)
    ensures PrependOk(done, PrependOk([x], r)) == PrependOk(done + [x], r)
  {
    if r.Success? {
      assert done + ([x] + r.value) == (done + [x]) + r.value;
    }
  }

  /** `Z_list`: the blocks of all descriptors in order, or the first `KeyError`. */
  function LevelBlocks(c: CollectionView, vcs: seq<VcDescriptor>): (r: Result<seq<Matrix>, Error>)
    requires c.Wf()
    ensures r.Success? ==> |r.value| == |vcs| && AllOfHeight(r.value, c.nObs)
    decreases |vcs|
  {
    if vcs == [] then Success([])
    else
      match LevelBlock(c, vcs[0])
      case Failure(e) => Failure(e)
      case Success(m) => PrependOk([m], LevelBlocks(c, vcs[1..]))
  }

  /** `[vc['Name'] for vc in vcs]`: every descriptor's `Name`, or a `KeyError`. */
  function ComponentLabelsOf(vcs: seq<VcDescriptor>): (r: Result<seq<string>, Error>)
    ensures r.Success? ==> |r.value| == |vcs| && forall i :: 0 <= i < |vcs| ==> vcs[i].name == Some(r.value[i])
    ensures r.Failure? <==> exists i :: 0 <= i < |vcs| && vcs[i].name.None?
    decreases |vcs|
  {
    if vcs == [] then Success([])
    else if vcs[0].name.None? then Failure(MissingKey("Name"))
    else
      var rest := ComponentLabelsOf(vcs[1..]);
      assert forall i :: 1 <= i < |vcs| ==> vcs[i] == vcs[1..][i - 1];
      PrependOk([vcs[0].name.value], rest)
  }

  /** `error.get(key)`: an empty or absent `Error` section, or a missing key, leaves the argument at `None`. */
  function ErrorField(error: map<string, string>, key: string): (r: Option<string>)
    ensures r.Some? <==> key in error
    ensures r.Some? ==> r.value == error[key]
  {
    if key in error then Some(error[key]) else None
  }

  /**
   * The constructor arguments of `from_collection`, or the error it raises:
   * the sparse check first, then the `Z` blocks, then the component names.
   */
  function SpecArgsOf(c: CollectionView, model: ModelDesc): (r: Result<SpecArgs, Error>)
    requires c.Wf()
    ensures c.isRunCollection && !c.allDense ==> r == Failure(SparseVariables)
    ensures r.Success? && r.value.z.Some? ==> ComponentArgsOk(r.value.z.value, r.value.groups, None)
    ensures r.Success? ==> (r.value.z.Some? <==> model.varianceComponents != [])
  {
    if c.isRunCollection && !c.allDense then Failure(SparseVariables)
    else
      var x := if model.x != [] then Some(c.select(model.x)) else None;
      var family := ErrorField(model.error, "Family");
      var link := ErrorField(model.error, "Link");
      var vcs := model.varianceComponents;
      if vcs == [] then Success(SpecArgs(x, None, None, family, link))
      else
        match LevelBlocks(c, vcs)
        case Failure(e) => Failure(e)
        case Success(blocks) =>
          match ComponentLabelsOf(vcs)
          case Failure(e) => Failure(e)
          case Success(names) =>
            var z := HConcat(blocks, c.nObs);
            var groups := Groups(GroupIncidence(Widths(blocks)), Some(names));
            Success(SpecArgs(x, Some(z), Some(groups), family, link))
  }

  /** Group column `i` of the incidence matrix flags exactly the column range of block `i`. */
  lemma GroupMaskIsInterval(widths: seq<nat>, i: nat)
    requires i < |widths|
    ensures var mask := GroupMask(GroupIncidence(widths), i);
      forall j :: 0 <= j < |mask| ==> (mask[j] <==> Sum(widths[..i]) <= j < Sum(widths[..i]) + widths[i])
  {
  }

  /** Column selection by the mask of block `i` picks exactly the columns of block `i`, in order. */
  lemma BlockColumns(widths: seq<nat>, i: nat)
    requires i < |widths|
    ensures var sel := Selected(GroupMask(GroupIncidence(widths), i));
      |sel| == widths[i] && forall k :: 0 <= k < widths[i] ==> sel[k] == Sum(widths[..i]) + k
  {
    SumPrefixStep(widths, i);
    SumPrefixMonotone(widths, i + 1, |widths|);
    assert widths[..|widths|] == widths;
    GroupMaskIsInterval(widths, i);
    SelectedInterval(GroupMask(GroupIncidence(widths), i), Sum(widths[..i]), widths[i]);
  }

  /**
   * Component `i` of the concatenated blocks, split by the incidence matrix
   * built for them, is exactly block `i`.
   */
  lemma BlockComponentIsBlock(blocks: seq<Matrix>, height: nat, i: nat)
    requires AllOfHeight(blocks, height) && i < |blocks|
    ensures var z := HConcat(blocks, height);
      var bits := GroupIncidence(Widths(blocks));
      |bits.rows| == z.width && i < bits.width &&
      SelectColumns(z, GroupMask(bits, i)) == blocks[i]
  {
    var z := HConcat(blocks, height);
    var w := Widths(blocks);
    var mask := GroupMask(GroupIncidence(w), i);
    var lo := Sum(w[..i]);
    BlockColumns(w, i);
    var cols := Selected(mask);
    var sel := SelectColumns(z, mask);
    assert sel.width == blocks[i].width;
    forall r | 0 <= r < height
      ensures sel.rows[r] == blocks[i].rows[r]
    {
      forall k | 0 <= k < w[i]
        ensures sel.rows[r][k] == blocks[i].rows[r][k]
      {
        assert cols[k] == lo + k;
        HConcatColumn(blocks, height, i, r, k);
      }
    }
  }

  /**
   * Descriptor `i` of the model becomes component `i`, named by its `Name`
   * and holding exactly its own column block.
   */
  lemma DescriptorBecomesComponent(c: CollectionView, model: ModelDesc, i: nat)
    requires c.Wf()
    requires SpecArgsOf(c, model).Success?
    requires i < |model.varianceComponents|
    ensures var a := SpecArgsOf(c, model).value;
      var vc := model.varianceComponents[i];
      var blocks := LevelBlocks(c, model.varianceComponents);
      a.z.Some? && vc.name.Some? && blocks.Success? &&
      i < |ComponentsOf(a.z.value, a.groups, None)| &&
      ComponentsOf(a.z.value, a.groups, None)[i] == VarComp(vc.name.value, blocks.value[i], IndexVec(blocks.value[i]))
  {
    var vcs := model.varianceComponents;
    var blocks := LevelBlocks(c, vcs).value;
    BlockComponentIsBlock(blocks, c.nObs, i);
  }
}
