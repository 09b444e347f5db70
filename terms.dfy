/**
 * `Term` and `VarComp`: one fixed predictor or one variance-component block,
 * and the dummy-to-index compression a `VarComp` computes on construction.
 */
module Terms {
  import opened Matrices

  /** A named data-frame column with its dtype name; cell contents are abstracted to integers. */
  datatype Column = Column(name: string, dtype: string, data: seq<int>)

  /** A data frame: its row count and its columns in order. */
  datatype Frame = Frame(nrows: nat, columns: seq<Column>)
  {
    predicate Wf()
    {
      forall k :: 0 <= k < |columns| ==> |columns[k].data| == nrows
    }

    /** `df.values`: the frame as a matrix, one matrix column per frame column. */
    function Values(): (m: Matrix)
      requires Wf()
      ensures m.Wf() && |m.rows| == nrows && m.width == |columns|
    {
      Matrix(|columns|, seq(nrows, r requires 0 <= r < nrows => seq(|columns|, k requires 0 <= k < |columns| => columns[k].data[r])))
    }
  }

  /** The dtype names `build_fixed_terms` treats as categorical. */
  predicate IsCategoricalDType(dtype: string)
  {
    dtype in {"str", "category", "object"}
  }

  datatype Term =
    /** A `Term`: a fixed predictor holding one column. */
    | FixedTerm(name: string, values: seq<int>, categorical: bool)
    /** A `VarComp`: a block of dummy columns with its index vector; always categorical. */
    | VarComp(name: string, block: Matrix, indexVec: seq<nat>)
  {
    predicate IsCategorical()
    {
      VarComp? || categorical
    }

    /** A `VarComp` holds a rectangular block and the index vector its constructor computes from it. */
    ghost predicate Wf()
    {
      VarComp? ==> block.Wf() && indexVec == IndexVec(block)
    }
  }

  /** The fixed term `build_fixed_terms` makes from one column. */
  function TermOfColumn(col: Column): Term
  {
    FixedTerm(col.name, col.data, IsCategoricalDType(col.dtype))
  }

  /**
   * The index one row compresses to: 0 when no entry is 1, otherwise one plus
   * the largest column holding a 1 (later columns overwrite earlier ones).
   */
  function LastOne(row: seq<int>): (v: nat)
    ensures v <= |row|
  {
    if row == [] then 0
    else if row[|row| - 1] == 1 then |row|
    else LastOne(row[..|row| - 1])
  }

  /** Entry 0 means the row holds no 1; otherwise the entry names the last column holding a 1. */
  lemma {:induction false} LastOneIsLastWrite(row: seq<int>)
    ensures LastOne(row) == 0 <==> forall j :: 0 <= j < |row| ==> row[j] != 1
    ensures LastOne(row) > 0 ==> row[LastOne(row) - 1] == 1 && forall j :: LastOne(row) <= j < |row| ==> row[j] != 1
  {
    if row != [] && row[|row| - 1] != 1 {
      var init := row[..|row| - 1];
      LastOneIsLastWrite(init);
      assert forall j :: 0 <= j < |init| ==> row[j] == init[j];
    }
  }

  /** The index vector of a dummy block, one entry per row. */
  function IndexVec(dummies: Matrix): (v: seq<nat>)
    requires dummies.Wf()
    ensures |v| == |dummies.rows|
    ensures forall r :: 0 <= r < |v| ==> v[r] <= dummies.width
  {
    seq(|dummies.rows|, r requires 0 <= r < |dummies.rows| => LastOne(dummies.rows[r]))
  }

  /** Row `r` of a dummy block compresses to 0 when it has no 1, else to one plus its last column holding a 1. */
  lemma IndexVecRow(dummies: Matrix, r: nat)
    requires dummies.Wf() && r < |dummies.rows|
    ensures IndexVec(dummies)[r] <= dummies.width
    ensures IndexVec(dummies)[r] == 0 <==> forall j :: 0 <= j < dummies.width ==> dummies.rows[r][j] != 1
    ensures IndexVec(dummies)[r] > 0 ==>
      dummies.rows[r][IndexVec(dummies)[r] - 1] == 1 &&
      forall j :: IndexVec(dummies)[r] <= j < dummies.width ==> dummies.rows[r][j] != 1
  {
    LastOneIsLastWrite(dummies.rows[r]);
  }

  lemma DummiesToVecExample()
    ensures IndexVec(Matrix(2, [[1, 0], [0, 1], [1, 0], [0, 0]])) == [1, 2, 1, 0]
  {
  }

  /** Extending a row prefix by column `i` overwrites the index exactly when that entry is 1. */
  lemma LastOneStep(row: seq<int>, i: nat)
    requires i < |row|
    ensures LastOne(row[..i + 1]) == if row[i] == 1 then i + 1 else LastOne(row[..i])
  {
    assert row[..i + 1][..i] == row[..i];
  }

  /**
   * `VarComp.dummies_to_vec`: start from zeros and, column by column, write
   * `i + 1` into every row whose column `i` is 1.
   */
  method DummiesToVec(dummies: Matrix) returns (vec: seq<nat>)
    requires dummies.Wf()
    ensures vec == IndexVec(dummies)
  {
    var n := |dummies.rows|;
    var v := new nat[n](_ => 0);
    for i := 0 to dummies.width
      invariant forall r :: 0 <= r < n ==> v[r] == LastOne(dummies.rows[r][..i])
    {
      for r := 0 to n
        invariant forall q :: 0 <= q < r ==> v[q] == LastOne(dummies.rows[q][..i + 1])
        invariant forall q :: r <= q < n ==> v[q] == LastOne(dummies.rows[q][..i])
      {
        LastOneStep(dummies.rows[r], i);
        if dummies.rows[r][i] == 1 {
          v[r] := i + 1;
        }
      }
    }
    forall r | 0 <= r < n
      ensures v[r] == LastOne(dummies.rows[r])
    {
      assert dummies.rows[r][..dummies.width] == dummies.rows[r];
    }
    vec := v[..];
  }
}
