# Model design of the BIDS statistical-model layer, in Dafny

This project models `bids/analysis/model_design.py` from pybids, the module that
turns a BIDS-StatsModels description into a model specification. It covers four pieces:

- **`TransformerManager`** is a registry of named transformation handlers and a
  dispatcher. The dispatcher walks a list of transformation specs in order,
  looks up each name, and applies the handler to a variable collection.
  "And" and "Or" are reserved words, so names are sanitised to "And_" and "Or_".
- **The `GLMMSpec` term store** is an insertion-ordered dictionary of uniquely
  named terms. It has three ways of adding terms:
  - `add_term` adds one term and raises on a name already present;
  - `build_fixed_terms` adds one fixed term per column of a frame;
  - `build_variance_components` splits the columns of `Z` into variance
    components by a binary incidence matrix.
  The `fixed_terms` and `variance_components` views split the store by kind, and
  the `Z` property lays the components side by side with "<name>.<j>" column labels.
- **`GLMMSpec.from_collection`** refuses a run collection that holds a sparse
  variable. Otherwise it gathers one column block per variance-component
  descriptor and concatenates the blocks. It then builds an incidence matrix
  that gives block `i` its own contiguous column range, and calls the constructor.
- **`VarComp.dummies_to_vec`** compresses a dummy-coded block to an index
  vector by column-by-column overwriting, so the last write wins.

Modules, one per file:

- `Wrappers` (`Option`, `Result`)
- `Errors` (the exceptions raised)
- `Transformers` (the registry and dispatcher)
- `Matrices` (integer matrices, boolean column selection, horizontal concatenation)
- `Decimal` (the `'{}'.format(i)` rendering of counters)
- `Terms` (`Term`, `VarComp`, `dummies_to_vec`)
- `TermStore` (the term store as a value, its views and the `Z` labels)
- `Components` (splitting `Z` into components, and the incidence matrix of `from_collection`)
- `ModelInputs` (the collection, the model description and the constructor arguments derived from them)
- `Glmm` (the `GLMMSpec` class)

Some parts update state in place. `register`, `add_term`, `build_fixed_terms`,
`build_variance_components` and `transform` are methods of the `GLMMSpec` and
`TransformerManager` classes that change the object's fields. The loops of
`transform`, the building methods, the constructor, `from_collection` (its
block and name loops and the incidence loop) and `dummies_to_vec` are `while`
or `for` loops with invariants. Each method is proved against a specification
function, and the properties are proved about that function as lemmas.

Exceptions are modelled as `Result`/`Option` error values:
- `KeyError` for a missing `Name` or `Levels` key
- `ValueError` for an unknown transformation, a duplicate term, a sparse collection, or `Z` blocks of different heights
- `AttributeError` in `build_fixed_terms` when a column label names several columns

Python's `terms` dictionary, `{}` and ordered, becomes a sequence of terms with unique names.

## Model

| member | source | states |
|---|---|---|
| Transformers.SanitizeName | bids/analysis/model_design.py:39-41 | the sanitised name is never "And" or "Or", and a name is kept as it is exactly when it is not one of those two |
| Transformers.SanitizeNameCases | bids/analysis/model_design.py:39-41 | "And" becomes "And_", "Or" becomes "Or_", every other name is unchanged; the result is never reserved and sanitising twice changes nothing |
| Transformers.SanitizeNameCollisions | bids/analysis/model_design.py:39-41 | two names share a registry slot exactly when they are equal or one is the sanitised form of the other ("And"/"And_", "Or"/"Or_") |
| Transformers.TransformerManager.constructor | bids/analysis/model_design.py:23-28 | the registry starts empty; a missing default object is replaced by the built-in transformations |
| Transformers.TransformerManager.Register | bids/analysis/model_design.py:43-54 | the handler is stored under the sanitised name, overwriting an earlier entry; every other key keeps its handler and no key appears or disappears |
| Transformers.TransformerManager.Transform | bids/analysis/model_design.py:56-80 | the collection receives exactly the invocations of `Run`, in order, and the same collection is returned; the first missing `Name` or unresolvable name raises after the effects of the specs before it |
| Transformers.VariableCollection.constructor | bids/analysis/model_design.py:56-65 | a collection starts with no transformation applied to it |
| Transformers.Run | bids/analysis/model_design.py:66-80 | as written, the walk raises only the `KeyError` of a spec without `Name` or the `ValueError` of a sanitised name in neither the registry nor the default object |
| Transformers.RunIntended | bids/analysis/model_design.py:66-80 | with the intended dispatch, the walk raises only those two errors, and a walk that raises nothing invokes one handler per spec |
| Transformers.RunInOrder | bids/analysis/model_design.py:66-80 | specs are processed strictly in list order: walking `a + b` is walking `a` and then `b` |
| Transformers.RunFailsIffUnresolvable | bids/analysis/model_design.py:66-78 | `transform` raises exactly when some spec has no name or a sanitised name in neither the registry nor the default object |
| Transformers.OnlyDefaultHandlersRun | bids/analysis/model_design.py:72-79 | as written, every invoked handler is the default object's handler for a name the registry lacks, and at most one handler runs per spec |
| Transformers.RegisteredSpecsNeverRun | bids/analysis/model_design.py:72-79 | as written, a walk over registered names only invokes nothing and raises nothing |
| Transformers.RegisteredHandlerIsSkipped | bids/analysis/model_design.py:72-79 | counterexample: a handler registered for "And" is found by a spec named "And" and is not invoked |
| Transformers.IntendedInvokesEveryResolved | bids/analysis/model_design.py:71-79 | with the intended dispatch (registry first, then the default object, always invoke), every spec's resolved handler is invoked once, in order |
| Transformers.RegisteredHandlerIsInvokedWhenIntended | bids/analysis/model_design.py:72-79 | with the intended dispatch, the registered "And" handler is invoked exactly once with the spec's input and options |
| Transformers.RunMatchesIntendedWithoutRegistered | bids/analysis/model_design.py:72-79 | when no spec names a registered handler, the code as written and the intended dispatch behave identically |
| Decimal.ParseNatToString | bids/analysis/model_design.py:186 | the decimal rendering of a counter reads back as that counter |
| Decimal.SuffixedNamesDistinct | bids/analysis/model_design.py:186 | names made of one prefix and two different counters differ |
| Terms.LastOne | bids/analysis/model_design.py:337 | a row compresses to a value between 0 and its number of columns |
| Terms.LastOneIsLastWrite | bids/analysis/model_design.py:335-337 | a row compresses to 0 exactly when it holds no 1, otherwise to one plus the position of its last 1 |
| Terms.IndexVec | bids/analysis/model_design.py:335-338 | one entry per row of the block, each between 0 and the block's width |
| Terms.IndexVecRow | bids/analysis/model_design.py:335-338 | entry `r` is 0 iff row `r` has no 1, else `k + 1` for the largest column `k` of row `r` holding a 1 |
| Terms.DummiesToVecExample | bids/analysis/model_design.py:335-338 | [[1,0],[0,1],[1,0],[0,0]] compresses to [1,2,1,0] |
| Terms.DummiesToVec | bids/analysis/model_design.py:327-338 | the column-by-column overwriting loop returns exactly the index vector |
| TermStore.AddAll | bids/analysis/model_design.py:206-209 | a series of `add_term` calls only appends, stores every new term when nothing is raised, and raises only the duplicate-term error, leaving at least the offending term out |
| TermStore.AddOne | bids/analysis/model_design.py:206-209 | `add_term` on a present name raises and leaves the terms unchanged; otherwise it appends exactly that term last and names stay unique |
| TermStore.AddAllAppends | bids/analysis/model_design.py:198-209 | a series of `add_term` calls keeps names unique, only appends, appends all the new terms in order when nothing is raised, and a raised error names a stored term |
| TermStore.AddAllFailsIffDuplicate | bids/analysis/model_design.py:206-209 | a series of `add_term` calls raises exactly when the old and new names together are not unique |
| TermStore.FixedTerms | bids/analysis/model_design.py:232-235 | `fixed_terms` holds only fixed terms, each of them stored |
| TermStore.VarianceComponents | bids/analysis/model_design.py:237-240 | `variance_components` holds only variance components, each of them stored |
| TermStore.ViewsPreserveOrder | bids/analysis/model_design.py:232-240 | `fixed_terms` and `variance_components` keep insertion order: the view of a concatenation is the concatenation of the views |
| TermStore.ViewsPartitionTerms | bids/analysis/model_design.py:232-240 | the two views together hold every term exactly as often as the store does |
| TermStore.ComponentLabels | bids/analysis/model_design.py:228-229 | one label per column of the component, each starting with the component's name and a dot |
| TermStore.ComponentLabelsDistinct | bids/analysis/model_design.py:228-229 | the labels of one component's columns are pairwise distinct |
| TermStore.ZLabels | bids/analysis/model_design.py:225-229 | `Z` has as many labels as the components have columns in total |
| TermStore.ZLabelAt | bids/analysis/model_design.py:225-230 | column `j` of component `b` is labelled "<name>.<j>" and sits right after the columns of the components before it |
| TermStore.StoredBlocksWf | bids/analysis/model_design.py:219-230 | every variance component of a store of well-formed terms has a rectangular block, so the `Z` property applies to any store the class can hold |
| TermStore.ZDesign | bids/analysis/model_design.py:219-230 | `Z` raises exactly when the components' blocks differ in height; otherwise it is absent exactly when there are no variance components, and else well formed with one label per column and as many columns as the components have in total |
| Matrices.SelectedExactly | bids/analysis/model_design.py:193 | a boolean index keeps exactly the columns whose bit is set, in strictly increasing order |
| Matrices.SelectAllColumns | bids/analysis/model_design.py:193 | selecting with all bits set returns the matrix unchanged |
| Matrices.SelectedInterval | bids/analysis/model_design.py:292-294 | a mask flagging exactly `[lo, lo + w)` selects `lo, lo + 1, ..., lo + w - 1` |
| Matrices.HConcat | bids/analysis/model_design.py:289 | the concatenation is well formed, as tall as the blocks, and as wide as their widths together |
| Matrices.HConcatColumn | bids/analysis/model_design.py:289 | column `j` of block `b` is column `Sum(widths before b) + j` of the concatenation |
| Components.EffectiveGroups | bids/analysis/model_design.py:180-181 | without `groups`, a single all-ones column, unlabelled |
| Components.GroupMask | bids/analysis/model_design.py:193 | one flag per row of `groups`, that is per column of `Z` |
| Components.DefaultNames | bids/analysis/model_design.py:184-186 | `n` default names, pairwise distinct |
| Components.ComponentNames | bids/analysis/model_design.py:184-186 | explicit `names` take precedence; without `names` or data-frame labels, one distinct default name per group column |
| Components.ComponentsOf | bids/analysis/model_design.py:180-196 | one component per column of the incidence matrix |
| Components.NoGroupsGivesOneComponent | bids/analysis/model_design.py:180-196 | without `groups` and `names`, exactly one component "VC0" holding all of `Z` and its index vector |
| Components.ComponentHoldsFlaggedColumns | bids/analysis/model_design.py:192-196 | component `i` holds exactly the columns of `Z` whose bit in group column `i` is set, in original order, with their values |
| Components.UnflaggedColumnIsDropped | bids/analysis/model_design.py:192-196 | a column of `Z` with no set bit appears in no component |
| Components.DefaultNamedComponentsAreUnique | bids/analysis/model_design.py:184-186 | the default names "VC0", "VC1", ... never collide |
| Components.GroupIncidence | bids/analysis/model_design.py:289-295 | the incidence matrix has one row per concatenated column and one column per block |
| Components.BlockOf | bids/analysis/model_design.py:289-295 | every concatenated column lies in some block's column range |
| Components.BlocksAreDisjoint | bids/analysis/model_design.py:289-295 | block column ranges are disjoint |
| Components.EveryColumnInExactlyOneGroup | bids/analysis/model_design.py:289-295 | the row of every concatenated column has a 1 exactly in its own block's group column and 0 elsewhere |
| Components.BuildGroups | bids/analysis/model_design.py:289-295 | the zero-initialised matrix filled with the running offset `c` equals the incidence matrix |
| ModelInputs.LevelBlock | bids/analysis/model_design.py:281-287 | a descriptor's block has one row per observation; it is missing exactly when both `LevelsFrom` and `Levels` are absent |
| ModelInputs.LevelBlocks | bids/analysis/model_design.py:278-287 | on success, one block per descriptor, all of one height |
| ModelInputs.ComponentLabelsOf | bids/analysis/model_design.py:296 | on success, exactly the descriptors' `Name`s in order; it fails exactly when some descriptor has no `Name` |
| ModelInputs.ErrorField | bids/analysis/model_design.py:301-304 | `family` or `link` is passed exactly when the `Error` section holds that key, and then with its value |
| ModelInputs.SpecArgsOf | bids/analysis/model_design.py:258-306 | a sparse run collection raises; a `Z` is passed exactly when there are descriptors, and then with a fitting `groups` |
| ModelInputs.BlockColumns | bids/analysis/model_design.py:289-295 | the group column of block `i` selects exactly the columns of block `i`'s range, in order |
| ModelInputs.BlockComponentIsBlock | bids/analysis/model_design.py:289-296 | splitting the concatenation by the incidence matrix gives back block `i` as component `i` |
| ModelInputs.DescriptorBecomesComponent | bids/analysis/model_design.py:275-306 | descriptor `i` becomes component `i`, named by its `Name` and holding exactly its own block |
| Glmm.FixedTermsOf | bids/analysis/model_design.py:157-162 | one fixed term per column |
| Glmm.FirstRepeated | bids/analysis/model_design.py:157-159 | the first column, from a given one on, whose label names another column too, or the column count when there is none |
| Glmm.NoRepeatedLabel | bids/analysis/model_design.py:157-159 | with pairwise distinct labels no column selection is ambiguous |
| Glmm.BuildFixedFailsIffDuplicate | bids/analysis/model_design.py:157-162 | `build_fixed_terms` keeps names unique, raises exactly when the stored names and the column labels together are not unique, and otherwise appends every column's term |
| Glmm.BuildFixedTermsAppendsColumns | bids/analysis/model_design.py:157-162 | on distinct new column names, one fixed term per column is appended in column order, named after the column, holding its data, categorical exactly for str, category and object |
| Glmm.BuildFixedTermsRejectsStoredColumn | bids/analysis/model_design.py:157-162 | a column whose label is already stored makes `build_fixed_terms` raise; with distinct labels the error is the duplicate-term error for a name stored before the call |
| Glmm.AddAllDuplicateIsStored | bids/analysis/model_design.py:206-209 | when the new names are pairwise distinct, a rejected name was stored before the series and belongs to one of the new terms |
| Glmm.BuildFixedTwiceRaises | bids/analysis/model_design.py:157-162 | calling `build_fixed_terms` a second time on the same non-empty frame raises the duplicate-term error for its first column and changes nothing |
| Glmm.BuildFixedTermsRejectsRepeatedColumn | bids/analysis/model_design.py:157-162 | a label on two columns raises before the first of them is stored; the error is a duplicate term or the ambiguous first repeated column; when column 0 repeats, the ambiguous-column error is raised with the store unchanged |
| Glmm.FixedStepAfter | bids/analysis/model_design.py:139-140 | after earlier steps that raised exactly on non-unique names, the fixed step does the same for the names with the frame's labels appended |
| Glmm.ConstructorSequence | bids/analysis/model_design.py:136-142 | given terms, then the fixed terms, then any components: names stay unique, the run raises exactly when all their names together are not unique, and otherwise keeps them in that order |
| Glmm.Populate | bids/analysis/model_design.py:136-142 | the constructor's terms have unique names; it raises exactly when the given, fixed and component names collide, and otherwise keeps them in that order |
| Glmm.CollectBlocks | bids/analysis/model_design.py:276-287 | the `Z_list` loop returns exactly the blocks of `LevelBlocks` or its `KeyError` |
| Glmm.CollectNames | bids/analysis/model_design.py:296 | the name comprehension returns exactly `ComponentLabelsOf` |
| Glmm.GLMMSpec.constructor | bids/analysis/model_design.py:126-131 | an empty store with the given family and link |
| Glmm.GLMMSpec.AddTerm | bids/analysis/model_design.py:198-209 | raises on a present name with the terms unchanged, otherwise appends the term; names stay unique and every stored `VarComp` keeps the index vector of its block |
| Glmm.GLMMSpec.BuildFixedTerms | bids/analysis/model_design.py:147-162 | the store ends as `BuildFixed` describes: the columns are added in order, stopping at the first duplicate name or at the first column whose label is repeated |
| Glmm.GLMMSpec.BuildVarianceComponents | bids/analysis/model_design.py:164-196 | the store ends as `AddAll` of the components describes, stopping at the first duplicate |
| Glmm.GLMMSpec.Create | bids/analysis/model_design.py:126-142 | a fresh specification holding exactly `Populate`'s terms, or `Populate`'s error |
| Glmm.GLMMSpec.FromCollection | bids/analysis/model_design.py:242-306 | a sparse run collection raises before anything is built; otherwise the result is the constructor applied to `SpecArgsOf`, or the first `KeyError` |

## Left out

- The pandas and numpy machinery (DataFrame construction, dtype objects, `pd.get_dummies`) is abstracted away. Matrices are integer sequences; cell values other than the 0/1 tests of `dummies_to_vec` are opaque integers.
- The variable collection (`match_variables`, `to_df`, `variables[...]`, `all_dense`, the `isinstance` test) is a given value: `CollectionView` supplies the selected frame for a pattern list and the dummy block for a variable. The collection classes are not part of this model.
- Transformation handlers and the `hasattr`/`getattr` reflection: the default object is a finite map from names to opaque handlers, and invoking a handler appends a record to the collection. What a handler does to the variables is not modelled.
- Transformers.TransformerManager.Register: registering `None` as a handler is not modelled. With `None`, the source would fall back to the default object.
- The `X` property (lines 211-217) is not modelled. It passes one list to `zip` without unpacking it, so it cannot build the intended matrix. Fixed-term order is stated through `fixed_terms` instead.
- `sigma`, `priors`, `set_priors`, `Term.prior`, `Term.metadata` and the `ModelSpec` base class carry no behaviour and are left out.
- Glmm.GLMMSpec.BuildVarianceComponents: shape mismatches that numpy would raise on are preconditions, not modelled errors. These are a `groups` whose row count is not the column count of `Z`, and a `names` list shorter than the number of groups.
- Glmm.GLMMSpec.FromCollection: blocks of different heights, which would make `np.concatenate` raise, are excluded by `CollectionView.Wf`.
- Glmm.GLMMSpec.BuildVarianceComponents follows the code, not the docstring. The docstring (lines 172-175) gives `groups` the dimension n_rows(Z) x k, but lines 181 and 193 index it by the columns of `Z`.
- Glmm.GLMMSpec.AddTerm requires a well-formed term: a `VarComp` must carry the index vector of its block. The `VarComp` constructor (lines 323-325) always computes it, so no caller can pass anything else.
- Glmm.GLMMSpec.Create requires the given terms to be well formed, for the same reason.
- TermStore.ZDesign requires every component block to be rectangular, as every numpy array is. `TermStore.StoredBlocksWf` shows that any store the class holds meets this.
- The `AttributeError` of a repeated column label is modelled as `AmbiguousColumn` carrying that label; the Python message names the missing `dtype` attribute instead.
- Transformers.TransformerManager.Transform models `transform` as written, so registered handlers are skipped (see Findings). No other part of the model calls it; the corrected dispatch is `RunIntended`.

## Findings

| source | as written | input that shows it | evidently intended | confidence | as-written member | corrected member |
|---|---|---|---|---|---|---|
| bids/analysis/model_design.py:72-79 | the call `func(collection, cols, **kwargs)` is indented inside `if func is None:`, so a handler found in the registry is looked up and never invoked | a manager with a handler registered as "And" and the spec list `[{'Name': 'And'}]`: `transform` returns without invoking anything | invoke the handler whether it came from the registry or from the default object | high (not executed) | Transformers.RegisteredHandlerIsSkipped | Transformers.RegisteredHandlerIsInvokedWhenIntended |
