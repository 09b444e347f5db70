/** The exceptions the model-design code raises, as values. */
module Errors {

  datatype Error =
    /** `transform`: a transformation name found neither in the registry nor on the default object. */
    | UnknownTransformation(name: string)
    /** A `KeyError` from a required dictionary key (`Name`, `Levels`). */
    | MissingKey(key: string)
    /** `add_term`: a term with this name is already stored. */
    | DuplicateTerm(name: string)
    /**
     * `build_fixed_terms`: the `AttributeError` raised when a column label names
     * several columns, so that selecting it yields a frame, which has no `dtype`.
     */
    | AmbiguousColumn(name: string)
    /** `from_collection`: a run-level collection holds a sparse variable. */
    | SparseVariables
    /** The `Z` property: `np.concatenate` refuses blocks of different heights with a `ValueError`. */
    | MismatchedHeights
}
