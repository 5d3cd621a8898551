/** The exceptions the modelled code can raise, one constructor per raise site. */
module Errors {

  datatype Error =
      /** `ValueError` from the comparison scanner; carries the whole offending expression. */
    | InvalidComparison(input: string)
      /** `ValueError` from `float(...)` on the numeric part of a comparison. */
    | NotAFloat(text: string)
      /** `ValueError` from `int(...)` on a slice component. */
    | NotAnInt(text: string)
      /** `ValueError` for a slice argument with more than three components. */
    | BadSlice(input: string)
      /** `KeyError` from the operator dispatch table. */
    | UnknownOperator(op: string)
      /** `KeyError` from selecting a column the frame does not have. */
    | MissingColumn(key: string)
      /**
       * `TypeError` from calling `sections_approx_equal(frame, **{field: value})`: its `operator`
       * argument is missing, or, for the field `aisc_db`, its first argument is given twice.
       */
    | BadApproxArguments
      /** `IndexError` from positional row selection with an index outside the frame. */
    | PositionOutOfBounds
      /** The selection store has never been written (the JSON file does not exist). */
    | StoreMissing
}
