/** Option and Result values used in place of Python's None and raised exceptions. */
module Wrappers {

  datatype Option<+T> = None | Some(value: T)

  /** The exceptions the generator can raise on its own (I/O errors are not modelled). */
  datatype Failure =
    /** `IndexError`: `split(...)[1]` on a string without the separator, or `app_list[-1]` on an empty list. */
    | IndexError(entry: string)
    /** `ValueError`: `list.index` found no matching element. */
    | ValueError

  datatype Result<+T> = Success(value: T) | Fail(failure: Failure)
}
