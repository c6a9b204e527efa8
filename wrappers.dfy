/** Option and Result values for the lookups and the errors of the script. */
module Wrappers {

  datatype Option<+T> = None | Some(value: T)

  datatype Result<+R, +E> = Success(value: R) | Failure(error: E)

  /** The errors the script can raise. Both are a Python `KeyError`: a field
      missing from a decoded JSON object, or a sender id missing from the
      user table. */
  datatype Error =
    | MissingField(field: string)
    | UnknownUser(id: string)
}
