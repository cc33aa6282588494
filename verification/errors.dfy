/** The failures the table helpers can raise, as values. */
module Errors {

  /** What the table library raises for bad input: a column name the table does
      not have, a column whose values must be hashed but include a list (the
      `TypeError` pandas raises for an unhashable cell), a grouping request
      with no grouping columns, or a cause label with no space to split on. */
  datatype Error =
    | MissingColumn(name: string)
    | Unhashable(name: string)
    | NoGroupKeys
    | NoSeparator

  /** Either the helper's result or the error it raises. */
  datatype Result<T> = Ok(value: T) | Err(error: Error)
}
