/** The optional-value datatype used for nullable columns and search results. */
module Wrappers {

  /** Either nothing or a present value; stands in for SQL NULL and Go's "not found". */
  datatype Option<+T> = None | Some(value: T)
}
