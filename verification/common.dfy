/**
 * Shared result types. The library signals bad arguments by throwing
 * `IllegalArgumentException`; here each cause is a value of `Error`.
 */
module Common {

  datatype Option<T> = None | Some(value: T)

  /** Why an operation was refused. */
  datatype Error =
    | NegativePageCount      // numberOfPages < 0
    | NonPositiveRowCount    // numberOfRows <= 0
    | NonPositivePageNumber  // a Page built with pageNumber <= 0
    | NegativeButtonIndex    // a button built with index < 0
    | SlotOutOfRange         // the host inventory refuses a slot outside its grid
    | PatternRowMismatch     // border pattern row count differs from the page's
    | PatternColumnMismatch  // a border pattern row is not nine wide
    | MissingPage            // dereferencing a page the registry does not hold

  datatype Result<T> = Ok(value: T) | Err(error: Error)
}
