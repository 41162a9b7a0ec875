/** Option and Result, and the exceptions the backend raises. */
module Wrappers {

  datatype Option<+T> = None | Some(value: T)

  datatype Result<+T, +E> = Ok(value: T) | Err(error: E)

  /** The exception classes the acquisition code distinguishes in its
      `except` clauses. `str(e)` of each is its `message`. */
  datatype Exception =
    | ScraperError(message: string)      // app.services.scrapers.base.ScraperError
    | RequestException(message: string)  // requests.RequestException and its subclasses
    | OtherError(message: string)        // any other Exception (OSError, ValueError, IntegrityError, ...)
}
