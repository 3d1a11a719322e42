/** Optional values and results with an error, as the rest of the model uses them. */
module Wrappers {

  /** A value that may be absent: Python's `None` or a value. */
  datatype Option<+T> = None | Some(value: T)

  /** The outcome of a step that can fail with an uncaught exception. */
  datatype Result<+R, +E> = Success(value: R) | Failure(error: E)
}

/** The fatal faults that end a visit of the spider without a record. */
module Failures {

  datatype ScrapeError =
    | NoBusinessId                 // `occurrences[0]` on an empty list (IndexError)
    | ApiNotSubscriptable          // `api_info[key]` on a truthy value that is not a dict (TypeError)
    | ApiKeyMissing(key: string)   // `api_info[key]` on a dict without that key (KeyError)
    | ReadMoreHeaderOutOfRange     // `list(data.keys())[index]` past the last header (IndexError)
}
