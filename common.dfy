/** Values that cross the components' boundaries. */
module Common {

  /** A JavaScript value that may be `undefined` / `null`. */
  datatype Option<T> = None | Some(value: T)

  /** What a call to the hosted backend hands back to a handler: the rows it
      asked for, or an error (which every handler catches and reports). */
  datatype Fetch<T> = Fetched(data: T) | FetchFailed

}
