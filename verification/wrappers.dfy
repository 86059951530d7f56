/** Small failure-compatible datatypes shared by the component models. */
module Wrappers {

  /** A value that may be absent: JavaScript's `null` / `undefined`. */
  datatype Option<+T> = None | Some(value: T)

  /**
   * The outcome of a read against the hosted table store, as the components see it:
   * either an error object, or a `data` payload that may itself be `null`.
   */
  datatype Fetch<+T> = Failed | Loaded(data: Option<T>)

  /** The outcome of a write against the hosted table store. */
  datatype WriteOutcome = WriteOk | WriteError
}
