/** The optional value used wherever the watcher can fail or find nothing. */
module Wrappers {

  /** `None` stands for "not found" or "did not parse". */
  datatype Option<+T> = None | Some(value: T)
}
