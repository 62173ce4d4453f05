/** Small datatypes shared by the other modules. */
module Wrappers {

  /** A value that may be absent: what `init_contract` returns, or the reason
      `main` stops early, when there is one. */
  datatype Option<T> = None | Some(value: T)
}
