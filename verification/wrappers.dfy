/** Failure-carrying result used by the decoder: a malformed stream yields
    `None`, never a partially filled container. */
module Wrappers {

  datatype Option<+T> = None | Some(value: T)
}
