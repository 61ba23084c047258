/** Failure-carrying values shared by every module of the model. */
module Wrappers {

  /** A possibly absent value: JavaScript's `undefined`/`null` versus a value. */
  datatype Option<+T> = None | Some(value: T) {

    /** The value, or `default` when absent (JavaScript's `??`). */
    function GetOr(default: T): T {
      match this
      case Some(v) => v
      case None => default
    }
  }
}
