/** Failure-compatible option type used for nullable cells and for
    operations that raise in the original program. */
module Wrappers {

  /** `None` stands for a null / NaN value, or for a call that raised. */
  datatype Option<+T> = None | Some(value: T) {

    /** The wrapped value, or `default` when there is none (pandas `fillna`). */
    function GetOr(default: T): T {
      match this
      case Some(v) => v
      case None => default
    }
  }
}
