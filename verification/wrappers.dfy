/** Optional values, standing in for the `null`/`undefined` results of the
    DOM queries and for the parsers' "absent" results. */
module Wrappers {

  datatype Option<+T> = None | Some(value: T) {

    /** Returns the value in Some, or the given default when None */
    function GetOr(default: T): T {
      match this
      case Some(v) => v
      case None => default
    }
  }

  /** What a block's `decorate` did to its block: left it as it was, threw
      before touching it, or replaced its content by a rendered value. */
  datatype Outcome<+T> = Unchanged | Threw | Rendered(value: T)
}
