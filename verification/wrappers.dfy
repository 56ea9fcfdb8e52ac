/** Optional values, used for the heartbeat task's instance slot and for
    configuration lookups. */
module Wrappers {

  /** An optional value; `None` stands for a Java `null` reference or an
      absent configuration key. */
  datatype Option<T> = None | Some(value: T) {

    /** The value held, falling back to `fallback` when empty. */
    function GetOr(fallback: T): (r: T)
      ensures r == if Some? then value else fallback
    {
      if None? then fallback else value
    }
  }
}
