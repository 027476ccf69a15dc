/** Optional values and command results shared by every module of the model. */
module Wrappers {

  /** A value that may be missing: the model's stand-in for Java's `null`. */
  datatype Option<+T> = None | Some(value: T)

  /** Outcome of a command: a new state, or the message the command printed
      before returning without changing anything. */
  datatype Result<+R, +E> = Success(value: R) | Failure(error: E) {

    /** The successful value, or `default` when the command reported an error. */
    function GetOr(default: R): R {
      match this
      case Success(v) => v
      case Failure(_) => default
    }
  }

  /** The value `m` holds for `k`, or None: Java's `Map.get`. */
  function Lookup<K, V>(m: map<K, V>, k: K): (r: Option<V>)
    ensures r.Some? <==> k in m
    ensures r.Some? ==> r.value == m[k]
  {
    if k in m then Some(m[k]) else None
  }
}
