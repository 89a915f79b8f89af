/** A value that may be missing: `null` and `undefined` of the program. */
module Options {

  datatype Option<+T> = None | Some(value: T) {
    function UnwrapOr(other: T): T {
      if Some? then value else other
    }
  }

  function Lookup<K, V>(m: map<K, V>, k: K): (v: Option<V>)
    ensures v.Some? <==> k in m
    ensures k in m ==> v == Some(m[k])
  {
    if k in m then Some(m[k]) else None
  }

  /** What the program returns, or the error it throws instead. */
  datatype Result<+T, +E> = Ok(value: T) | Err(error: E)
}
