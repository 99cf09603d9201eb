/** Kotlin's nullable values (`T?`) and the `?:` fallback. */
module Optional {

  datatype Option<+T> = None | Some(value: T) {

    /** `this ?: fallback` */
    function GetOr(fallback: T): T {
      match this
      case Some(v) => v
      case None => fallback
    }
  }

  /** Looks a key up in a map, absent keys giving `None`. */
  function Lookup<K, V>(m: map<K, V>, k: K): (r: Option<V>)
    ensures r.Some? <==> k in m
    ensures r.Some? ==> r.value == m[k]
  {
    if k in m then Some(m[k]) else None
  }
}
