/** Shared value types. */
module Common {
  datatype Option<+T> = None | Some(value: T)

  function Find<K(==), V>(m: map<K, V>, k: K): Option<V> {
    if k in m then Some(m[k]) else None
  }
}
