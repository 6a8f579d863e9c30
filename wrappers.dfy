/** An optional value: `None` stands for JavaScript's `undefined` or `null`. */
module Wrappers {

  datatype Option<+T> = None | Some(value: T)

  /** Looks a key up in a dictionary: `Some` of its value, or `None` when it is absent. */
  function Get<K, V>(m: map<K, V>, k: K): Option<V>
  {
    if k in m then Some(m[k]) else None
  }
}
