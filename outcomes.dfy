/** Optional values (Java's nullable references) and results of operations
    that can fail (Java's unchecked exceptions that reach the caller). */
module Outcomes {

  /** A value that may be absent; `None` stands for Java's `null`. */
  datatype Option<T> = None | Some(value: T)

  /** The outcome of an operation that either returns a value or fails. */
  datatype Result<T, E> = Ok(value: T) | Err(error: E)

  /** The value stored under `k`, or `d` when there is none (`Map.getOrDefault`). */
  function GetOrDefault<K, V>(m: map<K, V>, k: K, d: V): V
  {
    if k in m then m[k] else d
  }
}
