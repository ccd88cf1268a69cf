/** Optional values, fallible results, map lookup and the walk of an unordered map, shared by every component. */
module Options {
  datatype Option<+T> = None | Some(value: T)

  datatype Result<+T, +E> = Ok(value: T) | Err(error: E)

  function Find<K, V>(m: map<K, V>, k: K): Option<V> {
    if k in m then Some(m[k]) else None
  }

  /** The next key of a map that is walked in no particular order. */
  method AnyOf(keys: set<int>) returns (id: int)
    requires keys != {}
    ensures id in keys
  {
    Inhabited(keys);
    id :| id in keys;
  }

  lemma Inhabited(keys: set<int>)
    ensures keys == {} || exists id :: id in keys
  {
    if forall id: int :: id !in keys {
      assert keys == {};
    }
  }
}
