/**
 * The Doctrine cache the middleware may be given as its `cacheDriver`: a
 * mutable key/value store with `contains`, `fetch` and `save`. Persistence,
 * lifetimes and namespaces are not modelled.
 */
module DoctrineCache {
  import opened PhpRuntime

  class CacheStore {
    var entries: map<string, Value>

    /** `contains($id)` */
    method Contains(key: string) returns (present: bool)
      ensures present <==> key in entries
    {
      present := key in entries;
    }

    /** `fetch($id)`: the stored value, or `false` when there is none. */
    method Fetch(key: string) returns (v: Value)
      ensures key in entries ==> v == entries[key]
      ensures key !in entries ==> v == Bool(false)
    {
      v := if key in entries then entries[key] else Bool(false);
    }

    /** `save($id, $data)`: overwrites the entry under `key`, and nothing else. */
    method Save(key: string, value: Value)
      modifies this
      ensures entries == old(entries)[key := value]
    {
      entries := entries[key := value];
    }
  }
}
