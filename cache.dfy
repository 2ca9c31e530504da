/**
 * The Redis client shared by both services: string keys, each holding a value
 * and the expiry it was written with. JSON text is not modelled; a value is
 * what `JSON.parse` would give back.
 */
module Cache {
  import opened Wrappers
  import opened Entities

  /** The expiry, in seconds, that every `set` in the services passes. */
  const Ttl: nat := 3600

  /** The single key of the article list snapshot. */
  const ArticlesKey: string := "articles"

  /** The point key of one account. */
  function UserKey(username: string): (k: string)
    ensures |k| == |username| + 4 && k[..4] == "user" && k[4..] == username
  {
    "user" + username
  }

  /**
   * What a key may hold: the snapshot (an array of article records), or the
   * `{id, username}` record of an account. `password` is what `user.password`
   * reads after parsing: `None` when the record was written without it.
   */
  datatype CacheVal =
    | Articles(items: seq<Article>)
    | UserInfo(id: int, username: string, password: Option<string>)

  datatype Entry = Entry(value: CacheVal, expiry: nat)

  /** Distinct usernames give distinct keys. */
  lemma UserKeyInjective(a: string, b: string)
    requires UserKey(a) == UserKey(b)
    ensures a == b
  {
    assert a == UserKey(a)[4..] && b == UserKey(b)[4..];
  }

  /** No account key is the snapshot key, so the two services never write each other's keys. */
  lemma UserKeyNotArticlesKey(username: string)
    ensures UserKey(username) != ArticlesKey
  {
    assert UserKey(username)[0] == 'u' != 'a' == ArticlesKey[0];
  }

  /** What `get(key)` yields on `cache`: the stored value, or null. */
  function ValueAt(cache: map<string, Entry>, key: string): (v: Option<CacheVal>)
    ensures v.Some? <==> key in cache
    ensures v.Some? ==> v.value == cache[key].value
  {
    if key in cache then Some(cache[key].value) else None
  }

  class RedisCache {
    var entries: map<string, Entry>

    constructor ()
      ensures entries == map[]
    {
      entries := map[];
    }

    /** `get`: the value under `key`, or null. */
    method Get(key: string) returns (v: Option<CacheVal>)
      ensures v == ValueAt(entries, key)
    {
      if key in entries {
        v := Some(entries[key].value);
      } else {
        v := None;
      }
    }

    /** `set(key, value, 'EX', expiry)`: overwrites `key` and no other. */
    method Set(key: string, value: CacheVal, expiry: nat)
      modifies this
      ensures entries == old(entries)[key := Entry(value, expiry)]
    {
      entries := entries[key := Entry(value, expiry)];
    }
  }
}
