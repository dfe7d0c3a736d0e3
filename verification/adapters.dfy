/** The three adapters side by side: where they behave alike and where the
    code makes them differ. */
module Adapters {
  import opened CacheBase
  import opened CacheHelper
  import opened ExpiringStore
  import Memory = MemoryCacheService
  import Redis = RedisCacheService
  import Memcached = MemcachedCacheService

  /** An ExpirationType value outside the two named members is refused by all
      three adapters for a valid key, and none of them writes anything. */
  lemma UnknownKindRefusedEverywhere<V, T>(m: Memory.Service<V>, r: Redis.Service, c: Memcached.Service<V>,
                                           codec: Redis.Codec<T>, text: string, item: V, json: T,
                                           expiration: nat, kind: ExpirationType)
    requires ValidateKey(Key(text)).Ok? && !IsDefined(kind)
    ensures Memory.SetWithExpirationType(m, Key(text), item, expiration, kind)
            == Step(Err(UnsupportedExpirationKind(Code(kind))), m)
    ensures Redis.SetWithExpirationType(r, codec, Key(text), json, expiration, kind)
            == Step(Err(UnsupportedExpirationKind(Code(kind))), r)
    ensures Memcached.SetWithExpirationType(c, text, item, expiration, kind)
            == Step(Err(UnsupportedExpirationKind(Code(kind))), c)
  {
  }

  /** A blank key (empty or white space only) is refused by the in-memory and
      Redis adapters before anything else, even with an unknown kind, while
      the Memcached adapter passes it to the client, which in this model
      stores it. */
  lemma BlankKeysReachOnlyMemcached<V, T>(m: Memory.Service<V>, r: Redis.Service, c: Memcached.Service<V>,
                                          codec: Redis.Codec<T>, text: string, item: V, json: T,
                                          expiration: nat, kind: ExpirationType)
    requires forall i :: 0 <= i < |text| ==> IsWhiteSpace(text[i])
    ensures Memory.SetWithExpirationType(m, Key(text), item, expiration, kind) == Step(Err(InvalidKey), m)
    ensures Redis.SetWithExpirationType(r, codec, Key(text), json, expiration, kind) == Step(Err(InvalidKey), r)
    ensures IsDefined(kind) ==>
              && Memcached.SetWithExpirationType(c, text, item, expiration, kind).result == Ok(())
              && text in Memcached.SetWithExpirationType(c, text, item, expiration, kind).next.client.entries
    ensures Memory.Get(m, Key(text)).result == Err(InvalidKey) && Redis.Get(r, codec, Key(text)) == Err(InvalidKey)
    ensures Memcached.Get(c, text).Ok?
  {
  }

  /** Only the in-memory adapter gives Sliding a meaning of its own: there it
      records a window and no deadline, where Absolute records a deadline and
      no window; the other two write the same entry for both kinds. */
  lemma OnlyMemoryDistinguishesSliding<V, T>(m: Memory.Service<V>, r: Redis.Service, c: Memcached.Service<V>,
                                             codec: Redis.Codec<T>, text: string, item: V, json: T,
                                             expiration: nat)
    requires ValidateKey(Key(text)).Ok?
    ensures var absolute := Memory.SetWithExpirationType(m, Key(text), item, expiration, Absolute).next.cache;
            var sliding := Memory.SetWithExpirationType(m, Key(text), item, expiration, Sliding).next.cache;
            expiration > 0 ==>
            && absolute.entries[text] == Entry(item, Some(m.cache.now + expiration), None, m.cache.now)
            && sliding.entries[text] == Entry(item, None, Some(expiration), m.cache.now)
    ensures Redis.SetWithExpirationType(r, codec, Key(text), json, expiration, Sliding)
            == Redis.SetWithExpirationType(r, codec, Key(text), json, expiration, Absolute)
    ensures Memcached.SetWithExpirationType(c, text, item, expiration, Sliding)
            == Memcached.SetWithExpirationType(c, text, item, expiration, Absolute)
  {
  }
}
