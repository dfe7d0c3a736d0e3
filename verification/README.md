# CacheLibrary adapters in Dafny

CacheLibrary puts one caching contract, `ICacheBase`, in front of three
stores: the process-local `IMemoryCache`, a Redis database and a Memcached
client. This project models the policy layer of the three adapters:

- the key check `CacheHelper.ValidateKey`;
- the `ExpirationType` enum, including the out-of-range values a C# enum can hold;
- how each adapter turns an expiration and a kind into a store write;
- the four operations of each adapter: `SetAsync` (three overloads),
  `GetAsync`, `ContainsAsync` and `RemoveAsync`.

Each backing client is modelled as an immutable store (`ExpiringStore.Store`):
a map from key to entry plus a clock counting .NET ticks. An entry holds its
value, an optional absolute deadline, an optional sliding window and the
instant it was last accessed. It is live while neither limit has run out.

These are assumptions about the clients, not promises of this code:

- `IMemoryCache.TryGetValue` restarts the sliding window of a live entry.
- Redis `GET`/`EXISTS` and Memcached `get` leave the time-to-live alone.
- Memcached `GetAsync<T>` always answers with a result object.
- The Memcached server accepts every store: `StoreAsync` never answers "not stored".
- The Memcached client's transcoder hands back exactly the object that was
  stored, with nothing lost on the way.
- The JSON serializer is an abstract codec (`RedisCacheService.Codec`).
- Where a proof needs the serializer to read back what it wrote, the lemma
  takes that as a hypothesis (`RoundTrips`).

Each adapter is a set of pure functions. Every operation returns its result
and the adapter afterwards (`CacheBase.Step`). Exceptions become `Err`
values, and an absent key reads as `None`, which stands for C#'s `default`.

Modules:

- `CacheBase` holds the shared vocabulary.
- `CacheHelper` holds the key check.
- `ExpiringStore` is the client model.
- `MemoryCacheService`, `RedisCacheService` and `MemcachedCacheService` are the three adapters.
- `Adapters` compares the three adapters.

The model follows the code in two places a reader might not expect:

- `MemcachedCacheService` never calls `ValidateKey`. Blank and empty keys go to
  the client (`Adapters.BlankKeysReachOnlyMemcached`).
- In-memory `ContainsAsync` uses the same `TryGetValue` lookup as `GetAsync`.
  So it refreshes sliding entries too (`MemoryCacheService.ContainsActsLikeGet`).

## Model

| member | source | states |
|---|---|---|
| CacheBase.FromCode | Interfaces/ICacheBase.cs:67-79 | the enum has exactly two named members, Absolute (0) and Sliding (1); every other int is an out-of-range value, and the cast is inverted by the underlying value |
| CacheBase.DefaultTimeout | Services/MemoryCacheService.cs:21 | an absent DefaultTimeout setting gives 10 minutes, a present one gives its own value |
| CacheHelper.AllWhiteSpace | Helper/CacheHelper.cs:13 | the white-space scan is true exactly when every character is white space |
| CacheHelper.ValidateKey | Helper/CacheHelper.cs:11-17 | fails with InvalidKey exactly for null, empty and all-white-space keys, accepts any key with a non-white-space character, and has no other outcome |
| CacheHelper.ValidateKeyExamples | Helper/CacheHelper.cs:13-16 | null, "" and " \t\r\n" are refused; "  a" is accepted |
| MemoryCacheService.Create | Services/MemoryCacheService.cs:18-22 | the default expiration is 10 minutes when the configuration key is absent |
| MemoryCacheService.GetMemoryCacheOption | Services/MemoryCacheService.cs:113-129 | Absolute sets only the absolute expiration relative to now, Sliding only the sliding window; any other value fails with the out-of-range error; a zero duration of a named kind is refused by the options setter |
| MemoryCacheService.Contains | Services/MemoryCacheService.cs:29-33 | an invalid key fails with nothing changed; otherwise true exactly when a live entry exists, no key's visible contents change, and every other key keeps exactly its entry (value, deadline, window, last access) |
| MemoryCacheService.Get | Services/MemoryCacheService.cs:41-46 | an invalid key fails with nothing changed; otherwise the live value, or None (default) for an absent or expired key, without error, and every other key keeps exactly its entry (value, deadline, window, last access) |
| MemoryCacheService.Remove | Services/MemoryCacheService.cs:53-58 | an invalid key fails with nothing changed; otherwise succeeds whether or not the key existed, the key is gone, and every other key keeps exactly its entry (value, deadline, window, last access) |
| MemoryCacheService.SetWithExpirationType | Services/MemoryCacheService.cs:95-101 | key validated first, then kind, then a zero expiration is refused; every refusal leaves the cache unchanged; with a positive expiration Absolute stores a deadline `expiration` ticks from now and no window, Sliding a window of `expiration` and no deadline; the item is then readable and every other key keeps exactly its entry (value, deadline, window, last access) |
| MemoryCacheService.SetWithExpiration | Services/MemoryCacheService.cs:80-83 | stores the item with an absolute deadline `expiration` ticks from now and no sliding window; a zero expiration is refused with the cache unchanged |
| MemoryCacheService.Set | Services/MemoryCacheService.cs:67-70 | stores the item with an absolute deadline the default number of minutes from now; a configured default of zero is refused with the cache unchanged |
| MemoryCacheService.ZeroExpirationKeepsEntry | Services/MemoryCacheService.cs:98-99 | a SetAsync with zero expiration fails before the cache is written, so the entry stored earlier is still what GetAsync returns |
| MemoryCacheService.OverloadsDelegate | Services/MemoryCacheService.cs:67-83 | the two shorter overloads equal the four-argument SetAsync with Absolute, the shortest using the default minutes |
| MemoryCacheService.SetThenGet | Services/MemoryCacheService.cs:95-101 | after a successful SetAsync with positive expiration, GetAsync returns the stored item |
| MemoryCacheService.ReadsLeaveOtherKeysAlone | Services/MemoryCacheService.cs:29-46 | GetAsync and ContainsAsync refresh only the key they read: at any later instant every other key reads exactly as it would have without the call |
| MemoryCacheService.ContainsActsLikeGet | Services/MemoryCacheService.cs:29-46 | ContainsAsync leaves the cache exactly as GetAsync does, sliding refresh included, and is true exactly when GetAsync finds a value |
| MemoryCacheService.RemoveIdempotent | Services/MemoryCacheService.cs:53-58 | removing a key twice has the same result and effect as removing it once |
| MemoryCacheService.AbsoluteExpiryIgnoresReads | Interfaces/ICacheBase.cs:69-72 | after a successful SetAsync with Absolute, a read at instant t sees the item exactly when t is before write time plus expiration, however many reads came before |
| MemoryCacheService.SlidingExpiryFollowsReads | Interfaces/ICacheBase.cs:74-78 | after a successful SetAsync with Sliding, a read sees the item exactly when every gap between successive accesses so far was shorter than the expiration |
| RedisCacheService.Create | Services/RedisCacheService.cs:19-23 | the default expiration is 10 minutes when the configuration key is absent |
| RedisCacheService.Contains | Services/RedisCacheService.cs:30-34 | an invalid key fails; otherwise the database's key-exists answer, i.e. whether a live entry exists |
| RedisCacheService.Get | Services/RedisCacheService.cs:42-47 | an invalid key fails; no stored string gives None (default); a stored string that decodes to v gives Some(v), a JSON null gives None, and an undecodable one gives DeserializationFailed, distinct from absence |
| RedisCacheService.Remove | Services/RedisCacheService.cs:54-58 | an invalid key fails with nothing changed; otherwise the key is gone, every other key keeps exactly its entry (value, deadline, window, last access), and no sliding entry appears |
| RedisCacheService.SetWithExpirationType | Services/RedisCacheService.cs:95-108 | key validated first; for Absolute or Sliding the serialized item replaces any previous value with time-to-live `expiration` and no sliding window; another kind fails and nothing is written; for a valid key every other key keeps exactly its entry (value, deadline, window, last access) |
| RedisCacheService.SetWithExpiration | Services/RedisCacheService.cs:80-83 | stores the serialized item with time-to-live `expiration` |
| RedisCacheService.Set | Services/RedisCacheService.cs:67-70 | stores the serialized item with a time-to-live of the default minutes |
| RedisCacheService.OverloadsDelegate | Services/RedisCacheService.cs:67-83 | the two shorter overloads equal the four-argument SetAsync with Absolute, the shortest using the default minutes |
| RedisCacheService.SlidingIsAbsolute | Services/RedisCacheService.cs:99-104 | Sliding and Absolute produce the identical write |
| RedisCacheService.SetThenGet | Services/RedisCacheService.cs:95-108 | with a serializer that reads back what it writes, GetAsync after a successful SetAsync with positive expiration returns the item |
| RedisCacheService.SlidingExpiresLikeAbsolute | Interfaces/ICacheBase.cs:74-77 | on Redis a Sliding entry is seen at instant t exactly when t is before write time plus expiration: reads do not extend it |
| RedisCacheService.RemoveIdempotent | Services/RedisCacheService.cs:54-58 | removing twice equals removing once, and ContainsAsync is false afterwards |
| MemcachedCacheService.Create | Services/MemcachedCacheService.cs:18-22 | the default expiration is 10 minutes when the configuration key is absent |
| MemcachedCacheService.ContainsAsWritten | Services/MemcachedCacheService.cs:29-33 | ContainsAsync as written compares the read's result object with null and so answers true for every key |
| MemcachedCacheService.Contains | Services/MemcachedCacheService.cs:29-33 | corrected ContainsAsync: true exactly when a live entry exists; never fails, for any key |
| MemcachedCacheService.Get | Services/MemcachedCacheService.cs:41-45 | never fails, for any key; the stored value when the read has one, otherwise None (default) |
| MemcachedCacheService.Remove | Services/MemcachedCacheService.cs:52-55 | any key goes to the client with no check; afterwards it is gone and every other key keeps exactly its entry (value, deadline, window, last access) |
| MemcachedCacheService.SetWithExpirationType | Services/MemcachedCacheService.cs:92-103 | no key check; Absolute or Sliding store the item unconditionally with time-to-live `expiration`; another kind fails before the client is called; every other key keeps exactly its entry (value, deadline, window, last access) |
| MemcachedCacheService.SetWithExpiration | Services/MemcachedCacheService.cs:77-80 | stores the item with time-to-live `expiration` |
| MemcachedCacheService.Set | Services/MemcachedCacheService.cs:64-67 | stores the item with a time-to-live of the default minutes |
| MemcachedCacheService.OverloadsDelegate | Services/MemcachedCacheService.cs:64-80 | the two shorter overloads equal the four-argument SetAsync with Absolute, the shortest using the default minutes |
| MemcachedCacheService.SlidingIsAbsolute | Services/MemcachedCacheService.cs:94-99 | Sliding and Absolute produce the identical store call |
| MemcachedCacheService.SetThenGet | Services/MemcachedCacheService.cs:92-103 | after SetAsync with positive expiration, GetAsync returns the item: the adapter passes the key to the client, which in this model stores it and hands back the stored object |
| MemcachedCacheService.SlidingExpiresLikeAbsolute | Interfaces/ICacheBase.cs:74-77 | on Memcached a Sliding entry is seen at instant t exactly when t is before write time plus expiration |
| MemcachedCacheService.ContainsAgreesWithGet | Services/MemcachedCacheService.cs:29-45 | the corrected ContainsAsync is true exactly when GetAsync finds a value |
| MemcachedCacheService.ContainsAsWrittenReportsMissingKey | Services/MemcachedCacheService.cs:31-32 | on an empty store ContainsAsync as written says true for a key GetAsync cannot find |
| MemcachedCacheService.RemoveIdempotent | Services/MemcachedCacheService.cs:52-55 | removing twice equals removing once, and ContainsAsync is false afterwards |
| Adapters.UnknownKindRefusedEverywhere | Services/MemoryCacheService.cs:125-126 | all three adapters refuse an out-of-range ExpirationType for a valid key and write nothing |
| Adapters.BlankKeysReachOnlyMemcached | Services/MemcachedCacheService.cs:92-103 | a blank key is refused by the in-memory and Redis adapters before the kind is looked at; the Memcached adapter passes the key to the client, which in this model stores it |
| Adapters.OnlyMemoryDistinguishesSliding | Interfaces/ICacheBase.cs:37 | only the in-memory adapter records a sliding window; Redis and Memcached write the same entry for Sliding as for Absolute |

## Left out

- `Extensions/ServiceCacheExtension.cs`: dependency-injection registration and connection setup, with no behaviour of its own.
- Client internals: eviction, memory pressure, networking, protocol, persistence and clustering. Expired entries stay in the model's map and read as absent. `IMemoryCache` deletes them on access instead, which no operation can observe.
- Transport failures of the Redis and Memcached clients: the model's clients always answer.
- JSON serialization: `Codec` is abstract. Serializer exceptions, such as object cycles, are not modelled. Neither is reading a value back as a different type.
- Async and concurrency: each operation is one atomic step.
- `TimeSpan`: durations are non-negative tick counts, so negative expirations are not represented.
- MemoryCacheService.GetMemoryCacheOption: the options setters refuse every non-positive duration; the model refuses zero, the only one a tick count can hold, and leaves negative durations out with `TimeSpan`.
- MemoryCacheService.SetWithExpirationType: refuses a zero expiration as the options setters do; negative expirations are not represented.
- MemoryCacheService.SetWithExpiration: the same as the four-argument overload it calls.
- MemoryCacheService.Set: the same, for a configured default of zero minutes.
- RedisCacheService.SetWithExpirationType: the client sends the expiry to Redis in whole milliseconds, and Redis refuses an expiry that is zero. So a zero expiration, or one of 1 to 9999 ticks, fails at the server, but the model writes an entry with that time-to-live. The adapter itself has no such check.
- MemcachedCacheService.SetWithExpirationType: `StoreAsync` answers false when the server refuses a store, for example an item over its size limit. The adapter discards that answer, so such a SetAsync completes normally and stores nothing. The model's client never refuses a store, so `MemcachedCacheService.SetThenGet` holds only for items the server accepts.
- MemcachedCacheService.SetWithExpirationType: Memcached reads a time-to-live of 0 as "never expires" and one of more than 30 days as a Unix timestamp, and has a granularity of one second. The model treats every expiration as a time-to-live in ticks.
- `int.Parse` of the configuration: a present setting is a well-formed non-negative number. Malformed or negative settings are not modelled.
- Null keys on the Memcached adapter. It passes them to the client, and the client's handling of null is not part of this model, so that adapter's key is a non-null string.
- Memcached's own key rules (length, control characters), which the client and server enforce.
- Stored null values, and in-memory reads of an entry whose object is not a `T`. Each store holds one value type and no nulls.
- UTF-16: strings are sequences of Unicode scalar values. Surrogates are never white space, so `ValidateKey` is unaffected.

## Findings

| source | as written | input that shows it | evidently intended | confidence | as-written member | corrected member |
|---|---|---|---|---|---|---|
| Services/MemcachedCacheService.cs:31-32 | `ContainsAsync` compares the result object of `GetAsync<object>` with null. The client always returns such an object, a miss included. | an empty store and key "session:42": `ContainsAsync` returns true, but `GetAsync` returns default | true exactly when the read has a value (`HasValue`), the test `GetAsync` applies at line 44 | not executed; high. The source's own use of `HasValue`/`Value` on the same client call at lines 43-44 shows it returns a result object. | MemcachedCacheService.ContainsAsWritten | MemcachedCacheService.Contains |
