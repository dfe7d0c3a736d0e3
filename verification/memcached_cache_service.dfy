/** MemcachedCacheService: the adapter over a Memcached client. Unlike the
    other two adapters it never validates a key: every key, empty or blank
    included, goes straight to the client. Absolute and Sliding both become
    one unconditional store with a time-to-live. */
module MemcachedCacheService {
  import opened CacheBase
  import opened ExpiringStore

  /** IGetOperationResult<T>: whether the read hit, and the value it read. */
  datatype GetOperationResult<+V> = GetOperationResult(success: bool, value: Option<V>) {
    predicate HasValue() {
      value.Some?
    }
  }

  /** A C# object reference: null, or an object. */
  datatype Ref<+T> = Null | Ref(target: T)

  /** The adapter: the client's store and the default expiration in minutes. */
  datatype Service<V> = Service(client: Store<V>, defaultExpiration: nat)

  /** The constructor: when the configuration key is absent the default
      timeout is ten minutes. */
  function Create<V>(client: Store<V>, defaultTimeout: Option<nat>): (svc: Service<V>)
    ensures svc.client == client
    ensures defaultTimeout.None? ==> svc.defaultExpiration == 10
    ensures defaultTimeout.Some? ==> svc.defaultExpiration == defaultTimeout.value
  {
    Service(client, DefaultTimeout(defaultTimeout))
  }

  // The IMemcachedClient operations the adapter calls. Memcached reads
  // leave the time-to-live alone.

  /** GetAsync<T>: always answers with a result object; a miss is a result
      without a value, never a null reference. */
  function ClientGet<V>(client: Store<V>, key: string): (r: Ref<GetOperationResult<V>>)
    ensures r.Ref?
    ensures r.target.HasValue() <==> Peek(client, key).Some?
  {
    var found := Peek(client, key);
    Ref(GetOperationResult(found.Some?, found))
  }

  /** StoreAsync(StoreMode.Set, key, value, validFor), the only mode the
      adapter uses: writes whether or not the key is present. */
  function ClientStore<V>(client: Store<V>, key: string, item: V, validFor: nat): Store<V> {
    Write(client, key, item, Some(client.now + validFor), None)
  }

  /** RemoveAsync: whether a live entry went away, and the store after. */
  function ClientRemove<V>(client: Store<V>, key: string): (bool, Store<V>) {
    (Peek(client, key).Some?, Delete(client, key))
  }

  // The adapter.

  /** ContainsAsync as the source writes it: the generic read's answer is
      compared with null. The client always answers with a result object,
      so this is true for every key, stored or not. */
  function ContainsAsWritten<V>(svc: Service<V>, key: string): (r: Result<bool>)
    ensures r == Ok(true)
  {
    var value := ClientGet(svc.client, key);
    Ok(!value.Null?)
  }

  /** ContainsAsync as intended: whether the generic read found a value,
      that is, whether a live entry exists. */
  function Contains<V>(svc: Service<V>, key: string): (r: Result<bool>)
    ensures r == Ok(Peek(svc.client, key).Some?)
  {
    var value := ClientGet(svc.client, key);
    Ok(value.target.HasValue())
  }

  /** GetAsync: the value when the read has one, otherwise default (None).
      No key is refused. */
  function Get<V>(svc: Service<V>, key: string): (r: Result<Option<V>>)
    ensures r.Ok?
    ensures r.value.Some? <==> Peek(svc.client, key).Some?
    ensures r.value.Some? ==> key in svc.client.entries && r.value.value == svc.client.entries[key].value
  {
    var result := ClientGet(svc.client, key);
    if result.target.HasValue() then Ok(Some(result.target.value.value)) else Ok(None)
  }

  /** RemoveAsync: handed to the client as it is; afterwards the key is
      absent and the other keys read as before. */
  function Remove<V>(svc: Service<V>, key: string): (r: Step<(), Service<V>>)
    ensures r.result == Ok(())
    ensures key !in r.next.client.entries
    ensures r.next.defaultExpiration == svc.defaultExpiration && r.next.client.now == svc.client.now
    ensures SameElsewhere(svc.client, r.next.client, key)
    ensures forall k :: k != key ==> Peek(r.next.client, k) == Peek(svc.client, k)
    ensures TtlOnly(svc.client) ==> TtlOnly(r.next.client)
  {
    var removal := ClientRemove(svc.client, key);
    Step(Ok(()), svc.(client := removal.1))
  }

  /** SetAsync(key, item, expiration, expirationType): for either named kind
      an unconditional StoreMode.Set of the item with a time-to-live of
      `expiration`; another kind is refused before the client is called. */
  function SetWithExpirationType<V>(svc: Service<V>, key: string, item: V, expiration: nat, kind: ExpirationType)
    : (r: Step<(), Service<V>>)
    ensures !IsDefined(kind) ==> r == Step(Err(UnsupportedExpirationKind(Code(kind))), svc)
    ensures IsDefined(kind) ==>
              && r.result == Ok(())
              && key in r.next.client.entries
              && r.next.client.entries[key] == Entry(item, Some(svc.client.now + expiration), None, svc.client.now)
    ensures r.next.defaultExpiration == svc.defaultExpiration && r.next.client.now == svc.client.now
    ensures SameElsewhere(svc.client, r.next.client, key)
    ensures forall k :: k != key ==> Peek(r.next.client, k) == Peek(svc.client, k)
    ensures TtlOnly(svc.client) ==> TtlOnly(r.next.client)
  {
    match kind
    case Absolute => Step(Ok(()), svc.(client := ClientStore(svc.client, key, item, expiration)))
    case Sliding => Step(Ok(()), svc.(client := ClientStore(svc.client, key, item, expiration)))
    case Other(n) => Step(Err(UnsupportedExpirationKind(n)), svc)
  }

  /** SetAsync(key, item, expiration): a time-to-live of `expiration`. */
  function SetWithExpiration<V>(svc: Service<V>, key: string, item: V, expiration: nat): (r: Step<(), Service<V>>)
    ensures r.result == Ok(())
    ensures key in r.next.client.entries
    ensures r.next.client.entries[key] == Entry(item, Some(svc.client.now + expiration), None, svc.client.now)
  {
    SetWithExpirationType(svc, key, item, expiration, Absolute)
  }

  /** SetAsync(key, item): a time-to-live of the configured default minutes. */
  function Set<V>(svc: Service<V>, key: string, item: V): (r: Step<(), Service<V>>)
    ensures r.result == Ok(())
    ensures key in r.next.client.entries
    ensures r.next.client.entries[key]
            == Entry(item, Some(svc.client.now + svc.defaultExpiration * TicksPerMinute), None, svc.client.now)
  {
    SetWithExpirationType(svc, key, item, FromMinutes(svc.defaultExpiration), Absolute)
  }

  // Properties relating several operations.

  /** The two shorter SetAsync overloads are the four-argument one with Absolute. */
  lemma OverloadsDelegate<V>(svc: Service<V>, key: string, item: V, expiration: nat)
    ensures SetWithExpiration(svc, key, item, expiration) == SetWithExpirationType(svc, key, item, expiration, Absolute)
    ensures Set(svc, key, item) == SetWithExpirationType(svc, key, item, FromMinutes(svc.defaultExpiration), Absolute)
  {
  }

  /** Sliding is accepted and performs exactly the store Absolute performs. */
  lemma SlidingIsAbsolute<V>(svc: Service<V>, key: string, item: V, expiration: nat)
    ensures SetWithExpirationType(svc, key, item, expiration, Sliding)
            == SetWithExpirationType(svc, key, item, expiration, Absolute)
  {
  }

  /** A value stored with a positive expiration is what the next GetAsync
      returns. The adapter passes any key to the client, which in this model
      stores it, and the client hands back exactly the object it stored. */
  lemma SetThenGet<V>(svc: Service<V>, key: string, item: V, expiration: nat, kind: ExpirationType)
    requires IsDefined(kind) && expiration > 0
    ensures Get(SetWithExpirationType(svc, key, item, expiration, kind).next, key) == Ok(Some(item))
  {
  }

  /** Sliding degrades to Absolute: after SetAsync with Sliding, a GetAsync
      at a later instant t sees the value exactly when t is before the write
      instant plus the expiration. */
  lemma SlidingExpiresLikeAbsolute<V>(svc: Service<V>, key: string, item: V, expiration: nat, t: nat)
    requires svc.client.now <= t
    ensures var s := SetWithExpirationType(svc, key, item, expiration, Sliding).next;
            Get(s.(client := AdvanceTo(s.client, t)), key)
            == Ok(if t < svc.client.now + expiration then Some(item) else None)
  {
  }

  /** The corrected ContainsAsync agrees with GetAsync in both directions. */
  lemma ContainsAgreesWithGet<V>(svc: Service<V>, key: string)
    ensures Contains(svc, key) == Ok(true) <==> Get(svc, key).value.Some?
  {
  }

  /** On an empty store the ContainsAsync the source writes reports a key
      that GetAsync cannot find. */
  lemma ContainsAsWrittenReportsMissingKey<V>(now: nat)
    ensures var svc: Service<V> := Service(Store(map[], now), DefaultTimeoutMinutes);
            && ContainsAsWritten(svc, "session:42") == Ok(true)
            && Get(svc, "session:42") == Ok(None)
            && Contains(svc, "session:42") == Ok(false)
  {
  }

  /** Removing twice is removing once, and afterwards ContainsAsync is false. */
  lemma RemoveIdempotent<V>(svc: Service<V>, key: string)
    ensures Remove(Remove(svc, key).next, key) == Remove(svc, key)
    ensures Contains(Remove(svc, key).next, key) == Ok(false)
  {
    DeleteIdempotent(svc.client, key);
  }
}
