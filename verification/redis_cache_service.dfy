/** RedisCacheService: the adapter over a Redis database. It validates every
    key, stores items as their JSON text with a time-to-live, and collapses
    Absolute and Sliding into that one time-to-live: reads never extend it. */
module RedisCacheService {
  import opened CacheBase
  import opened CacheHelper
  import opened ExpiringStore

  /** What JsonSerializer.Deserialize<T> makes of a string: a value, the
      `null` literal (C#'s `default`), or a JsonException. */
  datatype Decoded<+T> = Parsed(value: T) | ParsedNull | Malformed

  /** The JSON serializer for one item type, left abstract. */
  datatype Codec<!T> = Codec(serialize: T -> string, deserialize: string -> Decoded<T>)

  /** The serializer reads back what it wrote for `item`; an assumption about
      the library, not something the adapter guarantees. */
  ghost predicate RoundTrips<T>(codec: Codec<T>, item: T) {
    codec.deserialize(codec.serialize(item)) == Parsed(item)
  }

  /** The adapter: the database it talks to and the default expiration in minutes. */
  datatype Service = Service(database: Store<string>, defaultExpiration: nat)

  /** The constructor: when the configuration key is absent the default
      timeout is ten minutes. */
  function Create(database: Store<string>, defaultTimeout: Option<nat>): (svc: Service)
    ensures svc.database == database
    ensures defaultTimeout.None? ==> svc.defaultExpiration == 10
    ensures defaultTimeout.Some? ==> svc.defaultExpiration == defaultTimeout.value
  {
    Service(database, DefaultTimeout(defaultTimeout))
  }

  // The IDatabase operations the adapter calls. Redis reads leave the
  // time-to-live alone, so none of them touches an entry.

  function KeyExists(db: Store<string>, key: string): bool {
    Peek(db, key).Some?
  }

  function StringGet(db: Store<string>, key: string): Option<string> {
    Peek(db, key)
  }

  /** SET with an expiry: replaces value and time-to-live. */
  function StringSet(db: Store<string>, key: string, value: string, expiry: nat): Store<string> {
    Write(db, key, value, Some(db.now + expiry), None)
  }

  function KeyDelete(db: Store<string>, key: string): Store<string> {
    Delete(db, key)
  }

  // The adapter.

  /** ContainsAsync: for a valid key, the database's KEY EXISTS answer. */
  function Contains(svc: Service, key: Key): (r: Result<bool>)
    ensures ValidateKey(key).Err? ==> r == Err(InvalidKey)
    ensures ValidateKey(key).Ok? ==> r == Ok(Peek(svc.database, key.text).Some?)
  {
    if ValidateKey(key).Err? then Err(InvalidKey)
    else Ok(KeyExists(svc.database, key.text))
  }

  /** GetAsync: default (None) when nothing is stored, otherwise the stored
      string decoded; a string that does not decode is an error distinct
      from absence. */
  function Get<T>(svc: Service, codec: Codec<T>, key: Key): (r: Result<Option<T>>)
    ensures ValidateKey(key).Err? ==> r == Err(InvalidKey)
    ensures ValidateKey(key).Ok? && Peek(svc.database, key.text).None? ==> r == Ok(None)
    ensures ValidateKey(key).Ok? && Peek(svc.database, key.text).Some? ==>
              var stored := Peek(svc.database, key.text).value;
              && (r == Err(DeserializationFailed) <==> codec.deserialize(stored).Malformed?)
              && (r == Ok(None) <==> codec.deserialize(stored).ParsedNull?)
              && (r.Ok? && r.value.Some? ==> codec.deserialize(stored) == Parsed(r.value.value))
              && (codec.deserialize(stored).Parsed? ==> r == Ok(Some(codec.deserialize(stored).value)))
  {
    if ValidateKey(key).Err? then Err(InvalidKey)
    else
      var value := StringGet(svc.database, key.text);
      if value.None? then Ok(None)
      else
        match codec.deserialize(value.value)
        case Parsed(v) => Ok(Some(v))
        case ParsedNull => Ok(None)
        case Malformed => Err(DeserializationFailed)
  }

  /** RemoveAsync: afterwards the key is absent, the rest of the database as before. */
  function Remove(svc: Service, key: Key): (r: Step<(), Service>)
    ensures ValidateKey(key).Err? ==> r == Step(Err(InvalidKey), svc)
    ensures ValidateKey(key).Ok? ==>
              && r.result == Ok(())
              && key.text !in r.next.database.entries
    ensures r.next.defaultExpiration == svc.defaultExpiration && r.next.database.now == svc.database.now
    ensures ValidateKey(key).Ok? ==> SameElsewhere(svc.database, r.next.database, key.text)
    ensures forall k :: Key(k) != key ==> Peek(r.next.database, k) == Peek(svc.database, k)
    ensures TtlOnly(svc.database) ==> TtlOnly(r.next.database)
  {
    if ValidateKey(key).Err? then Step(Err(InvalidKey), svc)
    else Step(Ok(()), svc.(database := KeyDelete(svc.database, key.text)))
  }

  /** SetAsync(key, item, expiration, expirationType): validates the key,
      serializes the item, and for either named kind writes the JSON text
      with a time-to-live of `expiration`, replacing any previous value;
      another kind is refused and nothing is written. */
  function SetWithExpirationType<T>(svc: Service, codec: Codec<T>, key: Key, item: T, expiration: nat,
                                    kind: ExpirationType): (r: Step<(), Service>)
    ensures ValidateKey(key).Err? ==> r == Step(Err(InvalidKey), svc)
    ensures ValidateKey(key).Ok? && !IsDefined(kind) ==>
              r == Step(Err(UnsupportedExpirationKind(Code(kind))), svc)
    ensures ValidateKey(key).Ok? && IsDefined(kind) ==>
              && r.result == Ok(())
              && key.text in r.next.database.entries
              && r.next.database.entries[key.text]
                 == Entry(codec.serialize(item), Some(svc.database.now + expiration), None, svc.database.now)
    ensures r.next.defaultExpiration == svc.defaultExpiration && r.next.database.now == svc.database.now
    ensures ValidateKey(key).Ok? ==> SameElsewhere(svc.database, r.next.database, key.text)
    ensures forall k :: Key(k) != key ==> Peek(r.next.database, k) == Peek(svc.database, k)
    ensures TtlOnly(svc.database) ==> TtlOnly(r.next.database)
  {
    if ValidateKey(key).Err? then Step(Err(InvalidKey), svc)
    else
      var value := codec.serialize(item);
      match kind
      case Absolute => Step(Ok(()), svc.(database := StringSet(svc.database, key.text, value, expiration)))
      case Sliding => Step(Ok(()), svc.(database := StringSet(svc.database, key.text, value, expiration)))
      case Other(n) => Step(Err(UnsupportedExpirationKind(n)), svc)
  }

  /** SetAsync(key, item, expiration): a time-to-live of `expiration`. */
  function SetWithExpiration<T>(svc: Service, codec: Codec<T>, key: Key, item: T, expiration: nat)
    : (r: Step<(), Service>)
    ensures ValidateKey(key).Err? ==> r == Step(Err(InvalidKey), svc)
    ensures ValidateKey(key).Ok? ==>
              && r.result == Ok(())
              && key.text in r.next.database.entries
              && r.next.database.entries[key.text]
                 == Entry(codec.serialize(item), Some(svc.database.now + expiration), None, svc.database.now)
  {
    SetWithExpirationType(svc, codec, key, item, expiration, Absolute)
  }

  /** SetAsync(key, item): a time-to-live of the configured default minutes. */
  function Set<T>(svc: Service, codec: Codec<T>, key: Key, item: T): (r: Step<(), Service>)
    ensures ValidateKey(key).Err? ==> r == Step(Err(InvalidKey), svc)
    ensures ValidateKey(key).Ok? ==>
              && r.result == Ok(())
              && key.text in r.next.database.entries
              && r.next.database.entries[key.text]
                 == Entry(codec.serialize(item), Some(svc.database.now + svc.defaultExpiration * TicksPerMinute),
                          None, svc.database.now)
  {
    SetWithExpirationType(svc, codec, key, item, FromMinutes(svc.defaultExpiration), Absolute)
  }

  // Properties relating several operations.

  /** The two shorter SetAsync overloads are the four-argument one with Absolute. */
  lemma OverloadsDelegate<T>(svc: Service, codec: Codec<T>, key: Key, item: T, expiration: nat)
    ensures SetWithExpiration(svc, codec, key, item, expiration)
            == SetWithExpirationType(svc, codec, key, item, expiration, Absolute)
    ensures Set(svc, codec, key, item)
            == SetWithExpirationType(svc, codec, key, item, FromMinutes(svc.defaultExpiration), Absolute)
  {
  }

  /** Sliding is accepted and performs exactly the write Absolute performs. */
  lemma SlidingIsAbsolute<T>(svc: Service, codec: Codec<T>, key: Key, item: T, expiration: nat)
    ensures SetWithExpirationType(svc, codec, key, item, expiration, Sliding)
            == SetWithExpirationType(svc, codec, key, item, expiration, Absolute)
  {
  }

  /** With a serializer that reads back what it writes, a value stored with
      a positive expiration is what the next GetAsync returns. */
  lemma SetThenGet<T>(svc: Service, codec: Codec<T>, key: Key, item: T, expiration: nat, kind: ExpirationType)
    requires ValidateKey(key).Ok? && IsDefined(kind) && expiration > 0
    requires RoundTrips(codec, item)
    ensures Get(SetWithExpirationType(svc, codec, key, item, expiration, kind).next, codec, key) == Ok(Some(item))
  {
  }

  /** Sliding degrades to Absolute: after SetAsync with Sliding, a GetAsync
      at any later instant t sees the value exactly when t is before the
      write instant plus the expiration, however often it was read before. */
  lemma SlidingExpiresLikeAbsolute<T>(svc: Service, codec: Codec<T>, key: Key, item: T, expiration: nat, t: nat)
    requires ValidateKey(key).Ok? && RoundTrips(codec, item)
    requires svc.database.now <= t
    ensures var s := SetWithExpirationType(svc, codec, key, item, expiration, Sliding).next;
            Get(s.(database := AdvanceTo(s.database, t)), codec, key)
            == Ok(if t < svc.database.now + expiration then Some(item) else None)
  {
  }

  /** Removing twice is removing once, and afterwards ContainsAsync is false. */
  lemma RemoveIdempotent(svc: Service, key: Key)
    ensures Remove(Remove(svc, key).next, key) == Remove(svc, key)
    ensures ValidateKey(key).Ok? ==> Contains(Remove(svc, key).next, key) == Ok(false)
  {
    if ValidateKey(key).Ok? {
      DeleteIdempotent(svc.database, key.text);
    }
  }
}
