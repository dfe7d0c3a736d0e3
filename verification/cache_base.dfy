/** The vocabulary of the ICacheBase contract shared by the three adapters:
    nullable keys, the errors the adapters raise themselves, the result shape
    of one atomic operation, the ExpirationType enum and the default timeout. */
module CacheBase {

  datatype Option<+T> = None | Some(value: T)

  /** A C# string reference as a cache key: either null or a character sequence. */
  datatype Key = NullKey | Key(text: string)

  /** The exceptions the adapters throw on their own account. Transport
      failures of the store clients are not modelled: the clients are total. */
  datatype CacheError =
    | InvalidKey                          // ArgumentException from CacheHelper.ValidateKey
    | UnsupportedExpirationKind(code: int) // ArgumentOutOfRangeException from a `default:` branch
    | NonPositiveExpiration               // ArgumentOutOfRangeException from a MemoryCacheEntryOptions setter
    | DeserializationFailed               // JsonException while decoding a stored string

  datatype Result<+T> = Ok(value: T) | Err(error: CacheError)

  /** What one operation reports, and the adapter state after it. */
  datatype Step<+R, +S> = Step(result: Result<R>, next: S)

  /** An ExpirationType value. A C# enum variable may hold any int, so besides
      the two named members there are the out-of-range values; `Other` never
      carries the underlying value of a named member. */
  datatype ExpirationKind = Absolute | Sliding | Other(code: int)

  type ExpirationType = k: ExpirationKind | k.Other? ==> k.code != 0 && k.code != 1
    witness Absolute

  /** The named members of the enum. */
  predicate IsDefined(k: ExpirationType) {
    !k.Other?
  }

  /** The underlying int of an ExpirationType value (Absolute = 0, Sliding = 1). */
  function Code(k: ExpirationType): int {
    match k
    case Absolute => 0
    case Sliding => 1
    case Other(n) => n
  }

  /** The ExpirationType value a cast `(ExpirationType)n` produces. */
  function FromCode(n: int): (k: ExpirationType)
    ensures Code(k) == n
    ensures IsDefined(k) <==> n == 0 || n == 1
  {
    if n == 0 then Absolute else if n == 1 then Sliding else Other(n)
  }

  /** Every enum value is the cast of its own underlying int: the enum is
      exactly the two named members plus the out-of-range ints. */
  lemma CodeRoundTrip(k: ExpirationType)
    ensures FromCode(Code(k)) == k
  {
  }

  /** The clock unit of the model is the .NET tick (100 ns). */
  const TicksPerMinute: nat := 600_000_000

  /** TimeSpan.FromMinutes for a whole, non-negative number of minutes. */
  function FromMinutes(minutes: nat): (ticks: nat)
    ensures ticks % TicksPerMinute == 0 && ticks / TicksPerMinute == minutes
  {
    minutes * TicksPerMinute
  }

  /** The timeout used when the DefaultTimeout configuration key is absent. */
  const DefaultTimeoutMinutes: nat := 10

  /** `int.Parse(configuration[...] ?? "10")`, for a setting that is either
      absent or a well-formed non-negative number of minutes. */
  function DefaultTimeout(setting: Option<nat>): (minutes: nat)
    ensures setting.None? ==> minutes == DefaultTimeoutMinutes
    ensures setting.Some? ==> minutes == setting.value
  {
    match setting
    case None => DefaultTimeoutMinutes
    case Some(m) => m
  }
}
