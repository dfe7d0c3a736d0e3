/** MemoryCacheService: the adapter over the process-local IMemoryCache.
    It validates every key, keeps Absolute and Sliding expiration distinct,
    and reads through TryGetValue, which restarts a sliding window on every
    successful lookup, whether the caller is GetAsync or ContainsAsync. */
module MemoryCacheService {
  import opened CacheBase
  import opened CacheHelper
  import opened ExpiringStore

  /** MemoryCacheEntryOptions, reduced to its two expiration settings. */
  datatype MemoryCacheEntryOptions =
    MemoryCacheEntryOptions(absoluteExpirationRelativeToNow: Option<nat>, slidingExpiration: Option<nat>)

  /** The adapter: the cache it wraps and the default expiration in minutes. */
  datatype Service<V> = Service(cache: Store<V>, defaultExpiration: nat)

  /** The constructor: the default timeout setting is read once; when the
      configuration key is absent it is ten minutes. */
  function Create<V>(cache: Store<V>, defaultTimeout: Option<nat>): (svc: Service<V>)
    ensures svc.cache == cache
    ensures defaultTimeout.None? ==> svc.defaultExpiration == 10
    ensures defaultTimeout.Some? ==> svc.defaultExpiration == defaultTimeout.value
  {
    Service(cache, DefaultTimeout(defaultTimeout))
  }

  // The IMemoryCache operations the adapter calls.

  /** TryGetValue: reports the live value, and records the access. */
  function TryGetValue<V>(cache: Store<V>, key: string): (Option<V>, Store<V>) {
    (Peek(cache, key), Touch(cache, key))
  }

  /** Set with entry options: a relative absolute expiration becomes a
      deadline measured from now; a sliding expiration becomes the window. */
  function CacheSet<V>(cache: Store<V>, key: string, item: V, options: MemoryCacheEntryOptions): Store<V> {
    var deadline :=
      match options.absoluteExpirationRelativeToNow
      case Some(d) => Some(cache.now + d)
      case None => None;
    Write(cache, key, item, deadline, options.slidingExpiration)
  }

  // The adapter.

  /** GetMemoryCacheOption: Absolute sets only the absolute expiration
      relative to now, Sliding sets only the sliding window, and any other
      enum value is refused. Both setters refuse a duration that is not
      positive, so a zero expiration of a named kind is refused too. */
  function GetMemoryCacheOption(expiration: nat, kind: ExpirationType): (r: Result<MemoryCacheEntryOptions>)
    ensures r.Err? <==> !IsDefined(kind) || expiration == 0
    ensures !IsDefined(kind) ==> r == Err(UnsupportedExpirationKind(Code(kind)))
    ensures IsDefined(kind) && expiration == 0 ==> r == Err(NonPositiveExpiration)
    ensures kind == Absolute && expiration > 0 ==> r == Ok(MemoryCacheEntryOptions(Some(expiration), None))
    ensures kind == Sliding && expiration > 0 ==> r == Ok(MemoryCacheEntryOptions(None, Some(expiration)))
  {
    match kind
    case Absolute => if expiration == 0 then Err(NonPositiveExpiration)
                     else Ok(MemoryCacheEntryOptions(Some(expiration), None))
    case Sliding => if expiration == 0 then Err(NonPositiveExpiration)
                    else Ok(MemoryCacheEntryOptions(None, Some(expiration)))
    case Other(n) => Err(UnsupportedExpirationKind(n))
  }

  /** ContainsAsync: true exactly when a live entry exists. The lookup is
      TryGetValue, so it refreshes a sliding entry just as GetAsync does. */
  function Contains<V>(svc: Service<V>, key: Key): (r: Step<bool, Service<V>>)
    ensures ValidateKey(key).Err? ==> r == Step(Err(InvalidKey), svc)
    ensures ValidateKey(key).Ok? ==> r.result == Ok(Peek(svc.cache, key.text).Some?)
    ensures r.next.defaultExpiration == svc.defaultExpiration && r.next.cache.now == svc.cache.now
    ensures ValidateKey(key).Ok? ==> SameElsewhere(svc.cache, r.next.cache, key.text)
    ensures forall k :: Peek(r.next.cache, k) == Peek(svc.cache, k)
  {
    if ValidateKey(key).Err? then Step(Err(InvalidKey), svc)
    else
      var lookup := TryGetValue(svc.cache, key.text);
      Step(Ok(lookup.0.Some?), svc.(cache := lookup.1))
  }

  /** GetAsync: the value of a live entry, or None (C#'s `default`) when the
      key is absent or expired; absence is not an error. */
  function Get<V>(svc: Service<V>, key: Key): (r: Step<Option<V>, Service<V>>)
    ensures ValidateKey(key).Err? ==> r == Step(Err(InvalidKey), svc)
    ensures ValidateKey(key).Ok? ==> r.result == Ok(Peek(svc.cache, key.text))
    ensures r.next.defaultExpiration == svc.defaultExpiration && r.next.cache.now == svc.cache.now
    ensures ValidateKey(key).Ok? ==> SameElsewhere(svc.cache, r.next.cache, key.text)
    ensures forall k :: Peek(r.next.cache, k) == Peek(svc.cache, k)
  {
    if ValidateKey(key).Err? then Step(Err(InvalidKey), svc)
    else
      var lookup := TryGetValue(svc.cache, key.text);
      Step(Ok(lookup.0), svc.(cache := lookup.1))
  }

  /** RemoveAsync: afterwards the key is absent and every other key reads as
      before; removing an absent key succeeds. */
  function Remove<V>(svc: Service<V>, key: Key): (r: Step<(), Service<V>>)
    ensures ValidateKey(key).Err? ==> r == Step(Err(InvalidKey), svc)
    ensures ValidateKey(key).Ok? ==>
              && r.result == Ok(())
              && key.text !in r.next.cache.entries
              && Peek(r.next.cache, key.text) == None
    ensures r.next.defaultExpiration == svc.defaultExpiration && r.next.cache.now == svc.cache.now
    ensures ValidateKey(key).Ok? ==> SameElsewhere(svc.cache, r.next.cache, key.text)
    ensures forall k :: Key(k) != key ==> Peek(r.next.cache, k) == Peek(svc.cache, k)
  {
    if ValidateKey(key).Err? then Step(Err(InvalidKey), svc)
    else Step(Ok(()), svc.(cache := Delete(svc.cache, key.text)))
  }

  /** SetAsync(key, item, expiration, expirationType): the key is validated
      first, then the options are built, and only then is the cache written.
      A refused call leaves the cache exactly as it was. */
  function SetWithExpirationType<V>(svc: Service<V>, key: Key, item: V, expiration: nat, kind: ExpirationType)
    : (r: Step<(), Service<V>>)
    ensures ValidateKey(key).Err? ==> r == Step(Err(InvalidKey), svc)
    ensures ValidateKey(key).Ok? && !IsDefined(kind) ==>
              r == Step(Err(UnsupportedExpirationKind(Code(kind))), svc)
    ensures ValidateKey(key).Ok? && IsDefined(kind) && expiration == 0 ==>
              r == Step(Err(NonPositiveExpiration), svc)
    ensures ValidateKey(key).Ok? && IsDefined(kind) && expiration > 0 ==>
              && r.result == Ok(())
              && key.text in r.next.cache.entries
              && Peek(r.next.cache, key.text) == Some(item)
    ensures ValidateKey(key).Ok? && kind == Absolute && expiration > 0 ==>
              r.next.cache.entries[key.text] == Entry(item, Some(svc.cache.now + expiration), None, svc.cache.now)
    ensures ValidateKey(key).Ok? && kind == Sliding && expiration > 0 ==>
              r.next.cache.entries[key.text] == Entry(item, None, Some(expiration), svc.cache.now)
    ensures r.next.defaultExpiration == svc.defaultExpiration && r.next.cache.now == svc.cache.now
    ensures ValidateKey(key).Ok? ==> SameElsewhere(svc.cache, r.next.cache, key.text)
    ensures forall k :: Key(k) != key ==> Peek(r.next.cache, k) == Peek(svc.cache, k)
  {
    if ValidateKey(key).Err? then Step(Err(InvalidKey), svc)
    else
      var options := GetMemoryCacheOption(expiration, kind);
      if options.Err? then Step(Err(options.error), svc)
      else Step(Ok(()), svc.(cache := CacheSet(svc.cache, key.text, item, options.value)))
  }

  /** SetAsync(key, item, expiration): an absolute expiration `expiration`
      ticks from now, with no sliding window; a zero expiration is refused. */
  function SetWithExpiration<V>(svc: Service<V>, key: Key, item: V, expiration: nat): (r: Step<(), Service<V>>)
    ensures ValidateKey(key).Err? ==> r == Step(Err(InvalidKey), svc)
    ensures ValidateKey(key).Ok? && expiration == 0 ==> r == Step(Err(NonPositiveExpiration), svc)
    ensures ValidateKey(key).Ok? && expiration > 0 ==>
              && r.result == Ok(())
              && key.text in r.next.cache.entries
              && r.next.cache.entries[key.text] == Entry(item, Some(svc.cache.now + expiration), None, svc.cache.now)
  {
    SetWithExpirationType(svc, key, item, expiration, Absolute)
  }

  /** SetAsync(key, item): an absolute expiration the configured default
      number of minutes from now; a configured default of zero is refused. */
  function Set<V>(svc: Service<V>, key: Key, item: V): (r: Step<(), Service<V>>)
    ensures ValidateKey(key).Err? ==> r == Step(Err(InvalidKey), svc)
    ensures ValidateKey(key).Ok? && svc.defaultExpiration == 0 ==> r == Step(Err(NonPositiveExpiration), svc)
    ensures ValidateKey(key).Ok? && svc.defaultExpiration > 0 ==>
              && r.result == Ok(())
              && key.text in r.next.cache.entries
              && r.next.cache.entries[key.text]
                 == Entry(item, Some(svc.cache.now + svc.defaultExpiration * TicksPerMinute), None, svc.cache.now)
  {
    SetWithExpirationType(svc, key, item, FromMinutes(svc.defaultExpiration), Absolute)
  }

  // Properties relating several operations.

  /** The two shorter SetAsync overloads are the four-argument one with Absolute. */
  lemma OverloadsDelegate<V>(svc: Service<V>, key: Key, item: V, expiration: nat)
    ensures SetWithExpiration(svc, key, item, expiration) == SetWithExpirationType(svc, key, item, expiration, Absolute)
    ensures Set(svc, key, item) == SetWithExpirationType(svc, key, item, FromMinutes(svc.defaultExpiration), Absolute)
  {
  }

  /** A value stored with a positive expiration of either kind is what the
      next GetAsync returns. */
  lemma SetThenGet<V>(svc: Service<V>, key: Key, item: V, expiration: nat, kind: ExpirationType)
    requires ValidateKey(key).Ok? && IsDefined(kind) && expiration > 0
    ensures Get(SetWithExpirationType(svc, key, item, expiration, kind).next, key).result == Ok(Some(item))
  {
  }

  /** A zero expiration is refused before the cache is written, so the
      entry an earlier SetAsync stored stays readable. */
  lemma ZeroExpirationKeepsEntry<V>(svc: Service<V>, key: Key, item: V, other: V, expiration: nat,
                                    kind: ExpirationType)
    requires ValidateKey(key).Ok? && IsDefined(kind) && expiration > 0
    ensures var s := SetWithExpirationType(svc, key, item, expiration, kind).next;
            var z := SetWithExpirationType(s, key, other, 0, kind);
            && z.result == Err(NonPositiveExpiration)
            && Get(z.next, key).result == Ok(Some(item))
  {
  }

  /** ContainsAsync agrees with GetAsync on presence and has the same effect
      on the cache, sliding refresh included. */
  lemma ContainsActsLikeGet<V>(svc: Service<V>, key: Key)
    ensures Contains(svc, key).next == Get(svc, key).next
    ensures ValidateKey(key).Ok? ==>
              (Contains(svc, key).result == Ok(true) <==> Get(svc, key).result.value.Some?)
  {
  }

  /** A read refreshes only the key it reads: every other key keeps its own
      deadline and sliding window, so at any later instant it reads exactly
      as it would have without the read. */
  lemma ReadsLeaveOtherKeysAlone<V>(svc: Service<V>, key: Key, other: string, t: nat)
    requires ValidateKey(key).Ok? && other != key.text
    ensures Peek(AdvanceTo(Get(svc, key).next.cache, t), other) == Peek(AdvanceTo(svc.cache, t), other)
    ensures Peek(AdvanceTo(Contains(svc, key).next.cache, t), other) == Peek(AdvanceTo(svc.cache, t), other)
  {
  }

  /** Removing twice is removing once. */
  lemma RemoveIdempotent<V>(svc: Service<V>, key: Key)
    ensures Remove(Remove(svc, key).next, key) == Remove(svc, key)
  {
    if ValidateKey(key).Ok? {
      DeleteIdempotent(svc.cache, key.text);
    }
  }

  // Expiration over time: a series of reads at given instants.

  /** The instant before the i-th read: the starting instant for the first
      read, the previous read's instant for the others. */
  function Prev(t0: nat, times: seq<nat>, i: nat): nat
    requires i < |times|
  {
    if i == 0 then t0 else times[i - 1]
  }

  /** The read instants do not go backwards from `t0`. */
  predicate Chronological(t0: nat, times: seq<nat>) {
    forall i :: 0 <= i < |times| ==> Prev(t0, times, i) <= times[i]
  }

  /** Each of reads 0..i came less than `window` ticks after its predecessor. */
  predicate ReadWithinWindow(t0: nat, times: seq<nat>, window: nat, i: nat)
    requires i < |times|
  {
    forall j :: 0 <= j <= i ==> times[j] < Prev(t0, times, j) + window
  }

  /** Lets time pass to each instant in turn and calls GetAsync there;
      returns what each read reported and the adapter afterwards. */
  function ReadAt<V>(svc: Service<V>, key: Key, times: seq<nat>): (r: (seq<Result<Option<V>>>, Service<V>))
    ensures |r.0| == |times|
    ensures r.1.defaultExpiration == svc.defaultExpiration
    decreases |times|
  {
    if |times| == 0 then ([], svc)
    else
      var g := Get(svc.(cache := AdvanceTo(svc.cache, times[0])), key);
      var rest := ReadAt(g.next, key, times[1..]);
      ([g.result] + rest.0, rest.1)
  }

  lemma ChronologicalTail(t0: nat, times: seq<nat>)
    requires |times| > 0 && Chronological(t0, times)
    ensures t0 <= times[0] && Chronological(times[0], times[1..])
  {
    assert Prev(t0, times, 0) <= times[0];
    forall i | 0 <= i < |times[1..]|
      ensures Prev(times[0], times[1..], i) <= times[1..][i]
    {
      assert Prev(t0, times, i + 1) <= times[i + 1];
    }
  }

  /** An entry with an absolute deadline is seen exactly by the reads before
      the deadline, however often it is read. */
  lemma {:induction false} AbsoluteReads<V>(svc: Service<V>, key: Key, item: V, deadline: nat, times: seq<nat>)
    requires ValidateKey(key).Ok?
    requires key.text in svc.cache.entries
    requires svc.cache.entries[key.text].value == item
    requires svc.cache.entries[key.text].deadline == Some(deadline)
    requires svc.cache.entries[key.text].window == None
    requires Chronological(svc.cache.now, times)
    ensures forall i :: 0 <= i < |times| ==>
              ReadAt(svc, key, times).0[i] == Ok(if times[i] < deadline then Some(item) else None)
    decreases |times|
  {
    if |times| > 0 {
      ChronologicalTail(svc.cache.now, times);
      var g := Get(svc.(cache := AdvanceTo(svc.cache, times[0])), key);
      assert g.result == Ok(if times[0] < deadline then Some(item) else None);
      AbsoluteReads(g.next, key, item, deadline, times[1..]);
      var r := ReadAt(svc, key, times);
      var rest := ReadAt(g.next, key, times[1..]);
      assert r.0 == [g.result] + rest.0;
      forall i | 0 <= i < |times|
        ensures r.0[i] == Ok(if times[i] < deadline then Some(item) else None)
      {
        if i > 0 {
          assert r.0[i] == rest.0[i - 1];
          assert times[1..][i - 1] == times[i];
        }
      }
    }
  }

  /** A key that reads as absent keeps reading as absent while only reads happen. */
  lemma {:induction false} AbsentKeyReads<V>(svc: Service<V>, key: Key, times: seq<nat>)
    requires ValidateKey(key).Ok?
    requires Peek(svc.cache, key.text) == None
    ensures forall i :: 0 <= i < |times| ==> ReadAt(svc, key, times).0[i] == Ok(None)
    decreases |times|
  {
    if |times| > 0 {
      var s1 := AdvanceTo(svc.cache, times[0]);
      if key.text in svc.cache.entries {
        ExpiredStaysExpired(svc.cache.entries[key.text], svc.cache.now, s1.now);
      }
      var g := Get(svc.(cache := s1), key);
      AbsentKeyReads(g.next, key, times[1..]);
      var r := ReadAt(svc, key, times);
      var rest := ReadAt(g.next, key, times[1..]);
      assert r.0 == [g.result] + rest.0;
      forall i | 0 <= i < |times|
        ensures r.0[i] == Ok(None)
      {
        if i > 0 {
          assert r.0[i] == rest.0[i - 1];
        }
      }
    }
  }

  /** An entry with a sliding window, just accessed, is seen by a read
      exactly when that read and every read before it came within the window
      of its predecessor; once a gap is too long it is gone for good. */
  lemma {:induction false} SlidingReads<V>(svc: Service<V>, key: Key, item: V, window: nat, times: seq<nat>)
    requires ValidateKey(key).Ok?
    requires key.text in svc.cache.entries
    requires svc.cache.entries[key.text] == Entry(item, None, Some(window), svc.cache.now)
    requires Chronological(svc.cache.now, times)
    ensures forall i :: 0 <= i < |times| ==>
              ReadAt(svc, key, times).0[i]
              == Ok(if ReadWithinWindow(svc.cache.now, times, window, i) then Some(item) else None)
    decreases |times|
  {
    if |times| > 0 {
      var t0 := svc.cache.now;
      ChronologicalTail(t0, times);
      var s1 := AdvanceTo(svc.cache, times[0]);
      var g := Get(svc.(cache := s1), key);
      var r := ReadAt(svc, key, times);
      var rest := ReadAt(g.next, key, times[1..]);
      assert r.0 == [g.result] + rest.0;
      if times[0] < t0 + window {
        assert g.result == Ok(Some(item));
        assert g.next.cache.entries[key.text] == Entry(item, None, Some(window), times[0]);
        SlidingReads(g.next, key, item, window, times[1..]);
        forall i | 0 <= i < |times|
          ensures r.0[i] == Ok(if ReadWithinWindow(t0, times, window, i) then Some(item) else None)
        {
          if i > 0 {
            assert r.0[i] == rest.0[i - 1];
            assert ReadWithinWindow(t0, times, window, i)
                   <==> ReadWithinWindow(times[0], times[1..], window, i - 1) by {
              forall j | 1 <= j <= i
                ensures Prev(t0, times, j) == Prev(times[0], times[1..], j - 1)
                ensures times[j] == times[1..][j - 1]
              {
              }
              assert times[0] < Prev(t0, times, 0) + window;
            }
          }
        }
      } else {
        assert Peek(s1, key.text) == None;
        AbsentKeyReads(g.next, key, times[1..]);
        forall i | 0 <= i < |times|
          ensures r.0[i] == Ok(None) && !ReadWithinWindow(t0, times, window, i)
        {
          assert !(times[0] < Prev(t0, times, 0) + window);
          if i > 0 {
            assert r.0[i] == rest.0[i - 1];
          }
        }
      }
    }
  }

  /** Each read reported the item when it came before `deadline`, and
      default (None) from the deadline on. */
  ghost predicate SeenBefore<V>(seen: seq<Result<Option<V>>>, times: seq<nat>, deadline: nat, item: V)
    requires |seen| == |times|
  {
    forall i :: 0 <= i < |times| ==> seen[i] == Ok(if times[i] < deadline then Some(item) else None)
  }

  /** Absolute expiration: after a successful SetAsync with Absolute, a read at instant
      t sees the value exactly when t is before the write instant plus the
      expiration; reads in between do not extend it. */
  lemma AbsoluteExpiryIgnoresReads<V>(svc: Service<V>, key: Key, item: V, expiration: nat, times: seq<nat>)
    requires ValidateKey(key).Ok? && expiration > 0
    requires Chronological(svc.cache.now, times)
    ensures SeenBefore(ReadAt(SetWithExpirationType(svc, key, item, expiration, Absolute).next, key, times).0,
                       times, svc.cache.now + expiration, item)
  {
    var s := SetWithExpiration(svc, key, item, expiration).next;
    assert s.cache.now == svc.cache.now;
    AbsoluteReads(s, key, item, svc.cache.now + expiration, times);
  }

  /** Sliding expiration: after a successful SetAsync with Sliding, a read sees the value
      exactly when no gap between consecutive accesses so far reached the
      expiration; every successful read restarts the window. */
  lemma SlidingExpiryFollowsReads<V>(svc: Service<V>, key: Key, item: V, expiration: nat, times: seq<nat>)
    requires ValidateKey(key).Ok? && expiration > 0
    requires Chronological(svc.cache.now, times)
    ensures var s := SetWithExpirationType(svc, key, item, expiration, Sliding).next;
            forall i :: 0 <= i < |times| ==>
              ReadAt(s, key, times).0[i]
              == Ok(if ReadWithinWindow(svc.cache.now, times, expiration, i) then Some(item) else None)
  {
    var s := SetWithExpirationType(svc, key, item, expiration, Sliding).next;
    SlidingReads(s, key, item, expiration, times);
  }
}
