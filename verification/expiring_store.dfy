/** The backing store behind each adapter, reduced to what the adapters rely
    on: a map from key to entry and a clock counting ticks. An entry can
    carry an absolute deadline, a sliding window, or both; it is live while
    neither has run out. Expired entries stay in the map and simply read as
    absent: eviction and compaction belong to the clients and are not part
    of this model. */
module ExpiringStore {
  import opened CacheBase

  datatype Entry<+V> = Entry(value: V, deadline: Option<nat>, window: Option<nat>, lastAccess: nat)

  datatype Store<V> = Store(entries: map<string, Entry<V>>, now: nat)

  /** An absolute deadline expires the entry at that instant; a sliding window
      expires it once that many ticks pass without an access. */
  predicate Live<V>(e: Entry<V>, now: nat) {
    && (e.deadline.None? || now < e.deadline.value)
    && (e.window.None? || now < e.lastAccess + e.window.value)
  }

  /** Every key other than `key` holds exactly the same entry in `t` as in
      `s`: same value, deadline, window and last access, so it reads the same
      now and at every later instant. */
  ghost predicate SameElsewhere<V>(s: Store<V>, t: Store<V>, key: string) {
    forall k :: k != key ==>
      && (k in t.entries <==> k in s.entries)
      && (k in s.entries ==> t.entries[k] == s.entries[k])
  }

  /** What a read at the current instant sees, without refreshing anything. */
  function Peek<V>(s: Store<V>, key: string): Option<V> {
    if key in s.entries && Live(s.entries[key], s.now) then Some(s.entries[key].value) else None
  }

  /** Stores `value` under `key`, replacing whatever was there. */
  function Write<V>(s: Store<V>, key: string, value: V, deadline: Option<nat>, window: Option<nat>): (t: Store<V>)
    ensures t.now == s.now
    ensures key in t.entries && t.entries[key] == Entry(value, deadline, window, s.now)
    ensures SameElsewhere(s, t, key)
    ensures forall k :: k != key ==> Peek(t, k) == Peek(s, k)
  {
    s.(entries := s.entries[key := Entry(value, deadline, window, s.now)])
  }

  /** Drops the key; nothing happens when it is absent. */
  function Delete<V>(s: Store<V>, key: string): (t: Store<V>)
    ensures t.now == s.now
    ensures key !in t.entries && Peek(t, key) == None
    ensures SameElsewhere(s, t, key)
    ensures forall k :: k != key ==> Peek(t, k) == Peek(s, k)
  {
    s.(entries := s.entries - {key})
  }

  /** Records a successful access to a live entry, restarting its sliding
      window; the last-access instant never moves backwards. */
  function Touch<V>(s: Store<V>, key: string): (t: Store<V>)
    ensures t.now == s.now
    ensures SameElsewhere(s, t, key)
    ensures forall k :: Peek(t, k) == Peek(s, k)
    ensures key in s.entries && Live(s.entries[key], s.now) ==>
              key in t.entries && t.entries[key] == s.entries[key].(lastAccess := Later(s.entries[key].lastAccess, s.now))
    ensures !(key in s.entries && Live(s.entries[key], s.now)) ==> t == s
  {
    if key in s.entries && Live(s.entries[key], s.now) then
      var e := s.entries[key];
      s.(entries := s.entries[key := e.(lastAccess := Later(e.lastAccess, s.now))])
    else
      s
  }

  function Later(a: nat, b: nat): nat {
    if a < b then b else a
  }

  /** Lets time pass up to instant `t`; the clock never runs backwards. */
  function AdvanceTo<V>(s: Store<V>, t: nat): (u: Store<V>)
    ensures u.entries == s.entries
    ensures u.now == if t < s.now then s.now else t
  {
    s.(now := Later(s.now, t))
  }

  /** Every entry expires at a fixed instant and none slides: the only kind
      of entry a time-to-live store can hold. */
  predicate TtlOnly<V>(s: Store<V>) {
    forall k :: k in s.entries ==> s.entries[k].deadline.Some? && s.entries[k].window.None?
  }

  /** Deleting twice is deleting once. */
  lemma DeleteIdempotent<V>(s: Store<V>, key: string)
    ensures Delete(Delete(s, key), key) == Delete(s, key)
  {
  }

  /** An entry that has expired stays expired as time goes on: there is no
      access that could restart it while it is not live. */
  lemma ExpiredStaysExpired<V>(e: Entry<V>, now: nat, later: nat)
    requires now <= later
    requires !Live(e, now)
    ensures !Live(e, later)
  {
  }
}
