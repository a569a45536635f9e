/** The lecture handler's in-memory response cache: entries keyed by the query, served while
    younger than five minutes, and swept by a timer once older than ten. Clock readings are
    parameters. */
module QueryCache {
  import opened Wrappers
  import opened Numbers

  /** `CACHE_DURATION`: five minutes, in milliseconds. */
  const CacheDuration: int := 5 * 60 * 1000

  /** A cached response and the time it was stored. */
  datatype Entry<T> = Entry(data: seq<T>, timestamp: int)

  type Cache<T> = map<string, Entry<T>>

  /** The age test of a cache hit: `now - timestamp < CACHE_DURATION`. */
  predicate Fresh<T>(e: Entry<T>, now: int) {
    now - e.timestamp < CacheDuration
  }

  /** `cache.get(key)` followed by the freshness check of the handler. */
  function Lookup<T>(c: Cache<T>, key: string, now: int): (r: Option<seq<T>>)
    ensures r.Some? <==> key in c && Fresh(c[key], now)
    ensures r.Some? ==> r.value == c[key].data
  {
    if key in c && Fresh(c[key], now) then Some(c[key].data) else None
  }

  /** `cache.set(key, { data, timestamp: now })`: the key now holds the new entry, whatever it
      held before, and every other key is untouched. */
  function Store<T>(c: Cache<T>, key: string, data: seq<T>, now: int): (c': Cache<T>)
    ensures c'.Keys == c.Keys + {key}
    ensures c'[key] == Entry(data, now)
    ensures forall k :: k in c && k != key ==> c'[k] == c[k]
  {
    c[key := Entry(data, now)]
  }

  /** The `setInterval` sweep: deletes exactly the entries older than twice the duration. */
  function Sweep<T>(c: Cache<T>, now: int): (c': Cache<T>)
    ensures forall k :: k in c' <==> k in c && now - c[k].timestamp <= 2 * CacheDuration
    ensures forall k :: k in c' ==> c'[k] == c[k]
  {
    map k | k in c && now - c[k].timestamp <= 2 * CacheDuration :: c[k]
  }

  /** A stored response is served back until it is five minutes old, and not after. */
  lemma {:induction false} StoreThenLookup<T>(c: Cache<T>, key: string, data: seq<T>, stored: int, now: int)
    ensures Lookup(Store(c, key, data, stored), key, now) == if now - stored < CacheDuration then Some(data) else None
  {
  }

  /** Storing under one key changes no lookup under another. */
  lemma {:induction false} StoreOtherKey<T>(c: Cache<T>, key: string, other: string, data: seq<T>, stored: int, now: int)
    requires other != key
    ensures Lookup(Store(c, key, data, stored), other, now) == Lookup(c, other, now)
  {
  }

  /** The sweep never takes away a response a lookup at the same time or later would serve:
      everything it deletes is already stale. */
  lemma {:induction false} SweepKeepsHits<T>(c: Cache<T>, swept: int, key: string, now: int)
    requires swept <= now
    ensures Lookup(Sweep(c, swept), key, now) == Lookup(c, key, now)
  {
    if key in c && Fresh(c[key], now) {
      assert swept - c[key].timestamp <= 2 * CacheDuration;
    }
  }

  /** Sweeping twice at the same time deletes nothing more. */
  lemma {:induction false} SweepIdempotent<T>(c: Cache<T>, now: int)
    ensures Sweep(Sweep(c, now), now) == Sweep(c, now)
  {
  }

  /** Between five and ten minutes an entry is no longer served but still kept. */
  lemma {:induction false} StaleButKept<T>(c: Cache<T>, key: string, now: int)
    requires key in c && CacheDuration <= now - c[key].timestamp <= 2 * CacheDuration
    ensures Lookup(c, key, now).None?
    ensures key in Sweep(c, now)
  {
  }

  /** The placeholder for an absent or empty `batch` or `branch` in a key (`x || "all"`). */
  const AllText: string := "all"

  /** The separator between key parts. */
  const KeySeparator: string := "-"

  function OrAll(s: Option<string>): (r: string)
    ensures r != ""
    ensures s.Some? && s.value != "" ==> r == s.value
  {
    if s.None? || s.value == "" then AllText else s.value
  }

  /** `${date}-${day_limit}-${batch || "all"}-${branchFilter || "all"}`. */
  function CacheKey(date: string, dayLimit: Option<int>, batch: Option<string>, branch: Option<string>): (key: string)
    ensures |date| < |key| && key[..|date| + 1] == date + KeySeparator
    ensures var suffix := KeySeparator + OrAll(branch);
      |suffix| < |key| && key[|key| - |suffix|..] == suffix
  {
    var key := date + KeySeparator + NumberToString(dayLimit) + KeySeparator + OrAll(batch) + KeySeparator + OrAll(branch);
    assert key == (date + KeySeparator) + (NumberToString(dayLimit) + KeySeparator + OrAll(batch) + KeySeparator + OrAll(branch));
    assert key == (date + KeySeparator + NumberToString(dayLimit) + KeySeparator + OrAll(batch)) + (KeySeparator + OrAll(branch));
    key
  }

  /** The key begins with the date and, after it, the day limit as `String` renders it. */
  lemma {:induction false} CacheKeyPrefix(date: string, dayLimit: Option<int>, batch: Option<string>, branch: Option<string>)
    ensures var key := CacheKey(date, dayLimit, batch, branch);
      var prefix := date + KeySeparator + NumberToString(dayLimit) + KeySeparator;
      |prefix| <= |key| && key[..|prefix|] == prefix
  {
    var prefix := date + KeySeparator + NumberToString(dayLimit) + KeySeparator;
    var key := CacheKey(date, dayLimit, batch, branch);
    assert key == prefix + (OrAll(batch) + KeySeparator + OrAll(branch));
  }

  /** An absent filter and the literal filter `all` share a key: a request for the batch or
      branch named `all` is answered from the unfiltered response, and the reverse. */
  lemma {:induction false} AllCollides(date: string, dayLimit: Option<int>, all: string)
    requires all == AllText
    ensures CacheKey(date, dayLimit, None, None) == CacheKey(date, dayLimit, Some(all), None)
    ensures CacheKey(date, dayLimit, None, None) == CacheKey(date, dayLimit, None, Some(all))
  {
  }

  /** An empty filter is falsy and shares the absent filter's key. */
  lemma {:induction false} EmptyFilterKey(date: string, dayLimit: Option<int>, batch: Option<string>, branch: Option<string>)
    ensures CacheKey(date, dayLimit, Some(""), branch) == CacheKey(date, dayLimit, None, branch)
    ensures CacheKey(date, dayLimit, batch, Some("")) == CacheKey(date, dayLimit, batch, None)
  {
  }
}
