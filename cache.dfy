/**
 * GenericCache: an in-memory key/value cache with a sliding time-to-live.
 *
 * Every entry is a CacheValue: the cached value and the epoch second
 * (`outdatedAt`) after which it may be evicted. `put` stamps a new entry with
 * `now + cacheTimeout`; `get` pushes the deadline of the entry it reads
 * forward by `cacheTimeout`, counted from the current deadline; `clean` is the
 * sweep that drops every entry whose deadline lies strictly before `now`.
 *
 * The wall clock is not sampled here: every operation that needs the time
 * takes it as an argument `now` (epoch seconds), and the periodic sweep is an
 * explicit call to Clean.
 */
module Cache {

  datatype Option<T> = None | Some(value: T)

  /** Initial sweep delay of the no-argument constructor, in seconds. */
  const DefaultCacheDelay: int := 30
  /** Time-to-live of the no-argument constructor, in seconds. */
  const DefaultCacheTimeout: int := 60

  /** A cached value with the epoch second after which it is outdated. */
  datatype CacheValue<V> = CacheValue(value: V, outdatedAt: int)
  {
    /** An entry is outdated only once `now` is strictly past its deadline. */
    predicate IsOutdatedAt(now: int)
    {
      now > outdatedAt
    }

    /**
     * Reading the value: the getter hands back the value and, as a side
     * effect, moves the deadline `cacheTimeout` seconds further out. The
     * entry is returned with its new deadline next to the value.
     */
    function GetValue(cacheTimeout: int): (r: (CacheValue<V>, V))
      ensures r.1 == value && r.0.value == value
      ensures forall t :: r.0.IsOutdatedAt(t + cacheTimeout) <==> IsOutdatedAt(t)
    {
      (this.(outdatedAt := outdatedAt + cacheTimeout), value)
    }
  }

  // ---------------------------------------------------------------------
  // The cache's operations on the mapping itself, as functions of the map.
  // ---------------------------------------------------------------------

  /** What `get` reports for `key`: the stored value, or nothing. */
  function Lookup<K, V>(m: map<K, CacheValue<V>>, key: K): (r: Option<V>)
    ensures r.Some? <==> key in m
    ensures r.Some? ==> r.value == m[key].value
  {
    if key in m then Some(m[key].value) else None
  }

  /**
   * The keys a sweep at `now` collects (getExpiredKeys, with `isExpired`
   * judged against the one instant `now`).
   */
  function ExpiredKeys<K, V>(m: map<K, CacheValue<V>>, now: int): (r: set<K>)
    ensures r <= m.Keys
    ensures forall k :: k in m ==> (k in r <==> now > m[k].outdatedAt)
  {
    set k | k in m && m[k].IsOutdatedAt(now)
  }

  /** The mapping a sweep at `now` leaves behind. */
  function Sweep<K, V>(m: map<K, CacheValue<V>>, now: int): (r: map<K, CacheValue<V>>)
    ensures r.Keys <= m.Keys
    ensures forall k :: k in m ==> (k in r <==> m[k].outdatedAt >= now)
    ensures forall k :: k in r ==> r[k] == m[k]
  {
    m - ExpiredKeys(m, now)
  }

  /** The mapping after `get(key)`: a present entry's deadline is extended. */
  function Renew<K, V>(m: map<K, CacheValue<V>>, key: K, cacheTimeout: int): (r: map<K, CacheValue<V>>)
    ensures r.Keys == m.Keys
    ensures forall k :: k in m && k != key ==> r[k] == m[k]
    ensures key in m ==> r[key].value == m[key].value
    ensures key in m ==> r[key].outdatedAt - m[key].outdatedAt == cacheTimeout
  {
    if key in m then m[key := m[key].GetValue(cacheTimeout).0] else m
  }

  /**
   * The restore hook's shift: every deadline moves `delta` seconds later
   * (setOutdatedAt on every entry). In the source this hook is commented out.
   */
  function Shifted<K, V>(m: map<K, CacheValue<V>>, delta: int): (r: map<K, CacheValue<V>>)
    ensures r.Keys == m.Keys
    ensures forall k :: k in m ==> r[k].value == m[k].value
    ensures forall k :: k in m ==> r[k].outdatedAt - m[k].outdatedAt == delta
  {
    map k | k in m :: m[k].(outdatedAt := m[k].outdatedAt + delta)
  }

  /** `j` consecutive reads of `key`. */
  function RenewTimes<K, V>(m: map<K, CacheValue<V>>, key: K, cacheTimeout: int, j: nat): map<K, CacheValue<V>>
  {
    if j == 0 then m else Renew(RenewTimes(m, key, cacheTimeout, j - 1), key, cacheTimeout)
  }

  /** A sweep followed by a read of `key` at each instant of `times`, in order. */
  function SweepAndReadAt<K, V>(m: map<K, CacheValue<V>>, key: K, cacheTimeout: int, times: seq<int>): map<K, CacheValue<V>>
    decreases |times|
  {
    if times == [] then m
    else SweepAndReadAt(Renew(Sweep(m, times[0]), key, cacheTimeout), key, cacheTimeout, times[1..])
  }

  // ---------------------------------------------------------------------
  // Properties of the operations.
  // ---------------------------------------------------------------------

  /**
   * Reads accumulate: `j` reads of a present key move its deadline
   * `j * cacheTimeout` further out and change nothing else; reads of an
   * absent key change nothing.
   */
  lemma {:induction false} RepeatedReads<K, V>(m: map<K, CacheValue<V>>, key: K, cacheTimeout: int, j: nat)
    ensures key !in m ==> RenewTimes(m, key, cacheTimeout, j) == m
    ensures key in m ==> RenewTimes(m, key, cacheTimeout, j)
                         == m[key := CacheValue(m[key].value, m[key].outdatedAt + j * cacheTimeout)]
  {
    if j > 0 {
      RepeatedReads(m, key, cacheTimeout, j - 1);
      assert (j - 1) * cacheTimeout + cacheTimeout == j * cacheTimeout;
    }
  }

  /** A second sweep at the same instant removes nothing more. */
  lemma SweepIdempotent<K, V>(m: map<K, CacheValue<V>>, now: int)
    ensures Sweep(Sweep(m, now), now) == Sweep(m, now)
  {
  }

  /**
   * A sweep never drops an entry that a sweep at a later instant would keep,
   * so sweeping is monotone in time.
   */
  lemma SweepMonotone<K, V>(m: map<K, CacheValue<V>>, early: int, late: int)
    requires early <= late
    ensures Sweep(m, late).Keys <= Sweep(m, early).Keys
  {
  }

  /**
   * An entry written at `now` and never read is kept by every sweep up to
   * `now + cacheTimeout` and removed by every sweep after it.
   */
  lemma UnreadEntryLifetime<K, V>(m: map<K, CacheValue<V>>, key: K, value: V, now: int, cacheTimeout: int, t: int)
    ensures key in Sweep(m[key := CacheValue(value, now + cacheTimeout)], t) <==> t <= now + cacheTimeout
  {
  }

  /**
   * An entry that has been read expires at its accumulated deadline: put at
   * `now` and then read `j` times, it survives a sweep at `s` exactly when
   * `s <= now + (j + 1) * cacheTimeout`, whenever the reads happened.
   */
  lemma ReadEntryLifetime<K, V>(m: map<K, CacheValue<V>>, key: K, value: V, now: int, cacheTimeout: int, j: nat, s: int)
    ensures key in Sweep(RenewTimes(m[key := CacheValue(value, now + cacheTimeout)], key, cacheTimeout, j), s)
            <==> s <= now + (j + 1) * cacheTimeout
  {
    RepeatedReads(m[key := CacheValue(value, now + cacheTimeout)], key, cacheTimeout, j);
    assert now + cacheTimeout + j * cacheTimeout == now + (j + 1) * cacheTimeout;
  }

  /**
   * A read does not restart the clock at the read's instant. With a timeout
   * above 1, an entry put at `now` and read at `now + 1` is still kept by a
   * sweep at `now + 2 * cacheTimeout`, although it has then gone unread for
   * longer than `cacheTimeout`.
   */
  lemma ReadDoesNotRestartClock<K, V>(m: map<K, CacheValue<V>>, key: K, value: V, now: int, cacheTimeout: int)
    requires cacheTimeout > 1
    ensures key in Sweep(Renew(m[key := CacheValue(value, now + cacheTimeout)], key, cacheTimeout), now + 2 * cacheTimeout)
    ensures (now + 2 * cacheTimeout) - (now + 1) > cacheTimeout
  {
  }

  /** Once a sweep has removed the key, later reads and sweeps never bring it back. */
  lemma {:induction false} GoneStaysGone<K, V>(m: map<K, CacheValue<V>>, key: K, cacheTimeout: int, times: seq<int>)
    requires key !in m
    ensures key !in SweepAndReadAt(m, key, cacheTimeout, times)
    decreases |times|
  {
    if times != [] {
      GoneStaysGone(Renew(Sweep(m, times[0]), key, cacheTimeout), key, cacheTimeout, times[1..]);
    }
  }

  /**
   * Each instant of `times` comes no later than the deadline the entry has
   * by then, the deadline growing by `cacheTimeout` after every read.
   */
  ghost predicate ReadsInTime(deadline: int, cacheTimeout: int, times: seq<int>)
    decreases |times|
  {
    times == [] || (times[0] <= deadline && ReadsInTime(deadline + cacheTimeout, cacheTimeout, times[1..]))
  }

  /** One more extension after `n` of them is `n + 1` extensions. */
  lemma ExtendedOnceMore(deadline: int, cacheTimeout: int, n: nat)
    ensures deadline + cacheTimeout + n * cacheTimeout == deadline + (n + 1) * cacheTimeout
  {
  }

  /** One sweep-then-read step that comes by the deadline keeps the entry and extends it once. */
  lemma SweepThenReadKeeps<K, V>(m: map<K, CacheValue<V>>, key: K, cacheTimeout: int, t: int)
    requires key in m && t <= m[key].outdatedAt
    ensures key in Renew(Sweep(m, t), key, cacheTimeout)
    ensures Renew(Sweep(m, t), key, cacheTimeout)[key] == CacheValue(m[key].value, m[key].outdatedAt + cacheTimeout)
  {
  }

  /**
   * Sliding time-to-live: when every sweep-then-read step comes in time,
   * every sweep keeps the entry, which ends with its value and with its
   * deadline extended once per read. The sweeper runs every second whether
   * or not anything is read; a sweep at the read's own instant is the worst
   * case, since by SweepMonotone any sweep before it keeps the entry too.
   * Since an evicted key never comes back (GoneStaysGone), the key being
   * present at the end means that no sweep along the way removed it.
   */
  lemma {:induction false} ReadsKeepEntryAlive<K, V>(m: map<K, CacheValue<V>>, key: K, cacheTimeout: int, times: seq<int>)
    requires key in m
    requires ReadsInTime(m[key].outdatedAt, cacheTimeout, times)
    ensures key in SweepAndReadAt(m, key, cacheTimeout, times)
    ensures SweepAndReadAt(m, key, cacheTimeout, times)[key]
            == CacheValue(m[key].value, m[key].outdatedAt + |times| * cacheTimeout)
    decreases |times|
  {
    if times != [] {
      var rest := times[1..];
      var next := Renew(Sweep(m, times[0]), key, cacheTimeout);
      assert SweepAndReadAt(m, key, cacheTimeout, times) == SweepAndReadAt(next, key, cacheTimeout, rest);
      SweepThenReadKeeps(m, key, cacheTimeout, times[0]);
      ReadsKeepEntryAlive(next, key, cacheTimeout, rest);
      ExtendedOnceMore(m[key].outdatedAt, cacheTimeout, |rest|);
    }
  }

  /**
   * Reads spaced at most `cacheTimeout` apart, the first one no later than
   * the entry's deadline, all come in time.
   */
  lemma {:induction false} ReadGapsWithinTimeout(deadline: int, cacheTimeout: int, times: seq<int>)
    requires times != [] ==> times[0] <= deadline
    requires forall j :: 0 < j < |times| ==> times[j] - times[j - 1] <= cacheTimeout
    ensures ReadsInTime(deadline, cacheTimeout, times)
    decreases |times|
  {
    if times != [] {
      var rest := times[1..];
      forall j | 0 < j < |rest| ensures rest[j] - rest[j - 1] <= cacheTimeout {
        assert rest[j] == times[j + 1] && rest[j - 1] == times[j];
      }
      ReadGapsWithinTimeout(deadline + cacheTimeout, cacheTimeout, rest);
    }
  }

  /**
   * Pause compensation: after shifting every deadline by the time spent
   * paused, a sweep at the resume instant collects exactly the keys a sweep
   * at the checkpoint instant would have collected.
   */
  lemma ShiftPreservesExpiredKeys<K, V>(m: map<K, CacheValue<V>>, checkpointAt: int, now: int)
    ensures ExpiredKeys(Shifted(m, now - checkpointAt), now) == ExpiredKeys(m, checkpointAt)
  {
  }

  /**
   * Sweeping right after the shifted restore keeps exactly the entries that
   * were alive at the checkpoint, each with its value and shifted deadline.
   */
  lemma SweepAfterShift<K, V>(m: map<K, CacheValue<V>>, checkpointAt: int, now: int)
    ensures Sweep(Shifted(m, now - checkpointAt), now) == Shifted(Sweep(m, checkpointAt), now - checkpointAt)
  {
  }

  // ---------------------------------------------------------------------
  // The cache object.
  // ---------------------------------------------------------------------

  class GenericCache<K(==), V> {
    /** The key to entry mapping (the source's `map` field). */
    var entries: map<K, CacheValue<V>>
    /** Sliding time-to-live, in seconds. */
    var cacheTimeout: int
    /** Epoch second of the last checkpoint; only the commented-out hook sets it. */
    var checkpointAt: int
    /** Delay before the first sweep, handed to the scheduler (not modelled). */
    ghost var initialDelay: int

    constructor (initialDelay: int, cacheTimeout: int)
      ensures entries == map[] && Size() == 0
      ensures this.cacheTimeout == cacheTimeout && this.initialDelay == initialDelay
      ensures checkpointAt == 0
    {
      this.cacheTimeout := cacheTimeout;
      this.initialDelay := initialDelay;
      checkpointAt := 0;
      new;
      Clear();
    }

    /** The no-argument constructor: default delay and time-to-live. */
    constructor Default()
      ensures entries == map[] && Size() == 0
      ensures cacheTimeout == DefaultCacheTimeout && initialDelay == DefaultCacheDelay
      ensures checkpointAt == 0
    {
      cacheTimeout := DefaultCacheTimeout;
      initialDelay := DefaultCacheDelay;
      checkpointAt := 0;
      new;
      Clear();
    }

    /**
     * Presence in the mapping, whether or not the entry is already outdated;
     * the deadline is not renewed.
     */
    function ContainsKey(key: K): (b: bool)
      reads this
      ensures b <==> Lookup(entries, key).Some?
    {
      key in entries
    }

    /** The number of entries held, outdated ones not yet swept included. */
    function Size(): (n: nat)
      reads this
      ensures n == |entries.Keys|
      ensures n == 0 <==> entries == map[]
    {
      |entries|
    }

    /** A new entry for `value`, outdated once `now + cacheTimeout` has passed. */
    function CreateCacheValue(value: V, now: int): (c: CacheValue<V>)
      reads this
      ensures c.value == value
      ensures forall t :: c.IsOutdatedAt(t) <==> t > now + cacheTimeout
    {
      CacheValue(value, now + cacheTimeout)
    }

    method Get(key: K) returns (r: Option<V>)
      modifies this`entries
      ensures r == Lookup(old(entries), key)
      ensures entries == Renew(old(entries), key, cacheTimeout)
      ensures key !in old(entries) ==> entries == old(entries)
      ensures key in old(entries) ==> entries[key].outdatedAt == old(entries)[key].outdatedAt + cacheTimeout
    {
      if key in entries {
        var (renewed, value) := entries[key].GetValue(cacheTimeout);
        entries := entries[key := renewed];
        r := Some(value);
      } else {
        r := None;
      }
    }

    method Put(key: K, value: V, now: int)
      modifies this`entries
      ensures entries.Keys == old(entries).Keys + {key}
      ensures entries[key] == CacheValue(value, now + cacheTimeout)
      ensures forall k :: k in old(entries) && k != key ==> entries[k] == old(entries)[k]
      ensures Lookup(entries, key) == Some(value)
      ensures Size() == if key in old(entries) then old(Size()) else old(Size()) + 1
    {
      entries := entries[key := CreateCacheValue(value, now)];
    }

    method Remove(key: K)
      modifies this`entries
      ensures entries == old(entries) - {key}
      ensures !ContainsKey(key)
      ensures key !in old(entries) ==> entries == old(entries)
      ensures Size() == if key in old(entries) then old(Size()) - 1 else old(Size())
    {
      entries := entries - {key};
    }

    method Clear()
      modifies this`entries
      ensures entries == map[] && Size() == 0
    {
      entries := map[];
    }

    /** The sweep: removes, one by one, every key outdated at `now`. */
    method Clean(now: int)
      modifies this`entries
      ensures entries == Sweep(old(entries), now)
      ensures forall k :: k in entries ==> !entries[k].IsOutdatedAt(now)
    {
      var expired := ExpiredKeys(entries, now);
      ghost var collected := expired;
      while expired != {}
        invariant expired <= collected
        invariant entries == old(entries) - (collected - expired)
        decreases expired
      {
        var key :| key in expired;
        Remove(key);
        expired := expired - {key};
      }
    }

    /** The checkpoint hook, commented out in the source: records the pause start. */
    method BeforeCheckpoint(now: int)
      modifies this`checkpointAt
      ensures checkpointAt == now
    {
      checkpointAt := now;
    }

    /**
     * The restore hook, commented out in the source: moves every deadline
     * later by the time spent paused, entry by entry.
     */
    method AfterRestore(now: int)
      modifies this`entries
      ensures entries == Shifted(old(entries), now - checkpointAt)
    {
      var delta := now - checkpointAt;
      var pending := entries.Keys;
      while pending != {}
        invariant entries.Keys == old(entries).Keys
        invariant pending <= entries.Keys
        invariant forall k :: k in entries && k in pending ==> entries[k] == old(entries)[k]
        invariant forall k :: k in entries && k !in pending ==> entries[k] == old(entries)[k].(outdatedAt := old(entries)[k].outdatedAt + delta)
        decreases pending
      {
        var key :| key in pending;
        entries := entries[key := entries[key].(outdatedAt := entries[key].outdatedAt + delta)];
        pending := pending - {key};
      }
    }
  }
}
