/**
 * The key-value store (src/datastore.h and src/datastore.cpp): string keys
 * mapped to a string value and an optional expiry time point. Entries that
 * have expired are removed lazily, when get finds them, and by a sweep over
 * a random sample of at most 20 keys.
 *
 * The clock and the random number generator are parameters: `now` is the
 * time point system_clock::now() returns, and `shuffled` is the order in
 * which the unordered_map's iteration and std::shuffle leave the keys, which
 * may be any ordering of them.
 *
 * The two files hold two versions of removeExpiredKeys: datastore.h visits
 * the whole sample, datastore.cpp stops once a quarter of the sample is
 * deleted. Both are modelled, as RemoveExpiredKeys and
 * RemoveExpiredKeysWithEarlyBreak. The other operations are the same code in
 * both files.
 */
module DataStore {
  import opened Wrappers
  import opened ByteStrings

  type Key = Bytes
  type Value = Bytes

  /** A time point of std::chrono::system_clock. */
  type Time = int

  /** The number of keys removeExpiredKeys samples. */
  const SAMPLE_SIZE: int := 20

  datatype Entry = Entry(value: Value, expiry: Option<Time>)

  /** `entry.expiry && entry.expiry < now` */
  predicate IsExpired(entry: Entry, now: Time) {
    entry.expiry.Some? && entry.expiry.value < now
  }

  /** `shuffled` lists every key of `keys` exactly once, in some order. */
  predicate IsShuffleOf(shuffled: seq<Key>, keys: set<Key>) {
    && Distinct(shuffled)
    && (forall i | 0 <= i < |shuffled| :: shuffled[i] in keys)
    && (forall k | k in keys :: k in shuffled)
  }

  /** `if (keys.size() > n) keys.resize(n)`: the comparison converts `n` to
      size_t, so a negative `n` truncates nothing. */
  function Sample(keys: seq<Key>, n: int): seq<Key> {
    if 0 <= n < |keys| then keys[..n] else keys
  }

  /** The keys of `sample` whose entries in `store` have expired. */
  function ExpiredKeys(store: map<Key, Entry>, sample: seq<Key>, now: Time): (r: set<Key>)
    ensures r <= store.Keys
  {
    set k | k in sample && k in store && IsExpired(store[k], now)
  }

  datatype SweepResult = SweepResult(store: map<Key, Entry>, deleted: nat)

  /** The loop of datastore.cpp's removeExpiredKeys over the keys still to
      visit: each expired entry is erased and counted, and the loop stops as
      soon as `deleted >= 0.25 * numKeys`. Both sides of that float
      comparison are exact for at most 20 keys, so it is `4 * deleted >=
      numKeys` here. */
  function SweepUntilQuarter(store: map<Key, Entry>, keys: seq<Key>, now: Time, numKeys: nat, deleted: nat): SweepResult
    decreases |keys|
  {
    if |keys| == 0 then SweepResult(store, deleted)
    else
      var key := keys[0];
      var expired := key in store && IsExpired(store[key], now);
      var store' := if expired then store - {key} else store;
      var deleted' := if expired then deleted + 1 else deleted;
      if 4 * deleted' >= numKeys then SweepResult(store', deleted')
      else SweepUntilQuarter(store', keys[1..], now, numKeys, deleted')
  }

  /** One iteration of datastore.cpp's sweep, at the `i`-th key of the
      sample: it leads to `store'`, `deleted'` and the key at `next`. */
  lemma SweepUntilQuarterStep(store: map<Key, Entry>, keys: seq<Key>, i: nat, now: Time, numKeys: nat, deleted: nat,
                              store': map<Key, Entry>, next: nat, deleted': nat)
    requires i < |keys| && next == i + 1
    requires var expired := keys[i] in store && IsExpired(store[keys[i]], now);
             && store' == (if expired then store - {keys[i]} else store)
             && deleted' == (if expired then deleted + 1 else deleted)
    ensures SweepUntilQuarter(store, keys[i..], now, numKeys, deleted)
            == if 4 * deleted' >= numKeys then SweepResult(store', deleted')
               else SweepUntilQuarter(store', keys[next..], now, numKeys, deleted')
  {
    assert keys[i..][1..] == keys[next..];
  }

  /** A sequence of distinct keys has as many elements as the set of them. */
  lemma {:induction false} DistinctCount(s: seq<Key>)
    requires Distinct(s)
    ensures |set k | k in s| == |s|
    decreases |s|
  {
    if |s| > 0 {
      assert Distinct(s[1..]);
      DistinctCount(s[1..]);
      assert (set k | k in s) == {s[0]} + (set k | k in s[1..]);
      assert s[0] !in (set k | k in s[1..]);
    }
  }

  /** A shuffle of the keys of `store` is as long as the store is large. */
  lemma ShuffleCount(shuffled: seq<Key>, store: map<Key, Entry>)
    requires IsShuffleOf(shuffled, store.Keys)
    ensures |shuffled| == |store|
  {
    DistinctCount(shuffled);
    assert (set k | k in shuffled) == store.Keys;
  }

  /** getRandomKeys returns `n` keys, or every key when there are no more
      than `n`. */
  lemma SampleCount(shuffled: seq<Key>, store: map<Key, Entry>, n: int)
    requires IsShuffleOf(shuffled, store.Keys)
    ensures |Sample(shuffled, n)| == if 0 <= n < |store| then n else |store|
  {
    ShuffleCount(shuffled, store);
  }

  /** Erasing the keys of `gone` shrinks the store by as many entries. */
  lemma EraseCount(store: map<Key, Entry>, gone: set<Key>)
    requires gone <= store.Keys
    ensures |store - gone| == |store| - |gone|
  {
    assert (store - gone).Keys == store.Keys - gone;
  }

  /** A sweep of a sample of distinct keys finds at most one expired key
      per sampled key. */
  lemma ExpiredKeysBound(store: map<Key, Entry>, sample: seq<Key>, now: Time)
    requires Distinct(sample)
    ensures |ExpiredKeys(store, sample, now)| <= |sample|
  {
    DistinctCount(sample);
    assert ExpiredKeys(store, sample, now) <= set k | k in sample;
    var large := set k | k in sample;
    assert large == ExpiredKeys(store, sample, now) + (large - ExpiredKeys(store, sample, now));
  }

  /** The sweep of datastore.cpp removes expired sampled entries only, leaves
      every other entry as it was, and counts exactly what it removed. */
  lemma {:induction false} EarlyBreakRemovesOnlyExpired(store: map<Key, Entry>, keys: seq<Key>, now: Time, numKeys: nat, deleted: nat)
    ensures var r := SweepUntilQuarter(store, keys, now, numKeys, deleted);
            && r.store.Keys <= store.Keys
            && (forall k | k in r.store :: r.store[k] == store[k])
            && (forall k | k in store && k !in r.store :: k in keys && IsExpired(store[k], now))
            && r.deleted == deleted + |store| - |r.store|
    decreases |keys|
  {
    if |keys| > 0 {
      var key := keys[0];
      var expired := key in store && IsExpired(store[key], now);
      var store' := if expired then store - {key} else store;
      var deleted' := if expired then deleted + 1 else deleted;
      if expired {
        EraseCount(store, {key});
      }
      if 4 * deleted' < numKeys {
        EarlyBreakRemovesOnlyExpired(store', keys[1..], now, numKeys, deleted');
      }
    }
  }

  lemma {:induction false} EarlyBreakCountBound(store: map<Key, Entry>, keys: seq<Key>, now: Time, numKeys: nat, deleted: nat)
    requires 4 * deleted < numKeys
    ensures var r := SweepUntilQuarter(store, keys, now, numKeys, deleted);
            4 * (r.deleted - 1) < numKeys
    decreases |keys|
  {
    if |keys| > 0 {
      var key := keys[0];
      var expired := key in store && IsExpired(store[key], now);
      var store' := if expired then store - {key} else store;
      var deleted' := if expired then deleted + 1 else deleted;
      if 4 * deleted' < numKeys {
        EarlyBreakCountBound(store', keys[1..], now, numKeys, deleted');
      }
    }
  }

  /** The sweep of datastore.cpp over a sample deletes at most a quarter of
      the sample, rounded up: it stops at the first deletion that reaches a
      quarter. */
  lemma EarlyBreakDeletesAtMostAQuarter(store: map<Key, Entry>, sample: seq<Key>, now: Time)
    ensures var r := SweepUntilQuarter(store, sample, now, |sample|, 0);
            r.deleted == 0 || 4 * (r.deleted - 1) < |sample|
  {
    if |sample| > 0 {
      EarlyBreakCountBound(store, sample, now, |sample|, 0);
    }
  }

  lemma ExpiredKeysAppend(store: map<Key, Entry>, keys: seq<Key>, key: Key, now: Time)
    ensures key in store && IsExpired(store[key], now)
            ==> ExpiredKeys(store, keys + [key], now) == ExpiredKeys(store, keys, now) + {key}
    ensures !(key in store && IsExpired(store[key], now))
            ==> ExpiredKeys(store, keys + [key], now) == ExpiredKeys(store, keys, now)
  {
    forall k | k in ExpiredKeys(store, keys + [key], now)
      ensures k in ExpiredKeys(store, keys, now) || k == key
    {
      assert k in keys + [key];
    }
  }

  lemma ExpiredKeysCons(store: map<Key, Entry>, keys: seq<Key>, now: Time)
    requires |keys| > 0
    ensures keys[0] in store && IsExpired(store[keys[0]], now)
            ==> ExpiredKeys(store, keys, now) == {keys[0]} + ExpiredKeys(store, keys[1..], now)
    ensures !(keys[0] in store && IsExpired(store[keys[0]], now))
            ==> ExpiredKeys(store, keys, now) == ExpiredKeys(store, keys[1..], now)
  {
    assert keys == [keys[0]] + keys[1..];
    forall k | k in ExpiredKeys(store, keys, now)
      ensures k in ExpiredKeys(store, keys[1..], now) || k == keys[0]
    {
      assert k in [keys[0]] + keys[1..];
    }
  }

  /** Erasing a key outside the sample changes none of its expired keys. */
  lemma ExpiredKeysAfterErase(store: map<Key, Entry>, keys: seq<Key>, key: Key, now: Time)
    requires key !in keys
    ensures ExpiredKeys(store - {key}, keys, now) == ExpiredKeys(store, keys, now)
  {
  }

  lemma EraseTwice(store: map<Key, Entry>, first: set<Key>, second: set<Key>)
    ensures store - first - second == store - (first + second)
  {
  }

  /** The keys of the sample from `i` on are still in `store`, unchanged. */
  predicate AheadUnchanged(original: map<Key, Entry>, store: map<Key, Entry>, keys: seq<Key>, i: nat) {
    forall j | i <= j < |keys| :: keys[j] in store && keys[j] in original && store[keys[j]] == original[keys[j]]
  }

  /** One step of datastore.h's sweep: after the keys before `keys[i]`
      have erased `erased`, visiting `keys[i]` adds it to the erased keys
      exactly when its entry has expired. */
  lemma SweepStep(original: map<Key, Entry>, erased: set<Key>, keys: seq<Key>, i: nat, now: Time, next: nat)
    requires i < |keys| && Distinct(keys) && next == i + 1
    requires erased == ExpiredKeys(original, keys[..i], now)
    requires AheadUnchanged(original, original - erased, keys, i)
    ensures keys[i] in original - erased && (original - erased)[keys[i]] == original[keys[i]]
    ensures IsExpired(original[keys[i]], now)
            ==> && keys[i] !in erased
                && ExpiredKeys(original, keys[..next], now) == erased + {keys[i]}
                && original - erased - {keys[i]} == original - (erased + {keys[i]})
                && AheadUnchanged(original, original - (erased + {keys[i]}), keys, next)
    ensures !IsExpired(original[keys[i]], now)
            ==> && ExpiredKeys(original, keys[..next], now) == erased
                && AheadUnchanged(original, original - erased, keys, next)
  {
    assert keys[..next] == keys[..i] + [keys[i]];
    ExpiredKeysAppend(original, keys[..i], keys[i], now);
    if IsExpired(original[keys[i]], now) {
      EraseTwice(original, erased, {keys[i]});
    }
  }

  /** Once datastore.h's sweep has visited every key of the sample, it has
      erased the expired entries of the sample, at most one per key. */
  lemma SweepFinished(original: map<Key, Entry>, store: map<Key, Entry>, erased: set<Key>, keys: seq<Key>, now: Time)
    requires Distinct(keys) && erased == ExpiredKeys(original, keys[..|keys|], now) && store == original - erased
    ensures store == original - ExpiredKeys(original, keys, now)
    ensures |erased| == |ExpiredKeys(original, keys, now)| == |original| - |store|
    ensures |erased| <= |keys|
  {
    assert keys[..|keys|] == keys;
    EraseCount(original, erased);
    ExpiredKeysBound(original, keys, now);
  }

  lemma {:induction false} FullSweepBelowQuarter(store: map<Key, Entry>, keys: seq<Key>, now: Time, numKeys: nat, deleted: nat)
    requires Distinct(keys)
    requires 4 * SweepUntilQuarter(store, keys, now, numKeys, deleted).deleted < numKeys
    ensures SweepUntilQuarter(store, keys, now, numKeys, deleted).store == store - ExpiredKeys(store, keys, now)
    decreases |keys|
  {
    if |keys| == 0 {
      assert ExpiredKeys(store, keys, now) == {};
    } else {
      var key := keys[0];
      var expired := key in store && IsExpired(store[key], now);
      var store' := if expired then store - {key} else store;
      var deleted' := if expired then deleted + 1 else deleted;
      var rest := SweepUntilQuarter(store', keys[1..], now, numKeys, deleted');
      assert 4 * deleted' < numKeys;
      assert SweepUntilQuarter(store, keys, now, numKeys, deleted) == rest;
      assert Distinct(keys[1..]);
      FullSweepBelowQuarter(store', keys[1..], now, numKeys, deleted');
      ExpiredKeysCons(store, keys, now);
      if expired {
        assert key !in keys[1..];
        ExpiredKeysAfterErase(store, keys[1..], key, now);
        EraseTwice(store, {key}, ExpiredKeys(store, keys[1..], now));
      }
    }
  }

  /** When the sweep of datastore.cpp deletes less than a quarter of the
      sample it never broke off, and it removed every expired sampled entry,
      as datastore.h's sweep does. */
  lemma EarlyBreakIsFullSweepBelowQuarter(store: map<Key, Entry>, sample: seq<Key>, now: Time)
    requires Distinct(sample)
    requires 4 * SweepUntilQuarter(store, sample, now, |sample|, 0).deleted < |sample|
    ensures SweepUntilQuarter(store, sample, now, |sample|, 0).store == store - ExpiredKeys(store, sample, now)
  {
    FullSweepBelowQuarter(store, sample, now, |sample|, 0);
  }

  /** An entry without an expiry is never removed by either sweep. */
  lemma UnexpiringEntriesSurvive(store: map<Key, Entry>, sample: seq<Key>, now: Time, key: Key)
    requires key in store && store[key].expiry.None?
    ensures key in store - ExpiredKeys(store, sample, now)
    ensures var r := SweepUntilQuarter(store, sample, now, |sample|, 0);
            key in r.store && r.store[key] == store[key]
  {
    EarlyBreakRemovesOnlyExpired(store, sample, now, |sample|, 0);
  }

  class DataStore {
    var store: map<Key, Entry>

    constructor()
      ensures store == map[]
    {
      store := map[];
    }

    /** get: the value of a live entry; an expired entry is erased and
        reported missing. */
    method Get(key: Key, now: Time) returns (r: Option<Value>)
      modifies this
      ensures key !in old(store) ==> r == None && store == old(store)
      ensures key in old(store) && IsExpired(old(store)[key], now) ==> r == None && store == old(store) - {key}
      ensures key in old(store) && !IsExpired(old(store)[key], now) ==> r == Some(old(store)[key].value) && store == old(store)
    {
      if key !in store {
        return None;
      }
      var entry := store[key];
      if entry.expiry.Some? && entry.expiry.value < now {
        store := store - {key};
        return None;
      }
      return Some(entry.value);
    }

    /** set: the key now holds `val`, with no expiry. */
    method Set(key: Key, val: Value)
      modifies this
      ensures store == old(store)[key := Entry(val, None)]
    {
      store := store[key := Entry(val, None)];
    }

    /** setWithExpiry: the key now holds `val`, which expires after `expiry`. */
    method SetWithExpiry(key: Key, val: Value, expiry: Time)
      modifies this
      ensures store == old(store)[key := Entry(val, Some(expiry))]
    {
      store := store[key := Entry(val, Some(expiry))];
    }

    /** exists: whether the key has an entry, expired or not; it erases
        nothing. */
    method Exists(key: Key) returns (b: bool)
      ensures b <==> key in store
    {
      return key in store;
    }

    /** count: the number of entries, expired ones included, narrowed from
        the map's size to the `int` count() returns. */
    method Count() returns (n: int)
      ensures n == NarrowToInt(|store|)
      ensures |store| <= INT_MAX ==> n == |store|
    {
      return NarrowToInt(|store|);
    }

    /** getRandomKeys: at most `n` different keys of the store, the first of
        the shuffled order; all of them when `n` is at least the store's
        size. */
    method GetRandomKeys(n: int, shuffled: seq<Key>) returns (keys: seq<Key>)
      requires IsShuffleOf(shuffled, store.Keys)
      ensures keys == Sample(shuffled, n)
      ensures Distinct(keys)
      ensures forall i | 0 <= i < |keys| :: keys[i] in store
    {
      keys := shuffled;
      if n >= 0 && |keys| > n {
        keys := keys[..n];
      }
    }

    /** removeExpiredKeys of datastore.h: every expired entry of the sample
        is erased, and the count of erased entries is returned. */
    method RemoveExpiredKeys(now: Time, shuffled: seq<Key>) returns (deleted: int)
      requires IsShuffleOf(shuffled, store.Keys)
      modifies this
      ensures store == old(store) - ExpiredKeys(old(store), Sample(shuffled, SAMPLE_SIZE), now)
      ensures deleted == |ExpiredKeys(old(store), Sample(shuffled, SAMPLE_SIZE), now)|
      ensures deleted == |old(store)| - |store|
      ensures deleted <= if |old(store)| < SAMPLE_SIZE then |old(store)| else SAMPLE_SIZE
    {
      var keys := GetRandomKeys(SAMPLE_SIZE, shuffled);
      SampleCount(shuffled, store, SAMPLE_SIZE);
      deleted := EraseExpired(keys, now);
    }

    /** The loop of removeExpiredKeys in datastore.h, over the sampled
        `keys`: each expired entry is erased and counted. */
    method EraseExpired(keys: seq<Key>, now: Time) returns (deleted: int)
      requires Distinct(keys) && forall i | 0 <= i < |keys| :: keys[i] in store
      modifies this
      ensures store == old(store) - ExpiredKeys(old(store), keys, now)
      ensures deleted == |ExpiredKeys(old(store), keys, now)| == |old(store)| - |store|
      ensures deleted <= |keys|
    {
      deleted := 0;
      ghost var erased: set<Key> := {};
      assert old(store) - erased == old(store);
      var i := 0;
      while i < |keys|
        invariant 0 <= i <= |keys|
        invariant erased == ExpiredKeys(old(store), keys[..i], now)
        invariant store == old(store) - erased
        invariant deleted == |erased|
        invariant AheadUnchanged(old(store), store, keys, i)
      {
        ghost var next := i + 1;
        SweepStep(old(store), erased, keys, i, now, next);
        var key := keys[i];
        var entry := store[key];
        if entry.expiry.Some? && entry.expiry.value < now {
          store := store - {key};
          deleted := deleted + 1;
          erased := erased + {key};
        }
        i := i + 1;
      }
      SweepFinished(old(store), store, erased, keys, now);
    }

    /** removeExpiredKeys of datastore.cpp: the same sweep, broken off once a
        quarter of the sample is deleted. */
    method RemoveExpiredKeysWithEarlyBreak(now: Time, shuffled: seq<Key>) returns (deleted: int)
      requires IsShuffleOf(shuffled, store.Keys)
      modifies this
      ensures var sample := Sample(shuffled, SAMPLE_SIZE);
              var r := SweepUntilQuarter(old(store), sample, now, |sample|, 0);
              store == r.store && deleted == r.deleted
    {
      var keys := GetRandomKeys(SAMPLE_SIZE, shuffled);
      var numKeys := |keys|;
      deleted := 0;
      var i := 0;
      while i < |keys|
        invariant 0 <= i <= |keys| && deleted >= 0
        invariant SweepUntilQuarter(store, keys[i..], now, numKeys, deleted) == SweepUntilQuarter(old(store), keys, now, numKeys, 0)
        invariant forall j | i <= j < |keys| :: keys[j] in store
      {
        ghost var before, counted, at := store, deleted, i;
        var key := keys[i];
        var entry := store[key];
        if entry.expiry.Some? && entry.expiry.value < now {
          store := store - {key};
          deleted := deleted + 1;
        }
        i := i + 1;
        SweepUntilQuarterStep(before, keys, at, now, numKeys, counted, store, i, deleted);
        if 4 * deleted >= numKeys {
          break;
        }
      }
    }
  }
}
