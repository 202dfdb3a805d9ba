/**
 * The scenarios of the store's unit tests (tests/datastore_test.cpp), run
 * against the model's DataStore class. Each test's sleeps become time points:
 * the test starts at `t0` and reads after the sleep.
 */
module DataStoreExamples {
  import opened Wrappers
  import opened ByteStrings
  import opened DataStore

  const KEY: Key := Ascii("key")
  const VAL: Value := Ascii("val")
  const KEY0: Key := Ascii("key0")
  const KEY1: Key := Ascii("key1")
  const KEY2: Key := Ascii("key2")
  const KEY3: Key := Ascii("key3")

  /** GetWithoutExpiry: a value set without expiry is read back. */
  method GetWithoutExpiry(now: Time) returns (res: Option<Value>)
    ensures res == Some(VAL)
  {
    var store := new DataStore();
    store.Set(KEY, VAL);
    res := store.Get(KEY, now);
  }

  /** GetExpired: read 200 ms after a set that expires after 100 ms. */
  method GetExpired(t0: Time) returns (res: Option<Value>)
    ensures res == None
  {
    var store := new DataStore();
    store.SetWithExpiry(KEY, VAL, t0 + 100);
    res := store.Get(KEY, t0 + 200);
  }

  /** GetNotExpired: read 100 ms after a set that expires after 200 ms. */
  method GetNotExpired(t0: Time) returns (res: Option<Value>)
    ensures res == Some(VAL)
  {
    var store := new DataStore();
    store.SetWithExpiry(KEY, VAL, t0 + 200);
    res := store.Get(KEY, t0 + 100);
  }

  /** The store of the RemoveExpiredKeys test: two of its four entries have
      expired 500 ms after `t0`. */
  function TestStore(t0: Time): map<Key, Entry> {
    map[KEY0 := Entry(Ascii("val0"), Some(t0 + 1000)),
        KEY1 := Entry(Ascii("val1"), Some(t0 + 200)),
        KEY2 := Entry(Ascii("val2"), Some(t0 + 300)),
        KEY3 := Entry(Ascii("val3"), None)]
  }

  lemma TestKeysDiffer()
    ensures KEY0 != KEY1 && KEY0 != KEY2 && KEY0 != KEY3
    ensures KEY1 != KEY2 && KEY1 != KEY3 && KEY2 != KEY3
  {
    assert KEY0[3] != KEY1[3] && KEY0[3] != KEY2[3] && KEY0[3] != KEY3[3];
    assert KEY1[3] != KEY2[3] && KEY1[3] != KEY3[3] && KEY2[3] != KEY3[3];
  }

  /** Whatever order the keys are shuffled in, the whole store is sampled
      and its two expired keys are the ones a sweep finds. */
  lemma TestStoreSweep(t0: Time, shuffled: seq<Key>)
    requires IsShuffleOf(shuffled, TestStore(t0).Keys)
    ensures |TestStore(t0)| == 4
    ensures Sample(shuffled, SAMPLE_SIZE) == shuffled
    ensures ExpiredKeys(TestStore(t0), shuffled, t0 + 500) == {KEY1, KEY2}
  {
    TestKeysDiffer();
    var store := TestStore(t0);
    assert store.Keys == {KEY0, KEY1, KEY2, KEY3};
    ShuffleCount(shuffled, store);
    var expired := ExpiredKeys(store, shuffled, t0 + 500);
    assert KEY1 in shuffled && KEY2 in shuffled;
    assert expired == {KEY1, KEY2};
  }

  /** RemoveExpiredKeys, against datastore.h's removeExpiredKeys: the two
      expired entries are deleted, then neither of them is found. */
  method RemoveExpiredKeysTest(t0: Time, shuffled: seq<Key>) returns (deletedCount: int, val1: Option<Value>, val2: Option<Value>)
    requires IsShuffleOf(shuffled, TestStore(t0).Keys)
    ensures deletedCount == 2 && val1 == None && val2 == None
  {
    var store := new DataStore();
    store.SetWithExpiry(KEY0, Ascii("val0"), t0 + 1000);
    store.SetWithExpiry(KEY1, Ascii("val1"), t0 + 200);
    store.SetWithExpiry(KEY2, Ascii("val2"), t0 + 300);
    store.Set(KEY3, Ascii("val3"));
    assert store.store == TestStore(t0);
    TestStoreSweep(t0, shuffled);
    TestKeysDiffer();
    deletedCount := store.RemoveExpiredKeys(t0 + 500, shuffled);
    assert store.store == TestStore(t0) - {KEY1, KEY2};
    val1 := store.Get(KEY1, t0 + 500);
    val2 := store.Get(KEY2, t0 + 500);
  }

  /** The same scenario against datastore.cpp's removeExpiredKeys: a sample
      of four keys reaches a quarter at the first deletion, so that version
      deletes one entry, whichever order the keys are shuffled in, and the
      test's expectation of 2 does not hold for it. */
  lemma EarlyBreakDeletesOneInTestStore(t0: Time, shuffled: seq<Key>)
    requires IsShuffleOf(shuffled, TestStore(t0).Keys)
    ensures SweepUntilQuarter(TestStore(t0), Sample(shuffled, SAMPLE_SIZE), t0 + 500, |Sample(shuffled, SAMPLE_SIZE)|, 0).deleted == 1
  {
    var store := TestStore(t0);
    TestStoreSweep(t0, shuffled);
    var r := SweepUntilQuarter(store, shuffled, t0 + 500, |shuffled|, 0);
    ShuffleCount(shuffled, store);
    EarlyBreakDeletesAtMostAQuarter(store, shuffled, t0 + 500);
    EarlyBreakRemovesOnlyExpired(store, shuffled, t0 + 500, |shuffled|, 0);
    if r.deleted == 0 {
      EarlyBreakIsFullSweepBelowQuarter(store, shuffled, t0 + 500);
      TestKeysDiffer();
      EraseCount(store, {KEY1, KEY2});
      assert false;
    }
  }
}
