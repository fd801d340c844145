/**
  Concrete runs of the table, proved from the contracts alone: the
  repository's two tests, a sweep fired by the timer, a loader hit, and the
  deletion path as written next to the evidently intended one.
*/
module Scenarios {
  import opened CacheItems
  import opened CacheTables

  const Second: Duration := 1_000_000_000

  /** A wall-clock time well after the Unix epoch, so that its Unix seconds are not 0. */
  const Start: Time := 1_700_000_000 * Second

  /** A table holding one non-expiring item added at `now`, with no timer armed. */
  method OneItem(name: string, key: string, value: string, now: Time)
      returns (table: CacheTable<string, string>, item: CacheItem<string, string>)
    ensures fresh(table) && fresh(item) && table.Valid() && table.cleanupInterval == 0
    ensures table.items == map[key := item]
    ensures item.lifeSpan == 0 && item.value == Data(value) && item.accessCount == 0
    ensures item.createdOn == now && item.accessedOn == now
  {
    table := new CacheTable<string, string>(name);
    item := table.Add(key, 0, Data(value), now, now);
  }

  /**
    The setup of TestCache: a non-expiring item, then a one-second item,
    both added at `now`, with both clock readings of each insertion equal to
    `now`. Only then does the second arm the timer for exactly one second; a
    later sweep reading would shorten the interval by the gap.
  */
  method TwoItems(name: string, forever: string, brief: string, value: string, now: Time)
      returns (table: CacheTable<string, string>, first: CacheItem<string, string>, second: CacheItem<string, string>)
    requires forever != brief
    ensures fresh(table) && fresh(first) && fresh(second) && table.Valid() && table.cleanupInterval == Second
    ensures table.items == map[forever := first, brief := second]
    ensures first.lifeSpan == 0 && first.value == Data(value) && first.accessCount == 0
    ensures second.lifeSpan == Second && second.value == Data(value) && second.accessCount == 0
    ensures second.createdOn == now && second.accessedOn == now
  {
    table, first := OneItem(name, forever, value, now);
    ghost var v0 := View(table.items);
    assert v0 == map[forever := EntryOf(first)];
    second := table.Add(brief, Second, Data(value), now, now);
    ghost var v := v0[brief := EntryOf(second)];
    assert TriggersSweep(Second, 0) && !Expired(v[forever], now) && !Expired(v[brief], now);
    assert table.items == map[forever := first, brief := second];
    SmallestRemainingFor(table.cleanupInterval, v, now, brief);
  }

  /**
    TestCache, run at `Start`: a non-expiring and an expiring item are both
    found, and the second has been accessed once, keeps its one-second
    lifespan, and has access and creation times that are not the epoch.
  */
  method TestCache() returns (first: Result<CacheItem<string, string>>, second: Result<CacheItem<string, string>>)
    ensures first.Ok? && first.value.value == Data("testvalue")
    ensures second.Ok? && second.value.value == Data("testvalue")
    ensures second.value.accessCount == 1 && second.value.lifeSpan == Second
    ensures second.value.accessedOn == Start && second.value.createdOn == Start
    ensures second.value.accessedOn / Second != 0 && second.value.createdOn / Second != 0
  {
    var table, _, _ := TwoItems("testCacheaaa", "testkey_1", "testkey_2", "testvalue", Start);
    ghost var stored: CacheItem?<string, string>;
    first, stored := table.Value("testkey_1", Start, Start);
    second, stored := table.Value("testkey_2", Start, Start);
  }

  /** TestExists: an added key exists. */
  method TestExists() returns (found: bool)
    ensures found
  {
    var table, _ := OneItem("testExists", "testkey", "testvalue", Start);
    found := table.Exists("testkey");
  }

  /**
    The two clock readings of Add: a one-second item made at `Start` whose
    sweep only runs a second later is evicted by that sweep, and no timer
    stays armed, although Add still returns the item.
  */
  method AddSweptLate() returns (item: CacheItem<string, string>, present: bool, armed: Duration)
    ensures item.key == "brief" && item.lifeSpan == Second && !present && armed == 0
  {
    var table := new CacheTable<string, string>("late");
    item := table.Add("brief", Second, Data("value"), Start, Start + Second);
    ghost var v := map["brief" := EntryOf(item)];
    assert Expired(v["brief"], Start + Second);
    present := table.Exists("brief");
    ArmedIffSomethingToExpire(table.cleanupInterval, v, Start + Second);
    armed := table.cleanupInterval;
  }

  /**
    The one-second item armed the timer for one second; when the timer
    fires, the sweep evicts it, keeps the non-expiring item, and disarms the
    timer.
  */
  method TimerSweep() returns (armed: Duration, keptForever: bool, expiredGone: bool, rearmed: Duration)
    ensures armed == Second && keptForever && expiredGone && rearmed == 0
  {
    var table, _, _ := TwoItems("sweep", "forever", "brief", "value", 0);
    ghost var v := View(table.items);
    armed := table.cleanupInterval;
    table.ExpirationCheck(armed);
    assert Expired(v["brief"], Second) && !Expired(v["forever"], Second);
    keptForever := table.Exists("forever");
    expiredGone := !table.Exists("brief");
    ArmedIffSomethingToExpire(table.cleanupInterval, v, Second);
    rearmed := table.cleanupInterval;
  }

  /** With one timed entry beside untimed ones, the smallest remaining life is that entry's. */
  lemma SmallestRemainingFor(d: Duration, v: map<string, Entry>, now: Time, key: string)
    requires key in v && Timed(v[key], now)
    requires forall k :: k in v && k != key ==> v[k].lifeSpan == 0
    requires IsSmallestRemaining(d, v, v.Keys, now)
    ensures d == Remaining(v[key], now)
  {
    var w :| w in v && Timed(v[w], now) && Remaining(v[w], now) == d;
  }

  /**
    A miss with a loader returns the loader's item but stores a new item
    wrapping it; the next lookup returns that wrapper, not the loader's item.
  */
  method LoaderHit() returns (loaded: CacheItem<string, string>, first: Result<CacheItem<string, string>>,
                              second: Result<CacheItem<string, string>>)
    ensures first == Ok(loaded)
    ensures second.Ok? && second.value != loaded && second.value.value == Nested(loaded)
    ensures second.value.lifeSpan == loaded.lifeSpan && second.value.accessCount == 1
  {
    var table := new CacheTable<string, string>("loader");
    loaded := new CacheItem("origin", 0, Data("loaded"), 0);
    var item := loaded;
    table.SetDataLoader(Some((k: string) => Some(item)));
    ghost var stored: CacheItem?<string, string>;
    first, stored := table.Value("key", 0, 0);
    second, stored := table.Value("key", 0, 0);
  }

  /** A miss whose loader supplies nothing reports the key as neither found nor loadable. */
  method LoaderMiss() returns (r: Result<CacheItem<string, string>>, present: bool)
    ensures r == Err(KeyNotFoundOrLoadable) && !present
  {
    var table := new CacheTable<string, string>("loader");
    table.SetDataLoader(Some((k: string) => None));
    ghost var stored: CacheItem?<string, string>;
    r, stored := table.Value("key", 0, 0);
    present := table.Exists("key");
  }

  /** Installing no loader (Go's nil) after one removes it: a miss is then plain KeyNotFound. */
  method LoaderCleared() returns (r: Result<CacheItem<string, string>>, present: bool)
    ensures r == Err(KeyNotFound) && !present
  {
    var table := new CacheTable<string, string>("loader");
    var item := new CacheItem("origin", 0, Data("loaded"), 0);
    table.SetDataLoader(Some((k: string) => Some(item)));
    table.SetDataLoader(None);
    ghost var stored: CacheItem?<string, string>;
    r, stored := table.Value("key", 0, 0);
    present := table.Exists("key");
  }

  /**
    Delete as written on a present key with a delete callback registered:
    the key is gone, yet the answer is KeyNotFound and the callback never
    fires.
  */
  method DeleteAsWritten() returns (r: Result<CacheItem<string, string>>, present: bool, ghost fired: nat)
    ensures r == Err(KeyNotFound) && !present && fired == 0
  {
    var table := new CacheTable<string, string>("delete");
    table.SetAboutToDeleteItemCallback(7);
    var item := table.Add("key", 0, Data("value"), 0, 0);
    ghost var before := |table.trace|;
    r := table.Delete("key");
    present := table.Exists("key");
    fired := |table.trace| - before;
  }

  /**
    The corrected deletion on the same table returns the item and fires
    the delete callback exactly once, with the item.
  */
  method DeleteCorrected() returns (r: Result<CacheItem<string, string>>, present: bool, item: CacheItem<string, string>,
                                    ghost fired: seq<Event<string, string>>)
    ensures r == Ok(item) && !present
    ensures fired == [Fired(OnAboutToDelete, 7, ItemArg(item))]
  {
    var table := new CacheTable<string, string>("delete");
    table.SetAboutToDeleteItemCallback(7);
    item := table.Add("key", 0, Data("value"), 0, 0);
    ghost var before := table.trace;
    r := table.DeleteWithCallbacks("key");
    present := table.Exists("key");
    DeleteEventsOrder([7], item, [], "key");
    fired := table.trace[|before|..];
    assert table.trace == before + [Fired(OnAboutToDelete, 7, ItemArg(item))];
  }
}
