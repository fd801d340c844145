# cache-demo TTL cache in Dafny

This project models the in-memory TTL cache of `bungeerope/cache-demo` and proves properties of the model. It has two parts.

**The cache item** (`cacheitem.dfy`, module `CacheItems`) is a class.
- Its key, value, lifespan and creation time never change.
- `KeepAlive` updates its last-access time and access count.
- It owns a list of about-to-expire callbacks.

**The cache table** (`cachetable.dfy`, module `CacheTables`) is a class holding five things:
- a map from key to item;
- the sweep interval `cleanupInterval`;
- an optional data loader;
- the added-item callback list;
- the about-to-delete callback list.

The operations are `Add`, `NotFoundAdd`, `Delete`, `Exists`, `Count`, `Value` (with its loader), `Flush`, the callback setters, the expiration sweep `ExpirationCheck`, and `MostAccessed`. `scenarios.dfy` (module `Scenarios`) replays the repository's two tests against the model, plus a timer-driven sweep, an insertion whose own sweep runs late, the loader outcomes, and the deletion finding below.

## How the model works

**Time.** Times and durations are integers counting nanoseconds. Every reading of the clock is a parameter. An insertion reads the clock twice: `NewCacheItem` stamps the new item (cacheitem.go:24), and the sweep that the trigger rule may start reads it again (cachetable.go:107). `Add`, `NotFoundAdd` and `Value` therefore take both readings, `now` and `sweepNow`, with `now <= sweepNow`.

**The timer.** The timer is the field `cleanupInterval`: it is armed exactly when `cleanupInterval > 0`. A timer firing is modelled by calling `ExpirationCheck` with the time it fires.

**Callbacks.** A callback is an opaque id (`CallbackId`). Firing one appends `Fired(hook, id, argument)` to the ghost field `trace`, so the model can state the order of firings and that each callback fires exactly once.

**The sweep's specification.** The sweep reads three things from each item: its lifespan, its last access and its expiry callbacks. They are taken as a value (`Entry`) at the start of the sweep, and the sweep's specification is stated over those values.
- `Survivors` is the set of items the sweep keeps.
- `IsSmallestRemaining` is the new interval.
- `IsEvictionOrder` and `SweepEvents` are the callbacks the sweep fires.

**The loader.** In Go a cached value is an untyped `interface{}`. A loader hit stores a new item whose value is the loader's own item. The model therefore gives values the type `Payload = Data(V) | Nested(CacheItem)`.

Three behaviours of the code are easy to misread, and the model follows the code in each.
1. **Delete.** `Delete` never returns the item and never fires a callback. It removes the key (cachetable.go:209) before `deleteInternal` looks it up, so that lookup always misses (cachetable.go:179-181). See Findings.
2. **Loader hit.** A loader hit does not store the loader's item. It calls `Add` with that item as the new item's value (cachetable.go:246), so a later hit returns the new wrapping item.
3. **Error name.** The loader-miss error is `ErrKeyNotFoundOrLoadable` (cachetable.go:249), modelled as `KeyNotFoundOrLoadable`. The file that defines the error values is not part of this model.

## Model

| member | source | states |
|---|---|---|
| CacheItems.CacheItem.constructor | cacheitem.go:23-34 | A new item has the given key, value and lifespan. Its creation and last-access times are both `now`, its access count is 0 and it has no expiry callbacks; `Key`, `Value`, `LifeSpan`, `CreatedOn`, `AccessedOn` and `AccessCount` return exactly these values. |
| CacheItems.CacheItem.KeepAlive | cacheitem.go:36-41 | Sets the last-access time to `now` and adds exactly 1 to the access count. Only those two fields may change. Under a non-decreasing clock it keeps the item invariant `createdOn <= accessedOn`. |
| CacheItems.CacheItem.LifeSpan | cacheitem.go:43-47 | Returns the lifespan fixed at construction. It is a `const` field, so no operation changes it; the constructor's contract states its value. |
| CacheItems.CacheItem.AccessedOn | cacheitem.go:49-54 | Returns the last access time, which for a valid item is never before its creation time. |
| CacheItems.CacheItem.CreatedOn | cacheitem.go:56-60 | Returns the creation time fixed at construction. It is a `const` field, so no operation changes it; the constructor's contract states its value. |
| CacheItems.CacheItem.AccessCount | cacheitem.go:62-67 | Returns the access count, which for a valid item is never negative. |
| CacheItems.CacheItem.Key | cacheitem.go:69-73 | Returns the key fixed at construction. It is a `const` field, so no operation changes it; the constructor's contract states its value. |
| CacheItems.CacheItem.Value | cacheitem.go:75-79 | Returns the value fixed at construction. It is a `const` field, so no operation changes it; the constructor's contract states its value. |
| CacheItems.CacheItem.SetAboutToExpireCallback | cacheitem.go:81-88 | Afterwards the expiry callback list is exactly `[f]`. |
| CacheItems.CacheItem.AddAboutToExpireCallback | cacheitem.go:90-94 | Appends `f` after the earlier callbacks and keeps their order. |
| CacheItems.CacheItem.RemoveAboutToExpireCallback | cacheitem.go:96-100 | Afterwards the expiry callback list is empty. |
| CacheTables.FiringsInOrder | cachetable.go:155-157 | Firing a callback list produces one event per callback, and event `i` is callback `i` called with the argument (proved by induction). |
| CacheTables.DeleteEventsOrder | cachetable.go:185-197 | A deletion fires each table about-to-delete callback once with the item. Only after all of them does it fire each of the item's expiry callbacks once with the key. |
| CacheTables.SweepEventsAppend | cachetable.go:121-123 | Evicting one more key appends exactly that key's deletion events to the sweep's events. |
| CacheTables.SmallestRemainingSkip | cachetable.go:118-123 | The sweep's running minimum stays correct when it passes over an item with lifespan 0 or an expired item. |
| CacheTables.SmallestRemainingTake | cachetable.go:125-127 | When the running minimum is 0 or larger than the item's remaining life, that remaining life becomes the new correct minimum. |
| CacheTables.SmallestRemainingKeep | cachetable.go:125-127 | When the running minimum is nonzero and no larger than the item's remaining life, it stays the correct minimum. |
| CacheTables.ArmedIffSomethingToExpire | cachetable.go:131-138 | After a sweep the timer is armed (interval > 0) exactly when some remaining item has a nonzero lifespan that has not run out. The interval is never negative. |
| CacheTables.SmallestRemainingUnique | cachetable.go:108-131 | The interval a sweep computes is determined by the items and the time alone, whatever the map's iteration order. |
| CacheTables.NothingExpiresBeforeNextSweep | cachetable.go:131-137 | No untouched item kept by a sweep expires before the next timer firing. |
| CacheTables.SomethingExpiresAtNextSweep | cachetable.go:131-137 | When the timer is armed, at least one kept item has expired by the time it fires. |
| CacheTables.SweepStart | cachetable.go:107-110 | Before the loop the sweep has seen nothing, evicted nothing and fired nothing, and its minimum is 0. |
| CacheTables.SweepKeep | cachetable.go:118-120 | Looking at an item the sweep keeps changes at most the running minimum. The map and the events stay as they were. |
| CacheTables.SweepEvict | cachetable.go:121-123 | Evicting an expired item removes exactly that key and appends exactly its deletion events. |
| CacheTables.SweepDone | cachetable.go:129-131 | When every key has been looked at, the map is exactly the survivors, the minimum covers every item, and the events are those of an eviction order of the expired keys. |
| CacheTables.TriggerRule | cachetable.go:160-163 | The trigger rule starts a sweep only for an item that can expire. When an expiring item does not start one, a timer is already armed, and it fires no later than that item's lifespan. |
| CacheTables.Swap | cachetable.go:273 | Exchanges two neighbouring pairs. The result is a permutation of the input and keeps keys distinct. |
| CacheTables.InsertIntoPrefix | cachetable.go:275 | Extends a prefix sorted by non-increasing access count by one element. The result is a permutation of the input. |
| CacheTables.SortByAccessCount | cachetable.go:275 | The array ends up sorted by non-increasing access count (the order given by `Less`). It is a permutation of the input and keys stay distinct. |
| CacheTables.CacheTable.constructor | cachetable.go:10-25 | A new table is empty, has no timer armed, no loader, no callbacks and an empty trace. |
| CacheTables.CacheTable.Exists | cachetable.go:213-219 | True exactly when the key is in the map. Nothing changes. |
| CacheTables.CacheTable.CountIsExistingKeys | cachetable.go:213-219 | `Count()` equals the number of keys for which `Exists` holds. |
| CacheTables.CacheTable.Count | cachetable.go:28-32 | The count is the number of live items; it is 0 exactly when no key exists. |
| CacheTables.CacheTable.SetDataLoader | cachetable.go:45-49 | Afterwards the loader is exactly `f`. `None` stands for Go's nil and removes the loader. |
| CacheTables.CacheTable.SetAddedItemCallback | cachetable.go:52-57 | Afterwards the added-item list is exactly `[f]`. |
| CacheTables.CacheTable.AddAddedItemCallback | cachetable.go:60-64 | Appends `f` to the added-item list. |
| CacheTables.CacheTable.RemoveAddedItemCallbacks | cachetable.go:67-71 | Afterwards the added-item list is empty. |
| CacheTables.CacheTable.SetAboutToDeleteItemCallback | cachetable.go:74-81 | Afterwards the about-to-delete list is exactly `[f]`. |
| CacheTables.CacheTable.AddAboutToDeleteItemCallback | cachetable.go:84-88 | Appends `f` to the about-to-delete list. |
| CacheTables.CacheTable.RemoveAboutToDeleteItemCallback | cachetable.go:91-95 | Afterwards the about-to-delete list is empty. |
| CacheTables.CacheTable.SweepKey | cachetable.go:110-128 | One loop step does one of three things. With lifespan 0 it skips the item. With an expired item it deletes it through `deleteInternal`. Otherwise it folds the item's remaining life into the minimum. Each step preserves the sweep's progress invariant. |
| CacheTables.CacheTable.ExpirationCheck | cachetable.go:97-140 | See the list below the table. |
| CacheTables.CacheTable.FireAdded | cachetable.go:150-158 | Every added-item callback fires once, in list order, with the new item. |
| CacheTables.CacheTable.AddInternal | cachetable.go:142-164 | Stores the item under its key, then fires the added-item callbacks. It then runs a sweep exactly when the lifespan is positive and either no timer is armed or the lifespan is shorter than the armed interval. Otherwise the interval is unchanged. |
| CacheTables.CacheTable.Add | cachetable.go:166-175 | Returns a fresh item with the given key, value and lifespan, access count 0, and creation and access time `now`, inserted as `AddInternal` does with its sweep at `sweepNow`. `key` maps to that item unless the trigger rule ran a sweep and the whole lifespan passed between `now` and `sweepNow`; in that case `key` is absent. No other key is added or changed. Another key is removed only if it had expired at `sweepNow`, and only when the trigger rule ran a sweep. A kept item with a positive lifespan leaves a timer armed for at most that lifespan. |
| CacheTables.CacheTable.NotFoundAdd | cachetable.go:221-231 | On a present key it returns false and changes nothing. On an absent key it returns true and does what `Add` does with the same two clock readings. |
| CacheTables.CacheTable.DeleteInternal | cachetable.go:178-203 | On an absent key it returns `KeyNotFound` and changes nothing. On a present key it returns the item, fires the table callbacks with the item and then the item's callbacks with the key, and only then removes exactly that key. |
| CacheTables.CacheTable.Delete | cachetable.go:206-211 | As written, the key is absent afterwards and no other key changes. The result is always `KeyNotFound` and no callback fires. |
| CacheTables.CacheTable.DeleteWithCallbacks | cachetable.go:178-211 | The corrected `Delete` has the outcomes of `DeleteInternal` on the unmodified map: it returns the removed item, or `KeyNotFound` with nothing changed. |
| CacheTables.CacheTable.Value | cachetable.go:233-252 | See the list below the table. |
| CacheTables.CacheTable.Flush | cachetable.go:254-264 | Afterwards the map is empty, `Count()` is 0 and no timer is armed. No callback fires. |
| CacheTables.CacheTable.CollectPairs | cachetable.go:281-286 | Builds one pair (key, access count) per live item, each key once. |
| CacheTables.CacheTable.SortedPairs | cachetable.go:281-288 | The snapshot of all live items is sorted by non-increasing access count, lists each key once, and leaves out no item. |
| CacheTables.CacheTable.MostAccessed | cachetable.go:277-304 | See the list below the table. |
| CacheTables.CacheTable.MostAccessedFacts | cachetable.go:290-303 | Taking a prefix of the sorted snapshot yields exactly `MostAccessed`'s postcondition. |
| Scenarios.OneItem | cache_test.go:47-48 | Adding one never-expiring item at `now` to a new table leaves exactly that item, created and accessed at `now`, and no timer. |
| Scenarios.TwoItems | cache_test.go:16-18 | After adding a never-expiring item and then a one-second item at `now`, with both clock readings of each insertion equal to `now`, both are present and the timer is armed for exactly one second. With a later sweep reading the interval would be one second minus the gap. |
| Scenarios.TestCache | cache_test.go:13-43 | Run at a wall-clock time `Start` well after the epoch. Both test lookups succeed with the stored value. The second item has access count 1 and lifespan one second. Its access and creation times are `Start`, whose Unix seconds are not 0. |
| Scenarios.TestExists | cache_test.go:45-53 | An added key exists. |
| Scenarios.SmallestRemainingFor | cachetable.go:125-131 | With one timed entry among never-expiring ones, the sweep's interval is that entry's remaining life. |
| Scenarios.AddSweptLate | cachetable.go:167-172 | A one-second item made at `Start` whose sweep reads the clock one second later is evicted by that sweep. No timer stays armed, and `Add` still returns the item. |
| Scenarios.TimerSweep | cachetable.go:131-137 | When the one-second timer fires, the sweep evicts the one-second item, keeps the never-expiring item and disarms the timer. |
| Scenarios.LoaderHit | cachetable.go:243-248 | A loader hit returns the loader's item. The next lookup returns a different, stored item whose value is the loader's item, with the same lifespan and access count 1. |
| Scenarios.LoaderMiss | cachetable.go:249 | A loader that yields nothing gives `KeyNotFoundOrLoadable` and stores nothing. |
| Scenarios.LoaderCleared | cachetable.go:243-251 | After a loader is set and then cleared with `None`, a miss gives `KeyNotFound` and stores nothing. |
| Scenarios.DeleteAsWritten | cachetable.go:206-211 | `Delete` of a present key with a delete callback registered gives `KeyNotFound`, removes the key and fires nothing. |
| Scenarios.DeleteCorrected | cachetable.go:178-203 | The corrected deletion of the same key returns the item and fires the delete callback exactly once, with that item. |

`ExpirationCheck` at time `now` guarantees four things:
- It deletes exactly the items whose lifespan is nonzero and whose `now - accessedOn` has reached it. It adds no key.
- It fires each expired item's deletion callbacks once, in some eviction order.
- It sets the interval to the smallest `lifeSpan - (now - accessedOn)` among the kept items with nonzero lifespan, or to 0 when there are none.
- The table invariant still holds afterwards.

`Value` has four outcomes:
- **Hit:** it returns the stored item with its access count one higher and its access time `now`. Its expiry callbacks, the map, the timer and the trace are unchanged.
- **Miss, no loader:** `KeyNotFound`, with nothing changed.
- **Miss, loader yields nothing:** `KeyNotFoundOrLoadable`, with nothing changed.
- **Miss, loader yields an item:** it returns the loader's item. A fresh item, whose value is the loader's item and whose lifespan is the loader item's lifespan, is inserted as `Add` does with the readings `now` and `sweepNow`. The key maps to it unless that insertion's own sweep finds it already expired.

`MostAccessed(count)` returns `min(count, Count())` items, or none when `count <= 0`. They are:
- all distinct, and all in the table;
- ordered by non-increasing access count;
- such that no item left out was accessed more often than one taken.

## Left out

- Locking: every `sync.RWMutex` call, including the unlock and relock inside `addInternal` and `deleteInternal`, is left out because it concerns concurrency only.
- The writes done under `RLock` at cachetable.go:46-48 and 61-63 are left out for the same reason. They are data races under concurrency only.
- The mismatched lock modes are not modelled. `deleteInternal` takes `r.RLock()` and defers `r.Unlock()` (cachetable.go:191-192), and `MostAccessed` takes `table.RLock()` and defers `table.Unlock()` (cachetable.go:278-279). In Go each of these is a fatal error ("sync: Unlock of unlocked RWMutex"), even with one goroutine. So every eviction, whether by a sweep (cachetable.go:123) or by a deletion that finds its key, aborts the process, and so does every `MostAccessed` call. `CacheTables.CacheTable.DeleteInternal`, `CacheTables.CacheTable.DeleteWithCallbacks`, the evictions of `CacheTables.CacheTable.ExpirationCheck`, `CacheTables.CacheTable.MostAccessed` and `Scenarios.TimerSweep` describe these operations as if the lock modes matched.
- The timer and goroutine (`time.AfterFunc`, `go table.expirationCheck()`, `cleanupTimer.Stop()`) are represented by `cleanupInterval` alone. A timer firing is a call to `ExpirationCheck`.
- `time.Now()` is replaced by parameters, one per reading (`now`, and `sweepNow` where an insertion sweeps). `time.Time`'s monotonic reading is not modelled.
- Durations are unbounded integers. The int64 range of `time.Duration`, and the saturation of `time.Time.Sub` at its extremes, are not modelled.
- CacheItems.CacheItem.KeepAlive: the access count is an unbounded integer. The int64 field (cacheitem.go:18) would wrap from its maximum to a negative value on the next increment (cacheitem.go:40); the model always adds 1.
- CacheTables.CacheTable.MostAccessed: `count` and the running counter `c` are unbounded integers rather than int64 (cachetable.go:277, 292). Overflow of `c` cannot happen in the model, and needs more than 2^63 items in Go.
- CacheTables.CacheTable.Add: does not promise that `key` is present afterwards. Go stamps the item (cacheitem.go:24) and then sweeps at a second clock reading (cachetable.go:107). The sweep evicts the new item when its whole lifespan has passed between the two, and the contract states exactly when that happens.
- CacheTables.CacheTable.NotFoundAdd: returning true does not promise that `key` is present afterwards, for the same reason as `Add`.
- CacheTables.CacheTable.Value: a loader hit does not promise that `key` is present afterwards, for the same reason as `Add` (cachetable.go:246).
- Logging (`SetLogger`, `log`, the `logger` field) is output only and is left out.
- `Foreach` applies an opaque function to every entry. It is left out because the model treats callers' code as opaque.
- What callbacks and loaders do is left out; they are opaque and assumed not to re-enter the table. The loader is a pure function from key to an optional item.
- The loader's variadic extra arguments (`args ...interface{}`) are left out.
- The named-table registry `Cache(name)` lives in a file that is not part of this model. The table's constructor stands in for it.
- Keys range over a type with equality, a default value and no heap references (`K(==,0,!new)`). The Go code accepts any comparable `interface{}`.
- `sort.Sort` is modelled by an insertion sort. Only the resulting order and the permutation are stated, because ties and Go's map iteration order are unspecified.
- The Go code copies `addItem` and `aboutToDeleteItem` before unlocking. The model takes the same local copies (`addedItem` in `FireAdded`, `callbacks` in `DeleteInternal`). With no concurrency, each copy equals its field.

## Findings

| source | as written | input that shows it | evidently intended | confidence | as-written member | corrected member |
|---|---|---|---|---|---|---|
| cachetable.go:206-211 | `Delete` removes the key (line 209) before `deleteInternal` looks it up (line 179). It therefore always returns `ErrKeyNotFound` and never fires the about-to-delete or expiry callbacks. | A table holding `"key"`, with one about-to-delete callback, then `Delete("key")`. | Return the removed item, and fire the table's about-to-delete callbacks and then the item's expiry callbacks before removing it, as `deleteInternal` does on its own. | not executed | CacheTables.CacheTable.Delete, Scenarios.DeleteAsWritten | CacheTables.CacheTable.DeleteWithCallbacks, Scenarios.DeleteCorrected |
