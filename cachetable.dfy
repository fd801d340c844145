/**
  The cache table: a map from key to item, a self-rescheduling expiration
  sweep, an optional loader consulted on a miss, and two lists of callbacks
  (after an item is added, before an item is deleted).

  The sweep's timer is modelled by `cleanupInterval`: the timer is armed
  exactly when `cleanupInterval > 0`, and a sweep is run by calling
  ExpirationCheck with the current time. Callbacks are ids; firing one
  appends an event to the ghost `trace`.
*/
module CacheTables {
  import opened CacheItems

  datatype Option<T> = None | Some(value: T)

  datatype CacheError = KeyNotFound | KeyNotFoundOrLoadable

  datatype Result<T> = Ok(value: T) | Err(error: CacheError)

  /** Which of the three callback lists a callback was taken from. */
  datatype Hook = OnAdded | OnAboutToDelete | OnAboutToExpire

  /** Table callbacks receive the item, item callbacks receive the key. */
  datatype Argument<K, V> = ItemArg(item: CacheItem<K, V>) | KeyArg(key: K)

  datatype Event<K, V> = Fired(hook: Hook, callback: CallbackId, arg: Argument<K, V>)

  /** The snapshot MostAccessed sorts: a key and its access count. */
  datatype CacheItemPair<K> = CacheItemPair(key: K, accessCount: int)

  function Min(a: int, b: int): int { if a <= b then a else b }

  // ---------------------------------------------------------------------
  // Callback firing

  /** The events of firing every callback of `callbacks`, with `arg`, one after another. */
  function Firings<K, V>(hook: Hook, callbacks: seq<CallbackId>, arg: Argument<K, V>): seq<Event<K, V>>
    decreases |callbacks|
  {
    if callbacks == [] then []
    else Firings(hook, callbacks[..|callbacks| - 1], arg) + [Fired(hook, callbacks[|callbacks| - 1], arg)]
  }

  /** Each callback fires exactly once, in the order of its list. */
  lemma {:induction false} FiringsInOrder<K, V>(hook: Hook, callbacks: seq<CallbackId>, arg: Argument<K, V>)
    ensures |Firings(hook, callbacks, arg)| == |callbacks|
    ensures forall i :: 0 <= i < |callbacks| ==> Firings(hook, callbacks, arg)[i] == Fired(hook, callbacks[i], arg)
    decreases |callbacks|
  {
    if callbacks != [] {
      FiringsInOrder(hook, callbacks[..|callbacks| - 1], arg);
    }
  }

  /**
    What deleting `item` under `key` fires: every table about-to-delete
    callback with the item, then every one of the item's own about-to-expire
    callbacks `expiry` with the key.
  */
  function DeleteEvents<K, V>(callbacks: seq<CallbackId>, item: CacheItem<K, V>, expiry: seq<CallbackId>, key: K): seq<Event<K, V>>
  {
    Firings(OnAboutToDelete, callbacks, ItemArg(item)) + Firings(OnAboutToExpire, expiry, KeyArg(key))
  }

  /** A deletion fires each table callback once with the item, and only then each item callback once with the key. */
  lemma DeleteEventsOrder<K, V>(callbacks: seq<CallbackId>, item: CacheItem<K, V>, expiry: seq<CallbackId>, key: K)
    ensures var events := DeleteEvents(callbacks, item, expiry, key);
      && |events| == |callbacks| + |expiry|
      && (forall i :: 0 <= i < |callbacks| ==> events[i] == Fired(OnAboutToDelete, callbacks[i], ItemArg(item)))
      && (forall i :: 0 <= i < |expiry| ==> events[|callbacks| + i] == Fired(OnAboutToExpire, expiry[i], KeyArg(key)))
  {
    FiringsInOrder(OnAboutToDelete, callbacks, ItemArg(item));
    FiringsInOrder<K, V>(OnAboutToExpire, expiry, KeyArg(key));
  }

  // ---------------------------------------------------------------------
  // Expiration

  /** What the sweep reads of an item: its lifespan, its last access and its expiry callbacks. */
  datatype Entry = Entry(lifeSpan: Duration, accessedOn: Time, aboutToExpire: seq<CallbackId>)

  function EntryOf<K, V>(item: CacheItem<K, V>): Entry
    reads item
  {
    Entry(item.lifeSpan, item.accessedOn, item.aboutToExpire)
  }

  /** The entries of a whole table, as values. */
  ghost function View<K, V>(m: map<K, CacheItem<K, V>>): map<K, Entry>
    reads m.Values
  {
    map k | k in m :: EntryOf(m[k])
  }

  /** The sweep's eviction test: a nonzero lifespan that has run out since the last access. */
  predicate Expired(e: Entry, now: Time)
  {
    e.lifeSpan != 0 && now - e.accessedOn >= e.lifeSpan
  }

  /** An entry the sweep keeps and that will expire later. */
  predicate Timed(e: Entry, now: Time)
  {
    e.lifeSpan != 0 && now - e.accessedOn < e.lifeSpan
  }

  /** How long an entry has left to live at `now`. */
  function Remaining(e: Entry, now: Time): Duration
  {
    e.lifeSpan - (now - e.accessedOn)
  }

  /** The items of `m` that a sweep at `now` keeps, judged by their entries `v`. */
  function Survivors<K, V>(m: map<K, CacheItem<K, V>>, v: map<K, Entry>, now: Time): map<K, CacheItem<K, V>>
  {
    map k | k in m && k in v && !Expired(v[k], now) :: m[k]
  }

  /**
    `d` is the smallest time-to-live at `now` among the entries of `v` under
    `keys` that a sweep keeps and that will expire, or 0 when there is none.
  */
  ghost predicate IsSmallestRemaining<K>(d: Duration, v: map<K, Entry>, keys: set<K>, now: Time)
    requires keys <= v.Keys
  {
    && (d == 0 <==> forall k :: k in keys ==> !Timed(v[k], now))
    && (d != 0 ==> exists k :: k in keys && Timed(v[k], now) && Remaining(v[k], now) == d)
    && (forall k :: k in keys && Timed(v[k], now) ==> d <= Remaining(v[k], now))
  }

  /** The order in which a sweep deleted keys: each expired key of `v` exactly once. */
  ghost predicate IsEvictionOrder<K>(order: seq<K>, v: map<K, Entry>, now: Time)
  {
    && (forall i, j :: 0 <= i < j < |order| ==> order[i] != order[j])
    && (forall i :: 0 <= i < |order| ==> order[i] in v && Expired(v[order[i]], now))
    && (forall k :: k in v && Expired(v[k], now) ==> k in order)
  }

  /** The events of deleting the keys of `order`, one after another. */
  function SweepEvents<K, V>(order: seq<K>, m: map<K, CacheItem<K, V>>, v: map<K, Entry>, callbacks: seq<CallbackId>): seq<Event<K, V>>
    requires forall i :: 0 <= i < |order| ==> order[i] in m && order[i] in v
    decreases |order|
  {
    if order == [] then []
    else
      var last := order[|order| - 1];
      SweepEvents(order[..|order| - 1], m, v, callbacks) + DeleteEvents(callbacks, m[last], v[last].aboutToExpire, last)
  }

  /** Deleting one more key appends that key's deletion events. */
  lemma SweepEventsAppend<K, V>(order: seq<K>, key: K, m: map<K, CacheItem<K, V>>, v: map<K, Entry>, callbacks: seq<CallbackId>)
    requires forall i :: 0 <= i < |order| ==> order[i] in m && order[i] in v
    requires key in m && key in v
    ensures SweepEvents(order + [key], m, v, callbacks)
         == SweepEvents(order, m, v, callbacks) + DeleteEvents(callbacks, m[key], v[key].aboutToExpire, key)
  {
    assert (order + [key])[..|order|] == order;
  }

  // The three ways one more entry changes the sweep's running minimum.

  lemma SmallestRemainingSkip<K>(d: Duration, v: map<K, Entry>, keys: set<K>, key: K, now: Time)
    requires keys <= v.Keys && key in v
    requires IsSmallestRemaining(d, v, keys, now)
    requires !Timed(v[key], now)
    ensures IsSmallestRemaining(d, v, keys + {key}, now)
  {
    if d != 0 {
      var w :| w in keys && Timed(v[w], now) && Remaining(v[w], now) == d;
      assert w in keys + {key};
    }
  }

  lemma SmallestRemainingTake<K>(d: Duration, d': Duration, v: map<K, Entry>, keys: set<K>, key: K, now: Time)
    requires keys <= v.Keys && key in v
    requires IsSmallestRemaining(d, v, keys, now)
    requires Timed(v[key], now) && d' == Remaining(v[key], now) && (d == 0 || d' < d)
    ensures IsSmallestRemaining(d', v, keys + {key}, now)
  {
    assert key in keys + {key};
  }

  lemma SmallestRemainingKeep<K>(d: Duration, v: map<K, Entry>, keys: set<K>, key: K, now: Time)
    requires keys <= v.Keys && key in v
    requires IsSmallestRemaining(d, v, keys, now)
    requires Timed(v[key], now) && d != 0 && d <= Remaining(v[key], now)
    ensures IsSmallestRemaining(d, v, keys + {key}, now)
  {
    var w :| w in keys && Timed(v[w], now) && Remaining(v[w], now) == d;
    assert w in keys + {key};
  }

  /** The timer is armed after a sweep exactly when an entry is left that will expire. */
  lemma ArmedIffSomethingToExpire<K>(d: Duration, v: map<K, Entry>, now: Time)
    requires IsSmallestRemaining(d, v, v.Keys, now)
    ensures d > 0 <==> exists k :: k in v && Timed(v[k], now)
    ensures d >= 0
  {
  }

  /** The interval a sweep computes is determined by the entries and the time. */
  lemma SmallestRemainingUnique<K>(d1: Duration, d2: Duration, v: map<K, Entry>, now: Time)
    requires IsSmallestRemaining(d1, v, v.Keys, now) && IsSmallestRemaining(d2, v, v.Keys, now)
    ensures d1 == d2
  {
    if d1 != 0 {
      var k1 :| k1 in v && Timed(v[k1], now) && Remaining(v[k1], now) == d1;
      var k2 :| k2 in v && Timed(v[k2], now) && Remaining(v[k2], now) == d2;
      assert d2 <= Remaining(v[k1], now) && d1 <= Remaining(v[k2], now);
    }
  }

  /**
    No entry left by a sweep with a nonzero lifespan runs out before the
    next sweep is due, if nobody touches it in between.
  */
  lemma NothingExpiresBeforeNextSweep<K>(d: Duration, v: map<K, Entry>, now: Time, t: Time)
    requires IsSmallestRemaining(d, v, v.Keys, now)
    requires now <= t < now + d
    ensures forall k :: k in v && Timed(v[k], now) ==> !Expired(v[k], t)
  {
  }

  /** When the next sweep is due, at least one entry has run out: the timer never fires in vain. */
  lemma SomethingExpiresAtNextSweep<K>(d: Duration, v: map<K, Entry>, now: Time)
    requires IsSmallestRemaining(d, v, v.Keys, now)
    requires d > 0
    ensures exists k :: k in v && Timed(v[k], now) && Expired(v[k], now + d)
  {
    var k :| k in v && Timed(v[k], now) && Remaining(v[k], now) == d;
    assert Expired(v[k], now + d);
  }

  /**
    What stays fixed during one sweep: the items `m` it started from, their
    entries `v`, its time `now`, the delete callbacks, and the events fired
    before it.
  */
  datatype SweepContext<K, V> = SweepContext(m: map<K, CacheItem<K, V>>, v: map<K, Entry>, now: Time,
                                             callbacks: seq<CallbackId>, before: seq<Event<K, V>>)

  /**
    Where the sweep `c` stands once it has looked at the keys `seen` and has
    `pending` left: `items` and `trace` are what the table holds and has
    fired so far, `order` the keys it evicted, and `d` the smallest
    remaining time-to-live among `seen`.
  */
  ghost predicate SweepProgress<K, V>(c: SweepContext<K, V>, pending: set<K>, seen: set<K>, order: seq<K>, d: Duration,
                                      items: map<K, CacheItem<K, V>>, trace: seq<Event<K, V>>)
  {
    && c.m.Keys == c.v.Keys
    && pending !! seen && pending + seen == c.m.Keys
    && (forall k :: k in items ==> k in c.m && (k in pending || !Expired(c.v[k], c.now)) && items[k] == c.m[k])
    && (forall k :: k in c.m && (k in pending || !Expired(c.v[k], c.now)) ==> k in items)
    && (forall i, j :: 0 <= i < j < |order| ==> order[i] != order[j])
    && (forall i :: 0 <= i < |order| ==> order[i] in seen && Expired(c.v[order[i]], c.now))
    && (forall k :: k in seen && Expired(c.v[k], c.now) ==> k in order)
    && trace == c.before + SweepEvents(order, c.m, c.v, c.callbacks)
    && 0 <= d
    && IsSmallestRemaining(d, c.v, seen, c.now)
  }

  lemma SweepStart<K, V>(c: SweepContext<K, V>)
    requires c.m.Keys == c.v.Keys
    ensures SweepProgress(c, c.m.Keys, {}, [], 0, c.m, c.before)
  {
  }

  /** Looking at a key the sweep keeps changes only the running minimum. */
  lemma SweepKeep<K, V>(c: SweepContext<K, V>, pending: set<K>, seen: set<K>, order: seq<K>, d: Duration, d': Duration,
                        items: map<K, CacheItem<K, V>>, trace: seq<Event<K, V>>, key: K)
    requires SweepProgress(c, pending, seen, order, d, items, trace)
    requires key in pending && !Expired(c.v[key], c.now)
    requires 0 <= d' && IsSmallestRemaining(d', c.v, seen + {key}, c.now)
    ensures SweepProgress(c, pending - {key}, seen + {key}, order, d', items, trace)
  {
  }

  /** Evicting an expired key removes it and appends its deletion events. */
  lemma SweepEvict<K, V>(c: SweepContext<K, V>, pending: set<K>, seen: set<K>, order: seq<K>, d: Duration,
                         items: map<K, CacheItem<K, V>>, trace: seq<Event<K, V>>, key: K)
    requires SweepProgress(c, pending, seen, order, d, items, trace)
    requires key in pending && Expired(c.v[key], c.now)
    ensures SweepProgress(c, pending - {key}, seen + {key}, order + [key], d,
                          items - {key}, trace + DeleteEvents(c.callbacks, c.m[key], c.v[key].aboutToExpire, key))
  {
    SmallestRemainingSkip(d, c.v, seen, key, c.now);
    SweepEventsAppend(order, key, c.m, c.v, c.callbacks);
    var order' := order + [key];
    assert forall i :: 0 <= i < |order| ==> order'[i] == order[i];
  }

  /** A sweep with nothing pending has reached its outcome. */
  lemma SweepDone<K, V>(c: SweepContext<K, V>, seen: set<K>, order: seq<K>, d: Duration,
                        items: map<K, CacheItem<K, V>>, trace: seq<Event<K, V>>)
    requires SweepProgress(c, {}, seen, order, d, items, trace)
    ensures items == Survivors(c.m, c.v, c.now)
    ensures IsSmallestRemaining(d, c.v, c.v.Keys, c.now)
    ensures IsEvictionOrder(order, c.v, c.now) && trace == c.before + SweepEvents(order, c.m, c.v, c.callbacks)
  {
  }

  /** The trigger rule of an insertion: a nonzero lifespan with no timer armed, or one shorter than the armed interval. */
  predicate TriggersSweep(lifeSpan: Duration, expDur: Duration)
  {
    lifeSpan > 0 && (expDur == 0 || lifeSpan < expDur)
  }

  /**
    What the trigger rule achieves: only an item that can expire starts a
    sweep, and when an expiring item does not, the timer already armed fires
    no later than that item's lifespan runs out.
  */
  lemma TriggerRule(lifeSpan: Duration, expDur: Duration)
    requires 0 <= expDur
    ensures TriggersSweep(lifeSpan, expDur) ==> 0 < lifeSpan
    ensures 0 < lifeSpan && !TriggersSweep(lifeSpan, expDur) ==> 0 < expDur <= lifeSpan
  {
  }

  // ---------------------------------------------------------------------
  // MostAccessed's ordering

  ghost predicate SortedByAccessCount<K>(s: seq<CacheItemPair<K>>)
  {
    forall i, j :: 0 <= i < j < |s| ==> s[i].accessCount >= s[j].accessCount
  }

  ghost predicate DistinctKeys<K>(s: seq<CacheItemPair<K>>)
  {
    forall i, j :: 0 <= i < j < |s| ==> s[i].key != s[j].key
  }

  /** Exchanges two neighbouring entries of the snapshot. */
  method Swap<K>(a: array<CacheItemPair<K>>, j: int)
    requires 0 < j < a.Length
    modifies a
    ensures a[..] == old(a[..])[j - 1 := old(a[j])][j := old(a[j - 1])]
    ensures multiset(a[..]) == old(multiset(a[..]))
    ensures old(DistinctKeys(a[..])) ==> DistinctKeys(a[..])
  {
    a[j - 1], a[j] := a[j], a[j - 1];
  }

  /** Moves `a[i]` left into the sorted prefix `a[..i]`. */
  method InsertIntoPrefix<K>(a: array<CacheItemPair<K>>, i: int)
    requires 0 <= i < a.Length
    requires SortedByAccessCount(a[..i])
    modifies a
    ensures SortedByAccessCount(a[..i + 1])
    ensures multiset(a[..]) == old(multiset(a[..]))
    ensures old(DistinctKeys(a[..])) ==> DistinctKeys(a[..])
  {
    ghost var distinct := DistinctKeys(a[..]);
    var j := i;
    while j > 0 && a[j - 1].accessCount < a[j].accessCount
      invariant 0 <= j <= i
      invariant forall l, m :: 0 <= l < m <= i && m != j ==> a[l].accessCount >= a[m].accessCount
      invariant multiset(a[..]) == old(multiset(a[..]))
      invariant distinct ==> DistinctKeys(a[..])
    {
      Swap(a, j);
      j := j - 1;
    }
  }

  /** Sorts `a` by non-increasing access count; ties end up in no particular order. */
  method SortByAccessCount<K>(a: array<CacheItemPair<K>>)
    modifies a
    ensures SortedByAccessCount(a[..])
    ensures multiset(a[..]) == old(multiset(a[..]))
    ensures old(DistinctKeys(a[..])) ==> DistinctKeys(a[..])
  {
    ghost var distinct := DistinctKeys(a[..]);
    var i := 0;
    while i < a.Length
      invariant 0 <= i <= a.Length
      invariant SortedByAccessCount(a[..i])
      invariant multiset(a[..]) == old(multiset(a[..]))
      invariant distinct ==> DistinctKeys(a[..])
    {
      InsertIntoPrefix(a, i);
      i := i + 1;
    }
    assert a[..i] == a[..];
  }

  // ---------------------------------------------------------------------
  // The table

  class CacheTable<K(==,0,!new), V> {
    const name: string
    var items: map<K, CacheItem<K, V>>
    var cleanupInterval: Duration
    var loadData: Option<K -> Option<CacheItem<K, V>>>
    var addItem: seq<CallbackId>
    var aboutToDeleteItem: seq<CallbackId>
    /** Every callback fired so far, oldest first. */
    ghost var trace: seq<Event<K, V>>

    /**
      Every item sits under its own key (so no item is shared by two keys),
      and the interval is never negative.
    */
    ghost predicate Valid()
      reads this
    {
      && (forall k :: k in items ==> items[k].key == k)
      && 0 <= cleanupInterval
    }

    /** An empty table with no timer armed, no loader and no callbacks. */
    constructor (name: string)
      ensures Valid()
      ensures this.name == name && items == map[] && cleanupInterval == 0
      ensures loadData == None && addItem == [] && aboutToDeleteItem == [] && trace == []
    {
      this.name := name;
      items := map[];
      cleanupInterval := 0;
      loadData := None;
      addItem := [];
      aboutToDeleteItem := [];
      trace := [];
    }

    predicate Exists(key: K)
      reads this
    {
      key in items
    }

    /** The count is exactly the number of keys that exist. */
    lemma CountIsExistingKeys()
      ensures Count() == |set k | k in items && Exists(k)|
    {
      assert (set k | k in items && Exists(k)) == items.Keys;
    }

    /** The number of live items; it is 0 exactly when no key exists. */
    function Count(): (n: nat)
      reads this
      ensures n == 0 <==> forall k :: !Exists(k)
    {
      if items == map[] then 0
      else
        assert exists k :: Exists(k) by {
          var k :| k in items.Keys;
          assert Exists(k);
        }
        |items|
    }

    // Callback registration

    /** Installs the loader `f`; `None`, Go's nil, removes any loader. */
    method SetDataLoader(f: Option<K -> Option<CacheItem<K, V>>>)
      modifies this`loadData
      ensures loadData == f
    {
      loadData := f;
    }

    method SetAddedItemCallback(f: CallbackId)
      modifies this`addItem
      ensures addItem == [f]
    {
      if |addItem| > 0 {
        RemoveAddedItemCallbacks();
      }
      AddAddedItemCallback(f);
    }

    method AddAddedItemCallback(f: CallbackId)
      modifies this`addItem
      ensures addItem == old(addItem) + [f]
    {
      addItem := addItem + [f];
    }

    method RemoveAddedItemCallbacks()
      modifies this`addItem
      ensures addItem == []
    {
      addItem := [];
    }

    method SetAboutToDeleteItemCallback(f: CallbackId)
      modifies this`aboutToDeleteItem
      ensures aboutToDeleteItem == [f]
    {
      if |aboutToDeleteItem| > 0 {
        RemoveAboutToDeleteItemCallback();
      }
      aboutToDeleteItem := aboutToDeleteItem + [f];
    }

    method AddAboutToDeleteItemCallback(f: CallbackId)
      modifies this`aboutToDeleteItem
      ensures aboutToDeleteItem == old(aboutToDeleteItem) + [f]
    {
      aboutToDeleteItem := aboutToDeleteItem + [f];
    }

    method RemoveAboutToDeleteItemCallback()
      modifies this`aboutToDeleteItem
      ensures aboutToDeleteItem == []
    {
      aboutToDeleteItem := [];
    }

    // Expiration sweep

    /**
      The outcome of a sweep at `now` over the items `m` with entries `v`,
      after the events `before`: the expired items are gone, each one's
      delete callbacks fired in some eviction order, and the interval is the
      smallest remaining time-to-live.
    */
    ghost predicate Swept(m: map<K, CacheItem<K, V>>, v: map<K, Entry>, before: seq<Event<K, V>>, now: Time)
      reads this
    {
      && m.Keys == v.Keys
      && items == Survivors(m, v, now)
      && IsSmallestRemaining(cleanupInterval, v, v.Keys, now)
      && exists order :: IsEvictionOrder(order, v, now) && trace == before + SweepEvents(order, m, v, aboutToDeleteItem)
    }

    /**
      One step of the sweep: looks at `key`; evicts it if it has expired, and
      otherwise folds its remaining time-to-live into the running minimum.
    */
    method SweepKey(key: K, now: Time, smallest: Duration, ghost c: SweepContext<K, V>,
                    ghost pending: set<K>, ghost seen: set<K>, ghost order: seq<K>)
        returns (smallest': Duration, ghost order': seq<K>)
      requires Valid() && key in pending && c.now == now && c.callbacks == aboutToDeleteItem
      requires SweepProgress(c, pending, seen, order, smallest, items, trace)
      requires forall k :: k in c.m ==> EntryOf(c.m[k]) == c.v[k]
      modifies this`items, this`trace
      ensures Valid()
      ensures SweepProgress(c, pending - {key}, seen + {key}, order', smallest', items, trace)
    {
      var item := items[key];
      var lifeSpan := item.lifeSpan;
      var accessedOn := item.accessedOn;
      assert EntryOf(item) == c.v[key];
      smallest', order' := smallest, order;
      if lifeSpan == 0 {
        SmallestRemainingSkip(smallest, c.v, seen, key, now);
        SweepKeep(c, pending, seen, order, smallest, smallest, items, trace, key);
      } else if now - accessedOn >= lifeSpan {
        SweepEvict(c, pending, seen, order, smallest, items, trace, key);
        var _ := DeleteInternal(key);
        order' := order + [key];
      } else {
        if smallest == 0 || lifeSpan - (now - accessedOn) < smallest {
          SmallestRemainingTake(smallest, lifeSpan - (now - accessedOn), c.v, seen, key, now);
          smallest' := lifeSpan - (now - accessedOn);
        } else {
          SmallestRemainingKeep(smallest, c.v, seen, key, now);
        }
        SweepKeep(c, pending, seen, order, smallest, smallest', items, trace, key);
      }
    }

    /**
      The expiration sweep at time `now`: evicts every expired item, firing
      its delete callbacks, and sets the interval to the smallest remaining
      time-to-live of the rest (0, timer disarmed, when none will expire).
    */
    method ExpirationCheck(now: Time)
      requires Valid()
      modifies this`items, this`cleanupInterval, this`trace
      ensures Valid()
      ensures Swept(old(items), old(View(items)), old(trace), now)
    {
      ghost var c := SweepContext(items, View(items), now, aboutToDeleteItem, trace);
      ghost var seen: set<K> := {};
      ghost var order: seq<K> := [];
      var smallestDuration := 0;
      var pending := items.Keys;
      SweepStart(c);
      while pending != {}
        invariant Valid()
        invariant SweepProgress(c, pending, seen, order, smallestDuration, items, trace)
        invariant forall k :: k in c.m ==> EntryOf(c.m[k]) == c.v[k]
        invariant c.callbacks == aboutToDeleteItem
        invariant cleanupInterval == old(cleanupInterval)
        decreases pending
      {
        var key :| key in pending;
        smallestDuration, order := SweepKey(key, now, smallestDuration, c, pending, seen, order);
        pending := pending - {key};
        seen := seen + {key};
      }
      SweepDone(c, seen, order, smallestDuration, items, trace);
      cleanupInterval := smallestDuration;
    }

    // Insertion

    /**
      The outcome of inserting `item` into the items `m` with entries `v`,
      after the events `before`, when the armed interval was `expDur`: the
      added callbacks fire with the item, and a sweep follows exactly when
      the trigger rule says so.
    */
    ghost predicate Inserted(m: map<K, CacheItem<K, V>>, v: map<K, Entry>, expDur: Duration, before: seq<Event<K, V>>,
                             item: CacheItem<K, V>, now: Time)
      reads this, item
    {
      var added := m[item.key := item];
      var fired := before + Firings(OnAdded, addItem, ItemArg(item));
      if TriggersSweep(item.lifeSpan, expDur) then Swept(added, v[item.key := EntryOf(item)], fired, now)
      else items == added && cleanupInterval == expDur && trace == fired
    }

    /** Fires every added-item callback once, in order, with `item`. */
    method FireAdded(item: CacheItem<K, V>)
      modifies this`trace
      ensures trace == old(trace) + Firings(OnAdded, addItem, ItemArg(item))
    {
      var addedItem := addItem;
      var i := 0;
      while i < |addedItem|
        invariant 0 <= i <= |addedItem|
        invariant trace == old(trace) + Firings(OnAdded, addedItem[..i], ItemArg(item))
      {
        assert addedItem[..i + 1][..i] == addedItem[..i];
        trace := trace + [Fired(OnAdded, addedItem[i], ItemArg(item))];
        i := i + 1;
      }
      assert addedItem[..i] == addedItem;
    }

    method AddInternal(item: CacheItem<K, V>, now: Time)
      requires Valid()
      modifies this`items, this`cleanupInterval, this`trace
      ensures Valid()
      ensures Inserted(old(items), old(View(items)), old(cleanupInterval), old(trace), item, now)
    {
      ghost var view := View(items);
      items := items[item.key := item];
      var expDur := cleanupInterval;
      FireAdded(item);
      if item.lifeSpan > 0 && (expDur == 0 || item.lifeSpan < expDur) {
        assert View(items) == view[item.key := EntryOf(item)];
        ExpirationCheck(now);
      }
    }

    /**
      Stores a new item under `key`, replacing any earlier one. The clock is
      read twice: the item is made at `now`, and the sweep the trigger rule
      may start runs at `sweepNow`. That sweep evicts expired items of other
      keys, and the new item itself exactly when its whole lifespan has
      passed between the two readings. A kept expiring item leaves a timer
      armed that fires no later than it can expire.
    */
    method Add(key: K, lifeSpan: Duration, data: Payload<K, V>, now: Time, sweepNow: Time) returns (item: CacheItem<K, V>)
      requires Valid() && now <= sweepNow
      modifies this`items, this`cleanupInterval, this`trace
      ensures Valid() && fresh(item)
      ensures item.key == key && item.value == data && item.lifeSpan == lifeSpan
      ensures item.createdOn == now && item.accessedOn == now && item.accessCount == 0 && item.aboutToExpire == []
      ensures Inserted(old(items), old(View(items)), old(cleanupInterval), old(trace), item, sweepNow)
      ensures key in items <==> !(TriggersSweep(lifeSpan, old(cleanupInterval)) && sweepNow - now >= lifeSpan)
      ensures key in items ==> items[key] == item
      ensures forall k :: k in items && k != key ==> k in old(items) && items[k] == old(items)[k]
      ensures forall k :: k in old(items) && k != key && !Expired(old(EntryOf(items[k])), sweepNow) ==> k in items
      ensures lifeSpan > 0 && key in items ==> 0 < cleanupInterval <= lifeSpan
    {
      item := new CacheItem(key, lifeSpan, data, now);
      AddInternal(item, sweepNow);
      if TriggersSweep(lifeSpan, old(cleanupInterval)) {
        var v := old(View(items))[key := EntryOf(item)];
        assert key in v && v[key] == Entry(lifeSpan, now, []);
        if key in items {
          assert Timed(v[key], sweepNow);
        }
      }
    }

    /**
      Inserts only when `key` is absent, and says whether it did; `item` is
      the item found or the one made. The clock readings are as for Add.
    */
    method NotFoundAdd(key: K, lifeSpan: Duration, data: Payload<K, V>, now: Time, sweepNow: Time)
        returns (added: bool, ghost item: CacheItem<K, V>)
      requires Valid() && now <= sweepNow
      modifies this`items, this`cleanupInterval, this`trace
      ensures Valid()
      ensures added == old(key !in items)
      ensures !added ==> key in items && item == items[key]
      ensures !added ==> items == old(items) && cleanupInterval == old(cleanupInterval) && trace == old(trace)
      ensures added ==> fresh(item) && item.key == key && item.value == data && item.lifeSpan == lifeSpan
      ensures added ==> item.createdOn == now && item.accessedOn == now && item.accessCount == 0
      ensures added ==> Inserted(old(items), old(View(items)), old(cleanupInterval), old(trace), item, sweepNow)
      ensures added ==> (key in items <==> !(TriggersSweep(lifeSpan, old(cleanupInterval)) && sweepNow - now >= lifeSpan))
      ensures added && key in items ==> items[key] == item
    {
      if key in items {
        return false, items[key];
      }
      item := Add(key, lifeSpan, data, now, sweepNow);
      return true, item;
    }

    // Deletion

    /**
      Deletes the item under `key`, firing the table's about-to-delete
      callbacks with it and then its own about-to-expire callbacks with the
      key; an absent key changes nothing.
    */
    method DeleteInternal(key: K) returns (r: Result<CacheItem<K, V>>)
      requires Valid()
      modifies this`items, this`trace
      ensures Valid()
      ensures old(key !in items) ==> r == Err(KeyNotFound) && items == old(items) && trace == old(trace)
      ensures old(key in items) ==> r == Ok(old(items[key])) && items == old(items) - {key}
      ensures old(key in items) ==>
        trace == old(trace) + DeleteEvents(aboutToDeleteItem, old(items[key]), old(items[key].aboutToExpire), key)
    {
      if key !in items {
        return Err(KeyNotFound);
      }
      var item := items[key];
      var callbacks := aboutToDeleteItem;
      var i := 0;
      while i < |callbacks|
        modifies this`trace
        invariant 0 <= i <= |callbacks|
        invariant trace == old(trace) + Firings(OnAboutToDelete, callbacks[..i], ItemArg(item))
      {
        assert callbacks[..i + 1][..i] == callbacks[..i];
        trace := trace + [Fired(OnAboutToDelete, callbacks[i], ItemArg(item))];
        i := i + 1;
      }
      assert callbacks[..i] == callbacks;
      ghost var afterTable := trace;
      var expiry := item.aboutToExpire;
      i := 0;
      while i < |expiry|
        modifies this`trace
        invariant 0 <= i <= |expiry|
        invariant trace == afterTable + Firings(OnAboutToExpire, expiry[..i], KeyArg(key))
      {
        assert expiry[..i + 1][..i] == expiry[..i];
        trace := trace + [Fired(OnAboutToExpire, expiry[i], KeyArg(key))];
        i := i + 1;
      }
      assert expiry[..i] == expiry;
      items := items - {key};
      return Ok(item);
    }

    /**
      As written, Delete removes the key before DeleteInternal looks it up:
      the key is gone afterwards, no callback fires, and the answer is
      always KeyNotFound.
    */
    method Delete(key: K) returns (r: Result<CacheItem<K, V>>)
      requires Valid()
      modifies this`items, this`trace
      ensures Valid()
      ensures r == Err(KeyNotFound)
      ensures items == old(items) - {key} && trace == old(trace)
    {
      items := items - {key};
      r := DeleteInternal(key);
    }

    /** Delete as evidently intended: the lookup, the callbacks, then the removal. */
    method DeleteWithCallbacks(key: K) returns (r: Result<CacheItem<K, V>>)
      requires Valid()
      modifies this`items, this`trace
      ensures Valid()
      ensures old(key !in items) ==> r == Err(KeyNotFound) && items == old(items) && trace == old(trace)
      ensures old(key in items) ==> r == Ok(old(items[key])) && items == old(items) - {key}
      ensures old(key in items) ==>
        trace == old(trace) + DeleteEvents(aboutToDeleteItem, old(items[key]), old(items[key].aboutToExpire), key)
    {
      r := DeleteInternal(key);
    }

    // Lookup

    /**
      A hit refreshes the item at `now` and returns it. A miss asks the
      loader, if there is one; an item it supplies is returned, and a new
      item `stored` holding it is added under `key` with its lifespan, made
      at `now` and swept at `sweepNow` as Add does.
    */
    method Value(key: K, now: Time, sweepNow: Time) returns (r: Result<CacheItem<K, V>>, ghost stored: CacheItem?<K, V>)
      requires Valid() && now <= sweepNow
      modifies this`items, this`cleanupInterval, this`trace, if key in items then {items[key]} else {}
      ensures Valid()
      ensures old(key in items) ==>
        && r == Ok(old(items[key])) && items == old(items)
        && r.value.accessCount == old(items[key].accessCount) + 1 && r.value.accessedOn == now
        && r.value.aboutToExpire == old(items[key].aboutToExpire)
        && cleanupInterval == old(cleanupInterval) && trace == old(trace)
      ensures old(key !in items) && old(loadData).None? ==>
        r == Err(KeyNotFound) && items == old(items) && cleanupInterval == old(cleanupInterval) && trace == old(trace)
      ensures old(key !in items) && old(loadData).Some? && old(loadData).value(key).None? ==>
        && r == Err(KeyNotFoundOrLoadable)
        && items == old(items) && cleanupInterval == old(cleanupInterval) && trace == old(trace)
      ensures old(key !in items) && old(loadData).Some? && old(loadData).value(key).Some? ==>
        && r == Ok(old(loadData).value(key).value)
        && stored != null && fresh(stored) && stored.key == key
        && stored.value == Nested(r.value) && stored.lifeSpan == r.value.lifeSpan
        && stored.createdOn == now && stored.accessedOn == now && stored.accessCount == 0
        && Inserted(old(items), old(View(items)), old(cleanupInterval), old(trace), stored, sweepNow)
        && (key in items <==> !(TriggersSweep(r.value.lifeSpan, old(cleanupInterval)) && sweepNow - now >= r.value.lifeSpan))
        && (key in items ==> items[key] == stored)
    {
      stored := null;
      if key in items {
        var item := items[key];
        item.KeepAlive(now);
        return Ok(item), stored;
      }
      if loadData.Some? {
        var loaded := loadData.value(key);
        if loaded.Some? {
          var item := Add(key, loaded.value.lifeSpan, Nested(loaded.value), now, sweepNow);
          return Ok(loaded.value), item;
        }
        return Err(KeyNotFoundOrLoadable), stored;
      }
      return Err(KeyNotFound), stored;
    }

    /** Empties the table and disarms the timer; no callback fires. */
    method Flush()
      modifies this`items, this`cleanupInterval
      ensures Valid()
      ensures items == map[] && Count() == 0 && cleanupInterval == 0
    {
      items := map[];
      cleanupInterval := 0;
    }

    // Statistics

    /** `x` is the key and access count of a live item. */
    ghost predicate Snapshots(x: CacheItemPair<K>)
      reads this, items.Values
    {
      x.key in items && x.accessCount == items[x.key].accessCount
    }

    /** The key and access count of every live item, each key once, in no particular order. */
    method CollectPairs() returns (p: array<CacheItemPair<K>>)
      ensures fresh(p) && p.Length == |items|
      ensures forall x :: x in p[..] ==> Snapshots(x)
      ensures DistinctKeys(p[..])
      ensures forall k :: k in items ==> CacheItemPair(k, items[k].accessCount) in p[..]
    {
      p := new CacheItemPair<K>[|items|];
      var n := 0;
      var unvisited := items.Keys;
      while unvisited != {}
        invariant unvisited <= items.Keys
        invariant 0 <= n && n + |unvisited| == p.Length
        invariant forall x :: x in p[..n] ==> Snapshots(x) && x.key !in unvisited
        invariant DistinctKeys(p[..n])
        invariant forall k :: k in items && k !in unvisited ==> CacheItemPair(k, items[k].accessCount) in p[..n]
        decreases unvisited
      {
        var k :| k in unvisited;
        ghost var before := p[..n];
        p[n] := CacheItemPair(k, items[k].accessCount);
        assert p[..n] == before;
        assert p[..n + 1] == before + [p[n]];
        n := n + 1;
        unvisited := unvisited - {k};
      }
      assert p[..n] == p[..];
    }

    /** The key and access count of every live item, each key once, most accessed first. */
    method SortedPairs() returns (sorted: seq<CacheItemPair<K>>)
      ensures |sorted| == |items|
      ensures SortedByAccessCount(sorted) && DistinctKeys(sorted)
      ensures forall x :: x in sorted ==> Snapshots(x)
      ensures forall k :: k in items ==> CacheItemPair(k, items[k].accessCount) in sorted
    {
      var p := CollectPairs();
      ghost var unsorted := p[..];
      SortByAccessCount(p);
      forall x | x in p[..]
        ensures Snapshots(x)
      {
        assert x in multiset(p[..]);
        assert x in unsorted;
      }
      forall k | k in items
        ensures CacheItemPair(k, items[k].accessCount) in p[..]
      {
        assert CacheItemPair(k, items[k].accessCount) in multiset(unsorted);
      }
      sorted := p[..];
    }

    /**
      The `count` most accessed items, most accessed first: each one at most
      once, and none left out that was accessed more often than one taken.
    */
    method MostAccessed(count: int) returns (r: seq<CacheItem<K, V>>)
      requires Valid()
      ensures |r| == if count <= 0 then 0 else Min(count, |items|)
      ensures forall i :: 0 <= i < |r| ==> r[i] in items.Values
      ensures forall i, j :: 0 <= i < j < |r| ==> r[i] != r[j]
      ensures forall i, j :: 0 <= i < j < |r| ==> r[i].accessCount >= r[j].accessCount
      ensures forall k, i :: k in items && items[k] !in r && 0 <= i < |r| ==> items[k].accessCount <= r[i].accessCount
    {
      var sorted := SortedPairs();
      assert forall l :: 0 <= l < |sorted| ==> sorted[l] in sorted;

      r := [];
      var c := 0;
      var j := 0;
      while j < |sorted|
        invariant 0 <= j <= |sorted| && c == j && |r| == j
        invariant count <= 0 ==> j == 0
        invariant count > 0 ==> j <= count
        invariant forall l :: 0 <= l < j ==> sorted[l].key in items && r[l] == items[sorted[l].key]
      {
        if c >= count {
          break;
        }
        var val := sorted[j];
        if val.key in items {
          r := r + [items[val.key]];
        }
        c := c + 1;
        j := j + 1;
      }
      MostAccessedFacts(sorted, r, count);
    }

    lemma MostAccessedFacts(p: seq<CacheItemPair<K>>, r: seq<CacheItem<K, V>>, count: int)
      requires Valid()
      requires |p| == |items|
      requires SortedByAccessCount(p) && DistinctKeys(p)
      requires forall x :: x in p ==> Snapshots(x)
      requires forall k :: k in items ==> CacheItemPair(k, items[k].accessCount) in p
      requires |r| <= |p| && (|r| < |p| && count > 0 ==> |r| == count)
      requires count <= 0 ==> |r| == 0
      requires count > 0 ==> |r| <= count
      requires forall l :: 0 <= l < |r| ==> p[l].key in items && r[l] == items[p[l].key]
      ensures |r| == if count <= 0 then 0 else Min(count, |items|)
      ensures forall i :: 0 <= i < |r| ==> r[i] in items.Values
      ensures forall i, j :: 0 <= i < j < |r| ==> r[i] != r[j]
      ensures forall i, j :: 0 <= i < j < |r| ==> r[i].accessCount >= r[j].accessCount
      ensures forall k, i :: k in items && items[k] !in r && 0 <= i < |r| ==> items[k].accessCount <= r[i].accessCount
    {
      forall i | 0 <= i < |r| ensures r[i] in items.Values && r[i].accessCount == p[i].accessCount {
        assert p[i] in p && Snapshots(p[i]);
      }
      forall i, j | 0 <= i < j < |r| ensures r[i] != r[j] {
        assert r[i].key == p[i].key && r[j].key == p[j].key;
      }
      assert forall l :: 0 <= l < |r| ==> r[l] in r;
      forall k, i | k in items && items[k] !in r && 0 <= i < |r|
        ensures items[k].accessCount <= r[i].accessCount
      {
        var x := CacheItemPair(k, items[k].accessCount);
        assert x in p;
        var l :| 0 <= l < |p| && p[l] == x;
        assert |r| <= l;
      }
    }
  }
}
