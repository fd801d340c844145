/**
  A cache item: one cached entry. Its key, value, lifespan and creation time
  never change; its last-access time and access count are refreshed by
  KeepAlive, and it owns a list of about-to-expire callbacks.
*/
module CacheItems {

  /** Points in time and durations are integers of nanoseconds. */
  type Time = int
  type Duration = int

  /** A callback is opaque: the model identifies it and records when it fires. */
  type CallbackId = nat

  /**
    What an item holds. The cache stores untyped values; the model
    distinguishes a caller's own value from another item, which is what a
    loader hit stores.
  */
  datatype Payload<K, V> = Data(data: V) | Nested(item: CacheItem<K, V>)

  class CacheItem<K, V> {
    const key: K
    const value: Payload<K, V>
    /** 0 means the item never expires. */
    const lifeSpan: Duration
    const createdOn: Time
    var accessedOn: Time
    var accessCount: int
    var aboutToExpire: seq<CallbackId>

    /** The item's own invariant: it was never accessed before it was made. */
    ghost predicate Valid()
      reads this
    {
      createdOn <= accessedOn && 0 <= accessCount
    }

    /** A new item, created and last accessed at `now`, never accessed. */
    constructor (key: K, lifeSpan: Duration, value: Payload<K, V>, now: Time)
      ensures Valid()
      ensures Key() == key && Value() == value && LifeSpan() == lifeSpan
      ensures CreatedOn() == now && AccessedOn() == now && AccessCount() == 0
      ensures aboutToExpire == []
    {
      this.key := key;
      this.value := value;
      this.lifeSpan := lifeSpan;
      this.createdOn := now;
      this.accessedOn := now;
      this.accessCount := 0;
      this.aboutToExpire := [];
    }

    /** Records one access at time `now`. */
    method KeepAlive(now: Time)
      modifies this`accessedOn, this`accessCount
      ensures AccessedOn() == now && AccessCount() == old(AccessCount()) + 1
      ensures old(Valid()) && old(AccessedOn()) <= now ==> Valid()
    {
      accessedOn := now;
      accessCount := accessCount + 1;
    }

    // The key, value, lifespan and creation time are `const`: their getters
    // read no mutable state, so no operation can change what they return.

    function LifeSpan(): Duration { lifeSpan }

    /** The last access, never before the item was made. */
    function AccessedOn(): (t: Time)
      reads this
      ensures Valid() ==> CreatedOn() <= t
    {
      accessedOn
    }

    function CreatedOn(): Time { createdOn }

    /** How often the item was accessed, never negative. */
    function AccessCount(): (n: int)
      reads this
      ensures Valid() ==> 0 <= n
    {
      accessCount
    }

    function Key(): K { key }

    function Value(): Payload<K, V> { value }

    /** Replaces every about-to-expire callback by `f`. */
    method SetAboutToExpireCallback(f: CallbackId)
      modifies this`aboutToExpire
      ensures aboutToExpire == [f]
    {
      if |aboutToExpire| > 0 {
        RemoveAboutToExpireCallback();
      }
      aboutToExpire := aboutToExpire + [f];
    }

    /** Appends `f` after the callbacks already registered. */
    method AddAboutToExpireCallback(f: CallbackId)
      modifies this`aboutToExpire
      ensures aboutToExpire == old(aboutToExpire) + [f]
    {
      aboutToExpire := aboutToExpire + [f];
    }

    method RemoveAboutToExpireCallback()
      modifies this`aboutToExpire
      ensures aboutToExpire == []
    {
      aboutToExpire := [];
    }
  }
}
