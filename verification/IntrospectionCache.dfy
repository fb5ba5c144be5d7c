/**
 * Validation's sibling of the token store: `get` only reads, and `set` keeps a
 * held key's position, so eviction is by first insertion.
 */
module IntrospectionCache {
  import opened Wrappers
  import opened ExpiringMap

  /** What `set` leaves: swept, the oldest dropped only for a new key, the slot in place. */
  function AfterSet<T>(m: Slots<T>, maxEntries: nat, slot: Slot<T>, now: Instant): Slots<T> {
    var live := Live(m, now);
    Put(if Holds(live, slot.key) then live else Evict(live, maxEntries), slot)
  }

  lemma SetKeepsSound<T>(m: Slots<T>, maxEntries: nat, slot: Slot<T>, now: Instant)
    requires Sound(m, maxEntries)
    ensures Sound(AfterSet(m, maxEntries, slot, now), maxEntries)
  {
    var live := Live(m, now);
    LiveDistinct(m, now);
    LiveMembers(m, now);
    PutMembers(if Holds(live, slot.key) then live else Evict(live, maxEntries), slot);
  }

  /** Refreshing a live entry drops nothing and moves nothing, even at the bound. */
  lemma RefreshKeepsEveryPosition<T>(m: Slots<T>, maxEntries: nat, slot: Slot<T>, now: Instant)
    requires Sound(m, maxEntries) && Holds(Live(m, now), slot.key)
    ensures var live, after := Live(m, now), AfterSet(m, maxEntries, slot, now);
            && |after| == |live|
            && forall i | 0 <= i < |live| :: after[i] == if live[i].key == slot.key then slot else live[i]
  {
    LiveDistinct(m, now);
    PutInPlace(Live(m, now), slot);
  }

  lemma {:induction false} PutInPlace<T>(m: Slots<T>, slot: Slot<T>)
    requires Distinct(m) && Holds(m, slot.key)
    ensures |Put(m, slot)| == |m|
    ensures forall i | 0 <= i < |m| :: Put(m, slot)[i] == if m[i].key == slot.key then slot else m[i]
  {
    if m[0].key == slot.key {
      forall i | 0 < i < |m| ensures m[i].key != slot.key {
        assert m[1..][i - 1] == m[i];
        HoldsMember(m[1..], m[i]);
      }
    } else {
      PutInPlace(m[1..], slot);
    }
  }

  class Cache<T> {
    const maxEntries: nat
    var entries: Slots<T>

    ghost predicate Valid()
      reads this
    {
      Sound(entries, maxEntries)
    }

    constructor (maxEntries: nat)
      ensures Valid() && this.maxEntries == maxEntries && entries == []
    {
      this.maxEntries := maxEntries;
      entries := [];
    }

    method Get(key: string, now: Instant) returns (result: Option<T>)
      ensures result == Served(entries, key, now)
    {
      var cached := Find(entries, key);
      result := if cached.Some? && cached.value.expiresAt > now then Some(cached.value.value) else None;
    }

    method Set(key: string, result: T, expiresAt: Instant, now: Instant)
      requires Valid()
      modifies this
      ensures Valid()
      ensures entries == AfterSet(old(entries), maxEntries, Slot(key, result, expiresAt), now)
    {
      SetKeepsSound(entries, maxEntries, Slot(key, result, expiresAt), now);
      entries := SweepExpired(entries, now);
      ghost var live := entries;
      if !Holds(entries, key) && |entries| >= maxEntries {
        if |entries| > 0 {
          DeleteFirst(entries);
          entries := Delete(entries, entries[0].key);
        }
      }
      assert entries == if Holds(live, key) then live else Evict(live, maxEntries);
      entries := Put(entries, Slot(key, result, expiresAt));
    }

    method Clear()
      modifies this
      ensures Valid() && entries == []
    {
      entries := [];
    }

    method Size() returns (size: nat)
      requires Valid()
      ensures size == |entries| && size <= Bound(maxEntries)
    {
      size := |entries|;
    }
  }
}
