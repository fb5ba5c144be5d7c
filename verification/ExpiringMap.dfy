/**
 * The JavaScript `Map` both caches keep their entries in, and what both do to
 * it. A `Map` iterates in insertion order, so it is modelled as the sequence of
 * its slots, oldest first, with distinct keys.
 */
module ExpiringMap {
  import opened Wrappers

  /** An instant, in milliseconds. `Date.now()` readings need not increase. */
  type Instant = real

  datatype Slot<+T> = Slot(key: string, value: T, expiresAt: Instant)

  type Slots<T> = seq<Slot<T>>

  /** `Map.has`. */
  predicate Holds<T>(m: Slots<T>, key: string) {
    m != [] && (m[0].key == key || Holds(m[1..], key))
  }

  predicate Distinct<T>(m: Slots<T>) {
    m == [] || (!Holds(m[1..], m[0].key) && Distinct(m[1..]))
  }

  /** `Map.get`. */
  function Find<T>(m: Slots<T>, key: string): (r: Option<Slot<T>>)
    ensures r.None? <==> !Holds(m, key)
    ensures r.Some? ==> r.value in m && r.value.key == key
  {
    if m == [] then None
    else if m[0].key == key then Some(m[0])
    else Find(m[1..], key)
  }

  /** `Map.delete`. */
  function Delete<T>(m: Slots<T>, key: string): Slots<T> {
    if m == [] then []
    else if m[0].key == key then Delete(m[1..], key)
    else [m[0]] + Delete(m[1..], key)
  }

  /** `Map.set`: a key already held keeps its position, a new one goes last. */
  function Put<T>(m: Slots<T>, slot: Slot<T>): Slots<T> {
    if m == [] then [slot]
    else if m[0].key == slot.key then [slot] + m[1..]
    else [m[0]] + Put(m[1..], slot)
  }

  /** The slots still ahead of their expiry at `now`, in order: what a sweep leaves. */
  function Live<T>(m: Slots<T>, now: Instant): Slots<T> {
    if m == [] then []
    else if m[0].expiresAt <= now then Live(m[1..], now)
    else [m[0]] + Live(m[1..], now)
  }

  /** Dropping the oldest insertion once the bound is reached. */
  function Evict<T>(m: Slots<T>, maxEntries: nat): Slots<T> {
    if |m| >= maxEntries && |m| > 0 then m[1..] else m
  }

  /** The most slots a cache built with `maxEntries` can hold: a write always stores. */
  function Bound(maxEntries: nat): nat {
    if maxEntries == 0 then 1 else maxEntries
  }

  /** What both caches' `get` answers. */
  function Served<T>(m: Slots<T>, key: string, now: Instant): Option<T> {
    var r := Find(m, key);
    if r.Some? && r.value.expiresAt > now then Some(r.value.value) else None
  }

  ghost predicate Sound<T>(m: Slots<T>, maxEntries: nat) {
    Distinct(m) && |m| <= Bound(maxEntries)
  }

  // ---- what the operations leave, slot by slot ----

  lemma {:induction false} HoldsMember<T>(m: Slots<T>, slot: Slot<T>)
    requires slot in m
    ensures Holds(m, slot.key)
  {
    if m[0] != slot {
      HoldsMember(m[1..], slot);
    }
  }

  lemma {:induction false} LiveMembers<T>(m: Slots<T>, now: Instant)
    ensures |Live(m, now)| <= |m|
    ensures forall s :: s in Live(m, now) <==> s in m && s.expiresAt > now
  {
    if m != [] {
      LiveMembers(m[1..], now);
    }
  }

  lemma {:induction false} DeleteMembers<T>(m: Slots<T>, key: string)
    ensures |Delete(m, key)| <= |m|
    ensures !Holds(Delete(m, key), key)
    ensures forall s :: s in Delete(m, key) <==> s in m && s.key != key
  {
    if m != [] {
      DeleteMembers(m[1..], key);
    }
  }

  lemma {:induction false} DeleteAbsent<T>(m: Slots<T>, key: string)
    requires !Holds(m, key)
    ensures Delete(m, key) == m
  {
    if m != [] {
      DeleteAbsent(m[1..], key);
    }
  }

  lemma {:induction false} LiveDistinct<T>(m: Slots<T>, now: Instant)
    requires Distinct(m)
    ensures Distinct(Live(m, now))
    ensures forall k :: Holds(Live(m, now), k) ==> Holds(m, k)
  {
    if m != [] {
      LiveDistinct(m[1..], now);
    }
  }

  lemma {:induction false} DeleteDistinct<T>(m: Slots<T>, key: string)
    requires Distinct(m)
    ensures Distinct(Delete(m, key))
    ensures forall k :: Holds(Delete(m, key), k) <==> Holds(m, k) && k != key
  {
    if m != [] {
      DeleteDistinct(m[1..], key);
    }
  }

  lemma {:induction false} AppendDistinct<T>(m: Slots<T>, slot: Slot<T>)
    requires Distinct(m) && !Holds(m, slot.key)
    ensures Distinct(m + [slot])
    ensures forall k :: Holds(m + [slot], k) <==> Holds(m, k) || k == slot.key
  {
    if m != [] {
      AppendDistinct(m[1..], slot);
      assert (m + [slot])[1..] == m[1..] + [slot];
    }
  }

  lemma {:induction false} DistinctPrefix<T>(m: Slots<T>, slot: Slot<T>)
    requires Distinct(m + [slot])
    ensures Distinct(m) && !Holds(m, slot.key)
  {
    if m != [] {
      assert (m + [slot])[1..] == m[1..] + [slot] && slot in m[1..] + [slot];
      HoldsMember(m[1..] + [slot], slot);
      DistinctPrefix(m[1..], slot);
      StillHolds(m[1..], slot, m[0].key);
    }
  }

  lemma {:induction false} StillHolds<T>(m: Slots<T>, slot: Slot<T>, key: string)
    ensures Holds(m, key) ==> Holds(m + [slot], key)
  {
    if m != [] {
      assert (m + [slot])[1..] == m[1..] + [slot];
      StillHolds(m[1..], slot, key);
    }
  }

  lemma {:induction false} AllLive<T>(m: Slots<T>, now: Instant)
    requires forall s | s in m :: s.expiresAt > now
    ensures Live(m, now) == m
  {
    if m != [] {
      AllLive(m[1..], now);
    }
  }

  lemma {:induction false} PutNew<T>(m: Slots<T>, slot: Slot<T>)
    requires !Holds(m, slot.key)
    ensures Put(m, slot) == m + [slot]
  {
    if m != [] {
      PutNew(m[1..], slot);
    }
  }

  lemma {:induction false} PutMembers<T>(m: Slots<T>, slot: Slot<T>)
    requires Distinct(m)
    ensures Distinct(Put(m, slot))
    ensures |Put(m, slot)| == if Holds(m, slot.key) then |m| else |m| + 1
    ensures forall k :: Holds(Put(m, slot), k) <==> Holds(m, k) || k == slot.key
    ensures forall s :: s in Put(m, slot) <==> s == slot || (s in m && s.key != slot.key)
  {
    if m != [] {
      PutMembers(m[1..], slot);
      if m[0].key == slot.key {
        forall s | s in m[1..] ensures s.key != slot.key {
          HoldsMember(m[1..], s);
        }
      }
    }
  }

  /** With distinct keys, `get` answers the one slot held for the key. */
  lemma {:induction false} FindMember<T>(m: Slots<T>, slot: Slot<T>)
    requires Distinct(m) && slot in m
    ensures Find(m, slot.key) == Some(slot)
  {
    if m[0] != slot {
      HoldsMember(m[1..], slot);
      FindMember(m[1..], slot);
    }
  }

  /** `get` on a swept map answers as the map does, when what it holds is ahead of the sweep. */
  lemma FindLive<T>(m: Slots<T>, key: string, now: Instant)
    requires Distinct(m)
    ensures Find(Live(m, now), key)
         == var r := Find(m, key); if r.Some? && r.value.expiresAt > now then r else None
  {
    LiveDistinct(m, now);
    LiveMembers(m, now);
    var r := Find(m, key);
    if r.Some? && r.value.expiresAt > now {
      FindMember(Live(m, now), r.value);
    } else if Find(Live(m, now), key).Some? {
      FindMember(m, Find(Live(m, now), key).value);
    }
  }

  // ---- how they commute ----

  /** A later sweep forgets an earlier one. */
  lemma {:induction false} LiveLive<T>(m: Slots<T>, t: Instant, now: Instant)
    requires t <= now
    ensures Live(Live(m, t), now) == Live(m, now)
  {
    if m != [] {
      LiveLive(m[1..], t, now);
    }
  }

  lemma {:induction false} LiveDelete<T>(m: Slots<T>, key: string, now: Instant)
    ensures Live(Delete(m, key), now) == Delete(Live(m, now), key)
  {
    if m != [] {
      LiveDelete(m[1..], key, now);
    }
  }

  lemma {:induction false} LiveAppend<T>(m: Slots<T>, n: Slots<T>, now: Instant)
    ensures Live(m + n, now) == Live(m, now) + Live(n, now)
  {
    if m == [] {
      assert m + n == n;
    } else {
      assert (m + n)[1..] == m[1..] + n;
      LiveAppend(m[1..], n, now);
    }
  }

  /** Deleting a slot the clock has already passed is invisible to a sweep. */
  lemma {:induction false} DeleteExpired<T>(m: Slots<T>, slot: Slot<T>, now: Instant)
    requires Distinct(m) && slot in m && slot.expiresAt <= now
    ensures Live(Delete(m, slot.key), now) == Live(m, now)
  {
    if m[0] == slot {
      DeleteAbsent(m[1..], slot.key);
    } else {
      HoldsMember(m[1..], slot);
      DeleteExpired(m[1..], slot, now);
    }
  }

  lemma {:induction false} DeleteBetween<T>(a: Slots<T>, slot: Slot<T>, b: Slots<T>)
    requires Distinct(a + ([slot] + b))
    ensures Delete(a + ([slot] + b), slot.key) == a + b
  {
    var m := a + ([slot] + b);
    if a == [] {
      assert m == [slot] + b && m[1..] == b && a + b == b;
      DeleteAbsent(b, slot.key);
    } else {
      var tail := a[1..] + ([slot] + b);
      assert m == [a[0]] + tail && m[1..] == tail && tail[|a| - 1] == slot;
      HoldsMember(tail, slot);
      DeleteBetween(a[1..], slot, b);
      assert [a[0]] + (a[1..] + b) == a + b;
    }
  }

  lemma DeleteFirst<T>(m: Slots<T>)
    requires Distinct(m) && m != []
    ensures Delete(m, m[0].key) == m[1..]
  {
    DeleteAbsent(m[1..], m[0].key);
  }

  /** A sweep that has seen `seen` slots and stands at `i`: the live ones of those, then the rest. */
  ghost predicate Sweeping<T>(m: Slots<T>, seen: nat, now: Instant, entries: Slots<T>, i: nat) {
    && seen <= |m| && Distinct(entries)
    && i == |Live(m[..seen], now)| && entries == Live(m[..seen], now) + m[seen..]
  }

  lemma LiveOneMore<T>(m: Slots<T>, seen: nat, now: Instant)
    requires seen < |m|
    ensures Live(m[..seen + 1], now)
         == if m[seen].expiresAt <= now then Live(m[..seen], now) else Live(m[..seen], now) + [m[seen]]
  {
    assert m[..seen + 1] == m[..seen] + [m[seen]];
    LiveAppend(m[..seen], [m[seen]], now);
  }

  lemma AtTheSeam<T>(done: Slots<T>, slot: Slot<T>, rest: Slots<T>)
    ensures (done + ([slot] + rest))[|done|] == slot
    ensures done + ([slot] + rest) == (done + [slot]) + rest
  {
  }

  lemma RestOf<T>(m: Slots<T>, seen: nat)
    requires seen < |m|
    ensures m[seen..] == [m[seen]] + m[seen + 1..]
  {
  }

  /** One slot more seen: gone where it stood, or stepped over. */
  lemma SweepStep<T>(m: Slots<T>, seen: nat, now: Instant, entries: Slots<T>, i: nat)
    requires Sweeping(m, seen, now, entries, i) && i < |entries|
    ensures seen < |m|
    ensures if entries[i].expiresAt <= now then Sweeping(m, seen + 1, now, Delete(entries, entries[i].key), i)
            else Sweeping(m, seen + 1, now, entries, i + 1)
  {
    var done, slot, rest := Live(m[..seen], now), m[seen], m[seen + 1..];
    RestOf(m, seen);
    LiveOneMore(m, seen, now);
    AtTheSeam(done, slot, rest);
    DeleteBetween(done, slot, rest);
    DeleteDistinct(entries, slot.key);
  }

  lemma SweepStarts<T>(m: Slots<T>, now: Instant)
    requires Distinct(m)
    ensures Sweeping(m, 0, now, m, 0)
  {
    assert m[..0] == [] && m[0..] == m;
  }

  lemma SweepEnds<T>(m: Slots<T>, seen: nat, now: Instant, entries: Slots<T>, i: nat)
    requires Sweeping(m, seen, now, entries, i) && i >= |entries|
    ensures entries == Live(m, now)
  {
    assert seen == |m| && m[..seen] == m && m[seen..] == [];
  }

  /** The sweep both caches' `set` makes: every slot visited once, the expired ones deleted under the iteration. */
  method SweepExpired<T>(m: Slots<T>, now: Instant) returns (entries: Slots<T>)
    requires Distinct(m)
    ensures Distinct(entries) && entries == Live(m, now)
  {
    entries := m;
    ghost var seen := 0;
    var i := 0;
    SweepStarts(m, now);
    while i < |entries|
      invariant Sweeping(m, seen, now, entries, i)
      decreases |m| - seen
    {
      SweepStep(m, seen, now, entries, i);
      if entries[i].expiresAt <= now {
        entries := Delete(entries, entries[i].key);
      } else {
        i := i + 1;
      }
      seen := seen + 1;
    }
    SweepEnds(m, seen, now, entries, i);
  }

  /** No more slots than there are keys to hold them. */
  lemma {:induction false} FewerThanKeys<T>(m: Slots<T>, keys: set<string>)
    requires Distinct(m)
    requires forall s | s in m :: s.key in keys
    ensures |m| <= |keys|
  {
    if m != [] {
      forall s | s in m[1..] ensures s.key in keys - {m[0].key} {
        HoldsMember(m[1..], s);
      }
      FewerThanKeys(m[1..], keys - {m[0].key});
    }
  }
}
