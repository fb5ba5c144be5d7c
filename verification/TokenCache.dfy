/**
 * The injection path's token store: `get` deletes an expired entry it declines
 * to serve, and `set` re-inserts its key, so the oldest slot is always the one
 * written longest ago.
 */
module TokenCache {
  import opened Wrappers
  import opened ExpiringMap

  // ---- the two operations, on the map's contents ----

  /** What `get` leaves: an expired entry it declined is gone. */
  function AfterGet<T>(m: Slots<T>, key: string, now: Instant): Slots<T> {
    var r := Find(m, key);
    if r.Some? && r.value.expiresAt <= now then Delete(m, key) else m
  }

  /** The live entries of other keys: what `set` has left when it checks the bound. */
  function Others<T>(m: Slots<T>, key: string, now: Instant): Slots<T> {
    Live(Delete(m, key), now)
  }

  /** What `set` leaves. */
  function AfterSet<T>(m: Slots<T>, maxEntries: nat, slot: Slot<T>, now: Instant): Slots<T> {
    Evict(Others(m, slot.key, now), maxEntries) + [slot]
  }

  lemma GetKeepsSound<T>(m: Slots<T>, maxEntries: nat, key: string, now: Instant)
    requires Sound(m, maxEntries)
    ensures Sound(AfterGet(m, key, now), maxEntries)
  {
    DeleteDistinct(m, key);
    DeleteMembers(m, key);
  }

  lemma GetAddsNothing<T>(m: Slots<T>, key: string, now: Instant, slot: Slot<T>)
    requires slot in AfterGet(m, key, now)
    ensures slot in m
  {
    DeleteMembers(m, key);
    if AfterGet(m, key, now) != m {
      assert slot in Delete(m, key);
    }
  }

  lemma OthersMembers<T>(m: Slots<T>, key: string, now: Instant)
    requires Distinct(m)
    ensures Distinct(Others(m, key, now)) && !Holds(Others(m, key, now), key)
    ensures |Others(m, key, now)| <= |m|
    ensures forall s :: s in Others(m, key, now) <==> s in m && s.key != key && s.expiresAt > now
  {
    DeleteDistinct(m, key);
    DeleteMembers(m, key);
    LiveDistinct(Delete(m, key), now);
    LiveMembers(Delete(m, key), now);
  }

  lemma SetKeepsSound<T>(m: Slots<T>, maxEntries: nat, slot: Slot<T>, now: Instant)
    requires Sound(m, maxEntries)
    ensures Sound(AfterSet(m, maxEntries, slot, now), maxEntries)
    ensures forall s | s in AfterSet(m, maxEntries, slot, now) :: s == slot || (s in m && s.key != slot.key)
  {
    OthersMembers(m, slot.key, now);
    AppendDistinct(Evict(Others(m, slot.key, now), maxEntries), slot);
  }

  /**
   * A write drops a live entry of another key exactly when it found
   * `maxEntries` live entries of other keys, and then only the oldest of them.
   */
  lemma SetDropsOnlyTheOldest<T>(m: Slots<T>, maxEntries: nat, slot: Slot<T>, now: Instant, other: Slot<T>)
    requires Sound(m, maxEntries)
    requires other in m && other.key != slot.key && other.expiresAt > now
    ensures other !in AfterSet(m, maxEntries, slot, now)
       <==> |Others(m, slot.key, now)| >= maxEntries && other == Others(m, slot.key, now)[0]
  {
    OthersMembers(m, slot.key, now);
    var others := Others(m, slot.key, now);
    assert other in others;
    if other == others[0] {
      if other in others[1..] {
        HoldsMember(others[1..], other);
      }
    } else {
      assert other in others[1..];
    }
  }

  /** The store: `entries` changed in place by every operation but `size`. */
  class Cache<T> {
    const maxEntries: nat
    var entries: Slots<T>

    ghost predicate Valid()
      reads this
    {
      Sound(entries, maxEntries)
    }

    constructor (maxEntries: nat)
      ensures Valid() && this.maxEntries == maxEntries && entries == []
    {
      this.maxEntries := maxEntries;
      entries := [];
    }

    method Get(key: string, now: Instant) returns (token: Option<T>)
      requires Valid()
      modifies this
      ensures Valid()
      ensures token == Served(old(entries), key, now)
      ensures entries == AfterGet(old(entries), key, now)
    {
      GetKeepsSound(entries, maxEntries, key, now);
      var entry := Find(entries, key);
      if entry.None? {
        return None;
      }
      if entry.value.expiresAt <= now {
        entries := Delete(entries, key);
        return None;
      }
      return Some(entry.value.value);
    }

    method Set(key: string, token: T, expiresAt: Instant, now: Instant)
      requires Valid()
      modifies this
      ensures Valid()
      ensures entries == AfterSet(old(entries), maxEntries, Slot(key, token, expiresAt), now)
    {
      ghost var was := entries;
      SetKeepsSound(was, maxEntries, Slot(key, token, expiresAt), now);
      OthersMembers(was, key, now);
      DeleteDistinct(entries, key);
      entries := Delete(entries, key);
      entries := SweepExpired(entries, now);
      if |entries| >= maxEntries {
        if |entries| > 0 {
          DeleteFirst(entries);
          entries := Delete(entries, entries[0].key);
        }
      }
      assert entries == Evict(Others(was, key, now), maxEntries);
      PutNew(entries, Slot(key, token, expiresAt));
      entries := Put(entries, Slot(key, token, expiresAt));
    }

    method Clear()
      modifies this
      ensures Valid() && entries == []
    {
      entries := [];
    }

    method Size() returns (size: nat)
      requires Valid()
      ensures size == |entries| && size <= Bound(maxEntries)
    {
      size := |entries|;
    }
  }
}

/**
 * The token store over whole runs, against the unbounded map it stands for:
 * the one that remembers every key's latest write for ever.
 */
module TokenCacheHistory {
  import opened Wrappers
  import opened ExpiringMap
  import opened TokenCache

  datatype Op<+T> =
    | Get(key: string, now: Instant)
    | Set(key: string, value: T, expiresAt: Instant, now: Instant)
    | Clear

  function Step<T>(m: Slots<T>, maxEntries: nat, op: Op<T>): Slots<T> {
    match op
    case Get(key, now) => AfterGet(m, key, now)
    case Set(key, value, expiresAt, now) => AfterSet(m, maxEntries, Slot(key, value, expiresAt), now)
    case Clear => []
  }

  /** What a cache built empty holds after `ops`. */
  function Run<T>(ops: seq<Op<T>>, maxEntries: nat): Slots<T> {
    if ops == [] then []
    else Step(Run(ops[..|ops| - 1], maxEntries), maxEntries, ops[|ops| - 1])
  }

  /** The unbounded map: the position of the latest write to `key` since the last `Clear`. */
  function LastWrite<T>(ops: seq<Op<T>>, key: string): (r: Option<nat>)
    ensures r.Some? ==> r.value < |ops| && ops[r.value].Set? && ops[r.value].key == key
  {
    if ops == [] then None
    else
      var last := ops[|ops| - 1];
      if last.Set? && last.key == key then Some(|ops| - 1)
      else if last.Clear? then None
      else LastWrite(ops[..|ops| - 1], key)
  }

  /** The slot the latest write to a key made. */
  ghost predicate IsLatest<T>(ops: seq<Op<T>>, slot: Slot<T>) {
    var w := LastWrite(ops, slot.key);
    w.Some? && ops[w.value].value == slot.value && ops[w.value].expiresAt == slot.expiresAt
  }

  /** Every slot is its key's latest write, and the slots stand in the order they were written. */
  ghost predicate InWriteOrder<T>(m: Slots<T>, ops: seq<Op<T>>) {
    m == []
    || (&& IsLatest(ops, m[0])
        && (forall s | s in m[1..] ::
              LastWrite(ops, s.key).Some? && LastWrite(ops, m[0].key).value < LastWrite(ops, s.key).value)
        && InWriteOrder(m[1..], ops))
  }

  lemma {:induction false} DeleteKeepsOrder<T>(m: Slots<T>, ops: seq<Op<T>>, key: string)
    requires InWriteOrder(m, ops)
    ensures InWriteOrder(Delete(m, key), ops)
  {
    if m != [] {
      DeleteKeepsOrder(m[1..], ops, key);
      DeleteMembers(m[1..], key);
    }
  }

  lemma {:induction false} LiveKeepsOrder<T>(m: Slots<T>, ops: seq<Op<T>>, now: Instant)
    requires InWriteOrder(m, ops)
    ensures InWriteOrder(Live(m, now), ops)
  {
    if m != [] {
      LiveKeepsOrder(m[1..], ops, now);
      LiveMembers(m[1..], now);
    }
  }

  /** One more operation leaves the order of the slots it does not write. */
  lemma {:induction false} ExtendKeepsOrder<T>(m: Slots<T>, ops: seq<Op<T>>, op: Op<T>)
    requires InWriteOrder(m, ops) && !op.Clear?
    requires op.Set? ==> !Holds(m, op.key)
    ensures InWriteOrder(m, ops + [op])
  {
    assert (ops + [op])[..|ops|] == ops;
    if m != [] {
      forall s | s in m[1..] ensures op.Set? ==> s.key != op.key {
        HoldsMember(m[1..], s);
      }
      ExtendKeepsOrder(m[1..], ops, op);
    }
  }

  lemma {:induction false} AppendKeepsOrder<T>(m: Slots<T>, ops: seq<Op<T>>, slot: Slot<T>)
    requires InWriteOrder(m, ops) && !Holds(m, slot.key)
    requires IsLatest(ops, slot) && LastWrite(ops, slot.key).value == |ops| - 1
    ensures InWriteOrder(m + [slot], ops)
  {
    if m != [] {
      AppendKeepsOrder(m[1..], ops, slot);
      assert (m + [slot])[1..] == m[1..] + [slot];
    }
  }

  /** Over every run: within its bound, every slot its key's latest write, oldest write first. */
  lemma {:induction false} RunIsInWriteOrder<T>(ops: seq<Op<T>>, maxEntries: nat)
    ensures Sound(Run(ops, maxEntries), maxEntries)
    ensures InWriteOrder(Run(ops, maxEntries), ops)
  {
    if ops != [] {
      var before, op := ops[..|ops| - 1], ops[|ops| - 1];
      assert before + [op] == ops;
      RunIsInWriteOrder(before, maxEntries);
      var m := Run(before, maxEntries);
      match op {
        case Get(key, now) =>
          GetKeepsSound(m, maxEntries, key, now);
          DeleteKeepsOrder(m, before, key);
          ExtendKeepsOrder(AfterGet(m, key, now), before, op);
        case Set(key, value, expiresAt, now) =>
          var slot := Slot(key, value, expiresAt);
          SetKeepsSound(m, maxEntries, slot, now);
          OthersMembers(m, key, now);
          DeleteKeepsOrder(m, before, key);
          LiveKeepsOrder(Delete(m, key), before, now);
          var kept := Evict(Others(m, key, now), maxEntries);
          ExtendKeepsOrder(kept, before, op);
          AppendKeepsOrder(kept, ops, slot);
        case Clear =>
      }
    }
  }

  lemma {:induction false} OrderedMember<T>(m: Slots<T>, ops: seq<Op<T>>, i: nat)
    requires InWriteOrder(m, ops) && i < |m|
    ensures IsLatest(ops, m[i])
    ensures forall s | s in m[i + 1..] ::
              LastWrite(ops, s.key).Some? && LastWrite(ops, m[i].key).value < LastWrite(ops, s.key).value
  {
    if i > 0 {
      OrderedMember(m[1..], ops, i - 1);
      assert m[1..][i..] == m[i + 1..];
    }
  }

  /** A `get` only ever answers the latest value written for its key, and only before that write's expiry. */
  lemma ServesOnlyTheLatestWrite<T>(ops: seq<Op<T>>, maxEntries: nat, key: string, now: Instant)
    requires Served(Run(ops, maxEntries), key, now).Some?
    ensures var w := LastWrite(ops, key);
            && w.Some?
            && Served(Run(ops, maxEntries), key, now) == Some(ops[w.value].value)
            && now < ops[w.value].expiresAt
  {
    RunIsInWriteOrder(ops, maxEntries);
    var m := Run(ops, maxEntries);
    var i :| 0 <= i < |m| && m[i] == Find(m, key).value;
    OrderedMember(m, ops, i);
  }

  /** The entry a full cache gives up is, of the live ones, the one written longest ago. */
  lemma EvictsTheLongestUnwritten<T>(
    ops: seq<Op<T>>, maxEntries: nat, slot: Slot<T>, now: Instant, dropped: Slot<T>, other: Slot<T>)
    requires var m := Run(ops, maxEntries);
             && dropped in m && dropped.key != slot.key && dropped.expiresAt > now
             && dropped !in AfterSet(m, maxEntries, slot, now)
             && other in m && other.key !in {slot.key, dropped.key} && other.expiresAt > now
    ensures IsLatest(ops, dropped) && IsLatest(ops, other)
    ensures LastWrite(ops, dropped.key).value < LastWrite(ops, other.key).value
    ensures other in AfterSet(Run(ops, maxEntries), maxEntries, slot, now)
  {
    var m := Run(ops, maxEntries);
    RunIsInWriteOrder(ops, maxEntries);
    SetDropsOnlyTheOldest(m, maxEntries, slot, now, dropped);
    SetDropsOnlyTheOldest(m, maxEntries, slot, now, other);
    OthersMembers(m, slot.key, now);
    DeleteKeepsOrder(m, ops, slot.key);
    LiveKeepsOrder(Delete(m, slot.key), ops, now);
    var others := Others(m, slot.key, now);
    var i :| 0 <= i < |others| && others[i] == other;
    OrderedMember(others, ops, 0);
    OrderedMember(others, ops, i);
  }

  function Clock<T>(op: Op<T>): Option<Instant> {
    if op.Clear? then None else Some(op.now)
  }

  /** The keys written after position `w`. */
  function WrittenSince<T>(ops: seq<Op<T>>, w: nat): set<string>
    requires w < |ops|
  {
    set i | w < i < |ops| && ops[i].Set? :: ops[i].key
  }

  /**
   * Nothing is lost early: a key's latest write is still held while no clock
   * reading since has reached its expiry and fewer than `maxEntries` other
   * keys have been written since.
   */
  lemma {:induction false} KeepsARecentWrite<T>(ops: seq<Op<T>>, maxEntries: nat, key: string)
    requires LastWrite(ops, key).Some?
    requires var w := LastWrite(ops, key).value;
             && (forall i | w < i < |ops| :: Clock(ops[i]).Some? ==> Clock(ops[i]).value < ops[w].expiresAt)
             && |WrittenSince(ops, w)| < Bound(maxEntries)
    ensures var w := LastWrite(ops, key).value;
            Slot(key, ops[w].value, ops[w].expiresAt) in Run(ops, maxEntries)
  {
    var w := LastWrite(ops, key).value;
    var slot := Slot(key, ops[w].value, ops[w].expiresAt);
    var before, op := ops[..|ops| - 1], ops[|ops| - 1];
    if w != |ops| - 1 {
      assert WrittenSince(before, w) <= WrittenSince(ops, w);
      CardinalityMonotone(WrittenSince(before, w), WrittenSince(ops, w));
      KeepsARecentWrite(before, maxEntries, key);
      assert before + [op] == ops;
      if op.Get? {
        RecentWriteSurvivesGet(before, op, maxEntries, slot);
      } else {
        RecentWriteSurvivesSet(before, op, maxEntries, slot, w);
      }
    }
  }

  lemma RecentWriteSurvivesGet<T>(before: seq<Op<T>>, op: Op<T>, maxEntries: nat, slot: Slot<T>)
    requires op.Get? && op.now < slot.expiresAt && slot in Run(before, maxEntries)
    ensures slot in Step(Run(before, maxEntries), maxEntries, op)
  {
    var m := Run(before, maxEntries);
    RunIsInWriteOrder(before, maxEntries);
    FindMember(m, slot);
    DeleteMembers(m, op.key);
  }

  lemma CardinalityMonotone(a: set<string>, b: set<string>)
    requires a <= b
    ensures |a| <= |b|
  {
    assert b == a + (b - a);
  }

  /** The slots behind a key's are all of keys written since it was. */
  lemma BehindAreWrittenSince<T>(m: Slots<T>, ops: seq<Op<T>>, op: Op<T>)
    requires m != [] && Distinct(m) && InWriteOrder(m, ops) && op.Set? && !Holds(m, op.key)
    ensures LastWrite(ops, m[0].key).Some?
    ensures |m| <= |WrittenSince(ops + [op], LastWrite(ops, m[0].key).value)|
  {
    var since := WrittenSince(ops + [op], LastWrite(ops, m[0].key).value);
    assert (ops + [op])[|ops|] == op && op.key in since;
    forall s | s in m[1..] ensures s.key in since - {op.key} {
      HoldsMember(m, s);
      var v := LastWrite(ops, s.key).value;
      assert (ops + [op])[v] == ops[v];
    }
    FewerThanKeys(m[1..], since - {op.key});
  }

  /** A full cache holds more keys written since than a recent write allows. */
  lemma RecentWriteSurvivesSet<T>(before: seq<Op<T>>, op: Op<T>, maxEntries: nat, slot: Slot<T>, w: nat)
    requires op.Set? && op.key != slot.key && op.now < slot.expiresAt
    requires LastWrite(before, slot.key) == Some(w)
    requires slot in Run(before, maxEntries)
    requires |WrittenSince(before + [op], w)| < Bound(maxEntries)
    ensures slot in Step(Run(before, maxEntries), maxEntries, op)
  {
    var m := Run(before, maxEntries);
    var others := Others(m, op.key, op.now);
    RunIsInWriteOrder(before, maxEntries);
    OthersMembers(m, op.key, op.now);
    assert slot in others;
    DeleteKeepsOrder(m, before, op.key);
    LiveKeepsOrder(Delete(m, op.key), before, op.now);
    if others[0] == slot {
      BehindAreWrittenSince(others, before, op);
    }
    SetDropsOnlyTheOldest(m, maxEntries, Slot(op.key, op.value, op.expiresAt), op.now, slot);
  }
}
