/**
 * The two caches answer alike on every run whose clock does not go back and
 * which never writes a key that is still live, and each condition is needed.
 * On any writes at all, deleting an expired entry on `get` is invisible.
 */
module CacheEquivalence {
  import opened Wrappers
  import opened ExpiringMap
  import opened TokenCacheHistory
  import TokenCache
  import IntrospectionCache

  /** The three behaviours compared: the two caches, and the token store with a `get` that only reads. */
  datatype Kind = Token | Introspection | LazyToken

  function StepOf<T>(kind: Kind, m: Slots<T>, maxEntries: nat, op: Op<T>): Slots<T> {
    match op
    case Clear => []
    case Get(key, now) => if kind.Token? then TokenCache.AfterGet(m, key, now) else m
    case Set(key, value, expiresAt, now) =>
      if kind.Introspection?
      then IntrospectionCache.AfterSet(m, maxEntries, Slot(key, value, expiresAt), now)
      else TokenCache.AfterSet(m, maxEntries, Slot(key, value, expiresAt), now)
  }

  /** What a `get` answers; nothing for any other operation. */
  function AnswerOf<T>(m: Slots<T>, op: Op<T>): Option<T> {
    if op.Get? then Served(m, op.key, op.now) else None
  }

  /** The answers of a run from `m`, one per operation. */
  function Answers<T>(kind: Kind, m: Slots<T>, maxEntries: nat, ops: seq<Op<T>>): seq<Option<T>>
    decreases ops
  {
    if ops == [] then []
    else [AnswerOf(m, ops[0])] + Answers(kind, StepOf(kind, m, maxEntries, ops[0]), maxEntries, ops[1..])
  }

  /** No clock reading is before `t` or before an earlier one. */
  predicate NonDecreasing<T>(t: Instant, ops: seq<Op<T>>)
    decreases ops
  {
    ops == [] || (if ops[0].Clear? then NonDecreasing(t, ops[1..])
                  else t <= ops[0].now && NonDecreasing(ops[0].now, ops[1..]))
  }

  /** No write is to a key the token store still holds live. */
  predicate NeverRewritesLive<T>(m: Slots<T>, maxEntries: nat, ops: seq<Op<T>>)
    decreases ops
  {
    ops == [] || (&& (ops[0].Set? ==> !Holds(Live(m, ops[0].now), ops[0].key))
                  && NeverRewritesLive(Step(m, maxEntries, ops[0]), maxEntries, ops[1..]))
  }

  /** The two hold the same entries, but for those the clock has passed. */
  ghost predicate Alike<T>(a: Slots<T>, b: Slots<T>, t: Instant) {
    Distinct(a) && Distinct(b) && Live(a, t) == Live(b, t)
  }

  lemma LaterAlike<T>(a: Slots<T>, b: Slots<T>, t: Instant, now: Instant)
    requires Alike(a, b, t) && t <= now
    ensures Alike(a, b, now)
  {
    LiveLive(a, t, now);
    LiveLive(b, t, now);
  }

  lemma AnswerAlike<T>(a: Slots<T>, b: Slots<T>, key: string, now: Instant)
    requires Alike(a, b, now)
    ensures Served(a, key, now) == Served(b, key, now)
  {
    FindLive(a, key, now);
    FindLive(b, key, now);
  }

  lemma GetAlike<T>(m: Slots<T>, key: string, now: Instant)
    requires Distinct(m)
    ensures Alike(TokenCache.AfterGet(m, key, now), m, now)
  {
    var r := Find(m, key);
    if r.Some? && r.value.expiresAt <= now {
      DeleteDistinct(m, key);
      DeleteExpired(m, r.value, now);
    }
  }

  lemma TokenSetAlike<T>(a: Slots<T>, b: Slots<T>, maxEntries: nat, slot: Slot<T>, now: Instant)
    requires Alike(a, b, now)
    ensures TokenCache.AfterSet(a, maxEntries, slot, now) == TokenCache.AfterSet(b, maxEntries, slot, now)
    ensures Distinct(TokenCache.AfterSet(a, maxEntries, slot, now))
  {
    LiveDelete(a, slot.key, now);
    LiveDelete(b, slot.key, now);
    TokenCache.OthersMembers(a, slot.key, now);
    AppendDistinct(Evict(TokenCache.Others(a, slot.key, now), maxEntries), slot);
  }

  /** Writing a key neither holds live, the two caches end with the same slots. */
  lemma FreshSetAlike<T>(a: Slots<T>, b: Slots<T>, maxEntries: nat, slot: Slot<T>, now: Instant)
    requires Alike(a, b, now) && !Holds(Live(a, now), slot.key)
    ensures TokenCache.AfterSet(a, maxEntries, slot, now) == IntrospectionCache.AfterSet(b, maxEntries, slot, now)
    ensures Distinct(TokenCache.AfterSet(a, maxEntries, slot, now))
  {
    TokenSetAlike(a, b, maxEntries, slot, now);
    LiveDelete(a, slot.key, now);
    DeleteAbsent(Live(a, now), slot.key);
    PutNew(Evict(Live(b, now), maxEntries), slot);
  }

  /** Runs from alike states answer every `get` alike. */
  lemma {:induction false} AnswerAlikeFrom<T>(a: Slots<T>, b: Slots<T>, maxEntries: nat, t: Instant, ops: seq<Op<T>>)
    requires Alike(a, b, t) && NonDecreasing(t, ops) && NeverRewritesLive(a, maxEntries, ops)
    ensures Answers(Token, a, maxEntries, ops) == Answers(Introspection, b, maxEntries, ops)
    decreases ops
  {
    if ops != [] {
      var a', b' := StepOf(Token, a, maxEntries, ops[0]), StepOf(Introspection, b, maxEntries, ops[0]);
      match ops[0] {
        case Clear =>
          AnswerAlikeFrom(a', b', maxEntries, t, ops[1..]);
        case Get(key, now) =>
          LaterAlike(a, b, t, now);
          AnswerAlike(a, b, key, now);
          GetAlike(a, key, now);
          AnswerAlikeFrom(a', b', maxEntries, now, ops[1..]);
        case Set(key, value, expiresAt, now) =>
          LaterAlike(a, b, t, now);
          FreshSetAlike(a, b, maxEntries, Slot(key, value, expiresAt), now);
          AnswerAlikeFrom(a', b', maxEntries, now, ops[1..]);
      }
    }
  }

  /** The two caches, built empty with one bound, are observationally equal on such runs. */
  lemma CachesAnswerAlike<T>(maxEntries: nat, t: Instant, ops: seq<Op<T>>)
    requires NonDecreasing(t, ops) && NeverRewritesLive([], maxEntries, ops)
    ensures Answers(Token, [], maxEntries, ops) == Answers(Introspection, [], maxEntries, ops)
  {
    AnswerAlikeFrom([], [], maxEntries, t, ops);
  }

  lemma {:induction false} LazyAlikeFrom<T>(a: Slots<T>, b: Slots<T>, maxEntries: nat, t: Instant, ops: seq<Op<T>>)
    requires Alike(a, b, t) && NonDecreasing(t, ops)
    ensures Answers(Token, a, maxEntries, ops) == Answers(LazyToken, b, maxEntries, ops)
    decreases ops
  {
    if ops != [] {
      var a', b' := StepOf(Token, a, maxEntries, ops[0]), StepOf(LazyToken, b, maxEntries, ops[0]);
      match ops[0] {
        case Clear =>
          LazyAlikeFrom(a', b', maxEntries, t, ops[1..]);
        case Get(key, now) =>
          LaterAlike(a, b, t, now);
          AnswerAlike(a, b, key, now);
          GetAlike(a, key, now);
          LazyAlikeFrom(a', b', maxEntries, now, ops[1..]);
        case Set(key, value, expiresAt, now) =>
          LaterAlike(a, b, t, now);
          TokenSetAlike(a, b, maxEntries, Slot(key, value, expiresAt), now);
          LazyAlikeFrom(a', b', maxEntries, now, ops[1..]);
      }
    }
  }

  /** Whatever is written, deleting an expired entry on `get` changes no later answer. */
  lemma DeletingOnGetIsInvisible<T>(maxEntries: nat, t: Instant, ops: seq<Op<T>>)
    requires NonDecreasing(t, ops)
    ensures Answers(Token, [], maxEntries, ops) == Answers(LazyToken, [], maxEntries, ops)
  {
    LazyAlikeFrom([], [], maxEntries, t, ops);
  }

  // ---- each condition is needed ----

  /** What a cache built empty holds after `ops`. */
  function After<T>(kind: Kind, ops: seq<Op<T>>, maxEntries: nat): Slots<T> {
    if ops == [] then []
    else StepOf(kind, After(kind, ops[..|ops| - 1], maxEntries), maxEntries, ops[|ops| - 1])
  }

  function Writes<T>(m: Slots<T>, now: Instant): seq<Op<T>> {
    if m == [] then []
    else
      var last := m[|m| - 1];
      Writes(m[..|m| - 1], now) + [Set(last.key, last.value, last.expiresAt, now)]
  }

  /** A key neither cache holds, written among live entries, goes last; the oldest makes room for it. */
  lemma NewKeyGoesLast<T>(kind: Kind, m: Slots<T>, maxEntries: nat, slot: Slot<T>, now: Instant)
    requires forall s | s in m :: s.expiresAt > now
    requires Distinct(m) && !Holds(m, slot.key)
    ensures StepOf(kind, m, maxEntries, Set(slot.key, slot.value, slot.expiresAt, now)) == Evict(m, maxEntries) + [slot]
  {
    AllLive(m, now);
    DeleteAbsent(m, slot.key);
    PutNew(Evict(m, maxEntries), slot);
  }

  /** Any entries within the bound are held by either cache once they are written in turn. */
  lemma {:induction false} FillsAlike<T>(kind: Kind, m: Slots<T>, maxEntries: nat, now: Instant)
    requires |m| <= maxEntries && Distinct(m) && forall s | s in m :: s.expiresAt > now
    ensures After(kind, Writes(m, now), maxEntries) == m
  {
    if m != [] {
      var before, last := m[..|m| - 1], m[|m| - 1];
      assert m == before + [last];
      DistinctPrefix(before, last);
      FillsAlike(kind, before, maxEntries, now);
      NewKeyGoesLast(kind, before, maxEntries, last, now);
      AfterOneMore(kind, Writes(before, now), Set(last.key, last.value, last.expiresAt, now), maxEntries);
    }
  }

  lemma AfterOneMore<T>(kind: Kind, ops: seq<Op<T>>, op: Op<T>, maxEntries: nat)
    ensures After(kind, ops + [op], maxEntries) == StepOf(kind, After(kind, ops, maxEntries), maxEntries, op)
  {
    assert (ops + [op])[..|ops|] == ops;
  }

  /** A refresh of the oldest of some live entries moves it last in the token store. */
  lemma TokenRefreshMoves<T>(first: Slot<T>, rest: Slots<T>, maxEntries: nat, refresh: Slot<T>, now: Instant)
    requires forall s | s in rest :: s.expiresAt > now
    requires Distinct(rest) && !Holds(rest, first.key) && refresh.key == first.key && |rest| < maxEntries
    ensures StepOf(Token, [first] + rest, maxEntries, Set(refresh.key, refresh.value, refresh.expiresAt, now))
         == rest + [refresh]
  {
    assert ([first] + rest)[1..] == rest;
    DeleteAbsent(rest, refresh.key);
    AllLive(rest, now);
  }

  /** It leaves it where it is in the other. */
  lemma IntrospectionRefreshStays<T>(first: Slot<T>, rest: Slots<T>, maxEntries: nat, refresh: Slot<T>, now: Instant)
    requires first.expiresAt > now && forall s | s in rest :: s.expiresAt > now
    requires refresh.key == first.key
    ensures StepOf(Introspection, [first] + rest, maxEntries, Set(refresh.key, refresh.value, refresh.expiresAt, now))
         == [refresh] + rest
  {
    assert ([first] + rest)[1..] == rest;
    AllLive([first] + rest, now);
  }

  function AfterBoth<T>(kind: Kind, m: Slots<T>, refresh: Slot<T>, added: Slot<T>, now: Instant): Slots<T> {
    StepOf(kind, StepOf(kind, m, |m|, Set(refresh.key, refresh.value, refresh.expiresAt, now)), |m|,
           Set(added.key, added.value, added.expiresAt, now))
  }

  /** Of two slots appended, the first is served, and a key neither they nor those before have is not. */
  lemma ServedLast<T>(m: Slots<T>, slot: Slot<T>, added: Slot<T>, now: Instant, other: string)
    requires Distinct(m) && !Holds(m, slot.key) && !Holds(m, added.key) && slot.key != added.key
    requires slot.expiresAt > now && !Holds(m, other) && other !in {slot.key, added.key}
    ensures Served(m + [slot] + [added], slot.key, now) == Some(slot.value)
    ensures Served(m + [slot] + [added], other, now) == None
  {
    AppendDistinct(m, slot);
    AppendDistinct(m + [slot], added);
    FindMember(m + [slot] + [added], slot);
  }

  /** The token store drops the second, the oldest once the first is refreshed. */
  lemma TokenDropsTheSecond<T>(first: Slot<T>, rest: Slots<T>, refresh: Slot<T>, added: Slot<T>, now: Instant)
    requires rest != [] && first.expiresAt > now && forall s | s in rest :: s.expiresAt > now
    requires Distinct(rest) && !Holds(rest, first.key) && refresh.key == first.key && refresh.expiresAt > now
    requires !Holds(rest, added.key) && added.key != first.key
    ensures AfterBoth(Token, [first] + rest, refresh, added, now) == rest[1..] + [refresh] + [added]
  {
    TokenRefreshMoves(first, rest, |rest| + 1, refresh, now);
    NextDropsTheFirst(rest, refresh, added, now);
  }

  lemma NextDropsTheFirst<T>(rest: Slots<T>, refresh: Slot<T>, added: Slot<T>, now: Instant)
    requires rest != [] && refresh.expiresAt > now && forall s | s in rest :: s.expiresAt > now
    requires Distinct(rest) && !Holds(rest, refresh.key) && !Holds(rest, added.key) && added.key != refresh.key
    ensures StepOf(Token, rest + [refresh], |rest| + 1, Set(added.key, added.value, added.expiresAt, now))
         == rest[1..] + [refresh] + [added]
  {
    var again, bound := rest + [refresh], |rest| + 1;
    AppendDistinct(rest, refresh);
    NewKeyGoesLast(Token, again, bound, added, now);
    TailOfAppend(rest, refresh);
  }

  lemma TailOfAppend<T>(rest: Slots<T>, last: Slot<T>)
    requires rest != []
    ensures Evict(rest + [last], |rest| + 1) == rest[1..] + [last]
  {
  }

  /** The other drops the refreshed one, still the oldest it holds. */
  lemma IntrospectionDropsTheRefreshed<T>(first: Slot<T>, rest: Slots<T>, refresh: Slot<T>, added: Slot<T>, now: Instant)
    requires first.expiresAt > now && forall s | s in rest :: s.expiresAt > now
    requires Distinct(rest) && !Holds(rest, first.key) && refresh.key == first.key && refresh.expiresAt > now
    requires !Holds(rest, added.key) && added.key != first.key
    ensures AfterBoth(Introspection, [first] + rest, refresh, added, now) == rest + [added]
  {
    IntrospectionRefreshStays(first, rest, |rest| + 1, refresh, now);
    assert ([refresh] + rest)[1..] == rest;
    NewKeyGoesLast(Introspection, [refresh] + rest, |rest| + 1, added, now);
  }

  /**
   * A refresh of a live key: on any full cache of live entries, refreshing the
   * oldest and then writing a new key has each evict a different one.
   */
  lemma RefreshTellsThemApart<T>(m: Slots<T>, refresh: Slot<T>, added: Slot<T>, now: Instant)
    requires |m| >= 2 && Distinct(m) && forall s | s in m :: s.expiresAt > now
    requires refresh.key == m[0].key && refresh.expiresAt > now && !Holds(m, added.key)
    ensures var t := AfterBoth(Token, m, refresh, added, now);
            Served(t, m[0].key, now) == Some(refresh.value) && Served(t, m[1].key, now) == None
    ensures var i := AfterBoth(Introspection, m, refresh, added, now);
            Served(i, m[0].key, now) == None && Served(i, m[1].key, now) == Some(m[1].value)
  {
    var rest := m[1..];
    assert m == [m[0]] + rest && rest[0] == m[1];
    TokenDropsTheSecond(m[0], rest, refresh, added, now);
    ServedLast(rest[1..], refresh, added, now, m[1].key);
    IntrospectionDropsTheRefreshed(m[0], rest, refresh, added, now);
    AppendDistinct(rest, added);
    assert (rest + [added])[0] == m[1];
  }

  /** A clock set back: once a reading has passed an entry's expiry, only one cache still answers with it. */
  lemma AClockSetBackTellsThemApart<T>(m: Slots<T>, maxEntries: nat, slot: Slot<T>, late: Instant, back: Instant)
    requires Distinct(m) && slot in m && back < slot.expiresAt <= late
    ensures var ops := [Get(slot.key, late)] + [Get(slot.key, back)];
            && Answers(Token, m, maxEntries, ops) == [None, None]
            && Answers(Introspection, m, maxEntries, ops) == [None, Some(slot.value)]
            && Answers(LazyToken, m, maxEntries, ops) == [None, Some(slot.value)]
  {
    FindMember(m, slot);
    DeleteDistinct(m, slot.key);
    var last: seq<Op<T>> := [Get(slot.key, back)];
    assert ([Get(slot.key, late)] + last)[1..] == last && last[1..] == [];
    assert forall kind, a: Slots<T> :: Answers(kind, a, maxEntries, last) == [Served(a, slot.key, back)];
  }
}
