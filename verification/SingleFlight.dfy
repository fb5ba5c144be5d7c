/**
 * Request coalescing: one flight per key, shared by every caller that finds it
 * pending, its slot cleared after it settles and before anyone awaiting it
 * resumes.
 *
 * A call is the promise of one fetcher run. It settles when its fetcher does;
 * the `finally` that clears its slot runs later, as a microtask of its own, and
 * only that releases the callers. A call made outside `run` has no slot. `T` is
 * what a fetcher comes to: a value or a rejection.
 */
module SingleFlight {
  import opened Wrappers

  datatype Status<+T> =
    | Running
    | Settled(outcome: T, at: nat)
    | Released(outcome: T, at: nat, released: nat)

  datatype Call<+T> = Call(slot: Option<string>, begun: nat, status: Status<T>)

  /**
   * `pending` is the program's own map. `calls` are the promises made so far,
   * and `time` counts what has happened, to say what came before what.
   */
  datatype Table<+T> = Table(pending: map<string, nat>, calls: seq<Call<T>>, time: nat)

  function Empty<T>(): Table<T> { Table(map[], [], 0) }

  // ---- what happens, one event at a time ----

  datatype Event<+T> =
    | Run(key: string, sync: Option<T>)  // `sync`: the fetcher threw before it returned a promise
    | Direct                             // a fetcher called without a slot
    | Settle(call: nat, outcome: T)      // a running fetcher's promise settles
    | Release(call: nat)                 // a settled call's `finally` runs

  predicate Enabled<T>(t: Table<T>, e: Event<T>) {
    match e
    case Run(_, _) => true
    case Direct => true
    case Settle(call, _) => call < |t.calls| && t.calls[call].status.Running?
    case Release(call) => call < |t.calls| && t.calls[call].status.Settled?
  }

  function Begin<T>(t: Table<T>, slot: Option<string>, status: Status<T>): Table<T> {
    Table(if slot.Some? then t.pending[slot.value := |t.calls|] else t.pending,
          t.calls + [Call(slot, t.time, status)], t.time + 1)
  }

  function Step<T>(t: Table<T>, e: Event<T>): Table<T>
    requires Enabled(t, e)
  {
    match e
    case Run(key, sync) =>
      if key in t.pending then t.(time := t.time + 1)
      else Begin(t, Some(key), if sync.Some? then Settled(sync.value, t.time) else Running)
    case Direct => Begin(t, None, Running)
    case Settle(call, outcome) =>
      var c := t.calls[call];
      Table(t.pending, t.calls[call := c.(status := Settled(outcome, t.time))], t.time + 1)
    case Release(call) =>
      var c := t.calls[call];
      Table(if c.slot.Some? then t.pending - {c.slot.value} else t.pending,
            t.calls[call := c.(status := Released(c.status.outcome, c.status.at, t.time))], t.time + 1)
  }

  /** The call a caller of `run` awaits once it has called it. */
  function Awaited<T>(t: Table<T>, key: string): nat {
    if key in t.pending then t.pending[key] else |t.calls|
  }

  /** What an awaiting caller resumes with: nothing until the call is released. */
  function Result<T>(t: Table<T>, call: nat): Option<T> {
    if call < |t.calls| && t.calls[call].status.Released? then Some(t.calls[call].status.outcome) else None
  }

  // ---- what holds of every reachable table ----

  predicate Ordered<T>(c: Call<T>, time: nat) {
    match c.status
    case Running => c.begun < time
    case Settled(_, at) => c.begun <= at < time
    case Released(_, at, released) => c.begun <= at < released < time
  }

  /** The map holds exactly the unreleased calls that have a slot, and earlier calls for a slot are all over. */
  ghost predicate Valid<T>(t: Table<T>) {
    && (forall key | key in t.pending ::
          t.pending[key] < |t.calls| && t.calls[t.pending[key]].slot == Some(key)
          && !t.calls[t.pending[key]].status.Released?)
    && (forall i | 0 <= i < |t.calls| :: Ordered(t.calls[i], t.time))
    && (forall i | 0 <= i < |t.calls| :: t.calls[i].slot.Some? && !t.calls[i].status.Released? ==>
          t.calls[i].slot.value in t.pending && t.pending[t.calls[i].slot.value] == i)
    && (forall i, j | 0 <= i < j < |t.calls| :: t.calls[i].slot.Some? && t.calls[i].slot == t.calls[j].slot ==>
          t.calls[i].status.Released? && t.calls[i].status.released < t.calls[j].begun)
  }

  lemma BeginKeepsValid<T>(t: Table<T>, slot: Option<string>, status: Status<T>)
    requires Valid(t) && (slot.Some? ==> slot.value !in t.pending)
    requires status.Running? || (status.Settled? && status.at == t.time)
    ensures Valid(Begin(t, slot, status))
  {
    var u := Begin(t, slot, status);
    forall i, j | 0 <= i < j < |u.calls| && u.calls[i].slot.Some? && u.calls[i].slot == u.calls[j].slot
      ensures u.calls[i].status.Released? && u.calls[i].status.released < u.calls[j].begun
    {
      assert Ordered(t.calls[i], t.time);
    }
  }

  lemma SettleKeepsValid<T>(t: Table<T>, call: nat, outcome: T)
    requires Valid(t) && Enabled(t, Settle(call, outcome))
    ensures Valid(Step(t, Settle(call, outcome)))
  {
    assert Ordered(t.calls[call], t.time);
  }

  lemma ReleaseKeepsValid<T>(t: Table<T>, call: nat)
    requires Valid(t) && Enabled(t, Release(call))
    ensures Valid(Step(t, Release(call)))
  {
    assert Ordered(t.calls[call], t.time);
  }

  lemma StepKeepsValid<T>(t: Table<T>, e: Event<T>)
    requires Valid(t) && Enabled(t, e)
    ensures Valid(Step(t, e))
  {
    match e {
      case Run(key, sync) =>
        if key !in t.pending {
          BeginKeepsValid(t, Some(key), if sync.Some? then Settled(sync.value, t.time) else Running);
        }
      case Direct =>
        BeginKeepsValid<T>(t, None, Running);
      case Settle(call, outcome) => SettleKeepsValid(t, call, outcome);
      case Release(call) => ReleaseKeepsValid(t, call);
    }
  }

  /** What each event leaves: a call's slot and start never change, nor its outcome once settled. */
  lemma StepKeepsCalls<T>(t: Table<T>, e: Event<T>, call: nat)
    requires Enabled(t, e) && call < |t.calls|
    ensures var u := Step(t, e);
            && call < |u.calls|
            && u.calls[call].slot == t.calls[call].slot && u.calls[call].begun == t.calls[call].begun
            && (!t.calls[call].status.Running? ==>
                  !u.calls[call].status.Running? && u.calls[call].status.outcome == t.calls[call].status.outcome)
            && (t.calls[call].status.Released? ==> u.calls[call] == t.calls[call])
  {
  }

  // ---- whole runs ----

  function RunFrom<T>(t: Table<T>, events: seq<Event<T>>): Option<Table<T>>
    decreases events
  {
    if events == [] then Some(t)
    else if !Enabled(t, events[0]) then None
    else RunFrom(Step(t, events[0]), events[1..])
  }

  lemma {:induction false} RunKeepsValid<T>(t: Table<T>, events: seq<Event<T>>)
    requires Valid(t) && RunFrom(t, events).Some?
    ensures Valid(RunFrom(t, events).value)
    decreases events
  {
    if events != [] {
      StepKeepsValid(t, events[0]);
      RunKeepsValid(Step(t, events[0]), events[1..]);
    }
  }

  lemma {:induction false} RunKeepsCalls<T>(t: Table<T>, events: seq<Event<T>>, call: nat)
    requires RunFrom(t, events).Some? && call < |t.calls|
    ensures var u := RunFrom(t, events).value;
            && call < |u.calls|
            && u.calls[call].slot == t.calls[call].slot && u.calls[call].begun == t.calls[call].begun
            && (!t.calls[call].status.Running? ==>
                  !u.calls[call].status.Running? && u.calls[call].status.outcome == t.calls[call].status.outcome)
            && (t.calls[call].status.Released? ==> u.calls[call] == t.calls[call])
    decreases events
  {
    if events != [] {
      StepKeepsCalls(t, events[0], call);
      RunKeepsCalls(Step(t, events[0]), events[1..], call);
    }
  }

  /**
   * Over every run, the fetchers one key's callers share never overlap: of any
   * two calls in a slot, the earlier was released before the later began. So
   * at most one flight of a key is ever open.
   */
  lemma FlightsOfAKeyNeverOverlap<T>(events: seq<Event<T>>, i: nat, j: nat)
    requires RunFrom(Empty<T>(), events).Some?
    requires var calls := RunFrom(Empty<T>(), events).value.calls;
             i < j < |calls| && calls[i].slot.Some? && calls[i].slot == calls[j].slot
    ensures var calls := RunFrom(Empty<T>(), events).value.calls;
            && calls[i].status.Released?
            && calls[i].begun <= calls[i].status.at < calls[i].status.released < calls[j].begun
  {
    RunKeepsValid(Empty<T>(), events);
    assert Ordered(RunFrom(Empty<T>(), events).value.calls[i], RunFrom(Empty<T>(), events).value.time);
  }

  /** No caller resumes while the slot is still the call's: a result means the key is free or another call's. */
  lemma SlotIsClearedBeforeAnyoneResumes<T>(events: seq<Event<T>>, call: nat, key: string)
    requires RunFrom(Empty<T>(), events).Some?
    requires Result(RunFrom(Empty<T>(), events).value, call).Some?
    ensures var t := RunFrom(Empty<T>(), events).value;
            key in t.pending ==> t.pending[key] != call
  {
    RunKeepsValid(Empty<T>(), events);
  }

  /** The clearing removes the call's own entry, never another's, and leaves the rest of the map. */
  lemma ReleaseClearsItsOwnEntry<T>(events: seq<Event<T>>, call: nat)
    requires RunFrom(Empty<T>(), events).Some?
    requires Enabled(RunFrom(Empty<T>(), events).value, Release(call))
    ensures var t := RunFrom(Empty<T>(), events).value;
            var u := Step(t, Release(call));
            && (t.calls[call].slot.Some? ==>
                  && t.calls[call].slot.value in t.pending && t.pending[t.calls[call].slot.value] == call
                  && u.pending == t.pending - {t.calls[call].slot.value})
            && (t.calls[call].slot.None? ==> u.pending == t.pending)
  {
    RunKeepsValid(Empty<T>(), events);
  }

  /**
   * A call's fetcher settles at most once, before or during a run: what it
   * settles with is the call's outcome from then on.
   */
  lemma {:induction false} SettlesOnce<T>(t: Table<T>, events: seq<Event<T>>, call: nat)
    requires RunFrom(t, events).Some? && call < |t.calls|
    ensures var u := RunFrom(t, events).value;
            && call < |u.calls|
            && (t.calls[call].status.Running? && !u.calls[call].status.Running? ==>
                  Settle(call, u.calls[call].status.outcome) in events)
            && forall o :: Settle(call, o) in events ==>
                 t.calls[call].status.Running? && !u.calls[call].status.Running? && u.calls[call].status.outcome == o
    decreases events
  {
    if events != [] {
      var e, next := events[0], Step(t, events[0]);
      StepKeepsCalls(t, e, call);
      SettlesOnce(next, events[1..], call);
      RunKeepsCalls(next, events[1..], call);
      assert forall x :: x in events <==> x == e || x in events[1..];
    }
  }

  /**
   * Whoever calls `run`, whenever: leading, joining while the fetcher runs, or
   * joining once it has settled or thrown and its slot is still held. What they
   * resume with is the outcome that flight's one fetcher came to: the one it
   * settles with afterwards, or had settled with already.
   */
  lemma EveryCallerGetsTheLeadersOutcome<T>(before: seq<Event<T>>, key: string, sync: Option<T>, after: seq<Event<T>>)
    requires RunFrom(Empty<T>(), before).Some?
    requires RunFrom(Step(RunFrom(Empty<T>(), before).value, Run(key, sync)), after).Some?
    ensures var t := RunFrom(Empty<T>(), before).value;
            var v := Step(t, Run(key, sync));
            var c, u := Awaited(t, key), RunFrom(v, after).value;
            && c < |v.calls| && v.calls[c].slot == Some(key) && !v.calls[c].status.Released?
            && (key !in t.pending ==>
                  v.calls[c].status == if sync.Some? then Settled(sync.value, t.time) else Running)
            && (Result(u, c).Some? ==>
                  if v.calls[c].status.Running? then Settle(c, Result(u, c).value) in after
                  else Result(u, c) == Some(v.calls[c].status.outcome))
            && (forall o :: Settle(c, o) in after && Result(u, c).Some? ==> Result(u, c) == Some(o))
  {
    var t := RunFrom(Empty<T>(), before).value;
    var v := Step(t, Run(key, sync));
    RunKeepsValid(Empty<T>(), before);
    SettlesOnce(v, after, Awaited(t, key));
    RunKeepsCalls(v, after, Awaited(t, key));
  }

  /** A key no flight holds stays free until the next `run` for it. */
  lemma {:induction false} KeyStaysFree<T>(t: Table<T>, events: seq<Event<T>>, key: string)
    requires RunFrom(t, events).Some? && key !in t.pending
    requires forall e | e in events :: e.Run? ==> e.key != key
    ensures key !in RunFrom(t, events).value.pending
    decreases events
  {
    if events != [] {
      assert events[0] in events;
      KeyStaysFree(Step(t, events[0]), events[1..], key);
    }
  }

  /**
   * After the clearing, also of a synchronous throw, and whatever else happens
   * before it, the next `run` for the key starts its own fetcher.
   */
  lemma NextRunStartsItsOwn<T>(before: seq<Event<T>>, call: nat, key: string, between: seq<Event<T>>, sync: Option<T>)
    requires RunFrom(Empty<T>(), before).Some?
    requires var t := RunFrom(Empty<T>(), before).value;
             && Enabled(t, Release(call)) && t.calls[call].slot == Some(key)
             && RunFrom(Step(t, Release(call)), between).Some?
    requires forall e | e in between :: e.Run? ==> e.key != key
    ensures var u := RunFrom(Step(RunFrom(Empty<T>(), before).value, Release(call)), between).value;
            var v := Step(u, Run(key, sync));
            && Awaited(u, key) == |u.calls| != call && |v.calls| == |u.calls| + 1
            && v.calls[|u.calls|].status == (if sync.Some? then Settled(sync.value, u.time) else Running)
            && v.pending == u.pending[key := |u.calls|]
  {
    var freed := Step(RunFrom(Empty<T>(), before).value, Release(call));
    RunKeepsCalls(freed, between, call);
    KeyStaysFree(freed, between, key);
  }

  /** The map, and the two moments the runtime calls back into it. */
  class Flights<T> {
    var pending: map<string, nat>
    ghost var calls: seq<Call<T>>
    ghost var time: nat
    var made: nat

    ghost predicate Consistent()
      reads this
    {
      Valid(State()) && made == |calls|
    }

    ghost function State(): Table<T>
      reads this
    {
      Table(pending, calls, time)
    }

    constructor ()
      ensures Consistent() && State() == Empty()
    {
      pending, calls, time, made := map[], [], 0, 0;
    }

    /**
     * The synchronous part of `run`: joins the flight the map holds, or starts
     * a fetcher and takes the slot. `call` is the promise then awaited.
     */
    method Run(key: string, sync: Option<T>) returns (call: nat, wasWaiter: bool)
      requires Consistent()
      modifies this
      ensures Consistent()
      ensures State() == Step(old(State()), Event.Run(key, sync))
      ensures call == Awaited(old(State()), key) && wasWaiter == (key in old(pending))
      ensures made == if wasWaiter then old(made) else old(made) + 1
    {
      StepKeepsValid(State(), Event.Run(key, sync));
      if key in pending {
        time := time + 1;
        return pending[key], true;
      }
      // The fetcher runs here, before the entry is set.
      ghost var begun := Begin(State(), Some(key), if sync.Some? then Settled(sync.value, time) else Running);
      call, wasWaiter := made, false;
      made := made + 1;
      pending := pending[key := call];
      calls, time := begun.calls, begun.time;
    }

    /** A fetcher called without a slot. */
    method Direct() returns (call: nat)
      requires Consistent()
      modifies this
      ensures Consistent()
      ensures State() == Step(old(State()), Event<T>.Direct) && call == |old(calls)|
      ensures pending == old(pending) && made == old(made) + 1
    {
      StepKeepsValid(State(), Event<T>.Direct);
      calls := calls + [Call(None, time, Running)];
      time := time + 1;
      call := made;
      made := made + 1;
    }

    /** The fetcher's promise settles; the map is not touched. */
    ghost method FetcherSettles(call: nat, outcome: T)
      requires Consistent() && Enabled(State(), Settle(call, outcome))
      modifies this`calls, this`time
      ensures Consistent()
      ensures State() == Step(old(State()), Settle(call, outcome))
    {
      StepKeepsValid(State(), Settle(call, outcome));
      calls := calls[call := calls[call].(status := Settled(outcome, time))];
      time := time + 1;
    }

    /** The `finally`: deletes the key, whosever entry it is; then the promise settles. */
    method Finally(key: Option<string>, ghost call: nat)
      requires Consistent() && Enabled(State(), Release(call)) && calls[call].slot == key
      modifies this
      ensures Consistent()
      ensures State() == Step(old(State()), Release(call)) && made == old(made)
    {
      StepKeepsValid(State(), Release(call));
      ghost var after := Step(State(), Release(call));
      if key.Some? {
        pending := pending - {key.value};
      }
      calls, time := after.calls, after.time;
    }
  }
}
