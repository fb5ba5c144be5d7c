/** The program that runs the protocol: a store, a flight table, and the segments between awaits. */
module InjectionProxy {
  import opened Wrappers
  import opened ExpiringMap
  import opened CacheKey
  import opened Decision
  import Injection
  import SingleFlight
  import TokenCache

  /** The segments of `decideInjection` and `decideExchange`, each proved to be the protocol's step. */
  class Proxy {
    const cache: TokenCache.Cache<string>
    const flights: SingleFlight.Flights<Injection.Answer>
    ghost var grants: seq<Injection.Grant>
    ghost var requests: seq<Injection.Request>
    ghost var writers: map<string, nat>

    ghost predicate Working()
      reads this, cache, flights
    {
      cache.Valid() && flights.Consistent()
    }

    ghost predicate Valid()
      reads this, cache, flights
    {
      Working() && Injection.Inv(Log())
    }

    ghost function Log(): Injection.State
      reads this, cache, flights
    {
      Injection.State(cache.maxEntries, cache.entries, flights.State(), grants, requests, writers)
    }

    constructor (maxEntries: nat)
      ensures Valid() && Log() == Injection.Start(maxEntries)
      ensures fresh(cache) && fresh(flights)
    {
      cache := new TokenCache.Cache(maxEntries);
      flights := new SingleFlight.Flights();
      grants, requests, writers := [], [], map[];
    }

    /**
     * From the request's arrival to its first await: answered at once, from
     * the cache, or left awaiting a call, its own or one already in flight.
     */
    method Arrive(router: Router, inbound: Inbound, lookupAt: Instant, ghost requestedAt: Instant)
      returns (plan: Plan, token: Option<string>, call: Option<nat>)
      requires Valid()
      modifies this, cache, flights
      ensures Valid()
      ensures Log() == Injection.Step(old(Log()), Injection.Arrive(router, inbound, lookupAt, requestedAt))
      ensures |requests| == |old(requests)| + 1
      ensures var request := requests[|old(requests)|];
              && plan == request.plan
              && token == (if request.phase.Injecting? then Some(request.phase.token) else None)
              && call == (if request.phase.Waiting? then Some(request.phase.call) else None)
    {
      Injection.StepKeepsInv(Log(), Injection.Arrive(router, inbound, lookupAt, requestedAt));
      plan := Decide(router, inbound);
      token, call := None, None;
      ghost var phase := Injection.Passing;
      match plan {
        case Forward =>
        case ForwardStripped =>
        case Respond(status, _) =>
          phase := Injection.Refused(status, None);
        case Submit(ask) =>
          token, call, phase := Submission(ask, lookupAt, requestedAt);
      }
      requests := requests + [Injection.Request(plan, phase)];
    }

    /** A question asked: everything of its arrival but its entry in the log. */
    method Submission(ask: Ask, lookupAt: Instant, ghost requestedAt: Instant)
      returns (token: Option<string>, call: Option<nat>, ghost phase: Injection.Phase)
      requires Working()
      modifies this, cache, flights
      ensures Working() && requests == old(requests)
      ensures Injection.Enter(Log(), Submit(ask), phase) == Injection.Arrival(old(Log()), Submit(ask), lookupAt, requestedAt)
      ensures token == (if phase.Injecting? then Some(phase.token) else None)
      ensures call == (if phase.Waiting? then Some(phase.call) else None)
    {
      Injection.SubmissionIs(Log(), ask, lookupAt, requestedAt);
      if !ask.admitted {
        var own := Alone(ask, requestedAt);
        return None, Some(own), Injection.Waiting(own);
      }
      token, call, phase := Shared(ask, KeyOf(ask.question), lookupAt, requestedAt);
    }

    /** An admitted request may be answered from the cache or by a flight another request started. */
    method Shared(ask: Ask, key: string, lookupAt: Instant, ghost requestedAt: Instant)
      returns (token: Option<string>, call: Option<nat>, ghost phase: Injection.Phase)
      requires Working() && ask.admitted && key == KeyOf(ask.question)
      modifies this, cache, flights
      ensures Working() && requests == old(requests)
      ensures Injection.Enter(Log(), Submit(ask), phase) == Injection.Admit(old(Log()), ask, lookupAt, requestedAt)
      ensures token == (if phase.Injecting? then Some(phase.token) else None)
      ensures call == (if phase.Waiting? then Some(phase.call) else None)
    {
      ghost var hit := Injection.Hit(Log(), ask, lookupAt);
      token := LookIn(ask, key, lookupAt);
      if token.Some? {
        return token, None, hit.value;
      }
      // No await between the lookup and this.
      var shared := JoinOrLead(ask, key, requestedAt);
      return None, Some(shared), Injection.Waiting(shared);
    }

    /** The store's lookup. */
    method LookIn(ask: Ask, key: string, lookupAt: Instant) returns (token: Option<string>)
      requires Working() && key == KeyOf(ask.question)
      modifies cache
      ensures Working() && Log() == Injection.Looked(old(Log()), ask, lookupAt)
      ensures var hit := Injection.Hit(old(Log()), ask, lookupAt);
              token == if hit.Some? then Some(hit.value.token) else None
    {
      token := cache.Get(key, lookupAt);
    }

    /** A request not admitted asks the provider itself. */
    method Alone(ask: Ask, ghost requestedAt: Instant) returns (call: nat)
      requires Working() && !ask.admitted
      modifies this`grants, flights
      ensures Working()
      ensures Injection.Enter(Log(), Submit(ask), Injection.Waiting(call)) == Injection.Lead(old(Log()), ask, requestedAt)
    {
      ghost var before := Log();
      call := flights.Direct();
      grants := grants + [Injection.Grant(ask, |requests|, requestedAt)];
      Injection.LeadIs(before, Log(), ask, requestedAt, SingleFlight.Direct);
    }

    /** An admitted request that missed joins the key's flight or starts it. */
    method JoinOrLead(ask: Ask, key: string, ghost requestedAt: Instant) returns (call: nat)
      requires Working() && ask.admitted && key == KeyOf(ask.question)
      modifies this`grants, flights
      ensures Working()
      ensures Injection.Enter(Log(), Submit(ask), Injection.Waiting(call))
           == Injection.JoinOrLead(old(Log()), ask, requestedAt)
    {
      ghost var before := Log();
      var wasWaiter;
      call, wasWaiter := flights.Run(key, None);
      if wasWaiter {
        Injection.JoinIs(before, Log(), ask, key, requestedAt);
      } else {
        grants := grants + [Injection.Grant(ask, |requests|, requestedAt)];
        Injection.LeadIs(before, Log(), ask, requestedAt, SingleFlight.Run(key, None));
      }
    }

    /** The fetcher's continuation once the provider has answered: the cache write, then the call settles. */
    method ProviderAnswers(ask: Ask, requestedAt: Instant, ghost call: nat, answer: Injection.Answer,
                           answeredAt: Instant, writtenAt: Instant)
      requires Valid()
      requires Injection.Enabled(Log(), Injection.ProviderAnswers(call, answer, answeredAt, writtenAt))
      requires grants[call].ask == ask && grants[call].requestedAt == requestedAt
      modifies this, cache, flights
      ensures Valid()
      ensures Log() == Injection.Step(old(Log()), Injection.ProviderAnswers(call, answer, answeredAt, writtenAt))
    {
      Injection.StepKeepsInv(Log(), Injection.ProviderAnswers(call, answer, answeredAt, writtenAt));
      if answer.Issued? {
        var expiresAt := ExpiresAt(ask, requestedAt, answeredAt, answer.expiresIn);
        if ask.admitted && expiresAt.Some? {
          Write(KeyOf(ask.question), answer.token, expiresAt.value, call, writtenAt);
        }
      }
      flights.FetcherSettles(call, answer);
    }

    method Write(key: string, token: string, expiresAt: Instant, ghost call: nat, writtenAt: Instant)
      requires Working()
      modifies this`writers, cache
      ensures Working()
      ensures Log() == old(Log()).(
                slots := TokenCache.AfterSet(old(cache.entries), cache.maxEntries, Slot(key, token, expiresAt), writtenAt),
                writers := old(writers)[key := call])
    {
      cache.Set(key, token, expiresAt, writtenAt);
      writers := writers[key := call];
    }

    /** The `finally` of a call. */
    method SlotCleared(key: Option<string>, ghost call: nat)
      requires Valid() && Injection.Enabled(Log(), Injection.SlotCleared(call)) && flights.calls[call].slot == key
      modifies flights
      ensures Valid()
      ensures Log() == Injection.Step(old(Log()), Injection.SlotCleared(call))
    {
      ghost var before := Log();
      Injection.StepKeepsInv(before, Injection.SlotCleared(call));
      Clear(key, call);
      assert Log() == Injection.Step(before, Injection.SlotCleared(call));
    }

    method Clear(key: Option<string>, ghost call: nat)
      requires Working() && Injection.Enabled(Log(), Injection.SlotCleared(call)) && flights.calls[call].slot == key
      modifies flights
      ensures Working()
      ensures Log() == Injection.Step(old(Log()), Injection.SlotCleared(call))
    {
      flights.Finally(key, call);
    }

    /** A waiting request resumes with what its call came to: the token to inject, or the status to answer. */
    method Resume(answer: Injection.Answer, ghost request: nat) returns (token: Option<string>, status: Option<int>)
      requires Valid() && Injection.Enabled(Log(), Injection.Resume(request))
      requires SingleFlight.Result(flights.State(), requests[request].phase.call) == Some(answer)
      modifies this
      ensures Valid()
      ensures Log() == Injection.Step(old(Log()), Injection.Resume(request))
      ensures var phase := requests[request].phase;
              && token == (if phase.Injecting? then Some(phase.token) else None)
              && status == (if phase.Refused? then Some(phase.status) else None)
    {
      Injection.StepKeepsInv(Log(), Injection.Resume(request));
      ghost var call := requests[request].phase.call;
      match answer {
        case Issued(issued, _) =>
          token, status := Some(issued), None;
          requests := requests[request := requests[request].(phase := Injection.Injecting(issued, Injection.Awaited(call)))];
        case Failed(code) =>
          token, status := None, Some(code);
          requests := requests[request := requests[request].(phase := Injection.Refused(code, Some(call)))];
      }
    }
  }
}
