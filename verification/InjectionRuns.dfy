/**
 * Runs of the injection protocol told from their events alone: which arrival a
 * request is, which arrival led a call, and what the provider answered it.
 */
module InjectionRuns {
  import opened Wrappers
  import opened ExpiringMap
  import opened CacheKey
  import opened Decision
  import opened Injection
  import SingleFlight

  /** The arrivals of a run, in order. */
  function Arrivals(events: seq<Event>): (arrivals: seq<Event>)
    ensures forall a | a in arrivals :: a.Arrive?
  {
    if events == [] then []
    else
      var last := events[|events| - 1];
      Arrivals(events[..|events| - 1]) + (if last.Arrive? then [last] else [])
  }

  /** The provider answered the call with this, at some point of the run. */
  ghost predicate AnsweredIn(events: seq<Event>, call: nat, answer: Answer) {
    exists answeredAt, writtenAt :: ProviderAnswers(call, answer, answeredAt, writtenAt) in events
  }

  /** The request is its arrival: planned as decided for it, and a hit at the clock reading it came with. */
  ghost predicate IsArrival(request: Request, arrival: Event) {
    && arrival.Arrive?
    && request.plan == Decide(arrival.router, arrival.inbound)
    && (request.phase.Injecting? && request.phase.source.Cached? ==> request.phase.source.at == arrival.lookupAt)
  }

  /** The call was led by an arrival, and sent at its clock reading. */
  ghost predicate IsLed(grant: Grant, arrivals: seq<Event>) {
    && grant.leader < |arrivals| && arrivals[grant.leader].Arrive?
    && grant.requestedAt == arrivals[grant.leader].requestedAt
  }

  ghost predicate RequestsLogged(s: State, arrivals: seq<Event>) {
    |s.requests| == |arrivals| && forall r | 0 <= r < |s.requests| :: IsArrival(s.requests[r], arrivals[r])
  }

  ghost predicate GrantsLogged(s: State, arrivals: seq<Event>) {
    forall c | 0 <= c < |s.grants| :: IsLed(s.grants[c], arrivals)
  }

  ghost predicate AnswersLogged(s: State, events: seq<Event>) {
    forall c | 0 <= c < |s.table.calls| && !s.table.calls[c].status.Running? ::
      AnsweredIn(events, c, s.table.calls[c].status.outcome)
  }

  /** The log is what the events say. */
  ghost predicate Logged(s: State, events: seq<Event>) {
    RequestsLogged(s, Arrivals(events)) && GrantsLogged(s, Arrivals(events)) && AnswersLogged(s, events)
  }

  lemma ArrivalsStep(events: seq<Event>, e: Event)
    ensures Arrivals(events + [e]) == if e.Arrive? then Arrivals(events) + [e] else Arrivals(events)
  {
    assert (events + [e])[..|events|] == events;
  }

  lemma AnsweredStep(events: seq<Event>, e: Event, call: nat, answer: Answer)
    ensures AnsweredIn(events, call, answer) ==> AnsweredIn(events + [e], call, answer)
    ensures e.ProviderAnswers? && e.call == call && e.answer == answer ==> AnsweredIn(events + [e], call, answer)
  {
    if AnsweredIn(events, call, answer) {
      var answeredAt, writtenAt :| ProviderAnswers(call, answer, answeredAt, writtenAt) in events;
      assert ProviderAnswers(call, answer, answeredAt, writtenAt) in events + [e];
    }
    if e.ProviderAnswers? && e.call == call && e.answer == answer {
      assert ProviderAnswers(call, answer, e.answeredAt, e.writtenAt) in events + [e];
    }
  }

  // ---- what an arrival adds to the log ----

  predicate AddsRequest(before: seq<Request>, after: seq<Request>, plan: Plan, lookupAt: Instant) {
    && |after| == |before| + 1 && after[..|before|] == before
    && var request := after[|before|];
    && request.plan == plan
    && (request.phase.Injecting? && request.phase.source.Cached? ==> request.phase.source.at == lookupAt)
  }

  predicate AddsGrants(before: seq<Grant>, after: seq<Grant>, leader: nat, requestedAt: Instant) {
    after == before
    || (&& |after| == |before| + 1 && after[..|before|] == before
        && after[|before|].leader == leader && after[|before|].requestedAt == requestedAt)
  }

  predicate AddsCalls(before: seq<SingleFlight.Call<Answer>>, after: seq<SingleFlight.Call<Answer>>) {
    after == before || (|after| == |before| + 1 && after[..|before|] == before && after[|before|].status.Running?)
  }

  /** One request more, with this plan; at most one call more, led by it and not yet answered. */
  predicate Adds(s: State, u: State, plan: Plan, lookupAt: Instant, requestedAt: Instant) {
    && AddsRequest(s.requests, u.requests, plan, lookupAt)
    && AddsGrants(s.grants, u.grants, |s.requests|, requestedAt)
    && AddsCalls(s.table.calls, u.table.calls)
  }

  lemma EnterAdds(s: State, u: State, plan: Plan, phase: Phase, lookupAt: Instant, requestedAt: Instant)
    requires u.requests == s.requests + [Request(plan, phase)] && u.grants == s.grants && u.table.calls == s.table.calls
    requires phase.Injecting? && phase.source.Cached? ==> phase.source.at == lookupAt
    ensures Adds(s, u, plan, lookupAt, requestedAt)
  {
  }

  lemma LeadAdds(s: State, ask: Ask, lookupAt: Instant, requestedAt: Instant)
    ensures Adds(s, Lead(s, ask, requestedAt), Submit(ask), lookupAt, requestedAt)
  {
  }

  lemma AdmitAdds(s: State, ask: Ask, lookupAt: Instant, requestedAt: Instant)
    ensures Adds(s, Admit(s, ask, lookupAt, requestedAt), Submit(ask), lookupAt, requestedAt)
  {
    var hit, looked := Hit(s, ask, lookupAt), Looked(s, ask, lookupAt);
    if hit.Some? {
      EnterAdds(s, Enter(looked, Submit(ask), hit.value), Submit(ask), hit.value, lookupAt, requestedAt);
    } else if KeyOf(ask.question) in s.table.pending {
      EnterAdds(s, JoinOrLead(looked, ask, requestedAt), Submit(ask), Waiting(s.table.pending[KeyOf(ask.question)]),
                lookupAt, requestedAt);
    } else {
      LeadAdds(looked, ask, lookupAt, requestedAt);
    }
  }

  lemma ArrivalAdds(s: State, plan: Plan, lookupAt: Instant, requestedAt: Instant)
    ensures Adds(s, Arrival(s, plan, lookupAt, requestedAt), plan, lookupAt, requestedAt)
  {
    match plan {
      case Forward => EnterAdds(s, Enter(s, plan, Passing), plan, Passing, lookupAt, requestedAt);
      case ForwardStripped => EnterAdds(s, Enter(s, plan, Passing), plan, Passing, lookupAt, requestedAt);
      case Respond(status, _) =>
        EnterAdds(s, Enter(s, plan, Refused(status, None)), plan, Refused(status, None), lookupAt, requestedAt);
      case Submit(ask) =>
        SubmissionIs(s, ask, lookupAt, requestedAt);
        AdmitAdds(s, ask, lookupAt, requestedAt);
        LeadAdds(s, ask, lookupAt, requestedAt);
    }
  }

  lemma RequestsStayLogged(s: State, u: State, arrivals: seq<Event>, e: Event)
    requires RequestsLogged(s, arrivals) && e.Arrive?
    requires AddsRequest(s.requests, u.requests, Decide(e.router, e.inbound), e.lookupAt)
    ensures RequestsLogged(u, arrivals + [e])
  {
    forall r | 0 <= r < |u.requests| ensures IsArrival(u.requests[r], (arrivals + [e])[r]) {
      if r < |s.requests| {
        assert u.requests[..|s.requests|][r] == s.requests[r];
        assert IsArrival(s.requests[r], arrivals[r]);
      }
    }
  }

  lemma GrantsStayLogged(s: State, u: State, arrivals: seq<Event>, e: Event)
    requires GrantsLogged(s, arrivals) && e.Arrive?
    requires AddsGrants(s.grants, u.grants, |arrivals|, e.requestedAt)
    ensures GrantsLogged(u, arrivals + [e])
  {
    forall c | 0 <= c < |u.grants| ensures IsLed(u.grants[c], arrivals + [e]) {
      if c < |s.grants| {
        assert u.grants[..|s.grants|][c] == s.grants[c];
        assert IsLed(s.grants[c], arrivals);
      }
    }
  }

  lemma AddedIsLogged(s: State, u: State, events: seq<Event>, e: Event)
    requires Logged(s, events) && e.Arrive?
    requires Adds(s, u, Decide(e.router, e.inbound), e.lookupAt, e.requestedAt)
    ensures Logged(u, events + [e])
  {
    ArrivalsStep(events, e);
    RequestsStayLogged(s, u, Arrivals(events), e);
    GrantsStayLogged(s, u, Arrivals(events), e);
    CallsStayLogged(s, u, events, e);
  }

  lemma CallsStayLogged(s: State, u: State, events: seq<Event>, e: Event)
    requires AnswersLogged(s, events) && AddsCalls(s.table.calls, u.table.calls)
    ensures AnswersLogged(u, events + [e])
  {
    forall c | 0 <= c < |u.table.calls| && !u.table.calls[c].status.Running?
      ensures AnsweredIn(events + [e], c, u.table.calls[c].status.outcome)
    {
      assert c < |s.table.calls| && u.table.calls[..|s.table.calls|][c] == s.table.calls[c];
      AnsweredStep(events, e, c, s.table.calls[c].status.outcome);
    }
  }

  // ---- what any other event leaves of it ----

  /** The requests are the same, with the same plans, and no hit is new. */
  ghost predicate SameRequests(s: State, u: State) {
    && |u.requests| == |s.requests|
    && forall r | 0 <= r < |s.requests| ::
         && u.requests[r].plan == s.requests[r].plan
         && (u.requests[r].phase.Injecting? && u.requests[r].phase.source.Cached? ==>
               u.requests[r].phase == s.requests[r].phase)
  }

  /** Every answer there is was there, or is the event's own. */
  ghost predicate SameAnswers(s: State, u: State, e: Event) {
    && |u.table.calls| == |s.table.calls|
    && forall c | 0 <= c < |s.table.calls| && !u.table.calls[c].status.Running? ::
         var answer := u.table.calls[c].status.outcome;
         || (!s.table.calls[c].status.Running? && s.table.calls[c].status.outcome == answer)
         || (e.ProviderAnswers? && e.call == c && e.answer == answer)
  }

  lemma OtherStep(s: State, e: Event)
    requires Enabled(s, e) && !e.Arrive?
    ensures SameRequests(s, Step(s, e)) && SameAnswers(s, Step(s, e), e) && Step(s, e).grants == s.grants
  {
    match e {
      case ProviderAnswers(_, _, _, _) =>
      case SlotCleared(_) =>
      case Resume(_) =>
    }
  }

  lemma OtherIsLogged(s: State, u: State, events: seq<Event>, e: Event)
    requires Logged(s, events) && !e.Arrive?
    requires SameRequests(s, u) && SameAnswers(s, u, e) && u.grants == s.grants
    ensures Logged(u, events + [e])
  {
    ArrivalsStep(events, e);
    forall r | 0 <= r < |u.requests| ensures IsArrival(u.requests[r], Arrivals(events)[r]) {
      assert IsArrival(s.requests[r], Arrivals(events)[r]);
    }
    forall c | 0 <= c < |u.table.calls| && !u.table.calls[c].status.Running?
      ensures AnsweredIn(events + [e], c, u.table.calls[c].status.outcome)
    {
      AnsweredStep(events, e, c, u.table.calls[c].status.outcome);
    }
  }

  lemma StepIsLogged(s: State, events: seq<Event>, e: Event)
    requires Logged(s, events) && Enabled(s, e)
    ensures Logged(Step(s, e), events + [e])
  {
    if e.Arrive? {
      ArrivalAdds(s, Decide(e.router, e.inbound), e.lookupAt, e.requestedAt);
      AddedIsLogged(s, Step(s, e), events, e);
    } else {
      OtherStep(s, e);
      OtherIsLogged(s, Step(s, e), events, e);
    }
  }

  lemma Onward(before: seq<Event>, events: seq<Event>)
    ensures events == [] ==> before + events == before
    ensures events != [] ==> before + [events[0]] + events[1..] == before + events
  {
  }

  lemma {:induction false} RunIsLogged(s: State, before: seq<Event>, events: seq<Event>)
    requires Logged(s, before) && RunFrom(s, events).Some?
    ensures Logged(RunFrom(s, events).value, before + events)
    decreases events
  {
    Onward(before, events);
    if events != [] {
      StepIsLogged(s, before, events[0]);
      RunIsLogged(Step(s, events[0]), before + [events[0]], events[1..]);
    }
  }

  lemma LoggedFromTheStart(maxEntries: nat, events: seq<Event>)
    requires RunFrom(Start(maxEntries), events).Some?
    ensures Logged(RunFrom(Start(maxEntries), events).value, events)
    ensures Inv(RunFrom(Start(maxEntries), events).value) && Reached(RunFrom(Start(maxEntries), events).value)
  {
    RunIsLogged(Start(maxEntries), [], events);
    assert [] + events == events;
    RunKeepsInv(Start(maxEntries), events);
  }

  // ---- the theorems ----

  /** The requests of a run are its arrivals, in order, each with the plan decided for it. */
  lemma RequestsAreTheArrivals(maxEntries: nat, events: seq<Event>)
    requires RunFrom(Start(maxEntries), events).Some?
    ensures var s, arrivals := RunFrom(Start(maxEntries), events).value, Arrivals(events);
            && |s.requests| == |arrivals|
            && forall r | 0 <= r < |s.requests| :: s.requests[r].plan == Decide(arrivals[r].router, arrivals[r].inbound)
  {
    LoggedFromTheStart(maxEntries, events);
    var s, arrivals := RunFrom(Start(maxEntries), events).value, Arrivals(events);
    forall r | 0 <= r < |s.requests| ensures s.requests[r].plan == Decide(arrivals[r].router, arrivals[r].inbound) {
      assert IsArrival(s.requests[r], arrivals[r]);
    }
  }

  lemma LedBy(s: State, events: seq<Event>, call: nat)
    requires Inv(s) && Logged(s, events) && call < |s.grants|
    ensures var arrivals, grant := Arrivals(events), s.grants[call];
            && grant.leader < |arrivals| && grant.requestedAt == arrivals[grant.leader].requestedAt
            && Decide(arrivals[grant.leader].router, arrivals[grant.leader].inbound) == Submit(grant.ask)
  {
    var arrivals, grant := Arrivals(events), s.grants[call];
    assert IsLed(grant, arrivals) && IsArrival(s.requests[grant.leader], arrivals[grant.leader]);
  }

  /** Before every bound the leader's router, the provider and the leader's assertion set on an answer, less the margin. */
  predicate BeforeEveryBound(led: Event, expiresIn: Option<real>, at: Instant)
    requires led.Arrive? && Decide(led.router, led.inbound).Submit?
  {
    var late := at + led.router.policy.marginSeconds * 1000.0;
    && late < led.requestedAt + led.router.policy.ttlSeconds * 1000.0
    && (expiresIn.Some? ==> late < led.requestedAt + expiresIn.value * 1000.0)
    && (Decide(led.router, led.inbound).ask.question.Exchange? ==>
          && led.inbound.assertion.Some? && led.inbound.assertion.value.exp.Some?
          && late < led.inbound.assertion.value.exp.value * 1000.0)
  }

  lemma HitIsBeforeEveryBound(s: State, events: seq<Event>, r: nat)
    requires Reached(s) && Inv(s) && Logged(s, events)
    requires r < |s.requests| && s.requests[r].phase.Injecting? && s.requests[r].phase.source.Cached?
    ensures var arrivals, call := Arrivals(events), SourceCall(s.requests[r].phase.source);
            && call < |s.grants| && s.grants[call].leader < |arrivals|
            && IssuedBy(s, call, s.requests[r].phase.token)
            && Decide(arrivals[s.grants[call].leader].router, arrivals[s.grants[call].leader].inbound) == Submit(s.grants[call].ask)
            && BeforeEveryBound(arrivals[s.grants[call].leader], s.table.calls[call].status.outcome.expiresIn,
                                s.requests[r].phase.source.at)
  {
    var call := SourceCall(s.requests[r].phase.source);
    CacheHitsAreInTime(s, r);
    LedBy(s, events, call);
    var led := Arrivals(events)[s.grants[call].leader];
    SubmitsUnderTheRoutersPolicy(led.router, led.inbound);
  }

  /**
   * Expiry, from the events alone. A hit is injected at the clock reading its
   * request arrived with. That is strictly before the moment the call that
   * issued the token was sent plus the ttl of the router its leader arrived at,
   * plus the `expires_in` the provider answered it with, and before the `exp`
   * of the assertion its leader presented, each less that router's margin. The
   * leader was admitted, and asked what the request asks.
   */
  lemma HitsKeepTheirRoutersBounds(maxEntries: nat, events: seq<Event>, r: nat) returns (led: nat, expiresIn: Option<real>)
    requires RunFrom(Start(maxEntries), events).Some?
    requires var s := RunFrom(Start(maxEntries), events).value;
             r < |s.requests| && s.requests[r].phase.Injecting? && s.requests[r].phase.source.Cached?
    ensures var arrivals := Arrivals(events);
            && r < |arrivals| && led < |arrivals|
            && var hit, phase := arrivals[r], RunFrom(Start(maxEntries), events).value.requests[r].phase;
            && phase.source.at == hit.lookupAt
            && AnsweredIn(events, phase.source.writer, Issued(phase.token, expiresIn))
            && var asked, plan := Decide(hit.router, hit.inbound), Decide(arrivals[led].router, arrivals[led].inbound);
            && asked.Submit? && plan.Submit? && plan.ask.admitted && plan.ask.question == asked.ask.question
            && BeforeEveryBound(arrivals[led], expiresIn, hit.lookupAt)
  {
    var s := RunFrom(Start(maxEntries), events).value;
    LoggedFromTheStart(maxEntries, events);
    HitIsBeforeEveryBound(s, events, r);
    TokenProvenance(s, r);
    var call := s.requests[r].phase.source.writer;
    assert IsArrival(s.requests[r], Arrivals(events)[r]);
    assert AnsweredIn(events, call, s.table.calls[call].status.outcome);
    return s.grants[call].leader, s.table.calls[call].status.outcome.expiresIn;
  }
}
