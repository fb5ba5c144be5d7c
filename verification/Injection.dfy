/**
 * The injection token path as a concurrent protocol: any number of requests,
 * of any number of routers and of both paths, over one token store and one
 * flight table.
 *
 * An event is one segment that runs without an await in it: a request arriving
 * (the cache lookup and the joining or leading of a flight), the provider
 * answering a call (the cache write and the call's settling), the clearing of
 * a call's slot, and a waiting request resuming. Between events anything may
 * interleave. Clock readings are arbitrary.
 */
module Injection {
  import opened Wrappers
  import opened ExpiringMap
  import opened CacheKey
  import opened Decision
  import opened SingleFlight
  import TokenCache

  /** What the provider comes back with: a token and its `expires_in`, or a failure and the status it is answered with. */
  datatype Answer =
    | Issued(token: string, expiresIn: Option<real>)
    | Failed(status: int)

  /** A call to the provider: what it asked, on behalf of which request, and the clock just before it was sent. */
  datatype Grant = Grant(ask: Ask, leader: nat, requestedAt: Instant)

  datatype Phase =
    | Passing                             // forwarded without a token of the proxy's, as the plan says
    | Refused(status: int, cause: Option<nat>)  // by the plan, or by the failure of the call awaited
    | Waiting(call: nat)
    | Injecting(token: string, source: Source)

  /** Where an injected token came from: the cache, at a clock reading, or a call awaited. */
  datatype Source =
    | Cached(at: Instant, writer: nat)
    | Awaited(call: nat)

  datatype Request = Request(plan: Plan, phase: Phase)

  /**
   * `slots` and `table` are the program's. `grants` (one for each call of the
   * table), `requests` and `writers` (which call last wrote a key) are the log.
   */
  datatype State = State(
    maxEntries: nat,
    slots: Slots<string>,
    table: Table<Answer>,
    grants: seq<Grant>,
    requests: seq<Request>,
    writers: map<string, nat>)

  function Start(maxEntries: nat): State {
    State(maxEntries, [], SingleFlight.Empty(), [], [], map[])
  }

  datatype Event =
    | Arrive(router: Router, inbound: Inbound, lookupAt: Instant, requestedAt: Instant)
    | ProviderAnswers(call: nat, answer: Answer, answeredAt: Instant, writtenAt: Instant)
    | SlotCleared(call: nat)
    | Resume(request: nat)

  predicate Enabled(s: State, e: Event) {
    match e
    case Arrive(_, _, _, _) => true
    case ProviderAnswers(call, answer, _, _) =>
      SingleFlight.Enabled(s.table, Settle(call, answer)) && call < |s.grants|
    case SlotCleared(call) => SingleFlight.Enabled<Answer>(s.table, Release(call))
    case Resume(r) =>
      r < |s.requests| && s.requests[r].phase.Waiting? && Result(s.table, s.requests[r].phase.call).Some?
  }

  // ---- the four segments ----

  /** A request takes its place in the log. */
  function Enter(s: State, plan: Plan, phase: Phase): State {
    s.(requests := s.requests + [Request(plan, phase)])
  }

  /** A request leads a call of its own, in the key's slot or in none. */
  function Lead(s: State, ask: Ask, requestedAt: Instant): State {
    var call := |s.table.calls|;
    var table := if ask.admitted then SingleFlight.Step(s.table, Run(KeyOf(ask.question), None))
                 else SingleFlight.Step(s.table, SingleFlight.Event<Answer>.Direct);
    Enter(s.(table := table, grants := s.grants + [Grant(ask, |s.requests|, requestedAt)]),
          Submit(ask), Waiting(call))
  }

  /** An admitted request that missed: with the flight that is pending, else leading one. */
  function JoinOrLead(s: State, ask: Ask, requestedAt: Instant): State {
    var key := KeyOf(ask.question);
    if key in s.table.pending then
      Enter(s.(table := SingleFlight.Step(s.table, Run(key, None))), Submit(ask), Waiting(s.table.pending[key]))
    else Lead(s, ask, requestedAt)
  }

  /** The state once the store has been looked in. */
  function Looked(s: State, ask: Ask, lookupAt: Instant): State {
    s.(slots := TokenCache.AfterGet(s.slots, KeyOf(ask.question), lookupAt))
  }

  /** A hit: the token served, and the call that last wrote its key. */
  function Hit(s: State, ask: Ask, lookupAt: Instant): Option<Phase> {
    var key := KeyOf(ask.question);
    var hit := Served(s.slots, key, lookupAt);
    if hit.None? then None
    else Some(Injecting(hit.value, Cached(lookupAt, if key in s.writers then s.writers[key] else 0)))
  }

  /** An admitted request: from the cache, else with a flight. */
  function Admit(s: State, ask: Ask, lookupAt: Instant, requestedAt: Instant): State {
    var hit := Hit(s, ask, lookupAt);
    if hit.Some? then Enter(Looked(s, ask, lookupAt), Submit(ask), hit.value)
    else JoinOrLead(Looked(s, ask, lookupAt), ask, requestedAt)
  }

  /** `u` is `s` with the table and the log of calls moved on. */
  predicate Moved(s: State, u: State, table: Table<Answer>, grants: seq<Grant>) {
    u == s.(table := table, grants := grants)
  }

  lemma LeadIs(s: State, u: State, ask: Ask, requestedAt: Instant, e: SingleFlight.Event<Answer>)
    requires e == if ask.admitted then Run(KeyOf(ask.question), None) else Direct
    requires Moved(s, u, SingleFlight.Step(s.table, e), s.grants + [Grant(ask, |s.requests|, requestedAt)])
    ensures Enter(u, Submit(ask), Waiting(|s.table.calls|)) == Lead(s, ask, requestedAt)
  {
  }

  lemma JoinIs(s: State, u: State, ask: Ask, key: string, requestedAt: Instant)
    requires key == KeyOf(ask.question) && key in s.table.pending
    requires Moved(s, u, SingleFlight.Step(s.table, Run(key, None)), s.grants)
    ensures Enter(u, Submit(ask), Waiting(s.table.pending[key])) == JoinOrLead(s, ask, requestedAt)
  {
  }

  function Arrival(s: State, plan: Plan, lookupAt: Instant, requestedAt: Instant): State {
    match plan
    case Forward => Enter(s, plan, Passing)
    case ForwardStripped => Enter(s, plan, Passing)
    case Respond(status, _) => Enter(s, plan, Refused(status, None))
    case Submit(ask) =>
      if ask.admitted then Admit(s, ask, lookupAt, requestedAt) else Lead(s, ask, requestedAt)
  }

  lemma SubmissionIs(s: State, ask: Ask, lookupAt: Instant, requestedAt: Instant)
    ensures Arrival(s, Submit(ask), lookupAt, requestedAt)
         == if ask.admitted then Admit(s, ask, lookupAt, requestedAt) else Lead(s, ask, requestedAt)
  {
  }

  /** The instant the answer is to be cached until, if it is: never for a failure or a request not admitted. */
  function CachedUntil(grant: Grant, answer: Answer, answeredAt: Instant): Option<Instant> {
    if answer.Issued? && grant.ask.admitted
    then ExpiresAt(grant.ask, grant.requestedAt, answeredAt, answer.expiresIn)
    else None
  }

  function Answering(s: State, call: nat, answer: Answer, answeredAt: Instant, writtenAt: Instant): State
    requires Enabled(s, ProviderAnswers(call, answer, answeredAt, writtenAt))
  {
    var grant := s.grants[call];
    var until := CachedUntil(grant, answer, answeredAt);
    var settled := s.(table := SingleFlight.Step(s.table, Settle(call, answer)));
    if until.None? then settled
    else
      var key := KeyOf(grant.ask.question);
      settled.(
        slots := TokenCache.AfterSet(s.slots, s.maxEntries, Slot(key, answer.token, until.value), writtenAt),
        writers := s.writers[key := call])
  }

  /** What a call's outcome makes of those who awaited it. */
  function Outcome(call: nat, answer: Answer): Phase {
    match answer
    case Issued(token, _) => Injecting(token, Awaited(call))
    case Failed(status) => Refused(status, Some(call))
  }

  function Resuming(s: State, r: nat): State
    requires Enabled(s, Resume(r))
  {
    var call := s.requests[r].phase.call;
    s.(requests := s.requests[r := s.requests[r].(phase := Outcome(call, Result(s.table, call).value))])
  }

  function Step(s: State, e: Event): State
    requires Enabled(s, e)
  {
    match e
    case Arrive(router, inbound, lookupAt, requestedAt) =>
      Arrival(s, Decide(router, inbound), lookupAt, requestedAt)
    case ProviderAnswers(call, answer, answeredAt, writtenAt) =>
      Answering(s, call, answer, answeredAt, writtenAt)
    case SlotCleared(call) => s.(table := SingleFlight.Step<Answer>(s.table, Release(call)))
    case Resume(r) => Resuming(s, r)
  }

  function RunFrom(s: State, events: seq<Event>): Option<State>
    decreases events
  {
    if events == [] then Some(s)
    else if !Enabled(s, events[0]) then None
    else RunFrom(Step(s, events[0]), events[1..])
  }

  /** `s` is what some run of a store built with its bound comes to. */
  ghost predicate Reached(s: State) {
    exists events :: RunFrom(Start(s.maxEntries), events) == Some(s)
  }

  // ---- what holds of every reachable state ----

  /** The call was answered with this token. */
  predicate IssuedBy(s: State, call: nat, token: string) {
    && call < |s.grants| == |s.table.calls|
    && !s.table.calls[call].status.Running?
    && s.table.calls[call].status.outcome.Issued?
    && s.table.calls[call].status.outcome.token == token
  }

  /** The call failed, and is to be answered with this status. */
  predicate FailedWith(s: State, call: nat, status: int) {
    && call < |s.grants| == |s.table.calls|
    && !s.table.calls[call].status.Running?
    && s.table.calls[call].status.outcome == Failed(status)
  }

  /** Every call was led by a request that asked what the call asks. */
  predicate LeadersAsked(s: State) {
    forall c | 0 <= c < |s.grants| ::
      s.grants[c].leader < |s.requests| && s.requests[s.grants[c].leader].plan == Submit(s.grants[c].ask)
  }

  /** Every call is in its question's slot when the request that led it was admitted, and in none otherwise. */
  predicate SlotsMatch(s: State) {
    && |s.grants| == |s.table.calls|
    && (forall c | 0 <= c < |s.grants| ::
          s.table.calls[c].slot ==
          if s.grants[c].ask.admitted then Some(KeyOf(s.grants[c].ask.question)) else None)
  }

  /** A slot of the store is an admitted call's answer to its key's question, kept no longer than the answer lasts. */
  ghost predicate Traced(s: State, slot: Slot<string>) {
    && slot.key in s.writers
    && var call := s.writers[slot.key];
    && IssuedBy(s, call, slot.value)
    && s.grants[call].ask.admitted && KeyOf(s.grants[call].ask.question) == slot.key
    && forall at | at < slot.expiresAt ::
         InTime(s.grants[call].ask, s.grants[call].requestedAt, s.table.calls[call].status.outcome.expiresIn, at)
  }

  /** Where a request stands follows from its plan, and its token from a call that asked its question. */
  ghost predicate Placed(s: State, r: nat)
    requires r < |s.requests| && |s.grants| == |s.table.calls|
  {
    var request := s.requests[r];
    match request.phase
    case Passing => request.plan.Forward? || request.plan.ForwardStripped?
    case Refused(status, None) => request.plan.Respond? && request.plan.status == status
    case Refused(status, Some(call)) =>
      && request.plan.Submit? && May(s, r, request.plan.ask, call)
      && FailedWith(s, call, status) && s.table.calls[call].status.Released?
    case Waiting(call) => request.plan.Submit? && May(s, r, request.plan.ask, call)
    case Injecting(token, Awaited(call)) =>
      && request.plan.Submit? && May(s, r, request.plan.ask, call)
      && IssuedBy(s, call, token) && s.table.calls[call].status.Released?
    case Injecting(token, Cached(at, call)) =>
      && request.plan.Submit? && request.plan.ask.admitted
      && IssuedBy(s, call, token)
      && s.grants[call].ask.admitted && s.grants[call].ask.question == request.plan.ask.question
      && InTime(s.grants[call].ask, s.grants[call].requestedAt, s.table.calls[call].status.outcome.expiresIn, at)
  }

  /** The request may have the call's answer: it asked the same, and shares it only with those admitted. */
  ghost predicate May(s: State, r: nat, ask: Ask, call: nat) {
    && call < |s.grants|
    && s.grants[call].ask.question == ask.question
    && s.grants[call].ask.admitted == ask.admitted
    && (!ask.admitted ==> s.grants[call].leader == r)
  }

  ghost predicate Inv(s: State) {
    && Valid(s.table)
    && SlotsMatch(s) && LeadersAsked(s)
    && Sound(s.slots, s.maxEntries)
    && (forall slot | slot in s.slots :: Traced(s, slot))
    && (forall r | 0 <= r < |s.requests| :: Placed(s, r))
  }

  // ---- a step of the log forgets nothing ----

  /** `u` is `s` with more calls, or calls further on: every settled outcome stays. */
  ghost predicate Extends(s: State, u: State) {
    && |s.grants| == |s.table.calls| && |u.grants| == |u.table.calls|
    && |s.grants| <= |u.grants|
    && (forall c | 0 <= c < |s.grants| ::
          && u.grants[c] == s.grants[c]
          && (!s.table.calls[c].status.Running? ==>
                && !u.table.calls[c].status.Running?
                && u.table.calls[c].status.outcome == s.table.calls[c].status.outcome
                && (s.table.calls[c].status.Released? ==> u.table.calls[c].status.Released?)))
  }

  lemma PlacedExtends(s: State, u: State, r: nat)
    requires Extends(s, u) && r < |s.requests| && r < |u.requests| && s.requests[r] == u.requests[r]
    requires Placed(s, r)
    ensures Placed(u, r)
  {
  }

  lemma TracedExtends(s: State, u: State, slot: Slot<string>)
    requires Extends(s, u) && Traced(s, slot)
    requires slot.key in u.writers && u.writers[slot.key] == s.writers[slot.key]
    ensures Traced(u, slot)
  {
    var call := s.writers[slot.key];
    assert u.table.calls[call].status.outcome == s.table.calls[call].status.outcome;
  }

  lemma SameCallsExtend(s: State, u: State)
    requires |s.grants| == |s.table.calls| && u.table == s.table && u.grants == s.grants
    ensures Extends(s, u)
  {
  }

  lemma LeadersStay(s: State, u: State)
    requires LeadersAsked(s) && u.grants == s.grants && |s.requests| <= |u.requests|
    requires forall r | 0 <= r < |s.requests| :: u.requests[r].plan == s.requests[r].plan
    ensures LeadersAsked(u)
  {
  }

  /** Calls further on and slots gone keep the store traced. */
  lemma FrameKeepsInv(s: State, u: State)
    requires Inv(s) && Extends(s, u) && u.writers == s.writers
    requires Valid(u.table) && SlotsMatch(u) && LeadersAsked(u) && Sound(u.slots, u.maxEntries)
    requires forall slot | slot in u.slots :: slot in s.slots
    requires forall r | 0 <= r < |u.requests| :: Placed(u, r)
    ensures Inv(u)
  {
    forall slot | slot in u.slots ensures Traced(u, slot) {
      TracedExtends(s, u, slot);
    }
  }

  /** Requests added, each placed, leave those before them where they were. */
  lemma GrowKeepsInv(s: State, u: State)
    requires Inv(s) && Extends(s, u) && u.writers == s.writers
    requires |s.requests| <= |u.requests| && forall r | 0 <= r < |s.requests| :: u.requests[r] == s.requests[r]
    requires Valid(u.table) && SlotsMatch(u) && LeadersAsked(u) && Sound(u.slots, u.maxEntries)
    requires forall slot | slot in u.slots :: slot in s.slots
    requires forall r | |s.requests| <= r < |u.requests| :: Placed(u, r)
    ensures Inv(u)
  {
    forall r | 0 <= r < |u.requests| ensures Placed(u, r) {
      if r < |s.requests| {
        PlacedExtends(s, u, r);
      }
    }
    FrameKeepsInv(s, u);
  }

  /** What the flight table does on its own. */
  lemma TableStepKeepsInv(s: State, e: SingleFlight.Event<Answer>)
    requires Inv(s) && SingleFlight.Enabled(s.table, e)
    requires e.Run? ==> e.key in s.table.pending
    requires !e.Direct?
    ensures Inv(s.(table := SingleFlight.Step(s.table, e)))
    ensures Extends(s, s.(table := SingleFlight.Step(s.table, e)))
  {
    var u := s.(table := SingleFlight.Step(s.table, e));
    StepKeepsValid(s.table, e);
    LeadersStay(s, u);
    forall c | 0 <= c < |s.grants| {
      StepKeepsCalls(s.table, e, c);
    }
    GrowKeepsInv(s, u);
  }

  // ---- each segment keeps the invariant ----

  lemma EnterKeepsInv(s: State, plan: Plan, phase: Phase)
    requires Inv(s)
    requires Placed(Enter(s, plan, phase), |s.requests|)
    ensures Inv(Enter(s, plan, phase))
  {
    var u := Enter(s, plan, phase);
    SameCallsExtend(s, u);
    LeadersStay(s, u);
    GrowKeepsInv(s, u);
  }

  lemma LookedHolds(s: State, ask: Ask, now: Instant)
    requires Sound(s.slots, s.maxEntries)
    ensures Sound(Looked(s, ask, now).slots, s.maxEntries)
    ensures forall slot | slot in Looked(s, ask, now).slots :: slot in s.slots
  {
    var key := KeyOf(ask.question);
    TokenCache.GetKeepsSound(s.slots, s.maxEntries, key, now);
    forall slot | slot in TokenCache.AfterGet(s.slots, key, now) ensures slot in s.slots {
      TokenCache.GetAddsNothing(s.slots, key, now, slot);
    }
  }

  lemma SlotsGoneKeepsInv(s: State, u: State)
    requires Inv(s) && u == s.(slots := u.slots) && Sound(u.slots, u.maxEntries)
    requires forall slot | slot in u.slots :: slot in s.slots
    ensures Inv(u)
  {
    SameCallsExtend(s, u);
    GrowKeepsInv(s, u);
  }

  lemma LookupKeepsInv(s: State, ask: Ask, now: Instant)
    requires Inv(s)
    ensures Inv(Looked(s, ask, now))
  {
    LookedHolds(s, ask, now);
    SlotsGoneKeepsInv(s, Looked(s, ask, now));
  }

  lemma LedExtends(s: State, led: State, ask: Ask, requestedAt: Instant, e: SingleFlight.Event<Answer>)
    requires Inv(s) && (ask.admitted ==> KeyOf(ask.question) !in s.table.pending)
    requires e == if ask.admitted then Run(KeyOf(ask.question), None) else Direct
    requires led.table == SingleFlight.Step(s.table, e)
    requires led.grants == s.grants + [Grant(ask, |s.requests|, requestedAt)]
    requires led.requests == s.requests + [Request(Submit(ask), Waiting(|s.table.calls|))]
    ensures Valid(led.table) && SlotsMatch(led) && LeadersAsked(led) && Extends(s, led)
    ensures Placed(led, |s.requests|)
  {
    StepKeepsValid(s.table, e);
  }

  lemma LeadKeepsInv(s: State, ask: Ask, requestedAt: Instant)
    requires Inv(s) && (ask.admitted ==> KeyOf(ask.question) !in s.table.pending)
    ensures Inv(Lead(s, ask, requestedAt))
  {
    var e: SingleFlight.Event<Answer> := if ask.admitted then Run(KeyOf(ask.question), None) else Direct;
    LedExtends(s, Lead(s, ask, requestedAt), ask, requestedAt, e);
    GrowKeepsInv(s, Lead(s, ask, requestedAt));
  }

  lemma JoinKeepsInv(s: State, ask: Ask, key: string)
    requires Inv(s) && ask.admitted && key == KeyOf(ask.question) && key in s.table.pending
    ensures Inv(Enter(s.(table := SingleFlight.Step(s.table, Run(key, None))), Submit(ask), Waiting(s.table.pending[key])))
  {
    var call := s.table.pending[key];
    TableStepKeepsInv(s, Run(key, None));
    KeysAreUnambiguous(s.grants[call].ask.question, ask.question);
    EnterKeepsInv(s.(table := SingleFlight.Step(s.table, Run(key, None))), Submit(ask), Waiting(call));
  }

  lemma JoinOrLeadKeepsInv(s: State, ask: Ask, requestedAt: Instant)
    requires Inv(s) && ask.admitted
    ensures Inv(JoinOrLead(s, ask, requestedAt))
  {
    if KeyOf(ask.question) in s.table.pending {
      JoinKeepsInv(s, ask, KeyOf(ask.question));
    } else {
      LeadKeepsInv(s, ask, requestedAt);
    }
  }

  lemma HitKeepsInv(s: State, ask: Ask, lookupAt: Instant)
    requires Inv(s) && ask.admitted && Hit(s, ask, lookupAt).Some?
    ensures Inv(Enter(Looked(s, ask, lookupAt), Submit(ask), Hit(s, ask, lookupAt).value))
  {
    var key := KeyOf(ask.question);
    LookupKeepsInv(s, ask, lookupAt);
    var slot := Find(s.slots, key).value;
    assert Traced(s, slot);
    KeysAreUnambiguous(s.grants[s.writers[key]].ask.question, ask.question);
    EnterKeepsInv(Looked(s, ask, lookupAt), Submit(ask), Injecting(slot.value, Cached(lookupAt, s.writers[key])));
  }

  lemma AdmitKeepsInv(s: State, ask: Ask, lookupAt: Instant, requestedAt: Instant)
    requires Inv(s) && ask.admitted
    ensures Inv(Admit(s, ask, lookupAt, requestedAt))
  {
    if Hit(s, ask, lookupAt).Some? {
      HitKeepsInv(s, ask, lookupAt);
    } else {
      LookupKeepsInv(s, ask, lookupAt);
      JoinOrLeadKeepsInv(Looked(s, ask, lookupAt), ask, requestedAt);
    }
  }

  /** Writing a traced slot keeps the store traced: its key's last writer is this call. */
  lemma WriteKeepsTraced(s: State, u: State, slot: Slot<string>, other: Slot<string>)
    requires Inv(s) && slot.key in u.writers && u.writers == s.writers[slot.key := u.writers[slot.key]]
    requires u.table == s.table && u.grants == s.grants && Traced(u, slot)
    requires other == slot || (other in s.slots && other.key != slot.key)
    ensures Traced(u, other)
  {
    if other != slot {
      assert Traced(s, other);
      TracedExtends(s, u, other);
    }
  }

  lemma WriteKeepsInv(s: State, u: State, slot: Slot<string>)
    requires Inv(s) && slot.key in u.writers && u.writers == s.writers[slot.key := u.writers[slot.key]]
    requires u.table == s.table && u.grants == s.grants && u.requests == s.requests
    requires Sound(u.slots, u.maxEntries) && Traced(u, slot)
    requires forall other | other in u.slots :: other == slot || (other in s.slots && other.key != slot.key)
    ensures Inv(u)
  {
    SameCallsExtend(s, u);
    forall other | other in u.slots ensures Traced(u, other) {
      WriteKeepsTraced(s, u, slot, other);
    }
    forall r | 0 <= r < |u.requests| ensures Placed(u, r) {
      PlacedExtends(s, u, r);
    }
  }

  /** An answer's slot is traced to its call once the call has settled with it. */
  lemma AnswerIsTraced(s: State, call: nat, answer: Answer, answeredAt: Instant, key: string, until: Instant)
    requires call < |s.grants| == |s.table.calls| && key == KeyOf(s.grants[call].ask.question)
    requires CachedUntil(s.grants[call], answer, answeredAt) == Some(until)
    requires s.table.calls[call].status.Settled? && s.table.calls[call].status.outcome == answer
    requires key in s.writers && s.writers[key] == call
    ensures Traced(s, Slot(key, answer.token, until))
  {
    var grant := s.grants[call];
    forall at | at < until ensures InTime(grant.ask, grant.requestedAt, answer.expiresIn, at) {
      CachedOnlyInTime(grant.ask, grant.requestedAt, answeredAt, answer.expiresIn, at);
    }
  }

  lemma AnsweringKeepsInv(s: State, call: nat, answer: Answer, answeredAt: Instant, writtenAt: Instant)
    requires Inv(s) && Enabled(s, ProviderAnswers(call, answer, answeredAt, writtenAt))
    ensures Inv(Answering(s, call, answer, answeredAt, writtenAt))
  {
    var settled := s.(table := SingleFlight.Step(s.table, Settle(call, answer)));
    TableStepKeepsInv(s, Settle(call, answer));
    var until := CachedUntil(s.grants[call], answer, answeredAt);
    if until.Some? {
      var slot := Slot(KeyOf(s.grants[call].ask.question), answer.token, until.value);
      var after := TokenCache.AfterSet(s.slots, s.maxEntries, slot, writtenAt);
      var written := settled.(slots := after, writers := s.writers[slot.key := call]);
      AnswerIsTraced(written, call, answer, answeredAt, slot.key, until.value);
      TokenCache.SetKeepsSound(s.slots, s.maxEntries, slot, writtenAt);
      WriteKeepsInv(settled, written, slot);
    }
  }

  /** A request that awaited a call, once the call is released, is placed by the call's outcome. */
  lemma ResumedIsPlaced(s: State, u: State, r: nat, call: nat)
    requires r < |s.requests| && r < |u.requests| && |s.grants| == |s.table.calls| && Placed(s, r)
    requires s.requests[r].phase == Waiting(call) && Result(s.table, call).Some?
    requires u.table == s.table && u.grants == s.grants
    requires u.requests[r] == Request(s.requests[r].plan, Outcome(call, Result(s.table, call).value))
    ensures Placed(u, r)
  {
  }

  lemma ResumingKeepsInv(s: State, r: nat)
    requires Inv(s) && Enabled(s, Resume(r))
    ensures Inv(Resuming(s, r))
  {
    var u := Resuming(s, r);
    SameCallsExtend(s, u);
    LeadersStay(s, u);
    ResumedIsPlaced(s, u, r, s.requests[r].phase.call);
    forall q | 0 <= q < |u.requests| ensures Placed(u, q) {
      if q != r {
        PlacedExtends(s, u, q);
      }
    }
    FrameKeepsInv(s, u);
  }

  lemma DecidedArrivalKeepsInv(s: State, plan: Plan, phase: Phase)
    requires Inv(s) && !plan.Submit?
    requires phase == if plan.Respond? then Refused(plan.status, None) else Passing
    ensures Inv(Enter(s, plan, phase))
  {
    EnterKeepsInv(s, plan, phase);
  }

  lemma ArrivalKeepsInv(s: State, plan: Plan, lookupAt: Instant, requestedAt: Instant)
    requires Inv(s)
    ensures Inv(Arrival(s, plan, lookupAt, requestedAt))
  {
    var u := Arrival(s, plan, lookupAt, requestedAt);
    if !plan.Submit? {
      var phase := if plan.Respond? then Refused(plan.status, None) else Passing;
      DecidedArrivalKeepsInv(s, plan, phase);
      assert u == Enter(s, plan, phase);
    } else if plan.ask.admitted {
      AdmitKeepsInv(s, plan.ask, lookupAt, requestedAt);
      assert u == Admit(s, plan.ask, lookupAt, requestedAt);
    } else {
      LeadKeepsInv(s, plan.ask, requestedAt);
      assert u == Lead(s, plan.ask, requestedAt);
    }
  }

  lemma ArrivalKeepsBound(s: State, plan: Plan, lookupAt: Instant, requestedAt: Instant)
    ensures Arrival(s, plan, lookupAt, requestedAt).maxEntries == s.maxEntries
  {
    if plan.Submit? {
      JoinOrLeadKeepsBound(Looked(s, plan.ask, lookupAt), plan.ask, requestedAt);
      LeadKeepsBound(s, plan.ask, requestedAt);
    }
  }

  lemma LeadKeepsBound(s: State, ask: Ask, requestedAt: Instant)
    ensures Lead(s, ask, requestedAt).maxEntries == s.maxEntries
  {
  }

  lemma JoinOrLeadKeepsBound(s: State, ask: Ask, requestedAt: Instant)
    ensures JoinOrLead(s, ask, requestedAt).maxEntries == s.maxEntries
  {
    LeadKeepsBound(s, ask, requestedAt);
  }

  lemma StepKeepsInv(s: State, e: Event)
    requires Inv(s) && Enabled(s, e)
    ensures Inv(Step(s, e))
    ensures Step(s, e).maxEntries == s.maxEntries
  {
    match e {
      case Arrive(router, inbound, lookupAt, requestedAt) =>
        ArrivalKeepsInv(s, Decide(router, inbound), lookupAt, requestedAt);
        ArrivalKeepsBound(s, Decide(router, inbound), lookupAt, requestedAt);
      case ProviderAnswers(call, answer, answeredAt, writtenAt) =>
        AnsweringKeepsInv(s, call, answer, answeredAt, writtenAt);
      case SlotCleared(call) => TableStepKeepsInv(s, Release(call));
      case Resume(r) => ResumingKeepsInv(s, r);
    }
  }

  lemma {:induction false} RunKeepsInv(s: State, events: seq<Event>)
    requires Inv(s) && RunFrom(s, events).Some?
    ensures Inv(RunFrom(s, events).value)
    ensures RunFrom(s, events).value.maxEntries == s.maxEntries
    decreases events
  {
    if events != [] {
      StepKeepsInv(s, events[0]);
      RunKeepsInv(Step(s, events[0]), events[1..]);
    }
  }

  lemma ReachedInv(s: State)
    requires Reached(s)
    ensures Inv(s)
  {
    var events :| RunFrom(Start(s.maxEntries), events) == Some(s);
    RunKeepsInv(Start(s.maxEntries), events);
  }

  // ---- the theorems, over every run ----

  /** The call a request's token came from. */
  function SourceCall(source: Source): nat {
    match source
    case Cached(_, writer) => writer
    case Awaited(call) => call
  }

  /**
   * Provenance. In every interleaving, an injected token was issued by a call
   * that asked exactly the request's question: same path, same context, same
   * credential. An admitted request's came from an admitted request's call, by
   * the cache or a flight; a request the gate did not admit has its own call's.
   */
  lemma TokenProvenance(s: State, r: nat)
    requires Reached(s) && r < |s.requests| && s.requests[r].phase.Injecting?
    ensures s.requests[r].plan.Submit?
    ensures var ask, call := s.requests[r].plan.ask, SourceCall(s.requests[r].phase.source);
            && IssuedBy(s, call, s.requests[r].phase.token)
            && s.grants[call].ask.question == ask.question
            && s.grants[call].ask.admitted == ask.admitted
            && s.grants[call].leader < |s.requests|
            && s.requests[s.grants[call].leader].plan == Submit(s.grants[call].ask)
            && (!ask.admitted ==> s.requests[r].phase.source.Awaited? && s.grants[call].leader == r)
  {
    ReachedInv(s);
    assert Placed(s, r);
  }

  /**
   * Expiry. A token served from the cache is served strictly before
   * `requestedAt + ttl`, `requestedAt + expires_in` and the assertion's `exp`,
   * each less the margin, of the call that issued it.
   */
  lemma CacheHitsAreInTime(s: State, r: nat)
    requires Reached(s) && r < |s.requests| && s.requests[r].phase.Injecting? && s.requests[r].phase.source.Cached?
    ensures var Cached(at, call) := s.requests[r].phase.source;
            && IssuedBy(s, call, s.requests[r].phase.token)
            && var grant, answer := s.grants[call], s.table.calls[call].status.outcome;
               var policy := grant.ask.policy;
            && at + policy.marginSeconds * 1000.0 < grant.requestedAt + policy.ttlSeconds * 1000.0
            && (answer.expiresIn.Some? ==>
                  at + policy.marginSeconds * 1000.0 < grant.requestedAt + answer.expiresIn.value * 1000.0)
            && (grant.ask.validity.Assertion? ==>
                  && grant.ask.validity.exp.Some?
                  && at + policy.marginSeconds * 1000.0 < grant.ask.validity.exp.value * 1000.0)
  {
    ReachedInv(s);
    assert Placed(s, r);
  }

  /** At the step itself: a failure, a request not admitted or an assertion without `exp` leaves the store as it was. */
  lemma UncachedLeavesTheStore(s: State, call: nat, answer: Answer, answeredAt: Instant, writtenAt: Instant)
    requires Enabled(s, ProviderAnswers(call, answer, answeredAt, writtenAt))
    requires var ask := s.grants[call].ask;
             answer.Failed? || !ask.admitted || (ask.validity.Assertion? && ask.validity.exp.None?)
    ensures Step(s, ProviderAnswers(call, answer, answeredAt, writtenAt)).slots == s.slots
  {
  }

  /**
   * Over every run, everything the store holds is the token some call was
   * answered with, under the key of the question it asked; a request the gate
   * admitted led that call, and on the exchange path its assertion had an
   * `exp`. So no failure, no other request's answer and no answer without a
   * bound is ever held.
   */
  lemma NothingElseIsCached(s: State, slot: Slot<string>)
    requires Reached(s) && slot in s.slots
    ensures slot.key in s.writers
    ensures var call := s.writers[slot.key];
            && IssuedBy(s, call, slot.value)
            && var grant := s.grants[call];
            && slot.key == KeyOf(grant.ask.question)
            && grant.leader < |s.requests| && s.requests[grant.leader].plan == Submit(grant.ask)
            && grant.ask.admitted
            && (grant.ask.validity.Assertion? ==> grant.ask.validity.exp.Some?)
            && forall at | at < slot.expiresAt ::
                 InTime(grant.ask, grant.requestedAt, s.table.calls[call].status.outcome.expiresIn, at)
  {
    ReachedInv(s);
    assert Traced(s, slot);
    var grant := s.grants[s.writers[slot.key]];
    assert InTime(grant.ask, grant.requestedAt, s.table.calls[s.writers[slot.key]].status.outcome.expiresIn,
                  slot.expiresAt - 1.0);
  }

  /**
   * Coalescing. The calls admitted requests share for one question never
   * overlap: the earlier was answered and cleared before the later was made.
   */
  lemma SharedCallsNeverOverlap(s: State, i: nat, j: nat)
    requires Reached(s) && i < j < |s.grants|
    requires s.grants[i].ask.admitted && s.grants[j].ask.admitted
    requires s.grants[i].ask.question == s.grants[j].ask.question
    ensures i < j < |s.table.calls| && s.table.calls[i].status.Released?
    ensures s.table.calls[i].status.at < s.table.calls[i].status.released < s.table.calls[j].begun
  {
    ReachedInv(s);
    assert Ordered(s.table.calls[i], s.table.time);
  }

  /** The call a request has resumed from. */
  function ResumedFrom(phase: Phase): Option<nat> {
    match phase
    case Injecting(_, Awaited(call)) => Some(call)
    case Refused(_, cause) => cause
    case _ => None
  }

  lemma PlacedByItsOutcome(s: State, r: nat)
    requires r < |s.requests| && |s.grants| == |s.table.calls|
    requires Placed(s, r) && ResumedFrom(s.requests[r].phase).Some?
    ensures var call := ResumedFrom(s.requests[r].phase).value;
            && Result(s.table, call).Some? && s.requests[r].plan.Submit?
            && call < |s.grants| && s.grants[call].ask.question == s.requests[r].plan.ask.question
            && s.requests[r].phase == Outcome(call, Result(s.table, call).value)
  {
  }

  lemma ReleasedHoldsNoSlot(table: Table<Answer>, call: nat)
    requires Valid(table) && Result(table, call).Some?
    ensures forall key | key in table.pending :: table.pending[key] != call
  {
  }

  /**
   * A request that has resumed from a call finds its slot cleared, and has
   * exactly the call's outcome: its token, or the status of its failure. The
   * call asked what the request asks.
   */
  lemma ResumedAfterTheSlotWasCleared(s: State, r: nat)
    requires Reached(s) && r < |s.requests| && ResumedFrom(s.requests[r].phase).Some?
    ensures var call := ResumedFrom(s.requests[r].phase).value;
            && Result(s.table, call).Some? && s.requests[r].plan.Submit?
            && call < |s.grants| && s.grants[call].ask.question == s.requests[r].plan.ask.question
            && (match Result(s.table, call).value
                case Issued(token, _) => s.requests[r].phase == Injecting(token, Awaited(call))
                case Failed(status) => s.requests[r].phase == Refused(status, Some(call)))
            && forall key | key in s.table.pending :: s.table.pending[key] != call
  {
    ReachedInv(s);
    PlacedByItsOutcome(s, r);
    ReleasedHoldsNoSlot(s.table, ResumedFrom(s.requests[r].phase).value);
  }

  /** A request refused without a call is one the decision refused, with the decision's status. */
  lemma RefusedWithoutACall(s: State, r: nat)
    requires Reached(s) && r < |s.requests| && s.requests[r].phase.Refused? && s.requests[r].phase.cause.None?
    ensures s.requests[r].plan.Respond? && s.requests[r].plan.status == s.requests[r].phase.status
  {
    ReachedInv(s);
    assert Placed(s, r);
  }

  /** What a call was answered with is served to the next to ask the same in time: written is found. */
  lemma AnswerServesTheNext(s: State, call: nat, answer: Answer, answeredAt: Instant, writtenAt: Instant,
                            ask: Ask, at: Instant, requestedAt: Instant)
    requires Reached(s) && Enabled(s, ProviderAnswers(call, answer, answeredAt, writtenAt))
    requires answer.Issued? && s.grants[call].ask.admitted && ask.admitted
    requires ask.question == s.grants[call].ask.question
    requires InTime(s.grants[call].ask, s.grants[call].requestedAt, answer.expiresIn, answeredAt)
    requires InTime(s.grants[call].ask, s.grants[call].requestedAt, answer.expiresIn, at)
    ensures var u := Answering(s, call, answer, answeredAt, writtenAt);
            Admit(u, ask, at, requestedAt).requests
            == u.requests + [Request(Submit(ask), Injecting(answer.token, Cached(at, call)))]
  {
    ReachedInv(s);
    InTimeIsServed(s, call, answer, answeredAt, writtenAt, ask, at, requestedAt);
  }

  lemma InTimeIsServed(s: State, call: nat, answer: Answer, answeredAt: Instant, writtenAt: Instant,
                       ask: Ask, at: Instant, requestedAt: Instant)
    requires Sound(s.slots, s.maxEntries) && Enabled(s, ProviderAnswers(call, answer, answeredAt, writtenAt))
    requires answer.Issued? && s.grants[call].ask.admitted && ask.question == s.grants[call].ask.question
    requires InTime(s.grants[call].ask, s.grants[call].requestedAt, answer.expiresIn, answeredAt)
    requires InTime(s.grants[call].ask, s.grants[call].requestedAt, answer.expiresIn, at)
    ensures var u := Answering(s, call, answer, answeredAt, writtenAt);
            Admit(u, ask, at, requestedAt).requests
            == u.requests + [Request(Submit(ask), Injecting(answer.token, Cached(at, call)))]
  {
    var grant := s.grants[call];
    CachedOnlyInTime(grant.ask, grant.requestedAt, answeredAt, answer.expiresIn, at);
    var until := CachedUntil(grant, answer, answeredAt).value;
    var written := Slot(KeyOf(ask.question), answer.token, until);
    WrittenLast(s, call, answer, answeredAt, writtenAt, written);
    HitIsServed(Answering(s, call, answer, answeredAt, writtenAt), written, call, ask, at, requestedAt);
  }

  lemma WrittenLast(s: State, call: nat, answer: Answer, answeredAt: Instant, writtenAt: Instant, written: Slot<string>)
    requires Enabled(s, ProviderAnswers(call, answer, answeredAt, writtenAt))
    requires Sound(s.slots, s.maxEntries) && answer.Issued?
    requires CachedUntil(s.grants[call], answer, answeredAt) == Some(written.expiresAt)
    requires written.key == KeyOf(s.grants[call].ask.question) && written.value == answer.token
    ensures var u := Answering(s, call, answer, answeredAt, writtenAt);
            && written in u.slots && Distinct(u.slots)
            && written.key in u.writers && u.writers[written.key] == call
  {
    TokenCache.SetKeepsSound(s.slots, s.maxEntries, written, writtenAt);
    var after := TokenCache.AfterSet(s.slots, s.maxEntries, written, writtenAt);
    assert after[|after| - 1] == written;
  }

  lemma HitIsServed(u: State, written: Slot<string>, call: nat, ask: Ask, at: Instant, requestedAt: Instant)
    requires written in u.slots && Distinct(u.slots) && at < written.expiresAt && written.key == KeyOf(ask.question)
    requires written.key in u.writers && u.writers[written.key] == call
    ensures Admit(u, ask, at, requestedAt).requests
         == u.requests + [Request(Submit(ask), Injecting(written.value, Cached(at, call)))]
  {
    FindMember(u.slots, written);
  }

  /**
   * What an answer's write does to every other key: an entry the clock has
   * passed as it is written goes, and a live one only when the store is full
   * of live ones and it is the oldest.
   */
  lemma AnswerSparesTheLive(s: State, call: nat, answer: Answer, answeredAt: Instant, writtenAt: Instant,
                            other: Slot<string>)
    requires Sound(s.slots, s.maxEntries) && Enabled(s, ProviderAnswers(call, answer, answeredAt, writtenAt))
    requires CachedUntil(s.grants[call], answer, answeredAt).Some?
    requires other in s.slots && other.key != KeyOf(s.grants[call].ask.question)
    ensures var others := TokenCache.Others(s.slots, KeyOf(s.grants[call].ask.question), writtenAt);
            other !in Answering(s, call, answer, answeredAt, writtenAt).slots
            <==> other.expiresAt <= writtenAt || (|others| >= s.maxEntries && other == others[0])
  {
    var key := KeyOf(s.grants[call].ask.question);
    var slot := Slot(key, answer.token, CachedUntil(s.grants[call], answer, answeredAt).value);
    TokenCache.OthersMembers(s.slots, key, writtenAt);
    if other.expiresAt > writtenAt {
      TokenCache.SetDropsOnlyTheOldest(s.slots, s.maxEntries, slot, writtenAt, other);
    }
  }
}
