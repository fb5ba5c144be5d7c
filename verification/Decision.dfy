/**
 * What is decided of a request before the cache, the flights and the provider
 * come in: forwarded as received, forwarded stripped, refused, or a question
 * for the provider, with who may share the answer.
 */
module Decision {
  import opened Wrappers
  import opened ExpiringMap
  import opened CacheKey
  import opened Cookies
  import Expiry

  // ---- the same-origin gate ----

  /** What the gate reads of a request; `refererOrigin` is the origin its `Referer` names, if any. */
  datatype Signals = Signals(origin: Option<string>, secFetchSite: Option<string>,
                             refererOrigin: Option<string>, protocol: string)

  /** `auth.injection.publicOrigin` and the scheme of that URL; `https` while it is unset. */
  datatype Gate = Gate(publicOrigin: Option<string>, publicScheme: string)

  predicate Admits(gate: Gate, caller: Signals) {
    var scheme := if gate.publicOrigin.None? then "https" else gate.publicScheme;
    if caller.protocol != scheme then false
    else if caller.origin.Some? && caller.origin != gate.publicOrigin then false
    else if caller.refererOrigin.Some? && caller.refererOrigin != gate.publicOrigin then false
    else if caller.secFetchSite.Some? && caller.secFetchSite.value != "same-origin" then false
    else (caller.origin.Some? && caller.origin == gate.publicOrigin) || caller.secFetchSite == Some("same-origin")
  }

  /** A signal a browser adds can only refuse when it disagrees: with no origin named, only `same-origin` admits. */
  lemma GateNeedsAgreeingEvidence(gate: Gate, caller: Signals)
    ensures Admits(gate, caller) <==>
            && caller.protocol == (if gate.publicOrigin.Some? then gate.publicScheme else "https")
            && (forall named: string | Some(named) in {caller.origin, caller.refererOrigin} :: gate.publicOrigin == Some(named))
            && caller.secFetchSite in {None, Some("same-origin")}
            && (caller.origin.Some? || caller.secFetchSite.Some?)
  {
    assert caller.origin.Some? ==> Some(caller.origin.value) in {caller.origin, caller.refererOrigin};
    assert caller.refererOrigin.Some? ==> Some(caller.refererOrigin.value) in {caller.origin, caller.refererOrigin};
  }

  // ---- the request, the router and the question ----

  datatype Policy = Policy(ttlSeconds: real, marginSeconds: real)

  datatype Router = Router(grant: GrantContext, exchange: ExchangeContext, exchangeEnabled: bool,
                           stripInbound: bool, allowedIssuers: set<string>, gate: Gate, policy: Policy)

  /** A bearer JWT's text, and the `iss` and `exp` (in seconds) its unverified claims carry. */
  datatype Assertion = Assertion(text: string, issuer: Option<string>, exp: Option<real>)

  /** `assertion` is what the bearer grammar makes of `authorization`, if it is a Bearer JWT. */
  datatype Inbound = Inbound(cookie: Option<string>, authorization: Option<string>,
                             assertion: Option<Assertion>, signals: Signals)

  /** How long the credential itself lasts: not the proxy's to know, or the assertion's `exp`. */
  datatype Validity = Session | Assertion(exp: Option<real>)

  /** A question, and what governs its answer: who may share it, and for how long it is kept. */
  datatype Ask = Ask(question: Question, admitted: bool, policy: Policy, validity: Validity)

  datatype Plan =
    | Forward
    | ForwardStripped
    | Respond(status: int, error: string)
    | Submit(ask: Ask)

  function DecideExchange(router: Router, inbound: Inbound, sessionCookie: Extraction): Plan {
    if !sessionCookie.Absent? then Respond(400, "credential_ambiguous")
    else if inbound.assertion.None? then Respond(401, "credential_unsupported")
    else
      var assertion := inbound.assertion.value;
      if router.allowedIssuers != {}
         && (assertion.issuer.None? || assertion.issuer.value !in router.allowedIssuers)
      then Respond(401, "credential_rejected")
      else
        Submit(Ask(Exchange(router.exchange, assertion.text), true, router.policy, Validity.Assertion(assertion.exp)))
  }

  function Decide(router: Router, inbound: Inbound): Plan {
    var extraction := Extract(inbound.cookie, router.grant.cookieName);
    if router.exchangeEnabled && inbound.authorization.Some? then DecideExchange(router, inbound, extraction)
    else if !extraction.Found? then
      (if router.stripInbound && inbound.authorization.Some? then ForwardStripped else Forward)
    else
      Submit(Ask(Question.Session(router.grant, extraction.value), Admits(router.gate, inbound.signals),
                 router.policy, Validity.Session))
  }

  /** Absent is no pair of the name at all, well-formed or not; found is a well-formed one among them. */
  lemma AbsentMeansNoPair(header: Option<string>, name: string)
    ensures Extract(header, name).Absent? <==> ValuesIn(header, name) == []
    ensures Extract(header, name).Found? <==> exists v :: v in ValuesIn(header, name) && ClassifyValue(v).Found?
  {
    ExtractsTheFirstWellFormed(header, name);
  }

  /**
   * With the exchange on, a request with an `Authorization` is submitted
   * exactly when it carries no pair of the session cookie's name at all, the
   * header is a Bearer JWT and its issuer is let through; otherwise it is
   * refused, never forwarded and never asked of the session grant.
   */
  lemma ExchangesExactlyTheEligible(router: Router, inbound: Inbound)
    requires router.exchangeEnabled && inbound.authorization.Some?
    ensures var plan, pairs := Decide(router, inbound), ValuesIn(inbound.cookie, router.grant.cookieName);
            && (plan.Submit? <==>
                  && pairs == [] && inbound.assertion.Some?
                  && (router.allowedIssuers != {} ==> exists i :: i in router.allowedIssuers && inbound.assertion.value.issuer == Some(i)))
            && (plan.Submit? ==>
                  && plan.ask.question == Exchange(router.exchange, inbound.assertion.value.text)
                  && plan.ask.admitted && plan.ask.policy == router.policy
                  && plan.ask.validity == Validity.Assertion(inbound.assertion.value.exp))
            && (!plan.Submit? ==>
                  plan == if pairs != [] then Respond(400, "credential_ambiguous")
                          else if inbound.assertion.None? then Respond(401, "credential_unsupported")
                          else Respond(401, "credential_rejected"))
  {
    AbsentMeansNoPair(inbound.cookie, router.grant.cookieName);
  }

  /**
   * On the session path the provider is asked exactly when some pair of the
   * name is well-formed, for the first such value, and the gate alone says
   * whether the answer may be shared; otherwise the request is forwarded.
   */
  lemma AsksExactlyWithAWellFormedCookie(router: Router, inbound: Inbound)
    requires !router.exchangeEnabled || inbound.authorization.None?
    ensures var plan, pairs := Decide(router, inbound), ValuesIn(inbound.cookie, router.grant.cookieName);
            && (plan.Submit? <==> exists v :: v in pairs && ClassifyValue(v).Found?)
            && (plan.Submit? ==>
                  && plan.ask.question.Session? && plan.ask.question.grant == router.grant
                  && (exists i :: 0 <= i < |pairs| && pairs[i] == plan.ask.question.cookie && CookieValue(pairs[i])
                                  && forall j | 0 <= j < i :: !ClassifyValue(pairs[j]).Found?)
                  && plan.ask.admitted == Admits(router.gate, inbound.signals)
                  && plan.ask.policy == router.policy && plan.ask.validity == Validity.Session)
            && (!plan.Submit? ==> plan.Forward? || plan.ForwardStripped?)
  {
    AbsentMeansNoPair(inbound.cookie, router.grant.cookieName);
    ExtractsTheFirstWellFormed(inbound.cookie, router.grant.cookieName);
  }

  /** Whatever is asked is asked under the router's own policy, and lasts as the credential presented lasts. */
  lemma SubmitsUnderTheRoutersPolicy(router: Router, inbound: Inbound)
    requires Decide(router, inbound).Submit?
    ensures var ask := Decide(router, inbound).ask;
            && ask.policy == router.policy
            && match ask.question
               case Session(grant, _) => grant == router.grant && ask.validity == Validity.Session
               case Exchange(exchange, text) =>
                 && exchange == router.exchange && inbound.assertion.Some? && text == inbound.assertion.value.text
                 && ask.validity == Validity.Assertion(inbound.assertion.value.exp)
  {
  }

  /** The instant an answer stops being served from the cache, or that it is not cached. */
  function ExpiresAt(ask: Ask, requestedAt: Instant, now: Instant, expiresIn: Option<real>): Option<Instant> {
    match ask.validity
    case Session =>
      Expiry.CacheExpiresAt(requestedAt, now, ask.policy.ttlSeconds, ask.policy.marginSeconds, expiresIn, None)
    case Assertion(exp) =>
      if exp.None? then None
      else Expiry.CacheExpiresAt(requestedAt, now, ask.policy.ttlSeconds, ask.policy.marginSeconds, expiresIn,
                                 Some(exp.value * 1000.0))
  }

  /** Every bound on an answer's use, less the safety margin, is still ahead at `at`. */
  ghost predicate InTime(ask: Ask, requestedAt: Instant, expiresIn: Option<real>, at: Instant) {
    && (ask.validity.Assertion? ==> ask.validity.exp.Some?)
    && Expiry.Before(at + ask.policy.marginSeconds * 1000.0, requestedAt, ask.policy.ttlSeconds, expiresIn,
                     if ask.validity.Assertion? then Some(ask.validity.exp.value * 1000.0) else None)
  }

  /** An answer is cached exactly when it is in time as it arrives, and served only at instants it is in time. */
  lemma CachedOnlyInTime(ask: Ask, requestedAt: Instant, now: Instant, expiresIn: Option<real>, at: Instant)
    ensures ExpiresAt(ask, requestedAt, now, expiresIn).Some? <==> InTime(ask, requestedAt, expiresIn, now)
    ensures ExpiresAt(ask, requestedAt, now, expiresIn).Some? ==>
              (at < ExpiresAt(ask, requestedAt, now, expiresIn).value <==> InTime(ask, requestedAt, expiresIn, at))
  {
  }
}
