/**
 * What reaches the upstream, for every request of every run: the protocol's
 * outcome, applied to the headers, and the stage that sends them.
 */
module EndToEnd {
  import opened Wrappers
  import opened Text
  import opened Cookies
  import opened Decision
  import opened Upstream
  import opened ResponseHead
  import Forwarded
  import Injection

  // ---- the outcome on the headers ----

  lemma AppliedAuthorization(headers: Fields, cookieName: string, outcome: Outcome)
    ensures Field(Apply(headers, cookieName, outcome), "authorization") ==
            match outcome
            case Forward => Field(headers, "authorization")
            case ForwardStripped => None
            case Inject(token) => Some("Bearer " + token)
    ensures Field(Apply(headers, cookieName, outcome), "cookie") == WithoutCookie(Field(headers, "cookie"), cookieName)
  {
    assert "cookie"[0] != "authorization"[0];
  }

  /** No outcome touches any other field. */
  lemma ApplyKeepsOthers(headers: Fields, cookieName: string, outcome: Outcome, field: string)
    requires field != "cookie" && field != "authorization"
    ensures Field(Apply(headers, cookieName, outcome), field) == Field(headers, field)
  {
  }

  lemma ApplyKeepsNames(headers: Fields, cookieName: string, outcome: Outcome)
    requires LowerCased(headers)
    ensures LowerCased(Apply(headers, cookieName, outcome))
  {
    assert IsLowerCased("cookie") && IsLowerCased("authorization");
  }

  // ---- what the upstream receives ----

  /** What arrives under `Authorization` is what was on the request's own headers, whatever its `Connection` names. */
  lemma AuthorizationArrives(headers: Fields, hop: Hop)
    requires LowerCased(headers) && !OtherCoding(headers)
    ensures WireAuthorization(Outbound(headers, hop).value) == Field(headers, "authorization")
  {
    SendsExactlyWhatIsDue(headers, hop, "Authorization");
    SendsExactlyWhatIsDue(headers, hop, "authorization");
    CanonicalStays(headers);
  }

  /** Neither spelling of `Authorization` is a field of the hop. */
  lemma CanonicalStays(headers: Fields)
    ensures !StaysOnHop(headers, "Authorization") && !StaysOnHop(headers, "authorization")
  {
    NamesAreLowerCased(headers);
    assert 'A' <= "Authorization"[0] <= 'Z';
    assert "authorization" in PROXY_DECIDED;
    OfItsLength("Authorization");
    OfItsLength("authorization");
  }

  /** The fields of the hop have other lengths, but one that starts otherwise. */
  lemma OfItsLength(field: string)
    requires |field| == 13 && field[0] in {'A', 'a'}
    ensures field !in THIS_HOP_ONLY && field !in FRAMING
  {
  }

  /** The session cookie never goes on; any other reads as it did, unless the caller's `Connection` names `Cookie` itself. */
  lemma CookiesReceived(headers: Fields, cookieName: string, outcome: Outcome, hop: Hop, other: string)
    requires LowerCased(headers)
    requires !OtherCoding(Apply(headers, cookieName, outcome))
    ensures var sent := Field(Outbound(Apply(headers, cookieName, outcome), hop).value, "cookie");
            && Extract(sent, cookieName) == Absent
            && (other != cookieName && "cookie" !in InboundOptions(Apply(headers, cookieName, outcome)) ==>
                  Extract(sent, other) == Extract(Field(headers, "cookie"), other))
  {
    var applied := Apply(headers, cookieName, outcome);
    ApplyKeepsNames(headers, cookieName, outcome);
    AppliedAuthorization(headers, cookieName, outcome);
    SendsExactlyWhatIsDue(applied, hop, "cookie");
    CookieIsNoHopField();
    RemovalAndReadingAgree(Field(headers, "cookie"), cookieName, other);
  }

  lemma CookieIsNoHopField()
    ensures "cookie" !in THIS_HOP_ONLY && "cookie" !in FRAMING && "cookie" !in PROXY_DECIDED && "cookie" != "Authorization"
    ensures forall host, hop, passed :: Due(host, hop, "cookie", passed) == passed
  {
    assert |"cookie"| == 6 && "cookie"[0] == 'c';
    assert forall name | name in THIS_HOP_ONLY + FRAMING + PROXY_DECIDED :: |name| != 6 || name[0] != 'c';
  }

  /** The request's cookie and authorization are what was decided on. */
  ghost predicate ReadFrom(inbound: Inbound, headers: Fields) {
    inbound.cookie == Field(headers, "cookie") && inbound.authorization == Field(headers, "authorization")
  }

  /** No transfer coding is applied, or `chunked` alone. */
  ghost predicate Accepted(headers: Fields) {
    "transfer-encoding" !in headers || SaysChunked(headers["transfer-encoding"])
  }

  lemma SentWhenAccepted(headers: Fields, cookieName: string, outcome: Outcome, hop: Hop)
    ensures Outbound(Apply(headers, cookieName, outcome), hop).Some? <==> Accepted(headers)
    ensures !OtherCoding(Apply(headers, cookieName, outcome)) <==> Accepted(headers)
  {
    var applied := Apply(headers, cookieName, outcome);
    TransferEncodingIsNeither();
    ApplyKeepsOthers(headers, cookieName, outcome, "transfer-encoding");
    assert Field(applied, "transfer-encoding") == Field(headers, "transfer-encoding");
    RefusesOtherCodings(applied, hop);
  }

  lemma TransferEncodingIsNeither()
    ensures "transfer-encoding" !in {"cookie", "authorization", "connection", "host"}
  {
    assert "transfer-encoding"[0] == 't';
  }

  /** A field no outcome touches reaches the stage as it came, and with it what the stage makes of it. */
  lemma OthersAreDue(headers: Fields, cookieName: string, outcome: Outcome, hop: Hop, field: string)
    requires LowerCased(headers) && Accepted(headers)
    requires field !in {"cookie", "authorization", "Authorization"}
    ensures Outbound(Apply(headers, cookieName, outcome), hop).Some?
    ensures Field(Outbound(Apply(headers, cookieName, outcome), hop).value, field)
         == Due(Field(headers, "host"), hop, field, Passed(headers, field))
  {
    var applied := Apply(headers, cookieName, outcome);
    ApplyKeepsNames(headers, cookieName, outcome);
    SentWhenAccepted(headers, cookieName, outcome, hop);
    SendsExactlyWhatIsDue(applied, hop, field);
    HostAndConnectionAreNeither();
    ApplyKeepsOthers(headers, cookieName, outcome, field);
    ApplyKeepsOthers(headers, cookieName, outcome, "host");
    ApplyKeepsOthers(headers, cookieName, outcome, "connection");
    assert Field(applied, "connection") == Field(headers, "connection");
    PassedAlike(headers, applied, field);
  }

  lemma HostAndConnectionAreNeither()
    ensures "host" !in {"cookie", "authorization"} && "connection" !in {"cookie", "authorization"}
  {
    assert "host"[0] == 'h' && |"connection"| == 10;
  }

  lemma PassedAlike(a: Fields, b: Fields, field: string)
    requires Field(a, "connection") == Field(b, "connection") && Field(a, field) == Field(b, field)
    requires field != "Authorization"
    ensures Passed(a, field) == Passed(b, field)
  {
    assert InboundOptions(a) == InboundOptions(b);
  }

  /**
   * End to end. Take any request of any run that is not answered by the proxy,
   * whatever its headers. It is sent exactly when no transfer coding but
   * `chunked` is applied. Reading the session cookie from what the upstream
   * receives finds none. Its `Authorization`, whatever the request's
   * `Connection` named, is `Bearer` and a token the provider issued to a call
   * that asked exactly this request's question; or, when none was injected,
   * what arrived, and nothing at all with the exchange or stripping on. Every
   * other field there is, is what the stage makes of it as it came in.
   */
  lemma WhatReachesTheUpstream(s: Injection.State, r: nat, router: Router, inbound: Inbound, headers: Fields, hop: Hop)
    requires Injection.Reached(s) && r < |s.requests| && s.requests[r].plan == Decide(router, inbound)
    requires LowerCased(headers) && ReadFrom(inbound, headers)
    requires OutcomeOf(s.requests[r]).Some?
    ensures var sent := Outbound(Apply(headers, router.grant.cookieName, OutcomeOf(s.requests[r]).value), hop);
            && (sent.Some? <==> Accepted(headers))
            && (sent.Some? ==>
                  && var out := sent.value;
                  && Extract(Field(out, "cookie"), router.grant.cookieName) == Absent
                  && (forall field | field !in {"cookie", "authorization", "Authorization"} ::
                        Field(out, field) == Due(Field(headers, "host"), hop, field, Passed(headers, field)))
                  && match s.requests[r].phase
                     case Injecting(token, source) =>
                       && WireAuthorization(out) == Some("Bearer " + token)
                       && s.requests[r].plan.Submit?
                       && Injection.IssuedBy(s, Injection.SourceCall(source), token)
                       && s.grants[Injection.SourceCall(source)].ask.question == s.requests[r].plan.ask.question
                     case _ =>
                       WireAuthorization(out)
                       == if router.exchangeEnabled || router.stripInbound then None else inbound.authorization)
  {
    var outcome, cookieName := OutcomeOf(s.requests[r]).value, router.grant.cookieName;
    SentWhenAccepted(headers, cookieName, outcome, hop);
    if Accepted(headers) {
      forall field | field !in {"cookie", "authorization", "Authorization"}
        ensures Field(Outbound(Apply(headers, cookieName, outcome), hop).value, field)
             == Due(Field(headers, "host"), hop, field, Passed(headers, field))
      {
        OthersAreDue(headers, cookieName, outcome, hop, field);
      }
      CookiesReceived(headers, cookieName, outcome, hop, cookieName);
      AuthorizationReceived(headers, cookieName, outcome, hop);
      if s.requests[r].phase.Injecting? {
        Injection.TokenProvenance(s, r);
      } else {
        PassingPlans(s, r, router, inbound);
      }
    }
  }

  lemma AuthorizationReceived(headers: Fields, cookieName: string, outcome: Outcome, hop: Hop)
    requires LowerCased(headers) && !OtherCoding(Apply(headers, cookieName, outcome))
    ensures WireAuthorization(Outbound(Apply(headers, cookieName, outcome), hop).value) ==
            match outcome
            case Forward => Field(headers, "authorization")
            case ForwardStripped => None
            case Inject(token) => Some("Bearer " + token)
  {
    ApplyKeepsNames(headers, cookieName, outcome);
    AppliedAuthorization(headers, cookieName, outcome);
    AuthorizationArrives(Apply(headers, cookieName, outcome), hop);
  }

  lemma PassingPlans(s: Injection.State, r: nat, router: Router, inbound: Inbound)
    requires Injection.Reached(s) && r < |s.requests| && s.requests[r].plan == Decide(router, inbound)
    requires s.requests[r].phase.Passing?
    ensures !router.exchangeEnabled || inbound.authorization.None?
    ensures s.requests[r].plan == if router.stripInbound && inbound.authorization.Some? then Plan.ForwardStripped else Plan.Forward
  {
    Injection.ReachedInv(s);
    assert Injection.Placed(s, r);
  }

  /** Two requests that differ in nothing but what their `Connection` names are received with the same `Authorization`. */
  lemma ConnectionCannotTouchAuthorization(headers: Fields, connection: Option<string>, hop: Hop)
    requires LowerCased(headers) && !OtherCoding(headers)
    ensures var other := Put(headers, "connection", connection);
            LowerCased(other) && !OtherCoding(other)
            && WireAuthorization(Outbound(headers, hop).value) == WireAuthorization(Outbound(other, hop).value)
  {
    var other := Put(headers, "connection", connection);
    assert IsLowerCased("connection");
    assert "connection"[0] == 'c' && "transfer-encoding"[0] == 't' && "authorization"[0] == 'a';
    AuthorizationArrives(headers, hop);
    AuthorizationArrives(other, hop);
  }

  /**
   * The upstream's view of the chain: after whatever entries still came in,
   * the peer this hop saw is the last; so an upstream that trusts this hop and
   * not the caller is told the peer, whatever the caller sent.
   */
  lemma UpstreamSeesThePeer(headers: Fields, hop: Hop, net: Forwarded.Network, proxy: string)
    requires LowerCased(headers) && !OtherCoding(headers)
    requires Forwarded.AddressesAreMembers(net)
    requires net.trusted(proxy) && hop.peer.Some? && net.isAddress(hop.peer.value) && !net.trusted(hop.peer.value)
    ensures var out := Outbound(headers, hop).value;
            && Forwarded.SourceAddress(net, Some(proxy), Field(out, "x-forwarded-for")) == hop.peer
            && Field(out, "x-real-ip") == hop.peer
  {
    var received := Passed(headers, "x-forwarded-for");
    SendsExactlyWhatIsDue(headers, hop, "x-forwarded-for");
    SendsExactlyWhatIsDue(headers, hop, "x-real-ip");
    ForwardedNames();
    Forwarded.AppendAddsOneHop(received, hop.peer.value);
    assert Forwarded.Hops(received) + [hop.peer.value] + [] == Forwarded.Hops(received) + [hop.peer.value];
    Forwarded.WalkTheTrusted(net, Forwarded.Hops(received), hop.peer.value, [], proxy);
  }

  lemma ForwardedNames()
    ensures forall host, hop, passed ::
              Due(host, hop, "x-forwarded-for", passed) == Some(Forwarded.AppendForwardedFor(passed, hop.peer))
    ensures forall host, hop, passed :: Due(host, hop, "x-real-ip", passed) == hop.peer
  {
    assert "x-forwarded-for"[12] == 'f' && "x-forwarded-host"[12] == 'h' && |"x-real-ip"| == 9;
  }

  /** A field the caller's `Connection` names, or one for the hop alone, is received as if it had never been sent. */
  lemma HopFieldsStay(headers: Fields, hop: Hop, field: string)
    requires LowerCased(headers) && !OtherCoding(headers) && StaysOnHop(headers, field)
    ensures Field(Outbound(headers, hop).value, field) == Due(Field(headers, "host"), hop, field, None)
  {
    SendsExactlyWhatIsDue(headers, hop, field);
  }

  // ---- the fields themselves ----

  /** The caller's `Connection` lists the field, in some casing, with any slack around it. */
  ghost predicate KeptByTheCaller(headers: Fields, field: string) {
    "connection" in headers && exists member :: member in Members(headers["connection"]) && FoldsTo(member, field)
  }

  lemma OptionsAreKept(headers: Fields, field: string)
    ensures field in InboundOptions(headers) <==> KeptByTheCaller(headers, field)
  {
    if "connection" in headers {
      OptionsAreTheMembers(headers["connection"], field);
    }
  }

  /** A field the caller's `Connection` names, however it spells it, is received as if it had never been sent. */
  lemma NamedFieldsStay(headers: Fields, hop: Hop, field: string)
    requires LowerCased(headers) && Accepted(headers) && KeptByTheCaller(headers, field)
    requires field !in {"authorization", "x-request-id", "connection"}
    ensures Outbound(headers, hop).Some?
    ensures Field(Outbound(headers, hop).value, field) == Due(Field(headers, "host"), hop, field, None)
  {
    RefusesOtherCodings(headers, hop);
    OptionsAreKept(headers, field);
    HopFieldsStay(headers, hop, field);
  }

  /** Nor is any field of this hop or of the caller's framing sent on, named or not. */
  lemma FieldsOfTheHop(headers: Fields, hop: Hop, field: string)
    requires LowerCased(headers) && Accepted(headers)
    requires field in {"keep-alive", "proxy-connection", "te", "upgrade", "proxy-authorization",
                       "transfer-encoding", "trailer", "expect", "host", "forwarded"}
    ensures Outbound(headers, hop).Some? && Field(Outbound(headers, hop).value, field) == None
  {
    RefusesOtherCodings(headers, hop);
    SendsExactlyWhatIsDue(headers, hop, field);
    NotSaidOfTheHop(field);
  }

  lemma NotSaidOfTheHop(field: string)
    requires field in {"keep-alive", "proxy-connection", "te", "upgrade", "proxy-authorization",
                       "transfer-encoding", "trailer", "expect", "host", "forwarded"}
    ensures field !in {"x-real-ip", "x-forwarded-host", "via", "x-forwarded-for"}
  {
    assert field[0] !in {'x', 'v'};
  }

  /** Every other field goes on as it came. */
  lemma OtherFieldsGoOn(headers: Fields, hop: Hop, field: string)
    requires LowerCased(headers) && Accepted(headers)
    requires !KeptByTheCaller(headers, field) || field == "x-request-id"
    requires field !in {"keep-alive", "proxy-connection", "te", "upgrade", "proxy-authorization",
                        "transfer-encoding", "trailer", "expect", "host", "forwarded"}
    requires field !in {"connection", "Authorization", "x-real-ip", "x-forwarded-host", "via", "x-forwarded-for"}
    ensures Outbound(headers, hop).Some? && Field(Outbound(headers, hop).value, field) == Field(headers, field)
  {
    RefusesOtherCodings(headers, hop);
    SendsExactlyWhatIsDue(headers, hop, field);
    OptionsAreKept(headers, field);
    assert "x-request-id" in PROXY_DECIDED;
  }

  /** What the caller sent of a list this hop adds to, unless its `Connection` keeps it. */
  ghost function ReceivedOf(headers: Fields, field: string): Option<string> {
    if KeptByTheCaller(headers, field) then None else Field(headers, field)
  }

  ghost predicate Blank(received: Option<string>) {
    received.None? || Slack(received.value, JsSpace)
  }

  /**
   * What the stage says of this hop, to the letter: the peer and the host as
   * seen, the connection closed, and the lists with this hop's entry after the
   * text received, or alone.
   */
  lemma SaysOfThisHop(headers: Fields, hop: Hop)
    requires LowerCased(headers) && Accepted(headers)
    ensures Outbound(headers, hop).Some?
    ensures var out := Outbound(headers, hop).value;
            var entry := if hop.peer.Some? then hop.peer.value else "unknown";
            var own := hop.httpVersion + " auth.proxy";
            var chain, via := ReceivedOf(headers, "x-forwarded-for"), ReceivedOf(headers, "via");
            && Field(out, "x-real-ip") == hop.peer
            && Field(out, "x-forwarded-host") == Field(headers, "host")
            && Field(out, "connection") == Some("close")
            && Field(out, "x-forwarded-for") == Some(if Blank(chain) then entry else chain.value + ", " + entry)
            && Field(out, "via") == Some(if Blank(via) then own else via.value + ", " + own)
  {
    RefusesOtherCodings(headers, hop);
    TheSaidFields(headers, hop);
    forall field ensures field in InboundOptions(headers) <==> KeptByTheCaller(headers, field) {
      OptionsAreKept(headers, field);
    }
    AppendsToTheText(ReceivedOf(headers, "x-forwarded-for"), hop.peer, hop.httpVersion);
    AppendsToTheText(ReceivedOf(headers, "via"), hop.peer, hop.httpVersion);
  }

  lemma ListsArePassed(headers: Fields, field: string)
    requires field in {"via", "x-forwarded-for"}
    ensures Passed(headers, field) == if field in InboundOptions(headers) then None else Field(headers, field)
  {
    assert field[0] in {'v', 'x'} && (|field| == 3 || |field| == 15);
    assert forall name | name in THIS_HOP_ONLY + FRAMING + PROXY_DECIDED ::
        |name| != 3 && (|name| != 15 || name[0] != 'x');
    assert |"connection"| == 10 && |"host"| == 4 && |"Authorization"| == 13;
  }

  lemma ConnectionIsClosed(headers: Fields)
    ensures Passed(headers, "connection") == Some("close")
  {
    assert "connection" in PROXY_DECIDED;
    assert forall name | name in THIS_HOP_ONLY + FRAMING :: |name| != 10 || name[0] != 'c';
    assert |"connection"| == 10 && "connection"[0] == 'c';
  }

  lemma ConnectionIsNotSaid(host: Option<string>, hop: Hop, passed: Option<string>)
    ensures Due(host, hop, "connection", passed) == passed
  {
    assert "connection"[0] == 'c';
  }

  lemma SaidNames(host: Option<string>, hop: Hop, passed: Option<string>)
    ensures Due(host, hop, "x-real-ip", passed) == hop.peer
    ensures Due(host, hop, "x-forwarded-host", passed) == host
    ensures Due(host, hop, "via", passed) == Some(AppendVia(passed, hop.httpVersion))
    ensures Due(host, hop, "x-forwarded-for", passed) == Some(Forwarded.AppendForwardedFor(passed, hop.peer))
  {
    assert "x-forwarded-for"[12] == 'f' && "x-forwarded-host"[12] == 'h' && |"x-real-ip"| == 9 && |"via"| == 3;
    assert |"x-forwarded-for"| == 15 && |"x-forwarded-host"| == 16 && |"forwarded"| == 9 && "forwarded"[0] == 'f';
  }

  lemma TheSaidFields(headers: Fields, hop: Hop)
    requires LowerCased(headers) && !OtherCoding(headers)
    ensures var out := Outbound(headers, hop).value;
            && Field(out, "x-real-ip") == hop.peer
            && Field(out, "x-forwarded-host") == Field(headers, "host")
            && Field(out, "connection") == Some("close")
            && Field(out, "x-forwarded-for") == Some(Forwarded.AppendForwardedFor(
                 if "x-forwarded-for" in InboundOptions(headers) then None else Field(headers, "x-forwarded-for"), hop.peer))
            && Field(out, "via") == Some(AppendVia(
                 if "via" in InboundOptions(headers) then None else Field(headers, "via"), hop.httpVersion))
  {
    var host := Field(headers, "host");
    SendsExactlyWhatIsDue(headers, hop, "x-real-ip");
    SendsExactlyWhatIsDue(headers, hop, "x-forwarded-host");
    SendsExactlyWhatIsDue(headers, hop, "connection");
    SendsExactlyWhatIsDue(headers, hop, "x-forwarded-for");
    SendsExactlyWhatIsDue(headers, hop, "via");
    SaidNames(host, hop, Passed(headers, "x-real-ip"));
    SaidNames(host, hop, Passed(headers, "x-forwarded-host"));
    SaidNames(host, hop, Passed(headers, "via"));
    SaidNames(host, hop, Passed(headers, "x-forwarded-for"));
    ListsArePassed(headers, "via");
    ListsArePassed(headers, "x-forwarded-for");
    ConnectionIsClosed(headers);
    ConnectionIsNotSaid(host, hop, Some("close"));
  }
}
