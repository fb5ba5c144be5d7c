/**
 * What is sent to the upstream: the outcome applied to the request's headers,
 * then the stage that copies them onto the outbound request.
 */
module Upstream {
  import opened Wrappers
  import opened Text
  import opened Cookies
  import opened Decision
  import opened ResponseHead
  import Forwarded
  import Injection

  /** Inbound headers as Node keeps them, under lower-cased names. */
  type Fields = map<string, string>

  predicate IsLowerCased(name: string) {
    forall i | 0 <= i < |name| :: LowerChar(name[i]) == name[i]
  }

  ghost predicate LowerCased(headers: Fields) {
    forall name | name in headers :: IsLowerCased(name)
  }

  function Field(headers: Fields, name: string): Option<string> {
    if name in headers then Some(headers[name]) else None
  }

  function Put(headers: Fields, name: string, value: Option<string>): Fields {
    if value.Some? then headers[name := value.value] else headers - {name}
  }

  // ---- the outcome, applied before the stage ----

  /** The outcomes that forward the request. */
  datatype Outcome = Forward | ForwardStripped | Inject(token: string)

  function RemoveSessionCookie(headers: Fields, cookieName: string): Fields {
    Put(headers, "cookie", WithoutCookie(Field(headers, "cookie"), cookieName))
  }

  function Apply(headers: Fields, cookieName: string, outcome: Outcome): Fields {
    var removed := RemoveSessionCookie(headers, cookieName);
    match outcome
    case Forward => removed
    case ForwardStripped => removed - {"authorization"}
    case Inject(token) => removed["authorization" := "Bearer " + token]
  }

  /** The outcome of a request of the protocol that is forwarded: what its plan and phase come to. */
  function OutcomeOf(request: Injection.Request): Option<Outcome> {
    match request.phase
    case Passing => Some(if request.plan.ForwardStripped? then Outcome.ForwardStripped else Outcome.Forward)
    case Injecting(token, _) => Some(Inject(token))
    case Refused(_, _) => None
    case Waiting(_) => None
  }

  class Request {
    var headers: Fields

    constructor (headers: Fields)
      ensures this.headers == headers
    {
      this.headers := headers;
    }

    method RemoveCookie(name: string)
      modifies this
      ensures headers == RemoveSessionCookie(old(headers), name)
    {
      var rest := WithoutCookie(if "cookie" in headers then Some(headers["cookie"]) else None, name);
      if rest.None? {
        headers := headers - {"cookie"};
      } else {
        headers := headers["cookie" := rest.value];
      }
    }

    method ApplyOutcome(cookieName: string, outcome: Outcome)
      modifies this
      ensures headers == Apply(old(headers), cookieName, outcome)
    {
      RemoveCookie(cookieName);
      match outcome {
        case Forward =>
        case ForwardStripped => headers := headers - {"authorization"};
        case Inject(token) => headers := headers["authorization" := "Bearer " + token];
      }
    }
  }

  // ---- the stage ----

  const THIS_HOP_ONLY: set<string> := {"keep-alive", "proxy-connection", "te", "upgrade", "proxy-authorization"}

  /** How the caller's message was framed, which says nothing of the one sent on. */
  const FRAMING: set<string> := {"transfer-encoding", "trailer", "expect"}

  /** What a caller naming it in `Connection` does not remove. */
  const PROXY_DECIDED: set<string> := {"authorization", "x-request-id", "connection"}

  /** The connection the request arrived on. */
  datatype Hop = Hop(peer: Option<string>, httpVersion: string)

  /** The library's copy: every inbound field but two, and its own `connection`. */
  function Copied(headers: Fields): Fields {
    (headers - {"connection", "host"})["connection" := "close"]
  }

  function AppendVia(received: Option<string>, httpVersion: string): string {
    var own := httpVersion + " auth.proxy";
    var members := if received.Some? then received.value else "";
    if Trim(members, JsSpace) == "" then own else members + ", " + own
  }

  function InboundOptions(headers: Fields): seq<string> {
    if "connection" in headers then ConnectionOptions(headers["connection"]) else []
  }

  /** The named fields taken out, but for those the proxy decides. */
  function DeleteNamed(out: Fields, names: seq<string>): Fields
    decreases names
  {
    if names == [] then out
    else DeleteNamed(if names[0] in PROXY_DECIDED then out else out - {names[0]}, names[1..])
  }

  /** `Authorization` set in canonical casing beside the copy; the request id set to what it was. */
  function Recased(headers: Fields): Fields {
    var out := Copied(headers);
    var out := if "authorization" in headers then out["Authorization" := headers["authorization"]] else out;
    if "x-request-id" in headers && headers["x-request-id"] != "" then out["x-request-id" := headers["x-request-id"]] else out
  }

  /** A transfer coding the stage cannot take off. */
  predicate OtherCoding(headers: Fields) {
    "transfer-encoding" in headers && Lower(Trim(headers["transfer-encoding"], JsSpace)) != "chunked"
  }

  /** The fields that go no further than this hop taken out. */
  function Screened(headers: Fields): Fields {
    DeleteNamed(Recased(headers) - FRAMING, InboundOptions(headers)) - THIS_HOP_ONLY
  }

  /** What this hop says of the request, after whatever was screened out of it. */
  function Announce(out: Fields, host: Option<string>, hop: Hop): Fields {
    var out := out["via" := AppendVia(Field(out, "via"), hop.httpVersion)];
    var out := out["x-forwarded-for" := Forwarded.AppendForwardedFor(Field(out, "x-forwarded-for"), hop.peer)];
    Put(Put(out, "x-real-ip", hop.peer), "x-forwarded-host", host) - {"forwarded"}
  }

  /** The outbound request's fields, or the refusal of a transfer coding. */
  function Outbound(headers: Fields, hop: Hop): Option<Fields> {
    if OtherCoding(headers) then None else Some(Announce(Screened(headers), Field(headers, "host"), hop))
  }

  lemma DeletesNext(out: Fields, names: seq<string>, i: nat)
    requires i < |names|
    ensures DeleteNamed(out, names[i..])
         == DeleteNamed(if names[i] in PROXY_DECIDED then out else out - {names[i]}, names[i + 1..])
  {
    assert names[i..][1..] == names[i + 1..];
  }

  /** The loop over the names the inbound `Connection` lists. */
  method DropNamed(copied: Fields, names: seq<string>) returns (out: Fields)
    ensures out == DeleteNamed(copied, names)
  {
    out := copied;
    assert names[0..] == names;
    for i := 0 to |names|
      invariant DeleteNamed(copied, names) == DeleteNamed(out, names[i..])
    {
      DeletesNext(out, names, i);
      if names[i] !in PROXY_DECIDED {
        out := out - {names[i]};
      }
    }
    assert names[|names|..] == [];
  }

  method Decorate(headers: Fields, hop: Hop) returns (sent: Option<Fields>)
    ensures sent == Outbound(headers, hop)
  {
    if OtherCoding(headers) {
      return None;
    }
    var out := DropNamed(Recased(headers) - FRAMING, InboundOptions(headers));
    out := out - THIS_HOP_ONLY;
    return Some(Announce(out, Field(headers, "host"), hop));
  }

  /** What arrives under `Authorization`: names fold on the wire, and the canonical one is written last. */
  function WireAuthorization(out: Fields): Option<string> {
    if "Authorization" in out then Some(out["Authorization"]) else Field(out, "authorization")
  }

  // ---- what the stage does to each field ----

  /** A field no hop passes on, or one the caller's `Connection` keeps on its own hop. */
  predicate StaysOnHop(headers: Fields, field: string) {
    field in THIS_HOP_ONLY || field in FRAMING || (field in InboundOptions(headers) && field !in PROXY_DECIDED)
  }

  /** What of the arriving field goes on; `Authorization` goes under its canonical name too. */
  function Passed(headers: Fields, field: string): Option<string> {
    if StaysOnHop(headers, field) then None
    else if field == "connection" then Some("close")
    else if field == "host" then None
    else if field == "Authorization" then Field(headers, "authorization")
    else Field(headers, field)
  }

  /** What the upstream is to receive for a field: what this hop says of the request itself, else what goes on. */
  function Due(host: Option<string>, hop: Hop, field: string, passed: Option<string>): Option<string> {
    if field == "x-real-ip" then hop.peer
    else if field == "x-forwarded-host" then host
    else if field == "forwarded" then None
    else if field == "via" then Some(AppendVia(passed, hop.httpVersion))
    else if field == "x-forwarded-for" then Some(Forwarded.AppendForwardedFor(passed, hop.peer))
    else passed
  }

  lemma {:induction false} DeleteNamedField(out: Fields, names: seq<string>, field: string)
    ensures Field(DeleteNamed(out, names), field)
         == if field in names && field !in PROXY_DECIDED then None else Field(out, field)
    decreases names
  {
    if names != [] {
      DeleteNamedField(if names[0] in PROXY_DECIDED then out else out - {names[0]}, names[1..], field);
      assert field in names <==> field == names[0] || field in names[1..];
    }
  }

  lemma ScreenedField(headers: Fields, field: string)
    ensures Field(Screened(headers), field) ==
            if field in THIS_HOP_ONLY || field in FRAMING || (field in InboundOptions(headers) && field !in PROXY_DECIDED)
            then None else Field(Recased(headers), field)
  {
    DeleteNamedField(Recased(headers) - FRAMING, InboundOptions(headers), field);
  }

  lemma RecasedField(headers: Fields, field: string)
    requires "Authorization" !in headers
    ensures Field(Recased(headers), field) ==
            if field == "connection" then Some("close")
            else if field == "host" then None
            else if field == "Authorization" then Field(headers, "authorization")
            else Field(headers, field)
  {
  }

  /** `Connection` lists only lower-cased names, so never the canonical one. */
  lemma NamesAreLowerCased(headers: Fields)
    ensures forall name | name in InboundOptions(headers) :: name != "" && !('A' <= name[0] <= 'Z')
  {
    if "connection" in headers {
      var names := Members(headers["connection"]);
      MembersAreMembers(headers["connection"]);
      forall i | 0 <= i < |names| ensures LowerAll(names)[i] != "" && !('A' <= LowerAll(names)[i][0] <= 'Z') {
        assert IsMember(names[i]);
      }
    }
  }

  lemma LowerCasedHasNoCapital(headers: Fields)
    requires LowerCased(headers)
    ensures "Authorization" !in headers
  {
    assert LowerChar("Authorization"[0]) == 'a';
  }

  lemma AnnouncedField(out: Fields, host: Option<string>, hop: Hop, field: string)
    ensures Field(Announce(out, host, hop), field) == Due(host, hop, field, Field(out, field))
  {
  }

  lemma PassedField(headers: Fields, field: string)
    requires LowerCased(headers)
    ensures Field(Screened(headers), field) == Passed(headers, field)
  {
    LowerCasedHasNoCapital(headers);
    ScreenedField(headers, field);
    RecasedField(headers, field);
  }

  /** The stage sends exactly what is due, for every field there is. */
  lemma SendsExactlyWhatIsDue(headers: Fields, hop: Hop, field: string)
    requires LowerCased(headers)
    ensures Outbound(headers, hop).None? <==> OtherCoding(headers)
    ensures !OtherCoding(headers) ==>
              Field(Outbound(headers, hop).value, field)
              == Due(Field(headers, "host"), hop, field, Passed(headers, field))
  {
    PassedField(headers, field);
    AnnouncedField(Screened(headers), Field(headers, "host"), hop, field);
  }

  /** `Via` gets this hop as its last member, after whatever members were received. */
  lemma ViaAddsThisHop(received: Option<string>, httpVersion: string)
    requires IsMember(httpVersion)
    ensures Forwarded.Hops(Some(AppendVia(received, httpVersion)))
         == Forwarded.Hops(received) + [httpVersion + " auth.proxy"]
  {
    var own := httpVersion + " auth.proxy";
    assert own[0] == httpVersion[0] && own[|own| - 1] == 'y';
    assert ',' !in own;
    assert AppendVia(received, httpVersion) == Forwarded.AppendForwardedFor(received, Some(own));
    Forwarded.AppendAddsOneHop(received, own);
  }

  /** `chunked` in any casing, with any slack around it. */
  ghost predicate SaysChunked(value: string) {
    exists a, coding, b ::
      && value == a + coding + b && Slack(a, JsSpace) && Slack(b, JsSpace)
      && |coding| == |"chunked"|
      && forall i | 0 <= i < |coding| :: coding[i] == "chunked"[i] || coding[i] == "CHUNKED"[i]
  }

  lemma FoldsToLetter(c: char, small: char, capital: char)
    requires 'a' <= small <= 'z' && capital as int + 32 == small as int
    ensures LowerChar(c) == small <==> c == small || c == capital
  {
  }

  lemma TheLettersOfChunked(i: nat)
    requires i < 7
    ensures |"chunked"| == |"CHUNKED"| == 7
    ensures 'a' <= "chunked"[i] <= 'z' && "CHUNKED"[i] as int + 32 == "chunked"[i] as int
  {
  }

  lemma FoldsToChunked(coding: string)
    ensures Lower(coding) == "chunked" <==>
            |coding| == |"chunked"| && forall i | 0 <= i < |coding| :: coding[i] == "chunked"[i] || coding[i] == "CHUNKED"[i]
  {
    FoldsToLower(coding, "chunked");
    if |coding| == 7 {
      forall i | 0 <= i < 7
        ensures LowerChar(coding[i]) == "chunked"[i] <==> coding[i] == "chunked"[i] || coding[i] == "CHUNKED"[i]
      {
        TheLettersOfChunked(i);
        FoldsToLetter(coding[i], "chunked"[i], "CHUNKED"[i]);
      }
    }
  }

  lemma TrimmedToChunked(value: string)
    ensures Lower(Trim(value, JsSpace)) == "chunked" <==> SaysChunked(value)
  {
    FoldsToChunked(Trim(value, JsSpace));
    var a, b := TrimLeaves(value, JsSpace);
    if a', coding, b' :|
      value == a' + coding + b' && Slack(a', JsSpace) && Slack(b', JsSpace) && |coding| == |"chunked"|
      && forall i | 0 <= i < |coding| :: coding[i] == "chunked"[i] || coding[i] == "CHUNKED"[i]
    {
      assert !JsSpace(coding[0]) && !JsSpace(coding[|coding| - 1]);
      TrimTakesOff(a', coding, b', JsSpace);
    }
  }

  /** A request is refused exactly when it says another transfer coding than `chunked`. */
  lemma RefusesOtherCodings(headers: Fields, hop: Hop)
    ensures Outbound(headers, hop).Some? <==>
            "transfer-encoding" !in headers || SaysChunked(headers["transfer-encoding"])
  {
    if "transfer-encoding" in headers {
      TrimmedToChunked(headers["transfer-encoding"]);
    }
  }

  /** What is told of this hop goes after the received text as it is, or alone when that is blank. */
  lemma AppendsToTheText(received: Option<string>, peer: Option<string>, httpVersion: string)
    ensures var entry := if peer.Some? then peer.value else "unknown";
            Forwarded.AppendForwardedFor(received, peer)
            == if received.None? || Slack(received.value, JsSpace) then entry else received.value + ", " + entry
    ensures AppendVia(received, httpVersion)
         == if received.None? || Slack(received.value, JsSpace) then httpVersion + " auth.proxy"
            else received.value + ", " + (httpVersion + " auth.proxy")
  {
    var text := if received.Some? then received.value else "";
    BlankIsSlack(text, JsSpace);
  }
}
