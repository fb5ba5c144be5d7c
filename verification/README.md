# auth-proxy: a verified model of its stateful core

The proxy stands between browsers and an upstream. In injection mode it turns
a session cookie, or an inbound bearer assertion, into a token minted by the
identity provider, and forwards the request with that token. This project
models the parts of it that hold state or decide what crosses a trust boundary,
and proves what they promise, for all inputs and over all runs.

## What is modelled

**The injection token path, as a concurrent protocol.** Any number of requests,
of any number of routers and of both paths (session grant and exchange),
interleave over one token store and one flight table. An event is one stretch of
code with no await in it: a request arriving (the store's lookup and the joining
or leading of a flight are one stretch), the provider answering a call (the
store's write, then the call settling), a call's slot being cleared, a waiting
request resuming. Clock readings are arbitrary reals, so nothing rests on a
clock that only goes forward unless it says so. `Injection.dfy` is the state
machine and its theorems; `InjectionProxy.dfy` is the program, whose every
segment is proved to be the machine's step; `InjectionRuns.dfy` tells runs from
their events alone. It is built on `SingleFlight.dfy`
(coalescing), `TokenCache.dfy` (the store), `CacheKey.dfy` (what a key says),
`Expiry.dfy` and `Decision.dfy` (the gate, the decision, the lifetime of an
answer). One store and one table for both paths is the sharing the source
allows; separate instances are the runs that use only one path of each.

**The two bounded caches.** `TokenCache.dfy` and `IntrospectionCache.dfy` keep a
JavaScript `Map` as its entries in insertion order (`ExpiringMap.dfy`). The
token store is refined to an unbounded map over whole runs; `CacheEquivalence.dfy`
shows when the two caches cannot be told apart, and that each condition is needed.

**The graceful shutdown.** `Drain.dfy` is the drain over connections and pipelined
requests, `Shutdown.dfy` the race between the close callback, the deadline and
the cleanup, `GracefulShutdown.dfy` the listeners as a class over the program's
own variables, each proved against both. `GracefulRun.dfy` joins the drain and
the race over one sequence of events: what an exit of 0 says of the connections.

**Headers.** `Cookies.dfy` (extraction and removal of the session cookie),
`Forwarded.dfy` (the `X-Forwarded-For` chain and the walk that undoes it),
`ResponseHead.dfy` (the upstream's head screened on its way to the caller, and
`Vary`), `Upstream.dfy` (the outcome applied to the request's headers, and the
stage that sends them), and `EndToEnd.dfy`, which joins them to the protocol:
what the upstream receives, for every request of every run.

**Small grammars.** `CorsPattern.dfy` (the scanner of the CORS origin pattern),
`ClientSecretBasic.dfy`, and `AddressRange.dfy` (trusted-proxy ranges and which of
them trust everyone). `Text.dfy` holds JavaScript's `split`, `join`, `trim` and
the list grammar they make; `Wrappers.dfy` the option type.

## What is assumed

- SHA-256 is idealised as an injective digest, written out as one (`CacheKey.Digest`).
- A fetcher does not re-enter `run` for its own key; microtasks run between a
  call's settling and its callers' resuming only in the order `finally` gives.
- Answers on one connection finish in order; a request's body ends before the
  next request on that connection starts; once closing, the server accepts no
  connection and closes the ones Node counts as idle; the close callback comes
  at most once and after the handler, without an error only when no connection
  is open; a cleared timer does not fire.
- An address, as `node:net` reads one, holds no comma, slash or blank; IPv4
  addresses are checked against IPv6 ranges in their IPv4-mapped form.
- Header text is Latin-1, so `toLowerCase` is the Latin-1 folding. Cookie names
  are the tokens the configuration admits where a lemma asks for `CookieName`.
- Every name in the inbound header map is lower-cased, as Node keeps it.

A cache built with a bound of zero holds one entry, since a write always stores;
the bound theorems say so (`Bound`).

## Model

| member | source | states |
|---|---|---|
| `TokenCache.Cache.constructor` | src/modes/injection/token-cache.mts:43-44 | a new store is empty and within its bound |
| `TokenCache.Cache.Get` | src/modes/injection/token-cache.mts:55-63 | answers the key's token only while unexpired, deletes the expired entry it declines, changes nothing else |
| `ExpiringMap.SweepExpired` | src/modes/injection/token-cache.mts:46-52 | deleting under the iteration visits every entry once: what is left is exactly the unexpired entries, in order; the other cache sweeps alike |
| `TokenCache.Cache.Set` | src/modes/injection/token-cache.mts:64-74 | the key re-inserted last, expired entries gone, the oldest dropped only at the bound; the bound and the distinctness of keys are kept |
| `TokenCache.Cache.Clear` | src/modes/injection/token-cache.mts:75-77 | leaves nothing |
| `TokenCache.Cache.Size` | src/modes/injection/token-cache.mts:78-80 | the number of entries, never over the bound |
| `TokenCache.SetKeepsSound` | src/modes/injection/token-cache.mts:64-74 | a write keeps keys distinct and the size within the bound, and adds nothing but the entry written |
| `TokenCache.SetDropsOnlyTheOldest` | src/modes/injection/token-cache.mts:66-73 | a write drops a live entry of another key if and only if `maxEntries` live entries of other keys are held and it is the oldest of them |
| `TokenCacheHistory.RunIsInWriteOrder` | src/modes/injection/token-cache.mts:43-82 | after any run, the store is within its bound, each entry is its key's latest write, and entries stand in the order they were written |
| `TokenCacheHistory.ServesOnlyTheLatestWrite` | src/modes/injection/token-cache.mts:55-63 | after any run, a hit is the latest token written for the key since the last clear, before that write's expiry |
| `TokenCacheHistory.EvictsTheLongestUnwritten` | src/modes/injection/token-cache.mts:66-73 | after any run, the live entry a full store gives up was written before every other live one, and only it goes |
| `TokenCacheHistory.KeepsARecentWrite` | src/modes/injection/token-cache.mts:46-74 | nothing is lost early: the latest write to a key is held while no clock reading since reached its expiry and fewer than the bound's number of other keys were written since |
| `IntrospectionCache.Cache.constructor` | src/modes/validation/introspection-cache.mts:55-58 | a new cache is empty and within its bound |
| `IntrospectionCache.Cache.Get` | src/modes/validation/introspection-cache.mts:61-64 | answers only while unexpired and changes nothing |
| `IntrospectionCache.Cache.Set` | src/modes/validation/introspection-cache.mts:66-86 | swept, the oldest insertion dropped only for a new key at the bound, a held key overwritten in place |
| `IntrospectionCache.Cache.Clear` | src/modes/validation/introspection-cache.mts:88-90 | leaves nothing |
| `IntrospectionCache.Cache.Size` | src/modes/validation/introspection-cache.mts:92-94 | the number of entries, never over the bound |
| `IntrospectionCache.SetKeepsSound` | src/modes/validation/introspection-cache.mts:76-85 | a write keeps keys distinct and the size within the bound |
| `IntrospectionCache.RefreshKeepsEveryPosition` | src/modes/validation/introspection-cache.mts:26-36 | writing a key still live evicts nothing and moves nothing, even at the bound |
| `CacheEquivalence.CachesAnswerAlike` | src/modes/validation/introspection-cache.mts:26-36 | over every run with a clock that does not go back and no write to a live key, the two caches answer every get alike |
| `CacheEquivalence.DeletingOnGetIsInvisible` | src/modes/injection/token-cache.mts:58-61 | whatever is written, deleting the expired entry on get changes no later answer while the clock does not go back |
| `CacheEquivalence.FillsAlike` | src/modes/validation/introspection-cache.mts:66-86 | any distinct live entries within the bound are held, in order, by either cache built empty once they are written in turn |
| `CacheEquivalence.RefreshTellsThemApart` | src/modes/validation/introspection-cache.mts:28-29 | the condition on writes is needed on every full cache: refreshing the oldest live key and then writing a new one has each cache evict a different entry, and a get tells |
| `CacheEquivalence.AClockSetBackTellsThemApart` | src/modes/injection/token-cache.mts:58-61 | the condition on the clock is needed for every entry of every cache: once a reading has passed its expiry and the clock goes back, only the other cache still answers with it |
| `SingleFlight.Flights.constructor` | src/single-flight.mts:35-36 | a new table has no flight |
| `SingleFlight.Flights.Run` | src/single-flight.mts:38-61 | joins the pending flight or starts one in the slot, a synchronous throw included; says which promise is awaited and whether as a waiter |
| `SingleFlight.Flights.Direct` | src/modes/injection/decision.mts:417-419 | a fetch outside the table takes no slot |
| `SingleFlight.Flights.FetcherSettles` | src/single-flight.mts:44-56 | the fetcher settling does not touch the table |
| `SingleFlight.Flights.Finally` | src/single-flight.mts:54-58 | the slot is cleared, and only then is the call's outcome there to resume with |
| `SingleFlight.StepKeepsValid` | src/single-flight.mts:36-62 | every event keeps: the map holds exactly the unreleased calls with a slot, and earlier calls of a slot were over before later ones began |
| `SingleFlight.RunKeepsValid` | src/single-flight.mts:36-62 | so does every run |
| `SingleFlight.RunKeepsCalls` | src/single-flight.mts:54-61 | over any run, a call's slot and start never change, nor its outcome once settled, nor anything once released |
| `SingleFlight.SettlesOnce` | src/single-flight.mts:44-56 | over any run a fetcher settles at most once, and what it settles with is its call's outcome from then on |
| `SingleFlight.FlightsOfAKeyNeverOverlap` | src/single-flight.mts:36-59 | over every run, of two flights of one key the earlier settled and was cleared strictly before the later began |
| `SingleFlight.SlotIsClearedBeforeAnyoneResumes` | src/single-flight.mts:54-60 | when a caller can resume from a call, no slot is that call's |
| `SingleFlight.ReleaseClearsItsOwnEntry` | src/single-flight.mts:56-58 | the clearing always removes that flight's own entry and no other |
| `SingleFlight.EveryCallerGetsTheLeadersOutcome` | src/single-flight.mts:38-61 | whoever calls `run`, whenever - leading, joining a running fetcher, or joining after it settled or threw with its slot still held - resumes only with the outcome of that flight's one fetcher: what it settles with later, or had settled with, whatever happens before and after |
| `SingleFlight.NextRunStartsItsOwn` | src/single-flight.mts:44-59 | after the clearing, also of a synchronous throw, and whatever happens between, the next run for the key starts its own fetcher and takes the slot |
| `CacheKey.EscapesAsStringify` | src/modes/injection/decision.mts:88-100 | which units are escaped, and in which form, is as `JSON.stringify` has it |
| `CacheKey.Utf16IsPairs` | src/modes/injection/decision.mts:85-87 | a character past the first plane is its surrogate pair |
| `CacheKey.PunctuatesAsJson` | src/modes/injection/decision.mts:88-100 | brackets, commas, quotes and `null`, to the letter |
| `CacheKey.ReadEscaped` | src/modes/injection/decision.mts:88-100 | a string as `JSON.stringify` writes it, for any UTF-16 units, reads back as itself by section 7 of RFC 8259, whatever follows |
| `CacheKey.ArrayRoundTrip` | src/modes/injection/decision.mts:63-64 | the array text hashed for a key reads back as exactly its fields, so no field's text can shift into another's |
| `CacheKey.FieldsInjective` | src/modes/injection/exchange.mts:75-89 | the fields listed tell every part of a question, and a session question's are never an exchange's |
| `CacheKey.KeysAreUnambiguous` | src/modes/injection/decision.mts:74-103 | two questions have one key if and only if they are the same path, context and credential |
| `Expiry.CacheExpiresAt` | src/modes/injection/cache-expiry.mts:32-55 | the result plus the margin is within every bound given and is one of them; there is none exactly when some bound less the margin is not ahead |
| `Decision.GateNeedsAgreeingEvidence` | src/modes/injection/origin-gate.mts:59-68 | admitted if and only if the scheme is the public one, every origin named is the public origin, `Sec-Fetch-Site` does not disagree, and there is an origin or a `Sec-Fetch-Site` |
| `Decision.ExchangesExactlyTheEligible` | src/modes/injection/exchange.mts:234-247 | with the exchange on and an `Authorization`, submitted under the router's policy if and only if there is no pair of the session cookie's name, the header is a Bearer JWT and its issuer is let through; else refused, 400 `credential_ambiguous` for two credentials, 401 `credential_unsupported` or `credential_rejected`, and never forwarded |
| `Decision.AsksExactlyWithAWellFormedCookie` | src/modes/injection/decision.mts:298-362 | otherwise the provider is asked if and only if some pair of the name is well-formed, for the first such value, shared as the gate says, under the router's policy; else the request is forwarded |
| `Decision.SubmitsUnderTheRoutersPolicy` | src/modes/injection/decision.mts:396-402 | on both paths what is asked is governed by the router's own ttl and margin, and lasts as the credential presented lasts |
| `Decision.CachedOnlyInTime` | src/modes/injection/exchange.mts:91-115 | an answer is cached if and only if it is in time as it arrives, and is live at exactly the instants it is in time; an assertion without `exp` never |
| `Injection.StepKeepsInv` | src/modes/injection/decision.mts:353-423 | every segment keeps the trace from each stored entry and each request to the call its token came from |
| `Injection.RunKeepsInv` | src/modes/injection/decision.mts:353-423 | so does every interleaving |
| `Injection.TokenProvenance` | src/modes/injection/decision.mts:353-423 | in every interleaving an injected token was issued for exactly the request's question, by a call that a request which asked it led; an admitted request's by an admitted request's call, a refused one's by its own call alone |
| `Injection.CacheHitsAreInTime` | src/modes/injection/decision.mts:386-411 | every hit is strictly before `requestedAt` plus the ttl, plus `expires_in`, and before the assertion's `exp`, each less the margin, of the call that issued the token, whatever the clock does |
| `Injection.NothingElseIsCached` | src/modes/injection/exchange.mts:312-339 | over every run, each stored token is what a call led by an admitted request was answered with, under the key of its question, kept only while in time, and on the exchange path with an `exp`; so never a failure's or another request's |
| `Injection.SharedCallsNeverOverlap` | src/modes/injection/decision.mts:413-419 | the provider calls admitted requests share for one question never overlap in time |
| `Injection.ResumedAfterTheSlotWasCleared` | src/single-flight.mts:54-61 | a request that resumed from a call asked what the call asks, has exactly its outcome, its token or the status of its failure, and the call holds no slot |
| `Injection.RefusedWithoutACall` | src/modes/injection/exchange.mts:259-298 | a request refused without a call is one the decision refused, with the decision's status |
| `Injection.AnswerServesTheNext` | src/modes/injection/decision.mts:363-384 | an answer written in time is what the next admitted request with the same question is served, from the store |
| `Injection.AnswerSparesTheLive` | src/modes/injection/decision.mts:403-405 | an answer's write takes out of the other keys exactly what the clock has passed as it is written, and the oldest live entry when the store is full of live ones |
| `InjectionRuns.RequestsAreTheArrivals` | src/modes/injection/router.mts:146-159 | the requests of a run are its arrivals in order, each with the plan decided for it |
| `InjectionRuns.HitsKeepTheirRoutersBounds` | src/modes/injection/decision.mts:386-411 | told from the events alone: a hit, at the reading its request arrived with, is strictly inside the ttl of the router the leader of the issuing call arrived at, the `expires_in` the provider answered, and the `exp` of the leader's assertion, counted from when that leader's call was sent and less that router's margin |
| `InjectionProxy.Proxy.constructor` | src/modes/injection/router.mts:280-284 | starts the protocol |
| `InjectionProxy.Proxy.Arrive` | src/modes/injection/decision.mts:270-419 | the code from a request's arrival to its first await is the protocol's arrival step |
| `InjectionProxy.Proxy.Submission` | src/modes/injection/decision.mts:362-419 | only an admitted request looks in the store or shares a flight |
| `InjectionProxy.Proxy.LookIn` | src/modes/injection/decision.mts:362-363 | the lookup, and what it leaves |
| `InjectionProxy.Proxy.Shared` | src/modes/injection/exchange.mts:300-312 | a hit is answered at once; a miss joins or leads with no await between |
| `InjectionProxy.Proxy.Alone` | src/modes/injection/decision.mts:417-419 | a request not admitted calls the provider itself |
| `InjectionProxy.Proxy.JoinOrLead` | src/single-flight.mts:38-61 | a miss awaits the pending flight's call, or its own |
| `InjectionProxy.Proxy.ProviderAnswers` | src/modes/injection/decision.mts:386-411 | the continuation after the provider's answer is the protocol's answer step: the write first, then the call settles |
| `InjectionProxy.Proxy.Write` | src/modes/injection/decision.mts:403-405 | one write, traced to its call |
| `InjectionProxy.Proxy.Clear` | src/single-flight.mts:56-58 | the clearing, on the program's own state |
| `InjectionProxy.Proxy.SlotCleared` | src/single-flight.mts:56-58 | the clearing is the protocol's |
| `InjectionProxy.Proxy.Resume` | src/modes/injection/decision.mts:417-424 | a waiting request injects the call's token, or answers its failure |
| `Cookies.AcceptsExactlyCookieValues` | src/modes/injection/cookie-extractor.mts:82-89 | a value is accepted if and only if it is a nonempty `cookie-value` of section 4.1.1 of RFC 6265 |
| `Cookies.OctetsAreVisibleAscii` | src/modes/injection/cookie-extractor.mts:67 | the characters accepted are visible US-ASCII but for the double quote, comma, semicolon and backslash |
| `Cookies.RejectsForItsReason` | src/modes/injection/cookie-extractor.mts:56-58 | which of the three reasons a refused value is told, character by character |
| `Cookies.ExtractCookie` | src/modes/injection/cookie-extractor.mts:91-108 | the loop computes the extraction the lemmas below are about |
| `Cookies.ExtractsTheFirstWellFormed` | src/modes/injection/cookie-extractor.mts:60-66 | for every header and name: the first well-formed of all same-name pairs wins, with the first malformed one's reason; rejected with that reason when all are malformed; absent only when there is none |
| `Cookies.ReadsThePairsWritten` | src/modes/injection/cookie-extractor.mts:44-51 | however a header is written, with any SP and HTAB slack and any text that is no pair, the values read for a name are those of the pairs written with it, in order and to the letter |
| `Cookies.EveryHeaderIsWritten` | src/modes/injection/cookie-extractor.mts:97-101 | every header is written in some such way |
| `Cookies.RemovalWritesTheRest` | src/modes/injection/cookie-extractor.mts:110-117 | removal writes, to the letter, every other piece that holds anything, in order, joined by `; `, or the header as it was when it has no pair of the name |
| `Cookies.RemovalKeepsOtherPairs` | src/modes/injection/cookie-extractor.mts:110-131 | removal leaves no pair of the name and every other name's values, in order |
| `Cookies.RemovalAndReadingAgree` | src/modes/injection/cookie-extractor.mts:110-131 | after removal, reading the name is absent, and reading any other gives what it gave |
| `Cookies.UnchangedWithoutThePair` | src/modes/injection/cookie-extractor.mts:128 | a header without the pair comes back as it was |
| `Cookies.RemovalIsIdempotent` | src/modes/injection/cookie-extractor.mts:118-131 | removing twice is removing once |
| `Cookies.RemovalsCommute` | src/modes/injection/cookie-extractor.mts:118-131 | two names may be removed in either order |
| `Cookies.FoundPairPrintsBack` | src/modes/injection/session-grant-client.mts:176 | the pair sent to the provider parses back to that one pair and no other |
| `Forwarded.RequestSource` | src/modes/injection/request-source.mts:105-122 | the hop loop computes the walk the lemmas below are about |
| `Forwarded.WalkFindsTheFurthest` | src/modes/injection/request-source.mts:118-122 | the walk stops at a hop every hop after it vouches for, and no further only because there is none, it is not trusted, or the one before is no address |
| `Forwarded.FurthestIsUnique` | src/modes/injection/request-source.mts:118-122 | there is only one such hop |
| `Forwarded.SourceIsTheFurthest` | src/modes/injection/request-source.mts:105-122 | the address told: none without a peer; the peer when it is not trusted or no hop is named; else the furthest hop vouched for |
| `Forwarded.ForgedEntriesChangeNothing` | src/modes/injection/request-source.mts:113-122 | text put left of an untrusted or unreadable hop never changes the address told |
| `Forwarded.AppendAddsOneHop` | src/router/upstream.mts:157-163 | an appended entry is one more hop after those received, whatever was received |
| `Forwarded.UnknownPeerIsStillLast` | src/router/upstream.mts:143-149 | a peer that is gone leaves `unknown` as the last hop |
| `Forwarded.ChainHops` | src/router/upstream.mts:151-163 | a chain of appends lists the hops in order after what the client sent |
| `Forwarded.ChainRecoversTheBrowser` | src/modes/injection/request-source.mts:105-122 | through any number of trusted hops, whatever the client sent, the address told is the browser's own |
| `ResponseHead.MergeMembers` | src/router/upstream.mts:186-191 | the loop lists each member once, `*` alone when present |
| `ResponseHead.MergeVaryLoop` | src/router/upstream.mts:185-192 | the merge of both sides' `Vary` |
| `ResponseHead.MergesTheFirsts` | src/router/upstream.mts:180-192 | a merged `Vary` reads back as `*` alone when either side lists it, else as the proxy's members and then the upstream's, each as first spelled and none twice in any casing |
| `ResponseHead.MergeVaryAssociative` | src/router/upstream.mts:180-192 | merging is associative |
| `ResponseHead.MergeVaryIdempotent` | src/router/upstream.mts:180-192 | merging a merged value with either of its sides again changes nothing |
| `ResponseHead.StarAbsorbs` | src/router/upstream.mts:183-188 | `*` on either side is the whole answer |
| `ResponseHead.WrittenHeadIsScreened` | src/router/upstream.mts:201-221 | for every list of distinctly named fields, the written head is exactly: the proxy's fields at its values, its `Vary` merged unless named, and the upstream's that are neither hop-only, proxy-only nor named |
| `ResponseHead.NamedFieldsStay` | src/router/upstream.mts:194-199 | a field the upstream's `Connection` lists, in whatever casing and slack, reaches the caller only as the proxy set it |
| `ResponseHead.HopFieldsStay` | src/router/upstream.mts:165-171 | nor does any of the connection's own fields, by name, or of those only the proxy sets |
| `ResponseHead.OtherFieldsPass` | src/router/upstream.mts:236-247 | every other field, however its name is spelled, reaches the caller as sent, or as the proxy set it, `Vary` merged |
| `ResponseHead.ManyTextsAreOneList` | src/router/upstream.mts:175-176 | a list sent as several values is the members of each in turn |
| `ResponseHead.FoldsTheLetters` | src/router/upstream.mts:198 | each of the 26 letters folds to its small one |
| `ResponseHead.FoldsNoOther` | src/router/upstream.mts:198 | and no other ASCII character folds |
| `ResponseHead.OrderDoesNotMatter` | src/router/upstream.mts:232-259 | for any rearrangement of distinctly named fields, `Connection` before or after those it names, the written head is the same |
| `ResponseHead.Response.constructor` | src/router/upstream.mts:232-235 | the stage starts from the head the proxy had set |
| `ResponseHead.Response.SetUpstreamHeader` | src/router/upstream.mts:236-247 | one upstream field held back, set, merged or dropped |
| `ResponseHead.Response.RemoveHeader` | src/router/upstream.mts:249-255 | removing `Date` turns off Node's own |
| `ResponseHead.Response.WriteHead` | src/router/upstream.mts:249-259 | named fields taken out or put back to the proxy's, the answer dated as before |
| `ResponseHead.Response.Restore` | src/router/upstream.mts:260-270 | gives back precisely the head the proxy had set, nothing held against it, the answer dated as before |
| `Upstream.Request.RemoveCookie` | src/modes/injection/router.mts:115-122 | `Cookie` replaced by the rest of it, or deleted |
| `Upstream.Request.ApplyOutcome` | src/modes/injection/router.mts:160-172 | what each forwarding outcome does to the headers |
| `Upstream.DropNamed` | src/router/upstream.mts:525-528 | the loop removes exactly the fields named, but for those the proxy decides |
| `Upstream.Decorate` | src/router/upstream.mts:507-550 | the decorator's edits of the copied fields, or its refusal |
| `Upstream.NamesAreLowerCased` | src/router/upstream.mts:194-199 | `Connection` never names a field in canonical casing |
| `Upstream.ViaAddsThisHop` | src/router/upstream.mts:132-141 | `Via` reads back as the members received and this hop, last |
| `Upstream.RefusesOtherCodings` | src/router/upstream.mts:518-521 | refused if and only if there is a `Transfer-Encoding` that is not `chunked`, in any casing, with slack around it at most |
| `Upstream.AppendsToTheText` | src/router/upstream.mts:157-163 | to the letter: the received text, `, ` and this hop's entry, or the entry alone when the text is blank |
| `Upstream.SendsExactlyWhatIsDue` | src/router/upstream.mts:387-447 | refused if and only if a coding other than `chunked` is applied; else every field there is, is sent exactly as due: what this hop says, nothing that stays on the caller's hop, the rest as it arrived |
| `EndToEnd.AuthorizationArrives` | src/router/upstream.mts:510-529 | what arrives under `Authorization` is what the request's headers held when the stage ran, whatever `Connection` names |
| `EndToEnd.ConnectionCannotTouchAuthorization` | src/router/upstream.mts:116-124 | changing the inbound `Connection` changes nothing of what arrives under `Authorization` |
| `EndToEnd.CookiesReceived` | src/modes/injection/router.mts:128-131 | the session cookie is never read from what is sent; every other cookie reads as it did, unless `Connection` names `Cookie` |
| `EndToEnd.PassingPlans` | src/modes/injection/decision.mts:286-347 | a request passes without a token only with the exchange off or no `Authorization`, and is stripped exactly when that is on and there is one |
| `EndToEnd.ApplyKeepsOthers` | src/modes/injection/router.mts:160-172 | no outcome touches any field but `Cookie` and `Authorization` |
| `EndToEnd.AppliedAuthorization` | src/modes/injection/router.mts:160-172 | what each outcome makes of those two |
| `EndToEnd.WhatReachesTheUpstream` | src/modes/injection/router.mts:124-172 | for every request of every run the proxy does not answer itself: sent if and only if no coding but `chunked` is applied; no session cookie; `Authorization` is `Bearer` and a token issued for this request's question, or what arrived, or nothing at all with the exchange or stripping on; every other field is what the stage makes of it as it came in |
| `EndToEnd.UpstreamSeesThePeer` | src/router/upstream.mts:421-427 | an upstream that trusts this hop and not the caller is told the peer, whatever the caller sent, by the chain and by `X-Real-IP` |
| `EndToEnd.HopFieldsStay` | src/router/upstream.mts:410-419 | a field that stays on the hop is received as if never sent |
| `EndToEnd.NamedFieldsStay` | src/router/upstream.mts:525-528 | a field the caller's `Connection` lists, in whatever casing and slack, is received as if never sent, but for the three the proxy decides |
| `EndToEnd.FieldsOfTheHop` | src/router/upstream.mts:107-114 | no field of the hop, of the caller's framing, nor `Forwarded` is sent, by name |
| `EndToEnd.OtherFieldsGoOn` | src/router/upstream.mts:443-450 | every other field goes on as it came |
| `EndToEnd.SaysOfThisHop` | src/router/upstream.mts:530-541 | what is sent of this hop, to the letter: peer, host, `connection: close`, and the two lists with this hop last |
| `Drain.StepKeepsInv` | src/shutdown.mts:127-171 | every event keeps the table exact and every connection of a drain closing, busy, or with a head arriving |
| `Drain.TableIsExact` | src/shutdown.mts:121-127 | over every run the table holds exactly the open connections, each with its latest request until that is answered and read |
| `Drain.OwnClosesHitOnlySettledConnections` | src/shutdown.mts:135-150 | a connection the drain itself closes has every request received on it answered, written out and read, at any pipelining depth |
| `Drain.DrainLeavesOnlyBusyConnections` | src/shutdown.mts:264-273 | after the signal every open connection is closing, busy, or has a head arriving |
| `Drain.DoneClosesAtOnce` | src/shutdown.mts:162-171 | during the drain a busy connection is closed by exactly the event that leaves its latest request done |
| `Drain.TrackForgetsNothing` | src/shutdown.mts:129-133 | tracking a connection again forgets nothing of any |
| `Drain.NothingClosesWithoutASignal` | src/shutdown.mts:162-166 | over every run with no signal no open connection is being closed, however many requests it has answered |
| `Drain.ClosesNothingBeforeTheSignal` | src/shutdown.mts:162-166 | before the signal no event has the program close anything |
| `Drain.SignalClosesTheUnread` | src/shutdown.mts:264-273 | the first signal has the program close exactly the connections nothing was read from, a later one none |
| `Drain.DeadlineClosesAll` | src/shutdown.mts:238-245 | the deadline leaves every connection closing |
| `ShutdownOutcome.RunIsTold` | src/shutdown.mts:204-263 | the variables at any point follow from which events came and which came before the deadline |
| `ShutdownOutcome.AtMostOneCleanupAndExit` | src/shutdown.mts:203-230 | in every ordering cleanup and exit come at most once, and cleanup exactly when something decided the drain |
| `ShutdownOutcome.RepeatedSignalChangesNothing` | src/shutdown.mts:232-235 | a repeated signal changes nothing |
| `ShutdownOutcome.ExitsZeroExactlyWhenClean` | src/shutdown.mts:207-229 | the exit is 0 and its reason `drained` exactly when the close succeeded before the deadline and the cleanup settled in its budget; then the deadline never passed |
| `GracefulRun.RunKeepsInv` | src/shutdown.mts:232-263 | over every ordering of traffic, signals, deadline, close and cleanup, the drain and the race that ends it agree, every connection is accounted for, and what the drain closed stays answered |
| `GracefulRun.WhatTheDrainClosedWasAnswered` | src/shutdown.mts:135-150 | over every run, every request received on a connection by the time the drain closed it was answered, written out and read, and still is when the connection is gone |
| `GracefulRun.ExitZeroCutNothing` | src/shutdown.mts:238-263 | an exit of 0 means the deadline's cut never happened, every connection there ever was is gone, and each one the drain closed was answered |
| `GracefulShutdown.Shutdown.constructor` | src/shutdown.mts:118-127 | nothing tracked, not shutting down |
| `GracefulShutdown.Shutdown.Track` | src/shutdown.mts:129-133 | a connection enters the table once |
| `GracefulShutdown.Shutdown.OnRequest` | src/shutdown.mts:152-161 | the connection is busy with the latest request |
| `GracefulShutdown.Shutdown.Done` | src/shutdown.mts:162-166 | lets go, and closes during the drain, only for the latest request |
| `GracefulShutdown.Shutdown.OnFinish` | src/shutdown.mts:167-170 | done at once when the body has arrived, else on its end |
| `GracefulShutdown.Shutdown.OnSocketClose` | src/shutdown.mts:132 | a closed connection leaves the table |
| `GracefulShutdown.Shutdown.Handler` | src/shutdown.mts:232-274 | the first signal arms the deadline and closes exactly the connections nothing was read from; a later one does nothing |
| `GracefulShutdown.Shutdown.Finish` | src/shutdown.mts:204-206 | the first of drain and deadline starts the cleanup, the other does nothing |
| `GracefulShutdown.Shutdown.OnDeadline` | src/shutdown.mts:238-245 | the deadline ends the drain with 1 |
| `GracefulShutdown.Shutdown.OnServerClose` | src/shutdown.mts:250-263 | the close callback disarms the deadline and ends the drain with 0, or 1 when the close failed |
| `GracefulShutdown.Shutdown.Conclude` | src/shutdown.mts:207-229 | exits with the drain's code, or 1 and the cleanup's failure |
| `ClientSecretBasic.EncodesOneByte` | src/oauth/client-secret-basic.mts:35-40 | exactly the unreserved characters go as they are, any other byte as `%` and two capital hexadecimal digits |
| `ClientSecretBasic.EncodesByteByByte` | src/oauth/client-secret-basic.mts:39-40 | byte by byte |
| `ClientSecretBasic.ComponentRoundTrip` | src/oauth/client-secret-basic.mts:31-37 | any bytes form-decode back from their encoding, which holds no `:` |
| `ClientSecretBasic.Base64RoundTrip` | src/oauth/client-secret-basic.mts:40 | any bytes decode back from base64 (section 4 of RFC 4648), padding included |
| `ClientSecretBasic.HeaderRoundTrip` | src/oauth/client-secret-basic.mts:39-40 | for every identifier and secret, decoding, splitting at the first `:` and form-decoding each half gives exactly that pair |
| `ClientSecretBasic.UnencodedPairNeedsNoColon` | src/oauth/client-secret-basic.mts:31-33 | without encoding first, a pair is read back if and only if its identifier holds no `:` |
| `CorsPattern.ScanCharacters` | src/router/cors.mts:93-120 | the index loop, escapes stepped over, reads every character in its mode once |
| `CorsPattern.ScanPattern` | src/router/cors.mts:92-123 | the alternatives are the text cut at each vertical bar outside groups, classes and escapes; each flag is raised if and only if such a character is there |
| `CorsPattern.AlternativesJoin` | src/router/cors.mts:112-121 | for every source the alternatives join back with a vertical bar to it |
| `CorsPattern.SplitsAtTheTopLevel` | src/router/cors.mts:84-90 | for a pattern printed from any syntax tree, the alternatives are exactly the tree's top-level ones |
| `CorsPattern.AnchoredAtBothEnds` | src/router/cors.mts:125-127 | anchored if and only if a `^` is first and a `$` that no backslash escapes is last |
| `CorsPattern.ChecksTheTree` | src/router/cors.mts:142-148 | a pattern passes the anchoring check if and only if each alternative of its tree opens with the node `^` and closes with the node `$` |
| `CorsPattern.FlagsTheTree` | src/router/cors.mts:84-90 | on a pattern printed from any syntax tree, the dot flag is raised if and only if the tree has a literal dot right before a name, and the wildcard flag if and only if it has a quantifier, lazy or not, right before one; escapes and classes never count |
| `AddressRange.ReadsExactlyWhatIsWritten` | src/address-range.mts:35-47 | an entry is read as a range if and only if it is that range's address alone, or its address, a `/` and its prefix in canonical decimal |
| `AddressRange.ZonesAreNoRange` | src/address-range.mts:26-32 | an address with a zone is no range |
| `AddressRange.TrustsAllExactly` | src/modes/injection/request-source.mts:60-68 | an entry is reported if and only if it alone holds every IPv4 address or every IPv6 address |
| `AddressRange.WarnsOfExactlyThose` | src/modes/injection/request-source.mts:70-82 | the entries warned of are exactly those written as such a range |
| `AddressRange.WarnsInOrder` | src/modes/injection/request-source.mts:78-82 | they are named in the order configured |

## Left out

- Sockets, `fetch`, Express, express-http-proxy's own steps, pino and the process entry point: the provider is an event that answers with a token or a failure, Node's events are the events of the state machines, and the library's copy of the headers is written out as its documentation in the source says.
- Log lines, metrics, log levels and error-text sanitising: they decide nothing.
- The token clients' mapping of provider answers to statuses, `Retry-After` and response bodies: a refusal in the protocol is a status (and, for one decided before any call, its error code).
- Parsing of the bearer assertion, of `Referer` and of URLs: what they yield is part of the request.
- Private-key authentication's signing and JWK parsing: a key is the thumbprint, `kid` and algorithm the cache key names it by.
- Validation mode's decision and introspection client: only its cache is modelled.
- CORS middleware and JavaScript regular-expression matching: only the hand-written scanner and the anchoring test are modelled.
- Health check, request-id middleware, body-limit guard, `parseByteSize`, the configuration schema: small members beside the above, or resting on floating-point rounding.
- The text grammar of IP addresses: whether a text is an address, and its value, are parameters; so is the trust list in the hop walk.
- `Injection.TokenProvenance`: two routers sharing a store must match what no key carries (the grant client, the exchange's credential, the cache policy), as the source asks of its callers; an answer's lifetime is by the policy of the router that asked.
- `CacheKey.KeysAreUnambiguous`: collisions of SHA-256 are not modelled.
- `Expiry.CacheExpiresAt`: times are reals, so neither rounding nor `NaN` is modelled; an absent bound stands for the source's infinity.
- `Forwarded.RequestSource`: gives the address alone; the scheme read from `X-Forwarded-Proto` is an input of the gate.
- `ResponseHead.Response.SetUpstreamHeader`: names are kept lower-cased; the casing a name is sent in is not modelled.
- `Upstream.Decorate`: `Content-Length` and `Host`, which the library and Node set after the decorator, and the connection agent are not part of the fields.
- `ExpiringMap.SweepExpired`: a closure of the one cache and a loop in the `set` of the other in the source, one method here; it is given the entries and gives back what is left.
- `CorsPattern.ScanCharacters`: the loop of `scanPattern`, a method of its own here; the last alternative is added after it.
- `ClientSecretBasic.HeaderRoundTrip`: identifier and secret are their UTF-8 bytes; a lone surrogate, on which `encodeURIComponent` throws, is not modelled.
- `GracefulShutdown.Shutdown.Handler`: the signal listeners it removes are not part of the class; `server.close` and `closeAllConnections` act in the world of `Drain`, not in the class.
- `GracefulRun.ExitZeroCutNothing`: says nothing of a connection the caller ended, or that Node's own close took as idle, nor of a request that arrived after the drain had closed its connection.
- Liveness: that a provider answers, a connection closes or a timer fires is not claimed; what follows once it does is.
