# Verified model of oauth2-proxy's session and login core

This project models, in Dafny, the parts of oauth2-proxy whose correctness spans several functions or
several requests, and proves what they promise.

- **Session refresh under a distributed lock.** Many requests share one ticket in Redis. `Sessions`
  describes one request as an automaton over the calls it makes; `RefreshProtocol` runs any number of
  them in every interleaving over a shared clock, store and lock; `RequestLaws` tells from the replies
  alone what a request hands on and clears; `RefreshWrites` tells where every stored session comes from;
  `RefreshLimits` shows where the protocol's assumptions are needed; `StoredSession` is the middleware itself as imperative code over a Redis that
  others change between any two calls, and its executions, placed in any way among the actions of other
  requests, are proved to be runs of the protocol.
- **The cookie session store.** `CookieStore` signs, splits, joins and loads; `CookieLaws` proves the
  round trips, with the exact condition where the code does not meet them.
- **Signing, tickets, OAuth state.** `Base64Url` and `Signing`.
- **Trusted networks.** `NetSets`: the index by prefix length agrees with the plain list.
- **The login flow.** `Csrf` (cookie names, eviction), `LoginFlow` (starts and callbacks of one browser as
  a state machine) and `LoginHandlers` (the two handlers as imperative code, proved equal to the
  machine's steps).
- **Routing and redirects.** `Upstreams` and `Redirects`.

`Text` holds strings, decimal numbers and separators. Code that updates state is modelled by classes and
methods with loops, each proved against a function; the theorems are about those functions.

## Modelling choices

- *The refresh protocol.* The theorems about writes assume what the design relies on, and nothing else: a
  holder calls the provider, saves, or clears a revoked session before its two-second lease ends, and
  no login writes the ticket while its lock is held. Clears, sign-outs and expiry (`Vanish`) happen at any
  moment; any reply may be an error that did or did not take effect; a request may crash anywhere. The lock
  theorems (`MutualExclusion`, `ReleaseSparesOthers`) and the one-request theorems need no assumption.
  `LateHolderLosesUpdate` shows that the lease assumption cannot be dropped: the code
  does not check its lease before it saves. Two refreshes can also come closer together than a period when
  a login between them stores a session that is already old, as a login stamps the creation time before it
  saves (`EarlyLoginBreaksSpacing`); `RefreshesAreSpaced` holds when the last login between them stored a
  session that is not due within a period of the first refresh, and `EarlyLoginIsExact` shows that this is
  the exact condition. A refresh whose ticket cookie stops validating in mid-request is saved under a new
  ticket (`SavedElsewhere`), which leaves this entry as it was. All of it is about the persistent store: the
  cookie store's lock does nothing.
- *One clock.* All requests and Redis read the same clock; steps take any time. Times are nanoseconds.
- *Hash and MAC* are arbitrary functions to numbers cut down to 256 bits; nothing is assumed of them.
- *Bytes.* Byte strings are strings of characters below 256. Lengths are bounded by Go's `int`.
- *Cookies.* The serialised length is name, `=`, value and a constant for the attributes, as signed values
  need no quoting; attributes leave room for a value beside a 256-byte name. A browser jar is a map from
  names. A start may bring any other cookies beside the jar of CSRF cookies, in any order and under any
  names, as long as they are not CSRF cookies this proxy signed. The cookie name has no regular-expression metacharacters in `Clear`.
- *Where the code falls short*, the exact condition is proved: a 256-byte cookie name that ends in `_k` makes
  chunk `k` take the base name (`ChunkNameIsBaseName`, `CookieRoundTrip`); Clear misses chunks whose name
  had to be cut, so with names above 254 bytes a stale chunk can survive it (`ChunkIsMatched`,
  `ClearLeavesNoSession`, `ClearSaveLoad`).
- *Networks.* An address is a sequence of bits in 4- or 16-byte form. Text parsing is Go's; a list entry is
  what `net.ParseIP` and `net.ParseCIDR` make of it. A set is keyed by the 16-byte form, as
  `IP.String` prints both forms of an IPv4 address alike.
- *Redirects.* `url.Parse` is a function parameter. `NoRedirectLoop` takes a proxy prefix that starts with
  a slash and is longer than one, as the default `/oauth2` is.

## Model

| member | source | states |
|---|---|---|
| `Sessions.DueSessionIsOld` | pkg/apis/sessions/session_state.go:106-111 | a session found due, by an age cut down to whole seconds, was created more than a period before every later instant |
| `Sessions.DueFromAWholeSecond` | pkg/middleware/stored_session.go:244-246 | a session is due exactly when refreshing is on, it has a creation time, and some whole second that has come lies more than a period after it |
| `Sessions.AttemptsAreBounded` | pkg/middleware/stored_session.go:161-180 | whatever the clock does, a request makes at most timeout / retry period = 500 attempts at the lock |
| `Sessions.LeaseEndsOnlyByRelease` | pkg/middleware/stored_session.go:182-241 | over any continuation after a successful Obtain, the request has either released or still has that same lease; no exit skips the release |
| `Sessions.HandedSessionsAreChecked` | pkg/middleware/stored_session.go:107-159 | over whole requests, a session handed on was not due at its first check or its re-check, or was unexpired and accepted by a validation that follows a provider call in the trace |
| `Sessions.ClearsExactlyRejected` | pkg/middleware/stored_session.go:234-241 | after a refresh attempt without a fatal error, a request that runs to its end clears the entry if and only if the session had expired or the provider rejected it, hands it on otherwise, and never saves again |
| `RequestLaws.FatalIsRevokes` | pkg/middleware/stored_session.go:42-60 | a wrapped error of the provider or the store is fatal exactly when its own text contains `invalid_grant` or `invalid_client` |
| `RequestLaws.OutcomeIsExact` | pkg/middleware/stored_session.go:107-298 | a request that runs to its end hands on no session if and only if some reply refused it (no ticket, load or lock error, timeout, failed reload, revocation, expiry, rejection); what it hands on is the provider's answer, stamped if it was saved, or else the session last read |
| `RequestLaws.ClearsAreExact` | pkg/middleware/stored_session.go:107-133 | the entry is cleared as revoked if and only if an error named one of the two codes, and after an error if and only if no session is handed on although there was a ticket |
| `RequestLaws.ChecksDecide` | pkg/middleware/stored_session.go:155-159 | after each age check the request goes on to the lock or the provider if and only if the session last read is older than a period, to the whole second |
| `RefreshProtocol.RunKeepsLockInv` | pkg/sessions/redis/lock.go:34-80 | in every state of every run leases are unique and an unexpired lease is the one Redis holds |
| `RefreshProtocol.MutualExclusion` | pkg/middleware/stored_session.go:161-191 | in every interleaving at most one request holds an unexpired lease |
| `RefreshProtocol.ReleaseSparesOthers` | pkg/sessions/redis/lock.go:71-80 | a release, however late, leaves the lock of any other request that is in its lease, and removes its own |
| `RefreshProtocol.CallKeepsStoreInv` | pkg/middleware/stored_session.go:193-283 | every call of every request keeps: an in-lease worker's base is the last write; after a revocation nobody in lease works from a stale copy |
| `RefreshProtocol.RunKeepsInv` | pkg/middleware/stored_session.go:155-283 | the lock, store and history invariants hold in every reachable state |
| `RefreshProtocol.NoLostUpdate` | pkg/middleware/stored_session.go:193-214 | every saved refresh starts from the session of the write just before it, which was due and more than a period older, and every session given to the provider is the one most recently written, with clears at any moment |
| `RefreshProtocol.ReplacedTokensAreNotRedeemed` | pkg/middleware/stored_session.go:250-283 | a refresh token replaced by a later write, and not issued again before the redemption, is not the one redeemed |
| `RefreshWrites.StampedIsGiven` | pkg/middleware/stored_session.go:250-270 | in every run, a session about to be saved is the provider's answer to an earlier call of that request, stamped with the time of that call |
| `RefreshWrites.WritesAreGiven` | pkg/middleware/stored_session.go:250-283 | every refresh written in any run is the provider's answer to a call made for the session it replaces: no token given is dropped |
| `RefreshWrites.NextRefreshRedeemsNewToken` | pkg/middleware/stored_session.go:250-283 | the token redeemed after a saved refresh is the one the provider gave in it |
| `RefreshWrites.ReadsSeeLastWrite` | pkg/sessions/persistence/manager.go:57-69 | whatever session a request reads is the one most recently written |
| `RefreshWrites.WritesGrow` | pkg/sessions/persistence/manager.go:32-53 | a step writes at most one session: what a request was about to save, exactly when the save reached the entry, or a login's session, stamped if it had no creation time |
| `RefreshWrites.StoredSessionsHaveTimes` | pkg/sessions/persistence/manager.go:32-36 | every session ever stored has a creation time |
| `RefreshProtocol.RefreshesAreSpaced` | pkg/middleware/stored_session.go:210-214 | the creation times of any two saved refreshes are more than a refresh period apart, unless the last login between them stored a session due within a period of the first |
| `RefreshProtocol.LaterLoginIsNotEarly` | oauthproxy.go:992-995 | logins whose sessions are not created before the first refresh never spoil the spacing |
| `RefreshProtocol.RevokedSessionsStayGone` | pkg/middleware/stored_session.go:218-233 | after a fatal error whose clear succeeded, the entry is gone in every later state until a login |
| `RefreshProtocol.FailedRefreshLeavesStore` | pkg/middleware/stored_session.go:216-241 | in every interleaving, after a provider call that neither refreshes nor fails fatally, nothing is written while the request is in its lease, and the entry is unchanged or was removed by a sign-out, its expiry or another request's clear |
| `RefreshLimits.LateHolderLosesUpdate` | pkg/middleware/stored_session.go:216-283 | a concrete run, outside the lease assumption, in which two refreshes start from the same session |
| `RefreshLimits.EarlyLoginBreaksSpacing` | oauthproxy.go:985-995 | a concrete run, within the assumptions, with two refreshes two seconds apart for a period of ten, after a login that stored an old session |
| `RefreshLimits.EarlyLoginIsExact` | pkg/middleware/stored_session.go:210-214 | from any state after a login, some continuation refreshes within a period of an earlier refresh if and only if the login's session is due by then |
| `StoredSession.CallIsProtocolStep` | pkg/middleware/stored_session.go:155-283 | every call the loader makes is a step of the protocol in any agreeing global state, and touches no other request |
| `StoredSession.ExecutionsAreRuns` | pkg/middleware/stored_session.go:107-283 | the calls of an execution, at their places among any actions of other requests in agreeing states, form a run of the protocol with the effects and the final phase of the execution |
| `StoredSession.ReplayIsTrace` | pkg/middleware/stored_session.go:107-150 | the calls of every execution form a trace of the automaton |
| `StoredSession.ExecutionsAreSafe` | pkg/middleware/stored_session.go:107-159 | every execution that hands on a session made at most 500 attempts, and the session was not due, or was unexpired and validated after the refresh attempt |
| `StoredSession.ExecutionOutcome` | pkg/middleware/stored_session.go:107-298 | the exact outcome law for executions of the imperative loader |
| `StoredSession.Lock.Obtain` | pkg/sessions/redis/lock.go:34-44 | an atomic set-if-absent with an expiry and a token from a counter that others advance too and that never goes back, so not used before; the lock object remembers the token only when it obtained |
| `StoredSession.Lock.Release` | pkg/sessions/redis/lock.go:71-80 | deletes the key only if it still holds this lock's token |
| `StoredSession.Redis.Load` | pkg/sessions/redis/redis_store.go:50-59 | returns the stored session as it was when the call was served; a missing entry is an error |
| `StoredSession.Redis.Save` | pkg/sessions/persistence/manager.go:32-53 | the whole new state: the entry is the session, unless the save failed without effect or went under a new ticket |
| `StoredSession.Redis.Clear` | pkg/sessions/persistence/manager.go:73-93 | the entry is gone exactly when the deletion took effect |
| `StoredSession.Attempt` | pkg/middleware/stored_session.go:161-180 | one turn of the loop follows the automaton: timeout checked first, then one attempt |
| `StoredSession.ObtainLock` | pkg/middleware/stored_session.go:161-180 | the loop terminates with the lock or by the timeout; a lone waiter behind a crashed holder obtains the lock |
| `StoredSession.RefreshSession` | pkg/middleware/stored_session.go:250-283 | provider, stamp and save happen in the automaton's order with its effects, which `RefreshWrites.WritesAreGiven` ties to the provider's answer; the error message decides what follows |
| `StoredSession.ValidateSession` | pkg/middleware/stored_session.go:288-298 | accepts exactly an unexpired session the provider validates |
| `StoredSession.Restore` | pkg/middleware/stored_session.go:193-208 | the session is overwritten by the reloaded one and keeps its lock object |
| `StoredSession.RefreshUnderLock` | pkg/middleware/stored_session.go:193-241 | on every path the request still has its lease and its lock object when the deferred release is due |
| `StoredSession.RefreshSessionIfNeeded` | pkg/middleware/stored_session.go:155-241 | whichever way it leaves, the lock released is the one obtained |
| `StoredSession.LoadSession` | pkg/middleware/stored_session.go:107-150 | the whole request follows the automaton to its end and hands on exactly the session of that end |
| `Base64Url.RoundTrip` | pkg/encryption/utils.go:45-84 | base64url decoding undoes encoding for all bytes, padded or not (section 5 of RFC 4648) |
| `Base64Url.EncodedAlphabet` | pkg/encryption/utils.go:75-84 | encoded text contains none of the separators the proxy uses |
| `Base64Url.DecodedReencodes` | pkg/encryption/utils.go:128-137 | whatever decodes is the encoding of what it decodes to, but for spare bits of the last character: no other text is accepted |
| `Signing.ValidateSigned` | pkg/encryption/utils.go:45-84 | a signed value validates exactly when expiration is 0 or its second lies between now - expiration and now + 5 min, and then gives back the exact bytes and second |
| `Signing.ValidateIsExact` | pkg/encryption/utils.go:45-72 | of all cookie values exactly those are accepted that are three parts of which the third spells out the MAC of name, value and time, with a time in the window; the value returned is the one they encode |
| `Signing.SignatureDecodes` | pkg/encryption/utils.go:107-118 | the signature is the MAC over name, value and time, one after the other |
| `Signing.DigestInjective` | pkg/encryption/utils.go:107-118 | a digest loses nothing of a MAC that fits its length |
| `Text.AtoiIsExact` | pkg/encryption/utils.go:56-59 | a time is accepted exactly when it is digits after an optional sign, in range |
| `Signing.DecodeEncodedTicket` | pkg/sessions/persistence/ticket.go:69-137 | decoding undoes encoding for every id, dots included, and every secret |
| `Signing.DecodeLegacyTicket` | pkg/sessions/persistence/ticket.go:77-116 | a two-part ticket keeps its plain id |
| `Signing.DecodeTicketIsExact` | pkg/sessions/persistence/ticket.go:77-137 | of all strings exactly the two-part and the "v2" three-part ones whose encoded parts decode are tickets, of the ticket they spell out |
| `Signing.TicketCookieRoundTrip` | pkg/sessions/persistence/ticket.go:141-160 | a ticket cookie names its ticket for exactly as long as its signature is in the window |
| `Text.CutIsExact` | oauthproxy.go:1297-1303 | a state is cut exactly at its first colon, and is refused exactly when it has none |
| `Signing.DecodeEncodedState` | oauthproxy.go:1282-1304 | the state comes back as its nonce and redirect, in both modes, colons in the redirect included |
| `CookieStore.SplitCookieNameInjective` | pkg/sessions/cookie/session_store.go:216-223 | chunk names tell indices apart, even under truncation at 256 |
| `CookieStore.ChunkNameIsBaseName` | pkg/sessions/cookie/session_store.go:216-223 | exactly when a chunk name is the base name |
| `CookieStore.SplitCookie` | pkg/sessions/cookie/session_store.go:184-214 | the loop terminates and computes the chunks |
| `CookieStore.ChunksShape` | pkg/sessions/cookie/session_store.go:184-214 | chunks are non-empty, consecutively named, put together give the value, and all but the last serialise to exactly 4000 bytes |
| `CookieStore.MakeSessionCookie` | pkg/sessions/cookie/session_store.go:132-160 | one cookie, or the chunks when that is too long; an empty value is not signed |
| `CookieStore.SessionCookiesFit` | pkg/sessions/cookie/session_store.go:155-160 | a value gives two or more cookies exactly when it is split; every cookie fits; nothing is lost |
| `CookieStore.JoinCookies` | pkg/sessions/cookie/session_store.go:252-265 | the values in order, under the base name unless there is a single cookie |
| `CookieStore.LoadCookie` | pkg/sessions/cookie/session_store.go:228-248 | the count loop terminates and stops exactly at the first missing chunk, whatever the order of the cookies |
| `CookieLaws.CookieRoundTrip` | pkg/sessions/cookie/session_store.go:132-265 | the cookies made, sent back in any order, load as the original name and value if and only if they were not split or no chunk took the base name |
| `CookieLaws.Clear` | pkg/sessions/cookie/session_store.go:73-96 | expires exactly the request's cookies named like the base name or a chunk of it |
| `CookieLaws.ChunkIsMatched` | pkg/sessions/cookie/session_store.go:73-96 | Clear reaches a chunk if and only if its name was not cut or is the base name |
| `CookieLaws.ClearLeavesNoSession` | pkg/sessions/cookie/session_store.go:73-96 | Clear leaves nothing loadable in any jar if and only if the name has at most 254 bytes or chunk 0 is the base name |
| `CookieLaws.ClearTakesOnlySession` | pkg/sessions/cookie/session_store.go:73-96 | Clear takes the base name and the base name with an underscore and a number, and leaves every other cookie as it is |
| `CookieLaws.ClearKeepsCsrf` | pkg/cookies/csrf.go:290-295 | Clear keeps every CSRF cookie |
| `CookieLaws.ClearSaveLoad` | pkg/sessions/cookie/session_store.go:73-265 | Clear, Save, Load gives the saved cookie from every prior jar if and only if it is one cookie, or no chunk takes the base name and Clear reaches the chunk after the last |
| `CookieLaws.SessionRoundTrip` | pkg/sessions/cookie/session_store.go:38-71 | signing, splitting, clearing, storing, loading and validating gives back the session bytes for as long as the signature is in the window |
| `NetSets.MaskClears` | pkg/ip/net_set.go:98-112 | masking never fails on an address of the map's family, so the panic is unreachable, and clears exactly the bits after the prefix |
| `NetSets.MaskedIsNetwork` | pkg/ip/net_set.go:98-112 | the masked address is the stored key exactly when address and network agree on the prefix, in whichever forms |
| `NetSets.OnesDetermineMask` | pkg/ip/net_set.go:45-75 | within a family, the number of ones determines the mask: 4-byte and IPv4-mapped masks never clash |
| `NetSets.ParseIPNetMeaning` | pkg/ip/parse_ip_net.go:9-40 | accepts exactly the well-formed entries without host bits and returns the network they denote |
| `NetSets.NetSet.constructor` | pkg/ip/net_set.go:24-29 | an empty valid set |
| `NetSets.NetSet.Has` | pkg/ip/net_set.go:32-42 | true exactly when some network of the address's family in the set contains it |
| `NetSets.NetSet.AddIPNet` | pkg/ip/net_set.go:45-75 | keeps one map per prefix length, adds exactly the network's addresses to its family and nothing to the other, and calls itself at most once |
| `NetSets.ParseNetSet` | pkg/ip/parse_ip_net.go:42-55 | succeeds exactly when every entry is good, and then membership is "some entry contains the address", whatever the order or duplicates |
| `NetSets.DefaultListContainsAll` | oauthproxy.go:401-409 | the default trusted list parses and contains every address |
| `Csrf.HashNonceShape` | pkg/encryption/nonce.go:21-31 | a hash has 43 characters and no colon, so it can head the state |
| `Csrf.HashNonceIsHash` | pkg/encryption/nonce.go:21-31 | a hash spells out the SHA-256 digest of the nonce |
| `Csrf.CallbackFindsName` | pkg/cookies/csrf.go:97-105 | the cookie name computed from the reflected state is the one the start set |
| `Csrf.ClearExtraCsrfCookies` | pkg/cookies/csrf.go:172-210 | the loops compute the eviction the laws below are about |
| `Csrf.SortByTimeSorts` | pkg/cookies/csrf.go:203-205 | the sort is ordered by time and a permutation |
| `Csrf.EvictionLeavesNewest` | pkg/cookies/csrf.go:172-226 | whatever other cookies the request carries, exactly min(decodable, limit) decodable cookies are left, none older than a cleared one |
| `Csrf.NothingIsEvicted` | pkg/cookies/csrf.go:172-175 | without per-request cookies or without a positive limit nothing is evicted |
| `LoginFlow.StartKeepsInv` | oauthproxy.go:825-881 | a start keeps the jar and save invariants |
| `LoginFlow.StartShape` | oauthproxy.go:825-881 | with a known challenge method a start evicts, sets its cookie and sends a challenge its verifier answers and a state that names its nonce; with another it does nothing |
| `LoginFlow.CallbackKeepsInv` | oauthproxy.go:885-977 | a callback keeps them, although it clears the cookie before comparing the state |
| `LoginFlow.CallbackIsExact` | oauthproxy.go:885-977 | a callback that redeems its code uses up the cookie whatever follows, and saves a session if and only if the state is the hash of the cookie's nonce and every check passes; one that does not redeem changes nothing |
| `LoginFlow.SavedSessionsAreBound` | oauthproxy.go:885-1000 | in every interleaving a session is saved only if the state spells out the hash of the nonce in the loaded cookie, the code was redeemed with a verifier that answers the challenge the same start sent (section 4.6 of RFC 7636), all checks passed, and the redirect is valid or "/" |
| `LoginFlow.OneSessionPerStart` | oauthproxy.go:940-946 | each start yields at most one saved session |
| `LoginFlow.JarIsBounded` | pkg/cookies/csrf.go:172-210 | over any run the browser holds at most limit + 1 decodable CSRF cookies |
| `LoginFlow.NameFollowsState` | pkg/cookies/csrf.go:97-105 | a reflected state asks for a flow's cookie exactly when it starts with the flow's eight characters |
| `LoginFlow.NamesFollowPrefixes` | pkg/cookies/csrf.go:282-305 | two flows share a cookie exactly when their hashes share eight characters |
| `LoginFlow.PendingCookieSurvives` | pkg/cookies/csrf.go:77-105 | steps of other flows leave a pending cookie alone |
| `LoginFlow.CallbackCompletes` | oauthproxy.go:885-977 | a callback with a pending start's state whose checks pass saves a session bound to that start |
| `LoginFlow.PendingFlowCompletes` | oauthproxy.go:825-1000 | whatever other flows do in between, short of taking or evicting its cookie, a started login ends in its own session |
| `LoginFlow.EvictionNeedsNewer` | pkg/cookies/csrf.go:172-210 | a cookie is evicted only when at least `limit` other decodable ones are no older |
| `LoginFlow.PendingFlowSurvives` | oauthproxy.go:825-1000 | with per-request cookies a started login ends in its own session if no other start or callback shares its prefix and, where there is a limit, at each start fewer than `limit` other decodable cookies are no older |
| `LoginHandlers.Browser.DoOAuthStart` | oauthproxy.go:825-881 | the handler, step by step, makes exactly the start step of the machine |
| `LoginHandlers.Browser.HandleCallback` | oauthproxy.go:885-977 | the handler, with its early exits, makes exactly the callback step, and redirects exactly when it saved |
| `LoginHandlers.LoginReturnsToChosenRedirect` | oauthproxy.go:860-873 | an undisturbed login ends at the very redirect chosen for the request that started it |
| `Upstreams.LessIsStrictWeakOrder` | pkg/upstream/proxy.go:161-183 | the comparison meets what the library sort requires |
| `Upstreams.SortByPathLongest` | pkg/upstream/proxy.go:161-183 | in place: a permutation with no upstream before a lesser one |
| `Upstreams.ServedIsLeast` | pkg/upstream/proxy.go:26-66 | for any arrangement an unstable sort may leave, the upstream served matches and no match is less |
| `Upstreams.MatchesIsCanServe` | pkg/upstream/proxy.go:107-113 | a plain upstream matches exactly its own path, and what its path starts if that ends in a slash |
| `Upstreams.LongestMatchIsServed` | pkg/upstream/proxy.go:107-113 | with unique paths and no matching rewrite, an upstream is served if and only if its path covers the request's and no longer one does |
| `Upstreams.RewritesGoFirst` | pkg/upstream/proxy.go:119-131 | a matching rewrite with the longest pattern wins over every plain path |
| `Upstreams.SlashRedirects` | pkg/upstream/proxy.go:137-153 | an upstream serves exactly when one can; the trailing-slash redirect is sent exactly when none can serve p but one can serve p + "/"; the self-match terminates |
| `Redirects.RelativeIffSafe` | pkg/app/redirect/validator.go:13-50 | of all strings the pattern accepts exactly those that start with a slash, have no two adjacent slashes once whitespace is deleted and backslashes are turned, and have no dot segment |
| `Redirects.ValidIsExact` | pkg/app/redirect/validator.go:41-66 | of all strings exactly the safe paths are valid, and the http or https URLs whose host and port an entry of the list permits; with an empty list the safe paths only |
| `Redirects.EntryAllowsIsPermits` | pkg/util/util.go:108-167 | an entry allows exactly what its text says: the host rule, and a star or the endpoint's own port |
| `Redirects.PortsOfEntries` | pkg/util/util.go:143-167 | an entry with a port allows that port only, with a star any port, without a port the scheme's own |
| `Redirects.HostnameAllowedIsHostRule` | pkg/util/util.go:169-183 | a leading dot or star-dot stands for the domain and its subdomains, anything else for one host |
| `Redirects.PlainEntryAllowsOneHost` | pkg/util/util.go:169-183 | an entry without a leading dot or star allows that host only |
| `Redirects.WildcardEntriesAgree` | pkg/util/util.go:169-183 | `.d` and `*.d` allow the same hosts: d itself and hosts that end in `.d`, so only at a label boundary |
| `Redirects.WildcardEndpointsAgree` | pkg/util/util.go:108-167 | the same with ports, through the host and port splitter |
| `Redirects.IsEndpointAllowed` | pkg/util/util.go:143-167 | the scan finds an allowing entry if and only if there is one |
| `Redirects.Director.FirstValidIs` | pkg/app/redirect/director.go:53-75 | the scan gives the first valid candidate or "/" |
| `Redirects.Director.ChosenRedirectIsValid` | pkg/app/redirect/director.go:53-88 | without a parse error the chosen redirect is a safe path or an allowed URL; a valid `rd`, or else a valid header, is the one chosen |
| `Redirects.Director.GoesBackWhereItCameFrom` | pkg/app/redirect/getters.go:32-73 | a request that names no valid redirect goes back to the forwarded host and path if that is allowed, or else to its own path, with the root in place of the proxy's own endpoints |
| `Redirects.Director.UntrustedHeadersAreIgnored` | pkg/requests/util/util.go:19-93 | forwarded headers of an untrusted request make no difference |
| `Redirects.Director.NoRedirectLoop` | pkg/app/redirect/getters.go:32-73 | unless the request names a valid redirect itself, the choice is never one of the proxy's own endpoints: neither a path under the prefix nor, from forwarded headers, a URL whose part after the host is |

## Left out

- The lock's `Refresh` and `Peek`: the refresh path does not use them.
- AES, HMAC, SHA-256, msgpack and lz4: library code; hash and MAC are arbitrary functions and session bytes are opaque.
- Provider clients, OIDC discovery and JWT verification: a provider is an oracle that may refresh, not refresh, not implement refreshing, or fail.
- A sign-out or a login during a refresh: a login is excluded by assumption, and nothing is claimed about a sign-out taking effect while a refresh is under way.
- Redis itself, its cluster and sentinel modes: commands are atomic and leases expire on one shared clock.
- Several tickets at once: they share neither entries nor locks, so the protocol is about one.
- Saving over a session without Clear, when one is a single cookie and the other is split: leftover chunks are outside the round-trip claims.
- Regular expressions of rewrites and the insides of the router: a rewrite matches as an arbitrary predicate says, plain paths match exactly or by prefix; raw-path mode is off.
- `url.Parse`, address text parsing, form parsing and cookie header parsing: their results are parameters.
- Random generation of nonces, verifiers and ticket ids: parameters of a start; a clash of eight-character prefixes is covered, not excluded.
- Errors of a start before its cookie is set, other than an unknown challenge method: they change nothing.
- Options, flag loading, validation other than the two rules cited, page writers, logging, metrics, health checks and servers.
- Upstreams.SortByPathLongest: shows one outcome the library sort can have, by insertion; the theorems are for every outcome.
- LoginFlow.SavedSessionsAreBound: the browser's cookies are those this proxy set under the same options; forged cookies are not modelled, as the MAC is arbitrary.
