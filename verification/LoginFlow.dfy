/** Starts and callbacks of logins in one browser, interleaved in any way (oauthproxy.go:825-1000,
    sections 4.1 and 10.12 of RFC 6749, sections 4.1, 4.2 and 4.6 of RFC 7636). Each request and its
    response is one step. */
module LoginFlow {
  import opened Text
  import opened Signing
  import opened Csrf

  /** `validRedirect` is the redirect validator. */
  datatype Config = Config(opts: Options, sha: Sha256, encodeState: bool, challengeMethod: string,
                           validRedirect: string -> bool)

  /** `GenerateCodeChallenge`; None for an unknown method. */
  function GenerateCodeChallenge(sha: Sha256, method_: string, codeVerifier: string): Option<string> {
    if method_ == "plain" then Some(codeVerifier)
    else if method_ == "S256" then Some(HashNonce(sha, codeVerifier))
    else None
  }

  /** What a start sent to the provider, and the nonces it keeps in its cookie. */
  datatype Start = Start(csrf: Csrf, challenge: Option<string>, state: string)

  /** What the provider and the proxy's own checks answer during a callback. */
  datatype Answers = Answers(redeemed: bool, enriched: bool, validated: bool, authorized: bool,
                             emailAllowed: bool, stored: bool)

  function AllPassed(): Answers {
    Answers(true, true, true, true, true, true)
  }

  /** A session saved: from which start's cookie, for which reflected nonce, redeemed with what. */
  datatype Saved = Saved(start: nat, nonce: string, code: string, codeVerifier: string, oidcNonce: string,
                         answers: Answers, redirect: string)

  datatype State = State(now: int, jar: Jar, starts: seq<Start>, saves: seq<Saved>)

  datatype Action =
    | Wait(elapsed: nat)
    | Begin(csrf: Csrf, redirect: string, req: seq<Sent>)
    | Callback(error: string, state: string, code: string, answers: Answers)

  /** The jar after a start: some cookies evicted, the new one set. */
  ghost function JarAfterStart(cfg: Config, s: State, csrf: Csrf, req: seq<Sent>): Jar {
    (s.jar - EvictedNames(cfg.opts, cfg.sha, req, s.now))
      [CookieName(cfg.opts, cfg.sha, csrf) := Held(csrf, Unix(s.now), |s.starts|)]
  }

  /** The state parameter of the login URL. */
  function StateSent(cfg: Config, csrf: Csrf, redirect: string): string
    requires IsBytes(redirect)
  {
    HashNonceShape(cfg.sha, csrf.oauthState);
    EncodeState(HashNonce(cfg.sha, csrf.oauthState), redirect, cfg.encodeState)
  }

  /** `doOAuthStart`: evict, then set the new cookie. Nothing happens for an unknown challenge method. */
  ghost function OAuthStart(cfg: Config, s: State, csrf: Csrf, redirect: string, req: seq<Sent>): State
    requires IsBytes(redirect)
  {
    var challenge := GenerateCodeChallenge(cfg.sha, cfg.challengeMethod, csrf.codeVerifier);
    if cfg.challengeMethod != "" && challenge.None? then s
    else
      var state := StateSent(cfg, csrf, redirect);
      s.(jar := JarAfterStart(cfg, s, csrf, req),
         starts := s.starts + [Start(csrf, if cfg.challengeMethod == "" then None else challenge, state)])
  }

  /** `OAuthCallback`. The CSRF cookie is cleared once the code has been redeemed, before the state is
      compared with it. */
  function OAuthCallback(cfg: Config, s: State, error: string, state: string, code: string, answers: Answers): State {
    if error != "" then s
    else match DecodeState(state, cfg.encodeState)
      case None => s
      case Some((nonce, appRedirect)) =>
        var name := GenerateCookieName(cfg.opts, nonce);
        if name !in s.jar || !Decodable(cfg.opts, s.jar[name], s.now) then s
        else if code == "" || !answers.redeemed || !answers.enriched then s
        else
          var held := s.jar[name];
          var cleared := s.(jar := s.jar - {CookieName(cfg.opts, cfg.sha, held.csrf)});
          if HashNonce(cfg.sha, held.csrf.oauthState) != nonce || !answers.validated then cleared
          else if !(answers.emailAllowed && answers.authorized && answers.stored) then cleared
          else
            var redirect := if cfg.validRedirect(appRedirect) then appRedirect else "/";
            cleared.(saves := s.saves + [Saved(held.start, nonce, code, held.csrf.codeVerifier, held.csrf.oidcNonce,
                                              answers, redirect)])
  }

  ghost predicate Enabled(cfg: Config, s: State, a: Action) {
    a.Begin? ==> IsBytes(a.redirect) && Sends(a.req, s.jar) && (cfg.challengeMethod == "" ==> a.csrf.codeVerifier == "")
  }

  ghost function Apply(cfg: Config, s: State, a: Action): State
    requires Enabled(cfg, s, a)
  {
    match a
    case Wait(elapsed) => s.(now := s.now + elapsed)
    case Begin(csrf, redirect, req) => OAuthStart(cfg, s, csrf, redirect, req)
    case Callback(error, state, code, answers) => OAuthCallback(cfg, s, error, state, code, answers)
  }

  ghost predicate Run(cfg: Config, states: seq<State>, actions: seq<Action>) {
    && |states| == |actions| + 1
    && states[0].jar == map[] && states[0].starts == [] && states[0].saves == []
    && forall i :: 0 <= i < |actions| ==>
                 Enabled(cfg, states[i], actions[i]) && states[i + 1] == Apply(cfg, states[i], actions[i])
  }

  // ----- invariants -----

  /** The cookie was signed by now. */
  predicate SignedBy(held: Held, now: int) {
    held.unix * SECOND <= now
  }

  /** The cookie is the one its start set. */
  predicate Recorded(starts: seq<Start>, held: Held) {
    held.start < |starts| && starts[held.start].csrf == held.csrf
  }

  predicate DistinctStarts(jar: Jar) {
    forall m, n :: m in jar && n in jar && m != n ==> jar[m].start != jar[n].start
  }

  /** No saved session came from the start of a cookie that is still there. */
  predicate Unused(jar: Jar, saves: seq<Saved>) {
    forall n, k :: n in jar && 0 <= k < |saves| ==> saves[k].start != jar[n].start
  }

  ghost predicate JarInv(cfg: Config, s: State) {
    && OwnJar(cfg.opts, cfg.sha, s.jar)
    && (forall n :: n in s.jar ==> SignedBy(s.jar[n], s.now))
    && (forall n :: n in s.jar ==> Recorded(s.starts, s.jar[n]))
    && DistinctStarts(s.jar)
    && Unused(s.jar, s.saves)
  }

  /** The challenge methods a start can be made with. */
  predicate KnownMethod(cfg: Config) {
    cfg.challengeMethod in {"", "plain", "S256"}
  }

  /** The check a provider makes when a code is redeemed (section 4.6 of RFC 7636): the challenge is the
      verifier itself, or spells out its digest; without a method there is no challenge. */
  predicate Verifies(sha: Sha256, challengeMethod: string, challenge: Option<string>, verifier: string) {
    && (challengeMethod == "" ==> challenge == None)
    && (challengeMethod == "plain" ==> challenge == Some(verifier))
    && (challengeMethod == "S256" ==> challenge.Some? && IsHashOf(sha, challenge.value, verifier))
  }

  /** The challenge a start sent is one its verifier answers, and its state names its nonce. */
  predicate StartHolds(cfg: Config, st: Start) {
    && KnownMethod(cfg) && Verifies(cfg.sha, cfg.challengeMethod, st.challenge, st.csrf.codeVerifier)
    && var d := DecodeState(st.state, cfg.encodeState);
    d.Some? && IsHashOf(cfg.sha, d.value.0, st.csrf.oauthState)
  }

  /** What a saved session is bound to. */
  predicate SavedHolds(cfg: Config, starts: seq<Start>, r: Saved) {
    && r.start < |starts|
    && r.nonce == HashNonce(cfg.sha, starts[r.start].csrf.oauthState)
    && IsHashOf(cfg.sha, r.nonce, starts[r.start].csrf.oauthState)
    && r.codeVerifier == starts[r.start].csrf.codeVerifier && r.oidcNonce == starts[r.start].csrf.oidcNonce
    && r.code != ""
    && r.answers == AllPassed()
    && (cfg.validRedirect(r.redirect) || r.redirect == "/")
  }

  ghost predicate SavesInv(cfg: Config, s: State) {
    && (forall i :: 0 <= i < |s.starts| ==> StartHolds(cfg, s.starts[i]))
    && (forall k :: 0 <= k < |s.saves| ==> SavedHolds(cfg, s.starts, s.saves[k]))
    && (forall j, k :: 0 <= j < k < |s.saves| ==> s.saves[j].start != s.saves[k].start)
  }

  /** With a known method a start evicts, sets its cookie and is recorded; with another it does nothing. */
  lemma StartShape(cfg: Config, s: State, csrf: Csrf, redirect: string, req: seq<Sent>)
    requires IsBytes(redirect)
    ensures var t := OAuthStart(cfg, s, csrf, redirect, req);
            if KnownMethod(cfg)
            then t.now == s.now && t.saves == s.saves && t.jar == JarAfterStart(cfg, s, csrf, req)
                 && |t.starts| == |s.starts| + 1 && t.starts[..|s.starts|] == s.starts
                 && t.starts[|s.starts|].csrf == csrf && StartHolds(cfg, t.starts[|s.starts|])
                 && t.starts[|s.starts|].state == StateSent(cfg, csrf, redirect)
            else t == s
  {
    HashNonceShape(cfg.sha, csrf.oauthState);
    HashNonceIsHash(cfg.sha, csrf.oauthState);
    HashNonceIsHash(cfg.sha, csrf.codeVerifier);
    DecodeEncodedState(HashNonce(cfg.sha, csrf.oauthState), redirect, cfg.encodeState);
    hide HashNonce, EncodeState, DecodeState, IsHashOf, JarAfterStart;
  }

  /** A callback does nothing, or clears the cookie it loaded and saves at most one session, bound to
      the start that set that cookie. */
  lemma CallbackShape(cfg: Config, s: State, error: string, state: string, code: string, answers: Answers)
    returns (name: string)
    requires JarInv(cfg, s)
    ensures var t := OAuthCallback(cfg, s, error, state, code, answers);
            t == s || (name in s.jar && t.now == s.now && t.starts == s.starts && t.jar == s.jar - {name}
                       && (t.saves == s.saves
                           || (|t.saves| == |s.saves| + 1 && t.saves[..|s.saves|] == s.saves
                               && t.saves[|s.saves|].start == s.jar[name].start
                               && SavedHolds(cfg, s.starts, t.saves[|s.saves|]))))
    ensures var d := DecodeState(state, cfg.encodeState);
            OAuthCallback(cfg, s, error, state, code, answers) == s
            || (d.Some? && name == GenerateCookieName(cfg.opts, d.value.0))
  {
    hide CookieName, GenerateCookieName, DecodeState, HashNonce, GenerateCodeChallenge, IsHashOf;
    var d := DecodeState(state, cfg.encodeState);
    name := if d.Some? then GenerateCookieName(cfg.opts, d.value.0) else "";
    if name in s.jar {
      HashNonceIsHash(cfg.sha, s.jar[name].csrf.oauthState);
    }
  }

  lemma SignedNow(csrf: Csrf, now: int, start: nat)
    ensures SignedBy(Held(csrf, Unix(now), start), now)
  {
  }

  lemma StartKeepsJarInv(cfg: Config, s: State, t: State, csrf: Csrf, req: seq<Sent>)
    requires JarInv(cfg, s) && t.jar == JarAfterStart(cfg, s, csrf, req) && t.now == s.now && t.saves == s.saves
    requires forall k :: 0 <= k < |s.saves| ==> s.saves[k].start < |s.starts|
    requires |t.starts| == |s.starts| + 1 && t.starts[..|s.starts|] == s.starts && t.starts[|s.starts|].csrf == csrf
    ensures JarInv(cfg, t)
  {
    hide CookieName, EvictedNames, SignedBy, Unix;
    var name, held := CookieName(cfg.opts, cfg.sha, csrf), Held(csrf, Unix(s.now), |s.starts|);
    SignedNow(csrf, s.now, |s.starts|);
    assert forall n :: n in t.jar && n != name ==> n in s.jar && t.jar[n] == s.jar[n];
    assert t.jar[name] == held;
    hide JarAfterStart;
    AppendKeepsRecords(s.starts, t.starts, s.jar);
    assert DistinctStarts(t.jar);
    assert Unused(t.jar, t.saves);
  }

  lemma AppendKeepsRecords(starts: seq<Start>, more: seq<Start>, jar: Jar)
    requires |starts| <= |more| && more[..|starts|] == starts && forall n :: n in jar ==> Recorded(starts, jar[n])
    ensures forall n :: n in jar ==> Recorded(more, jar[n]) && jar[n].start < |starts|
  {
    assert forall i :: 0 <= i < |starts| ==> more[i] == more[..|starts|][i];
  }

  lemma StartKeepsInv(cfg: Config, s: State, csrf: Csrf, redirect: string, req: seq<Sent>)
    requires JarInv(cfg, s) && SavesInv(cfg, s) && IsBytes(redirect)
    ensures JarInv(cfg, OAuthStart(cfg, s, csrf, redirect, req))
            && SavesInv(cfg, OAuthStart(cfg, s, csrf, redirect, req))
  {
    hide OAuthStart, JarAfterStart, StartHolds, GenerateCodeChallenge, HashNonce;
    var t := OAuthStart(cfg, s, csrf, redirect, req);
    StartShape(cfg, s, csrf, redirect, req);
    if t != s {
      assert forall k :: 0 <= k < |s.saves| ==> SavedHolds(cfg, s.starts, s.saves[k]);
      StartKeepsJarInv(cfg, s, t, csrf, req);
      hide JarInv;
      assert forall i :: 0 <= i < |s.starts| ==> t.starts[i] == t.starts[..|s.starts|][i];
    }
  }

  lemma CallbackKeepsInv(cfg: Config, s: State, error: string, state: string, code: string, answers: Answers)
    requires JarInv(cfg, s) && SavesInv(cfg, s)
    ensures JarInv(cfg, OAuthCallback(cfg, s, error, state, code, answers))
    ensures SavesInv(cfg, OAuthCallback(cfg, s, error, state, code, answers))
  {
    hide OAuthCallback, SavedHolds, StartHolds, CookieName, SignedBy;
    var t := OAuthCallback(cfg, s, error, state, code, answers);
    var name := CallbackShape(cfg, s, error, state, code, answers);
    if t != s {
      RemovalKeepsJarInv(cfg, s, t, name);
      hide JarInv;
      if t.saves != s.saves {
        assert forall k :: 0 <= k < |s.saves| ==> t.saves[k] == t.saves[..|s.saves|][k] == s.saves[k];
      }
    }
  }

  lemma RemovalKeepsJarInv(cfg: Config, s: State, t: State, name: string)
    requires JarInv(cfg, s) && name in s.jar && t.now == s.now && t.starts == s.starts && t.jar == s.jar - {name}
    requires t.saves == s.saves
             || (|t.saves| == |s.saves| + 1 && t.saves[..|s.saves|] == s.saves
                 && t.saves[|s.saves|].start == s.jar[name].start)
    ensures JarInv(cfg, t)
    ensures forall k :: 0 <= k < |s.saves| ==> s.saves[k].start != s.jar[name].start
  {
    hide CookieName, SignedBy, Recorded;
    assert forall n :: n in t.jar ==> n in s.jar && n != name && t.jar[n] == s.jar[n];
    if t.saves != s.saves {
      assert forall k :: 0 <= k < |s.saves| ==> t.saves[k] == t.saves[..|s.saves|][k] == s.saves[k];
    }
    assert DistinctStarts(t.jar);
    assert Unused(t.jar, t.saves);
  }

  lemma {:induction false} RunKeepsInv(cfg: Config, states: seq<State>, actions: seq<Action>, i: nat)
    requires Run(cfg, states, actions) && i < |states|
    ensures JarInv(cfg, states[i]) && SavesInv(cfg, states[i])
  {
    hide CookieName, OAuthStart, OAuthCallback;
    if i > 0 {
      hide OwnJar, DistinctStarts, Unused, Recorded, SavedHolds, StartHolds;
      RunKeepsInv(cfg, states, actions, i - 1);
      match actions[i - 1]
      case Wait(_) =>
      case Begin(csrf, redirect, req) => StartKeepsInv(cfg, states[i - 1], csrf, redirect, req);
      case Callback(error, state, code, answers) => CallbackKeepsInv(cfg, states[i - 1], error, state, code, answers);
    }
  }

  // ----- theorems -----

  /** In every interleaving, a session is saved only for a callback whose state is the hash of the
      nonce in the cookie it loaded; its code was redeemed with the verifier whose challenge the same
      start sent; every check passed; and the browser is sent to a valid redirect or to "/". */
  lemma SavedSessionsAreBound(cfg: Config, states: seq<State>, actions: seq<Action>, i: nat, k: nat)
    requires Run(cfg, states, actions) && i < |states| && k < |states[i].saves|
    ensures SavedHolds(cfg, states[i].starts, states[i].saves[k])
    ensures StartHolds(cfg, states[i].starts[states[i].saves[k].start])
    ensures Verifies(cfg.sha, cfg.challengeMethod, states[i].starts[states[i].saves[k].start].challenge,
                     states[i].saves[k].codeVerifier)
  {
    RunKeepsInv(cfg, states, actions, i);
  }

  /** Each start yields at most one saved session. */
  lemma OneSessionPerStart(cfg: Config, states: seq<State>, actions: seq<Action>, i: nat, j: nat, k: nat)
    requires Run(cfg, states, actions) && i < |states| && j < |states[i].saves| && k < |states[i].saves|
    requires states[i].saves[j].start == states[i].saves[k].start
    ensures j == k
  {
    RunKeepsInv(cfg, states, actions, i);
  }

  /** Cookies only stop being decodable as time passes. */
  lemma TimeTakesDecodable(opts: Options, jar: Jar, now: int, later: int)
    requires now <= later && forall n :: n in jar ==> SignedBy(jar[n], now)
    ensures DecodableNames(opts, jar, later) <= DecodableNames(opts, jar, now)
  {
  }

  lemma StartBoundsJar(cfg: Config, s: State, csrf: Csrf, req: seq<Sent>)
    requires OwnJar(cfg.opts, cfg.sha, s.jar) && Sends(req, s.jar) && cfg.opts.perRequest && cfg.opts.limit > 0
    ensures |DecodableNames(cfg.opts, JarAfterStart(cfg, s, csrf, req), s.now)| <= cfg.opts.limit + 1
  {
    EvictionLeavesNewest(cfg.opts, cfg.sha, s.jar, req, s.now);
    var name, evicted := CookieName(cfg.opts, cfg.sha, csrf), EvictedNames(cfg.opts, cfg.sha, req, s.now);
    hide CookieName, EvictedNames, Decodable, OwnJar, Sends;
    var left := DecodableNames(cfg.opts, s.jar, s.now) - evicted;
    var after := DecodableNames(cfg.opts, JarAfterStart(cfg, s, csrf, req), s.now);
    assert after <= left + {name};
    SubsetSize(after, left + {name});
  }

  /** A step leaves at most limit + 1 decodable cookies. */
  lemma StepBoundsJar(cfg: Config, s: State, a: Action)
    requires JarInv(cfg, s) && Enabled(cfg, s, a) && cfg.opts.perRequest && cfg.opts.limit > 0
    requires |DecodableNames(cfg.opts, s.jar, s.now)| <= cfg.opts.limit + 1
    ensures |DecodableNames(cfg.opts, Apply(cfg, s, a).jar, Apply(cfg, s, a).now)| <= cfg.opts.limit + 1
  {
    hide OAuthStart, OAuthCallback, JarAfterStart, Decodable, CookieName, StartHolds, SavedHolds;
    var t := Apply(cfg, s, a);
    match a
    case Wait(elapsed) =>
      TimeTakesDecodable(cfg.opts, s.jar, s.now, t.now);
      SubsetSize(DecodableNames(cfg.opts, t.jar, t.now), DecodableNames(cfg.opts, s.jar, s.now));
    case Callback(error, state, code, answers) =>
      var name := CallbackShape(cfg, s, error, state, code, answers);
      assert DecodableNames(cfg.opts, t.jar, t.now) <= DecodableNames(cfg.opts, s.jar, s.now);
      SubsetSize(DecodableNames(cfg.opts, t.jar, t.now), DecodableNames(cfg.opts, s.jar, s.now));
    case Begin(csrf, redirect, req) =>
      StartShape(cfg, s, csrf, redirect, req);
      StartBoundsJar(cfg, s, csrf, req);
  }

  /** Over any run the browser never holds more than limit + 1 decodable CSRF cookies. */
  lemma {:induction false} JarIsBounded(cfg: Config, states: seq<State>, actions: seq<Action>, i: nat)
    requires Run(cfg, states, actions) && i < |states| && cfg.opts.perRequest && cfg.opts.limit > 0
    ensures |DecodableNames(cfg.opts, states[i].jar, states[i].now)| <= cfg.opts.limit + 1
  {
    hide Apply, JarInv, SavesInv;
    if i == 0 {
      assert DecodableNames(cfg.opts, states[0].jar, states[0].now) == {};
    } else {
      hide DecodableNames;
      JarIsBounded(cfg, states, actions, i - 1);
      RunKeepsInv(cfg, states, actions, i - 1);
      StepBoundsJar(cfg, states[i - 1], actions[i - 1]);
    }
  }

  // ----- pending flows -----

  /** With per-request cookies, a reflected state asks for a flow's cookie exactly when it starts with
      the first eight characters of the flow's hash. */
  lemma NameFollowsState(opts: Options, sha: Sha256, nonce: string, c: Csrf)
    requires opts.perRequest
    ensures |HashNonce(sha, c.oauthState)| == 43
    ensures GenerateCookieName(opts, nonce) == CookieName(opts, sha, c) <==>
            ExtractStateSubstring(nonce) == HashNonce(sha, c.oauthState)[..8]
  {
    HashNonceShape(sha, c.oauthState);
    hide HashNonce;
    var x, y := ExtractStateSubstring(nonce), HashNonce(sha, c.oauthState)[..8];
    var p := opts.name + "_";
    assert CookieName(opts, sha, c) == p + y + "_csrf";
    if x == "" {
      assert |GenerateCookieName(opts, nonce)| < |CookieName(opts, sha, c)|;
    } else {
      assert GenerateCookieName(opts, nonce) == p + x + "_csrf";
      assert (p + x + "_csrf")[|p|..|p| + 8] == x && (p + y + "_csrf")[|p|..|p| + 8] == y;
    }
  }

  /** ... so two flows share a cookie name exactly when their hashes share their first eight characters. */
  lemma NamesFollowPrefixes(opts: Options, sha: Sha256, a: Csrf, b: Csrf)
    requires opts.perRequest
    ensures |HashNonce(sha, a.oauthState)| == |HashNonce(sha, b.oauthState)| == 43
    ensures CookieName(opts, sha, a) == CookieName(opts, sha, b) <==>
            HashNonce(sha, a.oauthState)[..8] == HashNonce(sha, b.oauthState)[..8]
  {
    HashNonceShape(sha, a.oauthState);
    CallbackFindsName(opts, sha, a);
    NameFollowsState(opts, sha, HashNonce(sha, a.oauthState), b);
  }

  /** The step is not about the cookie `name`: no start takes or evicts it, no callback asks for it. */
  ghost predicate LeavesAlone(cfg: Config, s: State, a: Action, name: string) {
    match a
    case Wait(_) => true
    case Begin(csrf, _, req) =>
      CookieName(cfg.opts, cfg.sha, csrf) != name && name !in EvictedNames(cfg.opts, cfg.sha, req, s.now)
    case Callback(_, state, _, _) =>
      var d := DecodeState(state, cfg.encodeState);
      d.Some? ==> GenerateCookieName(cfg.opts, d.value.0) != name
  }

  lemma StepLeavesCookie(cfg: Config, s: State, a: Action, name: string)
    requires JarInv(cfg, s) && Enabled(cfg, s, a) && name in s.jar && LeavesAlone(cfg, s, a, name)
    ensures var t := Apply(cfg, s, a); name in t.jar && t.jar[name] == s.jar[name]
  {
    hide OAuthStart, OAuthCallback, CookieName, EvictedNames, DecodeState, GenerateCookieName, StartHolds, SavedHolds;
    match a
    case Wait(_) =>
    case Begin(csrf, redirect, req) => StartShape(cfg, s, csrf, redirect, req);
    case Callback(error, state, code, answers) =>
      var cleared := CallbackShape(cfg, s, error, state, code, answers);
  }

  lemma {:induction false} PendingCookieSurvives(cfg: Config, states: seq<State>, actions: seq<Action>, i: nat, j: nat,
                                                 name: string)
    requires Run(cfg, states, actions) && i <= j < |states| && name in states[i].jar
    requires forall k :: i <= k < j ==> LeavesAlone(cfg, states[k], actions[k], name)
    ensures name in states[j].jar && states[j].jar[name] == states[i].jar[name]
  {
    hide Apply, JarInv, SavesInv, LeavesAlone;
    if i < j {
      PendingCookieSurvives(cfg, states, actions, i, j - 1, name);
      RunKeepsInv(cfg, states, actions, j - 1);
      StepLeavesCookie(cfg, states[j - 1], actions[j - 1], name);
    }
  }

  /** The callback gets as far as redeeming its code: it names no error, its state decodes, the cookie
      that state asks for is there and current, and the provider redeems the code and knows the user. */
  predicate Redeems(cfg: Config, s: State, error: string, state: string, code: string, answers: Answers) {
    && error == "" && code != "" && answers.redeemed && answers.enriched
    && var d := DecodeState(state, cfg.encodeState);
    && d.Some? && GenerateCookieName(cfg.opts, d.value.0) in s.jar
    && var unix := s.jar[GenerateCookieName(cfg.opts, d.value.0)].unix;
    cfg.opts.expire != 0 ==> s.now - cfg.opts.expire < unix * 1_000_000_000 < s.now + 300 * 1_000_000_000
  }

  /** A callback that redeems its code uses up the cookie, whatever comes after; it saves a session if
      and only if, besides, the state is the hash of the cookie's nonce and every check passes; and a
      callback that does not redeem changes nothing. */
  lemma CallbackIsExact(cfg: Config, s: State, error: string, state: string, code: string, answers: Answers)
    requires JarInv(cfg, s)
    ensures var t := OAuthCallback(cfg, s, error, state, code, answers);
            var d := DecodeState(state, cfg.encodeState);
            if !Redeems(cfg, s, error, state, code, answers) then t == s
            else
              var name := GenerateCookieName(cfg.opts, d.value.0);
              && t.jar == s.jar - {name} && t.starts == s.starts && t.now == s.now
              && (t.saves != s.saves <==>
                    && d.value.0 == HashNonce(cfg.sha, s.jar[name].csrf.oauthState)
                    && answers.validated && answers.authorized && answers.emailAllowed && answers.stored)
  {
    hide CookieName, GenerateCookieName, DecodeState, HashNonce;
    var d := DecodeState(state, cfg.encodeState);
    if d.Some? && GenerateCookieName(cfg.opts, d.value.0) in s.jar {
      var name := GenerateCookieName(cfg.opts, d.value.0);
      assert name == CookieName(cfg.opts, cfg.sha, s.jar[name].csrf);
    }
    assert forall x: Saved :: |s.saves + [x]| == |s.saves| + 1;
  }

  /** A callback that brings back a start's state, while that start's cookie is there and decodable and
      every check passes, saves a session bound to that start. */
  lemma CallbackCompletes(cfg: Config, s: State, csrf: Csrf, redirect: string, code: string)
    requires JarInv(cfg, s) && IsBytes(redirect) && code != ""
    requires CookieName(cfg.opts, cfg.sha, csrf) in s.jar && s.jar[CookieName(cfg.opts, cfg.sha, csrf)].csrf == csrf
    requires Decodable(cfg.opts, s.jar[CookieName(cfg.opts, cfg.sha, csrf)], s.now)
    ensures IsBytes(HashNonce(cfg.sha, csrf.oauthState))
    ensures var state := EncodeState(HashNonce(cfg.sha, csrf.oauthState), redirect, cfg.encodeState);
            var answers := AllPassed();
            OAuthCallback(cfg, s, "", state, code, answers).saves
            == s.saves + [Saved(s.jar[CookieName(cfg.opts, cfg.sha, csrf)].start,
                                HashNonce(cfg.sha, csrf.oauthState), code,
                                csrf.codeVerifier, csrf.oidcNonce, answers,
                                if cfg.validRedirect(redirect) then redirect else "/")]
  {
    HashNonceShape(cfg.sha, csrf.oauthState);
    DecodeEncodedState(HashNonce(cfg.sha, csrf.oauthState), redirect, cfg.encodeState);
    CallbackFindsName(cfg.opts, cfg.sha, csrf);
    hide CookieName, EncodeState, DecodeState, HashNonce, GenerateCookieName;
  }

  /** A login that other starts and callbacks leave alone ends in a session bound to its own start,
      with the redirect it was started with. */
  lemma PendingFlowCompletes(cfg: Config, states: seq<State>, actions: seq<Action>, i: nat, j: nat, csrf: Csrf,
                             redirect: string,
                             req: seq<Sent>, code: string)
    requires Run(cfg, states, actions) && i < j < |actions| && code != "" && IsBytes(redirect)
    requires actions[i] == Begin(csrf, redirect, req) && KnownMethod(cfg)
    requires forall k :: i < k < j ==> LeavesAlone(cfg, states[k], actions[k], CookieName(cfg.opts, cfg.sha, csrf))
    requires Decodable(cfg.opts, Held(csrf, Unix(states[i].now), |states[i].starts|), states[j].now)
    requires actions[j] == Callback("", StateSent(cfg, csrf, redirect), code, AllPassed())
    ensures |states[j + 1].saves| == |states[j].saves| + 1
    ensures var r := states[j + 1].saves[|states[j].saves|];
            && r.start == |states[i].starts| && r.codeVerifier == csrf.codeVerifier && r.oidcNonce == csrf.oidcNonce
            && r.redirect == if cfg.validRedirect(redirect) then redirect else "/"
  {
    var name := CookieName(cfg.opts, cfg.sha, csrf);
    hide CookieName, EncodeState, DecodeState, HashNonce, GenerateCookieName, OAuthCallback, OAuthStart,
         EvictedNames, StartHolds, LeavesAlone, Decodable;
    assert states[i + 1] == OAuthStart(cfg, states[i], csrf, redirect, req);
    StartShape(cfg, states[i], csrf, redirect, req);
    assert states[i + 1].jar[name] == Held(csrf, Unix(states[i].now), |states[i].starts|);
    PendingCookieSurvives(cfg, states, actions, i + 1, j, name);
    RunKeepsInv(cfg, states, actions, j);
    CallbackCompletes(cfg, states[j], csrf, redirect, code);
  }

  /** The decodable cookies, other than the one named, that are no older than a given second. */
  function NoOlder(opts: Options, jar: Jar, now: int, name: string, unix: int): set<string> {
    set n | n in jar && n != name && Decodable(opts, jar[n], now) && unix <= jar[n].unix
  }

  /** A start evicts a cookie only if the browser holds at least `limit` other decodable cookies that
      are no older. */
  lemma EvictionNeedsNewer(cfg: Config, s: State, req: seq<Sent>, name: string)
    requires OwnJar(cfg.opts, cfg.sha, s.jar) && Sends(req, s.jar) && cfg.opts.perRequest && cfg.opts.limit > 0
    requires name in EvictedNames(cfg.opts, cfg.sha, req, s.now)
    ensures name in s.jar && cfg.opts.limit <= |NoOlder(cfg.opts, s.jar, s.now, name, s.jar[name].unix)|
  {
    hide CookieName, EvictedNames, Decodable, OwnJar, Sends;
    EvictionLeavesNewest(cfg.opts, cfg.sha, s.jar, req, s.now);
    var all, cleared := DecodableNames(cfg.opts, s.jar, s.now), EvictedNames(cfg.opts, cfg.sha, req, s.now);
    assert name in all && name !in all - cleared;
    var newer := NoOlder(cfg.opts, s.jar, s.now, name, s.jar[name].unix);
    assert all - cleared <= newer;
    SubsetSize(all - cleared, newer);
    SubsetSize(all - cleared + {name}, all);
  }

  /** What a user can see of a step that leaves a flow alone: a start whose hash has another prefix,
      while, if there is a limit, fewer than `limit` other decodable cookies are no older than the flow's
      own, signed in second `unix`; or a callback whose state has another prefix. */
  predicate Undisturbed(cfg: Config, s: State, a: Action, csrf: Csrf, unix: int) {
    HashNonceShape(cfg.sha, csrf.oauthState);
    var prefix := HashNonce(cfg.sha, csrf.oauthState)[..8];
    match a
    case Wait(_) => true
    case Begin(other, _, _) =>
      && ExtractStateSubstring(HashNonce(cfg.sha, other.oauthState)) != prefix
      && (cfg.opts.limit > 0 ==>
            |NoOlder(cfg.opts, s.jar, s.now, CookieName(cfg.opts, cfg.sha, csrf), unix)| < cfg.opts.limit)
    case Callback(_, state, _, _) =>
      var d := DecodeState(state, cfg.encodeState);
      d.Some? ==> ExtractStateSubstring(d.value.0) != prefix
  }

  lemma UndisturbedIsLeftAlone(cfg: Config, s: State, a: Action, csrf: Csrf)
    requires JarInv(cfg, s) && Enabled(cfg, s, a) && cfg.opts.perRequest
    requires CookieName(cfg.opts, cfg.sha, csrf) in s.jar
    requires Undisturbed(cfg, s, a, csrf, s.jar[CookieName(cfg.opts, cfg.sha, csrf)].unix)
    ensures LeavesAlone(cfg, s, a, CookieName(cfg.opts, cfg.sha, csrf))
  {
    hide CookieName, GenerateCookieName, ExtractStateSubstring, HashNonce, DecodeState, EvictedNames, NoOlder;
    var name := CookieName(cfg.opts, cfg.sha, csrf);
    match a
    case Wait(_) =>
    case Begin(other, _, req) =>
      CallbackFindsName(cfg.opts, cfg.sha, other);
      NameFollowsState(cfg.opts, cfg.sha, HashNonce(cfg.sha, other.oauthState), csrf);
      if cfg.opts.limit <= 0 {
        NothingIsEvicted(cfg.opts, cfg.sha, req, s.now);
      } else if name in EvictedNames(cfg.opts, cfg.sha, req, s.now) {
        EvictionNeedsNewer(cfg, s, req, name);
      }
    case Callback(_, state, _, _) =>
      var d := DecodeState(state, cfg.encodeState);
      if d.Some? {
        NameFollowsState(cfg.opts, cfg.sha, d.value.0, csrf);
      }
  }

  lemma {:induction false} UndisturbedRun(cfg: Config, states: seq<State>, actions: seq<Action>, i: nat, j: nat,
                                          csrf: Csrf, held: Held)
    requires Run(cfg, states, actions) && i <= j < |states| && cfg.opts.perRequest
    requires Get(states[i].jar, CookieName(cfg.opts, cfg.sha, csrf)) == Some(held)
    requires forall k :: i <= k < j ==> Undisturbed(cfg, states[k], actions[k], csrf, held.unix)
    ensures forall k :: i <= k < j ==> LeavesAlone(cfg, states[k], actions[k], CookieName(cfg.opts, cfg.sha, csrf))
  {
    hide Apply, JarInv, SavesInv, LeavesAlone, Undisturbed, CookieName, Enabled;
    if i < j {
      UndisturbedRun(cfg, states, actions, i, j - 1, csrf, held);
      PendingCookieSurvives(cfg, states, actions, i, j - 1, CookieName(cfg.opts, cfg.sha, csrf));
      RunKeepsInv(cfg, states, actions, j - 1);
      UndisturbedIsLeftAlone(cfg, states[j - 1], actions[j - 1], csrf);
    }
  }

  function Get(jar: Jar, name: string): Option<Held> {
    if name in jar then Some(jar[name]) else None
  }

  /** With per-request cookies, a login ends in a session bound to its own start, whatever other logins
      do meanwhile, as long as no other start or callback shares its prefix and, if there is a limit, at
      each start fewer than `limit` other decodable cookies are no older than its own. */
  lemma PendingFlowSurvives(cfg: Config, states: seq<State>, actions: seq<Action>, i: nat, j: nat, csrf: Csrf,
                            redirect: string, req: seq<Sent>, code: string)
    requires Run(cfg, states, actions) && i < j < |actions| && code != "" && IsBytes(redirect)
    requires cfg.opts.perRequest
    requires actions[i] == Begin(csrf, redirect, req) && KnownMethod(cfg)
    requires forall k :: i < k < j ==> Undisturbed(cfg, states[k], actions[k], csrf, Unix(states[i].now))
    requires Decodable(cfg.opts, Held(csrf, Unix(states[i].now), |states[i].starts|), states[j].now)
    requires actions[j] == Callback("", StateSent(cfg, csrf, redirect), code, AllPassed())
    ensures |states[j + 1].saves| == |states[j].saves| + 1
    ensures var r := states[j + 1].saves[|states[j].saves|];
            && r.start == |states[i].starts| && r.codeVerifier == csrf.codeVerifier && r.oidcNonce == csrf.oidcNonce
            && r.redirect == if cfg.validRedirect(redirect) then redirect else "/"
  {
    var held := Held(csrf, Unix(states[i].now), |states[i].starts|);
    assert Get(states[i + 1].jar, CookieName(cfg.opts, cfg.sha, csrf)) == Some(held) by {
      hide CookieName, OAuthStart, EvictedNames, StartHolds;
      assert states[i + 1] == OAuthStart(cfg, states[i], csrf, redirect, req);
      StartShape(cfg, states[i], csrf, redirect, req);
    }
    hide Run, Undisturbed, LeavesAlone, CookieName, Decodable;
    UndisturbedRun(cfg, states, actions, i + 1, j, csrf, held);
    PendingFlowCompletes(cfg, states, actions, i, j, csrf, redirect, req, code);
  }
}
