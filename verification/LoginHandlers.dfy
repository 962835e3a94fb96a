/** The two login handlers as the code runs them (oauthproxy.go:825-1000): step by step on the
    browser's cookies, with an early exit at each failing check. */
module LoginHandlers {
  import opened Text
  import opened Signing
  import opened Csrf
  import opened LoginFlow
  import Redirects

  /** A browser and, in `starts` and `saves`, what the proxy did for it. */
  class Browser {
    var now: int
    var jar: Jar
    var starts: seq<Start>
    var saves: seq<Saved>

    constructor (now: int)
      ensures Snapshot() == State(now, map[], [], [])
    {
      this.now, jar, starts, saves := now, map[], [], [];
    }

    function Snapshot(): State
      reads this
    {
      State(now, jar, starts, saves)
    }

    /** The response expires each cookie that eviction chose. */
    method Expire(cleared: seq<Aged>)
      modifies this`jar
      ensures jar == old(jar) - Names(cleared)
    {
      var i := 0;
      while i < |cleared|
        invariant 0 <= i <= |cleared|
        invariant jar == old(jar) - Names(cleared[..i])
      {
        NamesAppend(cleared[..i], cleared[i]);
        assert cleared[..i + 1] == cleared[..i] + [cleared[i]];
        jar := jar - {cleared[i].name};
        i := i + 1;
      }
      assert cleared[..i] == cleared;
    }

    /** `doOAuthStart`; None when an error page is shown. */
    method DoOAuthStart(cfg: Config, csrf: Csrf, redirect: string, req: seq<Sent>) returns (sent: Option<Start>)
      requires IsBytes(redirect)
      modifies this
      ensures Snapshot() == OAuthStart(cfg, old(Snapshot()), csrf, redirect, req)
      ensures starts == old(starts) + if sent.Some? then [sent.value] else []
    {
      hide HashNonce, Evicted, CookieName, EncodeState;
      var challenge := None;
      if cfg.challengeMethod != "" {
        challenge := GenerateCodeChallenge(cfg.sha, cfg.challengeMethod, csrf.codeVerifier);
        if challenge.None? {
          return None;
        }
      }
      var state := StateSent(cfg, csrf, redirect);
      var cleared := ClearExtraCsrfCookies(cfg.opts, cfg.sha, req, now);
      Expire(cleared);
      jar := jar[CookieName(cfg.opts, cfg.sha, csrf) := Held(csrf, Unix(now), |starts|)];
      sent := Some(Start(csrf, challenge, state));
      starts := starts + [sent.value];
    }

    /** `OAuthCallback`; the result is where the browser is sent, or None for an error page. */
    method HandleCallback(cfg: Config, error: string, state: string, code: string, answers: Answers)
      returns (location: Option<string>)
      modifies this`jar, this`saves
      ensures Snapshot() == OAuthCallback(cfg, old(Snapshot()), error, state, code, answers)
      ensures location.Some? <==> |saves| > |old(saves)|
      ensures location.Some? ==> location.value == saves[|saves| - 1].redirect
    {
      hide HashNonce, CookieName, GenerateCookieName, DecodeState, Decodable;
      location := None;
      if error != "" {
        return;
      }
      var decoded := DecodeState(state, cfg.encodeState);
      if decoded.None? {
        return;
      }
      var (nonce, appRedirect) := decoded.value;
      var cookieName := GenerateCookieName(cfg.opts, nonce);
      if cookieName !in jar || !Decodable(cfg.opts, jar[cookieName], now) {
        return;
      }
      var held := jar[cookieName];
      if code == "" || !answers.redeemed {
        return;
      }
      if !answers.enriched {
        return;
      }
      jar := jar - {CookieName(cfg.opts, cfg.sha, held.csrf)};
      if HashNonce(cfg.sha, held.csrf.oauthState) != nonce {
        return;
      }
      if !answers.validated {
        return;
      }
      if !cfg.validRedirect(appRedirect) {
        appRedirect := "/";
      }
      if answers.emailAllowed && answers.authorized {
        if !answers.stored {
          return;
        }
        saves := saves + [Saved(held.start, nonce, code, held.csrf.codeVerifier, held.csrf.oidcNonce,
                                answers, appRedirect)];
        location := Some(appRedirect);
      }
    }
  }

  lemma NamesAppend(s: seq<Aged>, a: Aged)
    ensures Names(s + [a]) == Names(s) + {a.name}
  {
    var t := s + [a];
    assert t[|s|].name == a.name;
    forall n | n in Names(s)
      ensures n in Names(t)
    {
      var i :| 0 <= i < |s| && s[i].name == n;
      assert t[i].name == n;
    }
  }

  /** A login started from a request ends, if other flows leave it alone, in a session bound to that
      start, and sends the browser to the very redirect chosen for that request. */
  lemma LoginReturnsToChosenRedirect(cfg: Config, director: Redirects.Director, request: Redirects.Request,
                                     states: seq<State>, actions: seq<Action>, i: nat, j: nat, csrf: Csrf,
                                     redirect: string, req: seq<Sent>, code: string)
    requires forall r :: cfg.validRedirect(r) == Redirects.IsValidRedirect(director.validator, r)
    requires request.parses && director.GetRedirect(request) == Some(redirect) && IsBytes(redirect)
    requires Run(cfg, states, actions) && i < j < |actions| && code != ""
    requires actions[i] == Begin(csrf, redirect, req) && KnownMethod(cfg)
    requires forall k :: i < k < j ==> LeavesAlone(cfg, states[k], actions[k], CookieName(cfg.opts, cfg.sha, csrf))
    requires Decodable(cfg.opts, Held(csrf, Unix(states[i].now), |states[i].starts|), states[j].now)
    requires actions[j] == Callback("", StateSent(cfg, csrf, redirect), code, AllPassed())
    ensures |states[j + 1].saves| == |states[j].saves| + 1
    ensures states[j + 1].saves[|states[j].saves|].start == |states[i].starts|
    ensures states[j + 1].saves[|states[j].saves|].redirect == redirect
  {
    hide Run, LeavesAlone, CookieName, Decodable;
    director.ChosenRedirectIsValid(request);
    PendingFlowCompletes(cfg, states, actions, i, j, csrf, redirect, req, code);
  }
}
