/** CSRF cookies (pkg/cookies/csrf.go, pkg/encryption/nonce.go): their names, and the eviction of the
    oldest ones when a browser holds more than the configured number. */
module Csrf {
  import opened Text
  import opened Signing
  import Base64Url

  /** SHA-256, uninterpreted: any function to numbers, of which the 256 low bits are the digest. */
  type Sha256 = string -> nat

  function HashNonce(sha: Sha256, nonce: string): string {
    Base64Url.EncodeToString(Digest(sha(nonce), DIGEST_LENGTH), false)
  }

  /** A hash has 43 characters, none of them a colon. */
  lemma HashNonceShape(sha: Sha256, nonce: string)
    ensures IsBytes(HashNonce(sha, nonce)) && ':' !in HashNonce(sha, nonce)
    ensures |HashNonce(sha, nonce)| == 43
  {
    Base64Url.EncodedAlphabet(Digest(sha(nonce), DIGEST_LENGTH), false);
    Base64Url.RawLength(Digest(sha(nonce), DIGEST_LENGTH));
    hide Base64Url.EncodeToString;
  }

  /** The text spells out the SHA-256 digest of the nonce, in unpadded base64url. */
  predicate IsHashOf(sha: Sha256, text: string, nonce: string) {
    Base64Url.DecodeString(text, false) == Base64Url.Decoded(Digest(sha(nonce), 32), true)
  }

  lemma HashNonceIsHash(sha: Sha256, nonce: string)
    ensures IsHashOf(sha, HashNonce(sha, nonce), nonce)
  {
    Base64Url.RoundTrip(Digest(sha(nonce), DIGEST_LENGTH), false);
  }

  const STATE_LENGTH := 8  // csrfStateLength - 1

  datatype Options = Options(name: string, perRequest: bool, limit: int, expire: int)

  datatype Csrf = Csrf(oauthState: string, oidcNonce: string, codeVerifier: string)

  /** What a CSRF cookie set by this proxy decodes to: the nonces, the second it was signed in, and
      (for the history only) the login it was set by. */
  datatype Held = Held(csrf: Csrf, unix: int, start: nat)

  /** A cookie in a request; `content` is None when it is not a CSRF cookie this proxy signed. */
  datatype Sent = Sent(name: string, content: Option<Held>)

  function CsrfCookieName(opts: Options, stateSubstring: string): string {
    if stateSubstring == "" then opts.name + "_csrf" else opts.name + "_" + stateSubstring + "_csrf"
  }

  function ExtractStateSubstring(state: string): string {
    if STATE_LENGTH <= |state| then state[..STATE_LENGTH] else ""
  }

  function GenerateCookieName(opts: Options, state: string): string {
    CsrfCookieName(opts, if opts.perRequest then ExtractStateSubstring(state) else "")
  }

  /** `csrf.cookieName`. */
  function CookieName(opts: Options, sha: Sha256, c: Csrf): string {
    HashNonceShape(sha, c.oauthState);
    CsrfCookieName(opts, if opts.perRequest then HashNonce(sha, c.oauthState)[..STATE_LENGTH] else "")
  }

  /** The name the callback computes from the reflected state is the name the start gave its cookie. */
  lemma CallbackFindsName(opts: Options, sha: Sha256, c: Csrf)
    ensures GenerateCookieName(opts, HashNonce(sha, c.oauthState)) == CookieName(opts, sha, c)
  {
    HashNonceShape(sha, c.oauthState);
  }

  predicate Decodable(opts: Options, held: Held, now: int) {
    InWindow(held.unix, opts.expire, now, now)
  }

  // ----- eviction -----

  predicate NamedCsrf(opts: Options, name: string) {
    HasPrefix(name, opts.name + "_") && HasSuffix(name, "_csrf")
  }

  /** The cookies of the request that are named like CSRF cookies. */
  function Existing(opts: Options, req: seq<Sent>): seq<Sent> {
    if req == [] then []
    else
      var last := req[|req| - 1];
      Existing(opts, req[..|req| - 1]) + (if NamedCsrf(opts, last.name) then [last] else [])
  }

  /** A decoded cookie as eviction sees it: the name it clears and the second it was signed in. */
  datatype Aged = Aged(name: string, unix: int)

  function AgedOf(opts: Options, sha: Sha256, held: Held): Aged {
    Aged(CookieName(opts, sha, held.csrf), held.unix)
  }

  function Decoded(opts: Options, sha: Sha256, cookies: seq<Sent>, now: int): seq<Aged> {
    if cookies == [] then []
    else
      var last := cookies[|cookies| - 1];
      Decoded(opts, sha, cookies[..|cookies| - 1], now)
      + (if last.content.Some? && Decodable(opts, last.content.value, now)
         then [AgedOf(opts, sha, last.content.value)] else [])
  }

  function InsertByTime(a: Aged, s: seq<Aged>): seq<Aged> {
    if s == [] || a.unix <= s[0].unix then [a] + s else [s[0]] + InsertByTime(a, s[1..])
  }

  /** A stable sort by signing time, oldest first. */
  function SortByTime(s: seq<Aged>): seq<Aged> {
    if s == [] then [] else InsertByTime(s[0], SortByTime(s[1..]))
  }

  predicate SortedByTime(s: seq<Aged>) {
    forall i, j :: 0 <= i < j < |s| ==> s[i].unix <= s[j].unix
  }

  lemma {:induction false} InsertByTimeKeeps(a: Aged, s: seq<Aged>)
    ensures multiset(InsertByTime(a, s)) == multiset{a} + multiset(s)
  {
    if s != [] && a.unix > s[0].unix {
      InsertByTimeKeeps(a, s[1..]);
      assert s == [s[0]] + s[1..];
    }
  }

  lemma {:induction false} InsertByTimeSorts(a: Aged, s: seq<Aged>)
    requires SortedByTime(s)
    ensures SortedByTime(InsertByTime(a, s))
  {
    if s != [] && a.unix > s[0].unix {
      var t := InsertByTime(a, s[1..]);
      InsertByTimeSorts(a, s[1..]);
      InsertByTimeKeeps(a, s[1..]);
      forall j | 0 <= j < |t|
        ensures s[0].unix <= t[j].unix
      {
        assert t[j] in multiset(t);
      }
    }
  }

  lemma {:induction false} SortByTimeSorts(s: seq<Aged>)
    ensures SortedByTime(SortByTime(s)) && multiset(SortByTime(s)) == multiset(s)
  {
    if s != [] {
      SortByTimeSorts(s[1..]);
      InsertByTimeKeeps(s[0], SortByTime(s[1..]));
      InsertByTimeSorts(s[0], SortByTime(s[1..]));
      assert s == [s[0]] + s[1..];
    }
  }

  /** The excess of decoded cookies over the limit, oldest first. */
  function Excess(decoded: seq<Aged>, limit: nat): seq<Aged> {
    var sorted := SortByTime(decoded);
    if |sorted| <= limit then [] else sorted[..|sorted| - limit]
  }

  /** What a start clears. */
  function Evicted(opts: Options, sha: Sha256, req: seq<Sent>, now: int): seq<Aged> {
    if !opts.perRequest || opts.limit <= 0 || |Existing(opts, req)| <= opts.limit then []
    else Excess(Decoded(opts, sha, Existing(opts, req), now), opts.limit)
  }

  method ClearExtraCsrfCookies(opts: Options, sha: Sha256, req: seq<Sent>, now: int) returns (cleared: seq<Aged>)
    ensures cleared == Evicted(opts, sha, req, now)
  {
    hide SortByTime, Decoded, NamedCsrf;
    if !opts.perRequest || opts.limit <= 0 {
      return [];
    }
    var existing := [];
    for i := 0 to |req|
      invariant existing == Existing(opts, req[..i])
    {
      if NamedCsrf(opts, req[i].name) {
        existing := existing + [req[i]];
      }
      assert req[..i + 1][..i] == req[..i];
    }
    assert req[..|req|] == req;
    if |existing| <= opts.limit {
      return [];
    }
    var decoded := DecodeAll(opts, sha, existing, now);
    decoded := SortByTime(decoded);
    cleared := [];
    var i := 0;
    while i < |decoded| - opts.limit
      invariant 0 <= i <= |decoded|
      invariant i <= |decoded| - opts.limit || i == 0
      invariant cleared == decoded[..i]
    {
      cleared := cleared + [decoded[i]];
      i := i + 1;
    }
  }

  method DecodeAll(opts: Options, sha: Sha256, cookies: seq<Sent>, now: int) returns (decoded: seq<Aged>)
    ensures decoded == Decoded(opts, sha, cookies, now)
  {
    hide CookieName;
    decoded := [];
    for i := 0 to |cookies|
      invariant decoded == Decoded(opts, sha, cookies[..i], now)
    {
      var content := cookies[i].content;
      if content.Some? && Decodable(opts, content.value, now) {
        decoded := decoded + [AgedOf(opts, sha, content.value)];
      }
      assert cookies[..i + 1][..i] == cookies[..i];
    }
    assert cookies[..|cookies|] == cookies;
  }

  // ----- what eviction leaves -----

  ghost function Names(s: seq<Aged>): set<string> {
    set i | 0 <= i < |s| :: s[i].name
  }

  predicate Distinct(s: seq<Aged>) {
    forall i, j :: 0 <= i < j < |s| ==> s[i].name != s[j].name
  }

  lemma {:induction false} NamesCount(s: seq<Aged>)
    requires Distinct(s)
    ensures |Names(s)| == |s|
  {
    if s != [] {
      var init, last := s[..|s| - 1], s[|s| - 1];
      NamesCount(init);
      assert Names(s) == Names(init) + {last.name} by {
        forall n | n in Names(s)
          ensures n in Names(init) + {last.name}
        {
          var i :| 0 <= i < |s| && s[i].name == n;
          if i < |init| { assert init[i].name == n; }
        }
        forall n | n in Names(init)
          ensures n in Names(s)
        {
          var i :| 0 <= i < |init| && init[i].name == n;
          assert s[i].name == n;
        }
      }
      assert last.name !in Names(init);
    }
  }

  lemma PermutationKeepsNames(s: seq<Aged>, t: seq<Aged>)
    requires multiset(s) == multiset(t)
    ensures Names(s) == Names(t) && |s| == |t|
  {
    assert |s| == |multiset(s)| == |multiset(t)| == |t|;
    forall n | n in Names(s)
      ensures n in Names(t)
    {
      var i :| 0 <= i < |s| && s[i].name == n;
      assert s[i] in multiset(t);
      var j :| 0 <= j < |t| && t[j] == s[i];
      assert t[j].name == n;
    }
    forall n | n in Names(t)
      ensures n in Names(s)
    {
      var i :| 0 <= i < |t| && t[i].name == n;
      assert t[i] in multiset(s);
      var j :| 0 <= j < |s| && s[j] == t[i];
      assert s[j].name == n;
    }
  }

  /** As many names as entries: no two entries share one. */
  lemma {:induction false} CountedAreDistinct(s: seq<Aged>)
    ensures |Names(s)| <= |s|
    ensures |Names(s)| == |s| ==> Distinct(s)
  {
    if s != [] {
      var init, last := s[..|s| - 1], s[|s| - 1];
      CountedAreDistinct(init);
      assert forall i :: 0 <= i < |init| ==> init[i] == s[i];
      assert Names(s) == Names(init) + {last.name} by {
        assert s[|s| - 1].name == last.name;
        forall n | n in Names(init)
          ensures n in Names(s)
        {
          var i :| 0 <= i < |init| && init[i].name == n;
          assert s[i].name == n;
        }
      }
      if last.name in Names(init) {
        assert Names(s) == Names(init);
      } else {
        assert forall i :: 0 <= i < |init| ==> init[i].name in Names(init);
      }
    }
  }

  lemma PrefixNames(s: seq<Aged>, k: nat)
    requires Distinct(s) && k <= |s|
    ensures Names(s[..k]) <= Names(s) && |Names(s) - Names(s[..k])| == |s| - k
    ensures forall j :: 0 <= j < |s| ==> (s[j].name in Names(s[..k]) <==> j < k)
  {
    NamesCount(s);
    NamesCount(s[..k]);
    forall j | 0 <= j < |s|
      ensures s[j].name in Names(s[..k]) <==> j < k
    {
      if j < k { assert s[..k][j].name == s[j].name; }
    }
  }

  /** What is cleared is a prefix of a sorted, distinct arrangement of the decoded cookies. */
  lemma ExcessIsPrefix(decoded: seq<Aged>, limit: nat) returns (sorted: seq<Aged>, k: nat)
    requires Distinct(decoded)
    ensures multiset(sorted) == multiset(decoded) && SortedByTime(sorted) && Distinct(sorted)
    ensures k <= |sorted| && Excess(decoded, limit) == sorted[..k]
    ensures |sorted| == |decoded| && |sorted| - k == (if |decoded| <= limit then |decoded| else limit)
    ensures Names(sorted) == Names(decoded)
  {
    sorted := SortByTime(decoded);
    SortByTimeSorts(decoded);
    PermutationKeepsNames(decoded, sorted);
    NamesCount(decoded);
    CountedAreDistinct(sorted);
    k := if |sorted| <= limit then 0 else |sorted| - limit;
    hide SortByTime;
  }

  lemma InPermutation(s: seq<Aged>, t: seq<Aged>, a: Aged)
    requires multiset(s) == multiset(t)
    ensures a in s <==> a in t
  {
    assert a in s <==> a in multiset(s);
    assert a in t <==> a in multiset(t);
  }

  /** Of distinct decoded cookies, exactly min(number, limit) are left, and none that is left is older
      than one that is cleared. */
  lemma ExcessLeavesNewest(decoded: seq<Aged>, limit: nat)
    requires Distinct(decoded)
    ensures var cleared := Excess(decoded, limit);
            && Names(cleared) <= Names(decoded)
            && |Names(decoded) - Names(cleared)| == (if |decoded| <= limit then |decoded| else limit)
            && (forall a :: a in cleared ==> a in decoded)
            && (forall a, b :: a in cleared && b in decoded && b.name !in Names(cleared) ==> a.unix <= b.unix)
  {
    hide SortByTime, Excess, Names;
    var cleared := Excess(decoded, limit);
    var sorted, k := ExcessIsPrefix(decoded, limit);
    PrefixNames(sorted, k);
    forall a | a in cleared
      ensures a in decoded
    {
      InPermutation(sorted, decoded, a);
    }
    forall a, b | a in cleared && b in decoded && b.name !in Names(cleared)
      ensures a.unix <= b.unix
    {
      var i :| 0 <= i < k && cleared[i] == a;
      InPermutation(sorted, decoded, b);
      var j :| 0 <= j < |sorted| && sorted[j] == b;
      assert sorted[i] == a && k <= j;
    }
  }

  // ----- jars of CSRF cookies -----

  type Jar = map<string, Held>

  /** The jar holds only cookies this proxy set under the same options. */
  predicate OwnJar(opts: Options, sha: Sha256, jar: Jar) {
    forall n :: n in jar ==> n == CookieName(opts, sha, jar[n].csrf)
  }

  /** A request that sends the jar, among any other cookies and in any order; the others are not CSRF
      cookies that this proxy signed, whatever they are named. */
  predicate Sends(req: seq<Sent>, jar: Jar) {
    && (forall i, j :: 0 <= i < j < |req| && req[i].name in jar ==> req[i].name != req[j].name)
    && (forall i :: 0 <= i < |req| ==>
                      req[i].content == if req[i].name in jar then Some(jar[req[i].name]) else None)
    && (forall n :: n in jar ==> exists i :: 0 <= i < |req| && req[i].name == n)
  }

  function DecodableNames(opts: Options, jar: Jar, now: int): set<string> {
    set n | n in jar && Decodable(opts, jar[n], now)
  }

  lemma CookieNameIsCsrf(opts: Options, sha: Sha256, c: Csrf)
    ensures NamedCsrf(opts, CookieName(opts, sha, c))
  {
    HashNonceShape(sha, c.oauthState);
    var name := CookieName(opts, sha, c);
    assert name[|name| - 5..] == "_csrf";
    assert (opts.name + "_") <= name;
  }

  /** Only cookies named like CSRF cookies decode, so the others can be passed over. */
  lemma {:induction false} ExistingDecodes(opts: Options, sha: Sha256, req: seq<Sent>, now: int)
    requires forall i :: 0 <= i < |req| && req[i].content.Some? ==> NamedCsrf(opts, req[i].name)
    ensures Decoded(opts, sha, Existing(opts, req), now) == Decoded(opts, sha, req, now)
  {
    hide NamedCsrf, AgedOf, Decodable;
    if req != [] {
      var init, last := req[..|req| - 1], req[|req| - 1];
      ExistingDecodes(opts, sha, init, now);
      if NamedCsrf(opts, last.name) {
        var all := Existing(opts, req);
        assert all[..|all| - 1] == Existing(opts, init) && all[|all| - 1] == last;
      } else {
        assert Existing(opts, req) == Existing(opts, init);
        assert Decoded(opts, sha, req, now) == Decoded(opts, sha, init, now);
      }
    }
  }

  /** The cookie is one of the proxy's own and decodes to `a`. */
  predicate DecodesTo(opts: Options, c: Sent, now: int, a: Aged) {
    c.content.Some? && Decodable(opts, c.content.value, now) && a == Aged(c.name, c.content.value.unix)
  }

  /** The proxy's own cookies are decoded under their own names, each once. */
  lemma {:induction false} DecodedIsSent(opts: Options, sha: Sha256, req: seq<Sent>, now: int)
    requires forall i, j :: 0 <= i < j < |req| && req[i].content.Some? ==> req[i].name != req[j].name
    requires forall i :: 0 <= i < |req| && req[i].content.Some? ==>
                           CookieName(opts, sha, req[i].content.value.csrf) == req[i].name
    ensures Distinct(Decoded(opts, sha, req, now))
    ensures forall a :: a in Decoded(opts, sha, req, now) <==>
                        exists i :: 0 <= i < |req| && DecodesTo(opts, req[i], now, a)
  {
    hide CookieName, Decodable;
    if req != [] {
      var init, last := req[..|req| - 1], req[|req| - 1];
      var head := Decoded(opts, sha, init, now);
      DecodedIsSent(opts, sha, init, now);
      assert forall i :: 0 <= i < |init| ==> init[i] == req[i];
      forall a | a in head
        ensures a.name != last.name && exists i :: 0 <= i < |req| && DecodesTo(opts, req[i], now, a)
      {
        var i :| 0 <= i < |init| && DecodesTo(opts, init[i], now, a);
        assert DecodesTo(opts, req[i], now, a);
      }
      forall i, a | 0 <= i < |req| && DecodesTo(opts, req[i], now, a)
        ensures a in Decoded(opts, sha, req, now)
      {
        if i < |init| { assert DecodesTo(opts, init[i], now, a); }
      }
      forall a | a in Decoded(opts, sha, req, now)
        ensures exists i :: 0 <= i < |req| && DecodesTo(opts, req[i], now, a)
      {
        if a !in head { assert DecodesTo(opts, req[|req| - 1], now, a); }
      }
    }
  }

  /** The names cleared when a browser with this jar starts a login. */
  ghost function EvictedNames(opts: Options, sha: Sha256, req: seq<Sent>, now: int): set<string> {
    Names(Evicted(opts, sha, req, now))
  }

  /** With one cookie for all requests, or without a positive limit, which is the default, nothing is
      ever evicted. */
  lemma NothingIsEvicted(opts: Options, sha: Sha256, req: seq<Sent>, now: int)
    requires !opts.perRequest || opts.limit <= 0
    ensures EvictedNames(opts, sha, req, now) == {}
  {
    hide Existing, Decoded, Excess;
  }

  /** Eviction clears only decodable cookies, leaves exactly min(decodable, limit) of them, and clears
      none that is newer than one it leaves. */
  lemma EvictionLeavesNewest(opts: Options, sha: Sha256, jar: Jar, req: seq<Sent>, now: int)
    requires OwnJar(opts, sha, jar) && Sends(req, jar) && opts.perRequest && opts.limit > 0
    ensures var all, cleared := DecodableNames(opts, jar, now), EvictedNames(opts, sha, req, now);
            && cleared <= all
            && |all - cleared| == (if |all| <= opts.limit then |all| else opts.limit)
            && forall m, n :: m in cleared && n in all - cleared ==> jar[m].unix <= jar[n].unix
  {
    hide CookieName, NamedCsrf, Decoded, Existing, Excess, Names;
    var decoded := Decoded(opts, sha, req, now);
    var all, cleared := DecodableNames(opts, jar, now), Excess(decoded, opts.limit);
    EvictedIsExcess(opts, sha, jar, req, now);
    DecodedIsSent(opts, sha, req, now);
    DecodedNames(opts, sha, jar, req, now);
    NamesCount(decoded);
    ExcessLeavesNewest(decoded, opts.limit);
    forall m, n | m in Names(cleared) && n in all - Names(cleared)
      ensures jar[m].unix <= jar[n].unix
    {
      var a := NamedIn(cleared, m);
      var b := NamedIn(decoded, n);
    }
  }

  /** With eviction on, what is cleared is the excess of the jar's decodable cookies: those that only
      look like CSRF cookies by their names make no difference. */
  lemma EvictedIsExcess(opts: Options, sha: Sha256, jar: Jar, req: seq<Sent>, now: int)
    requires OwnJar(opts, sha, jar) && Sends(req, jar) && opts.perRequest && opts.limit > 0
    ensures Evicted(opts, sha, req, now) == Excess(Decoded(opts, sha, req, now), opts.limit)
  {
    forall i | 0 <= i < |req| && req[i].content.Some?
      ensures NamedCsrf(opts, req[i].name)
    {
      CookieNameIsCsrf(opts, sha, req[i].content.value.csrf);
    }
    hide CookieName, NamedCsrf, Decoded, Existing, SortByTime;
    ExistingDecodes(opts, sha, req, now);
    if |Existing(opts, req)| <= opts.limit {
      DecodedNoMore(opts, sha, Existing(opts, req), now);
      SortByTimeSorts(Decoded(opts, sha, req, now));
      PermutationKeepsNames(Decoded(opts, sha, req, now), SortByTime(Decoded(opts, sha, req, now)));
    }
  }

  lemma NamedIn(s: seq<Aged>, name: string) returns (a: Aged)
    requires name in Names(s)
    ensures a in s && a.name == name
  {
    var i :| 0 <= i < |s| && s[i].name == name;
    a := s[i];
  }

  lemma DecodedNames(opts: Options, sha: Sha256, jar: Jar, req: seq<Sent>, now: int)
    requires OwnJar(opts, sha, jar) && Sends(req, jar)
    ensures Names(Decoded(opts, sha, req, now)) == DecodableNames(opts, jar, now)
    ensures forall a :: a in Decoded(opts, sha, req, now) ==> a.name in jar && a.unix == jar[a.name].unix
  {
    hide CookieName, Decoded, Decodable;
    DecodedIsSent(opts, sha, req, now);
    var decoded := Decoded(opts, sha, req, now);
    forall a | a in decoded
      ensures a.name in jar && a.unix == jar[a.name].unix && Decodable(opts, jar[a.name], now)
    {
      var i :| 0 <= i < |req| && DecodesTo(opts, req[i], now, a);
    }
    forall n | n in DecodableNames(opts, jar, now)
      ensures n in Names(decoded)
    {
      var i :| 0 <= i < |req| && req[i].name == n;
      assert DecodesTo(opts, req[i], now, Aged(req[i].name, req[i].content.value.unix));
      InNames(decoded, Aged(req[i].name, req[i].content.value.unix));
    }
    forall n | n in Names(decoded)
      ensures n in DecodableNames(opts, jar, now)
    {
      var a := NamedIn(decoded, n);
    }
  }

  lemma InNames(s: seq<Aged>, a: Aged)
    requires a in s
    ensures a.name in Names(s)
  {
  }

  lemma {:induction false} DecodedNoMore(opts: Options, sha: Sha256, req: seq<Sent>, now: int)
    ensures |Decoded(opts, sha, req, now)| <= |req|
  {
    if req != [] {
      DecodedNoMore(opts, sha, req[..|req| - 1], now);
    }
  }
}
