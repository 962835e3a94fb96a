/** What saving, loading and clearing cookie sessions add up to
    (pkg/sessions/cookie/session_store.go, pkg/cookies/csrf.go:290-295). */
module CookieLaws {
  import opened Text
  import opened Signing
  import opened CookieStore

  // ----- a request carries exactly the cookies that were set, in any order -----

  ghost predicate Exactly(jar: Jar, cs: seq<Cookie>) {
    && (forall i :: 0 <= i < |cs| ==> cs[i].name in jar && jar[cs[i].name] == cs[i].value)
    && (forall n :: n in jar ==> exists i :: 0 <= i < |cs| && cs[i].name == n)
  }

  predicate DistinctNames(cs: seq<Cookie>) {
    forall i, j :: 0 <= i < j < |cs| ==> cs[i].name != cs[j].name
  }

  lemma {:induction false} JarOfMembers(req: seq<Cookie>)
    ensures forall c :: c in req ==> c.name in JarOf(req)
    ensures forall n :: n in JarOf(req) ==> Cookie(n, JarOf(req)[n]) in req
  {
    if req != [] {
      JarOfMembers(req[1..]);
      assert req == [req[0]] + req[1..];
      assert forall c :: c in req[1..] ==> c in req;
      assert Cookie(req[0].name, req[0].value) == req[0];
    }
  }

  lemma JarOfPermutation(req: seq<Cookie>, cs: seq<Cookie>)
    requires DistinctNames(cs) && multiset(req) == multiset(cs)
    ensures Exactly(JarOf(req), cs)
  {
    JarOfMembers(req);
    assert forall c :: c in req <==> c in multiset(req);
    assert forall c :: c in cs <==> c in multiset(cs);
    forall i | 0 <= i < |cs|
      ensures cs[i].name in JarOf(req) && JarOf(req)[cs[i].name] == cs[i].value
    {
      assert cs[i] in req;
      assert Cookie(cs[i].name, JarOf(req)[cs[i].name]) in cs;
    }
    forall n | n in JarOf(req)
      ensures exists i :: 0 <= i < |cs| && cs[i].name == n
    {
      assert Cookie(n, JarOf(req)[n]) in cs;
    }
  }

  // ----- chunks in a jar -----

  lemma ChunkCountUnique(jar: Jar, name: string, m: nat, n: nat)
    requires |name| <= MAX_NAME_LENGTH && ChunkCount(jar, name, m) && ChunkCount(jar, name, n)
    ensures m == n
  {
  }

  /** The jar holds the chunks `cs` of one value, from index 0 on. */
  ghost predicate HoldsChunks(jar: Jar, name: string, cs: seq<Cookie>)
    requires |name| <= MAX_NAME_LENGTH && |cs| <= INT64_MAX
  {
    forall i :: 0 <= i < |cs| ==>
                  cs[i].name == SplitCookieName(name, i) && cs[i].name in jar && jar[cs[i].name] == cs[i].value
  }

  lemma {:induction false} JoinedIsValues(jar: Jar, name: string, cs: seq<Cookie>, n: nat)
    requires |name| <= MAX_NAME_LENGTH && |cs| <= INT64_MAX && HoldsChunks(jar, name, cs) && n <= |cs|
    ensures JoinedValues(jar, name, n) == Values(cs[..n])
  {
    if n > 0 {
      JoinedIsValues(jar, name, cs, n - 1);
      assert cs[..n] == cs[..n - 1] + [cs[n - 1]];
      ValuesAppend(cs[..n - 1], cs[n - 1]);
    }
  }

  /** With no cookie of the base name and no chunk after the last, loading puts the chunks together. */
  lemma LoadChunks(jar: Jar, name: string, cs: seq<Cookie>, r: Option<Cookie>)
    requires |name| <= MAX_NAME_LENGTH && 2 <= |cs| <= INT64_MAX && HoldsChunks(jar, name, cs)
    requires name !in jar && SplitCookieName(name, |cs|) !in jar
    ensures Loads(jar, name, r) <==> r == Some(Cookie(name, Values(cs)))
  {
    assert forall i :: 0 <= i < |cs| ==> cs[i].name == SplitCookieName(name, i);
    assert ChunkCount(jar, name, |cs|);
    JoinedIsValues(jar, name, cs, |cs|);
    assert cs[..|cs|] == cs;
    assert Joined(jar, name, |cs|) == Some(Cookie(name, Values(cs)));
    forall n | ChunkCount(jar, name, n)
      ensures n == |cs|
    {
      ChunkCountUnique(jar, name, n, |cs|);
    }
  }

  /** A chunk is a proper part of the value. */
  lemma ChunkIsShorter(attrs: nat, name: string, signed: string, i: nat)
    requires Configured(attrs, name) && |signed| < INT64_MAX - 1 && Splits(attrs, name, signed)
    requires i < |SessionCookies(attrs, name, signed)|
    ensures SessionCookies(attrs, name, signed)[i].value != signed
  {
    SessionCookiesFit(attrs, name, signed);
    ChunksShape(attrs, name, signed, 0);
  }

  lemma SessionCookiesAreDistinct(attrs: nat, name: string, signed: string)
    requires Configured(attrs, name) && |signed| < INT64_MAX - 1
    ensures DistinctNames(SessionCookies(attrs, name, signed))
  {
    var cs := SessionCookies(attrs, name, signed);
    if Splits(attrs, name, signed) {
      ChunksShape(attrs, name, signed, 0);
      forall i, j | 0 <= i < j < |cs|
        ensures cs[i].name != cs[j].name
      {
        if cs[i].name == cs[j].name {
          SplitCookieNameInjective(name, i, j);
        }
      }
    }
  }

  /** One of the first n chunk names is the base name (see ChunkNameIsBaseName for when). */
  predicate Clashes(name: string, n: nat)
    requires |name| <= MAX_NAME_LENGTH && n <= INT64_MAX
  {
    exists i :: 0 <= i < n && SplitCookieName(name, i) == name
  }

  /** What `makeSessionCookie` sets, sent back in any order, loads as the original name and value
      exactly when the value was not split or no chunk took the base name. */
  lemma CookieRoundTrip(attrs: nat, name: string, signed: string, req: seq<Cookie>, r: Option<Cookie>)
    requires Configured(attrs, name) && |signed| < INT64_MAX - 1
    requires multiset(req) == multiset(SessionCookies(attrs, name, signed))
    requires Loads(JarOf(req), name, r)
    ensures |SessionCookies(attrs, name, signed)| <= INT64_MAX
    ensures r == Some(Cookie(name, signed)) <==>
            !Splits(attrs, name, signed) || !Clashes(name, |SessionCookies(attrs, name, signed)|)
  {
    var cs := SessionCookies(attrs, name, signed);
    var jar := JarOf(req);
    SessionCookiesAreDistinct(attrs, name, signed);
    JarOfPermutation(req, cs);
    SessionCookiesFit(attrs, name, signed);
    if !Splits(attrs, name, signed) {
      assert cs[0].name == name;
    } else {
      ChunksShape(attrs, name, signed, 0);
      if Clashes(name, |cs|) {
        var i :| 0 <= i < |cs| && SplitCookieName(name, i) == name;
        assert cs[i].name == name;
        ChunkIsShorter(attrs, name, signed, i);
      } else {
        NoStrayChunk(jar, name, cs);
        LoadChunks(jar, name, cs, r);
      }
    }
  }

  lemma NoStrayChunk(jar: Jar, name: string, cs: seq<Cookie>)
    requires |name| <= MAX_NAME_LENGTH && |cs| < INT64_MAX && Exactly(jar, cs)
    requires forall i :: 0 <= i < |cs| ==> cs[i].name == SplitCookieName(name, i)
    requires !Clashes(name, |cs|)
    ensures name !in jar && SplitCookieName(name, |cs|) !in jar
  {
    if SplitCookieName(name, |cs|) in jar {
      var i :| 0 <= i < |cs| && cs[i].name == SplitCookieName(name, |cs|);
      SplitCookieNameInjective(name, i, |cs|);
    }
  }

  // ----- clearing -----

  /** The pattern ^name(_\d+)?$ for a name without pattern characters. */
  predicate MatchesSession(name: string, n: string) {
    n == name || (|name| + 1 < |n| && name <= n && n[|name|] == '_' && AllDigits(n[|name| + 1..]))
  }

  predicate Numbered(name: string, n: string, digits: string) {
    n == name + "_" + digits && digits != [] && AllDigits(digits)
  }

  /** The name is the base name, or the base name with an underscore and a number. */
  ghost predicate IsSessionName(name: string, n: string) {
    n == name || exists digits :: Numbered(name, n, digits)
  }

  lemma MatchesIsSessionName(name: string, n: string)
    ensures MatchesSession(name, n) <==> IsSessionName(name, n)
  {
    if |name| + 1 < |n| && name <= n && n[|name|] == '_' {
      assert n == name + "_" + n[|name| + 1..];
      if MatchesSession(name, n) {
        assert Numbered(name, n, n[|name| + 1..]);
      }
    }
    forall digits | Numbered(name, n, digits)
      ensures MatchesSession(name, n)
    {
      assert n[|name| + 1..] == digits;
    }
  }

  /** Clear removes the session cookies from a jar, and leaves every other cookie as it is. */
  lemma ClearTakesOnlySession(jar: Jar, name: string, n: string)
    ensures n in Cleared(jar, name) <==> n in jar && !IsSessionName(name, n)
    ensures n in Cleared(jar, name) ==> Cleared(jar, name)[n] == jar[n]
  {
    MatchesIsSessionName(name, n);
  }

  /** The names `Clear` sends an expired cookie for. */
  method Clear(req: seq<Cookie>, name: string) returns (cleared: seq<string>)
    ensures forall n :: n in cleared <==> IsSessionName(name, n) && n in JarOf(req)
  {
    cleared := [];
    JarOfMembers(req);
    for i := 0 to |req|
      invariant forall n :: n in cleared <==> MatchesSession(name, n) && exists j :: 0 <= j < i && req[j].name == n
    {
      if MatchesSession(name, req[i].name) {
        cleared := cleared + [req[i].name];
      }
    }
    forall n
      ensures MatchesSession(name, n) <==> IsSessionName(name, n)
      ensures n in JarOf(req) <==> exists j :: 0 <= j < |req| && req[j].name == n
    {
      MatchesIsSessionName(name, n);
      if n in JarOf(req) {
        assert Cookie(n, JarOf(req)[n]) in req;
      }
    }
  }

  /** The jar after the response to Clear. */
  function Cleared(jar: Jar, name: string): Jar {
    map n | n in jar && !MatchesSession(name, n) :: jar[n]
  }

  /** Clear reaches a chunk exactly when its name was not cut, or is the base name. */
  lemma ChunkIsMatched(name: string, i: nat)
    requires |name| <= MAX_NAME_LENGTH && i <= INT64_MAX
    ensures MatchesSession(name, SplitCookieName(name, i)) <==>
            |name| + 1 + |Decimal(i)| <= MAX_NAME_LENGTH || SplitCookieName(name, i) == name
  {
    var r, cut := SplitCookieName(name, i), CutName(name, i);
    if |name| + 1 + |Decimal(i)| <= MAX_NAME_LENGTH {
      assert r[|name| + 1..] == Decimal(i);
    } else {
      assert |cut| < |name|;
      if |name| < |r| {
        assert r[|name|] == Decimal(i)[|name| - |cut| - 1];
        assert IsDigit(r[|name|]);
      }
    }
  }

  /** Clear leaves no loadable session, whatever the jar held, exactly when the name has at most 254
      characters or its chunk 0 is the base name. */
  lemma ClearLeavesNoSession(name: string)
    requires |name| <= MAX_NAME_LENGTH
    ensures (forall jar: Jar :: Loads(Cleared(jar, name), name, None)) <==>
            |name| <= MAX_NAME_LENGTH - 2 || SplitCookieName(name, 0) == name
  {
    var chunk0 := SplitCookieName(name, 0);
    ChunkIsMatched(name, 0);
    if MatchesSession(name, chunk0) {
      forall jar: Jar
        ensures Loads(Cleared(jar, name), name, None)
      {
        assert ChunkCount(Cleared(jar, name), name, 0);
        assert Joined(Cleared(jar, name), name, 0) == None;
      }
    } else {
      var stale: Jar := map[chunk0 := "stale"];
      assert Cleared(stale, name) == stale;
      assert forall n :: ChunkCount(stale, name, n) ==> n != 0;
      assert !Loads(Cleared(stale, name), name, None);
    }
  }

  /** Clear keeps the CSRF cookies, of one flow or of many. */
  lemma ClearKeepsCsrf(jar: Jar, name: string, stateSubstring: string)
    ensures var csrf := if stateSubstring == "" then name + "_csrf" else name + "_" + stateSubstring + "_csrf";
            csrf in jar ==> csrf in Cleared(jar, name) && Cleared(jar, name)[csrf] == jar[csrf]
  {
    var csrf := if stateSubstring == "" then name + "_csrf" else name + "_" + stateSubstring + "_csrf";
    assert csrf[|csrf| - 1] == 'f' && !IsDigit('f');
    if |name| + 1 < |csrf| {
      assert csrf[|name| + 1..][|csrf| - |name| - 2] == 'f';
    }
  }

  // ----- clear, save, load -----

  /** The jar after a response that sets `cs`. */
  function SetAll(jar: Jar, cs: seq<Cookie>): Jar {
    if cs == [] then jar else SetAll(jar, cs[..|cs| - 1])[cs[|cs| - 1].name := cs[|cs| - 1].value]
  }

  lemma {:induction false} SetAllGives(jar: Jar, cs: seq<Cookie>)
    requires DistinctNames(cs)
    ensures forall i :: 0 <= i < |cs| ==> cs[i].name in SetAll(jar, cs) && SetAll(jar, cs)[cs[i].name] == cs[i].value
    ensures forall n :: n in SetAll(jar, cs) <==> n in jar || exists i :: 0 <= i < |cs| && cs[i].name == n
  {
    if cs != [] {
      var init := cs[..|cs| - 1];
      SetAllGives(jar, init);
      assert forall i :: 0 <= i < |init| ==> init[i] == cs[i];
      forall n
        ensures n in SetAll(jar, cs) <==> n in jar || exists i :: 0 <= i < |cs| && cs[i].name == n
      {
        if n == cs[|cs| - 1].name {
        } else if exists i :: 0 <= i < |cs| && cs[i].name == n {
          var i :| 0 <= i < |cs| && cs[i].name == n;
          assert init[i].name == n;
        }
      }
    }
  }

  /** When a value saved after Clear can be loaded again: it is one cookie; or no chunk takes the base
      name and Clear reaches the chunk that would come after the last. */
  predicate Reloadable(attrs: nat, name: string, signed: string)
    requires Configured(attrs, name) && |signed| < INT64_MAX - 1
  {
    Splits(attrs, name, signed) ==>
      (ChunksShape(attrs, name, signed, 0);
       var n := |SessionCookies(attrs, name, signed)|;
       && !Clashes(name, n)
       && (|name| + 1 + |Decimal(n)| <= MAX_NAME_LENGTH || SplitCookieName(name, n) == name))
  }

  ghost predicate ReloadsFrom(attrs: nat, name: string, signed: string, jar: Jar)
    requires Configured(attrs, name) && |signed| < INT64_MAX - 1
  {
    forall r :: Loads(SetAll(Cleared(jar, name), SessionCookies(attrs, name, signed)), name, r) ==>
                r == Some(Cookie(name, signed))
  }

  lemma SingleReloads(jar: Jar, c: Cookie, r: Option<Cookie>)
    requires |c.name| <= MAX_NAME_LENGTH && Loads(SetAll(jar, [c]), c.name, r)
    ensures r == Some(c)
  {
    SetAllGives(jar, [c]);
    hide SetAll, SplitCookieName;
    assert [c][0].name in SetAll(jar, [c]);
  }

  /** Consecutive chunks set over a jar without session cookies load as one value. */
  lemma ChunksReload(jar: Jar, name: string, cs: seq<Cookie>, r: Option<Cookie>)
    requires |name| <= MAX_NAME_LENGTH && 2 <= |cs| < INT64_MAX && DistinctNames(cs) && !Clashes(name, |cs|)
    requires forall i :: 0 <= i < |cs| ==> cs[i].name == SplitCookieName(name, i)
    requires name !in jar && SplitCookieName(name, |cs|) !in jar
    requires Loads(SetAll(jar, cs), name, r)
    ensures r == Some(Cookie(name, Values(cs)))
  {
    var after := SetAll(jar, cs);
    SetAllGives(jar, cs);
    hide SetAll, SplitCookieName, Decimal, Loads, Values;
    if SplitCookieName(name, |cs|) in after {
      var i :| 0 <= i < |cs| && cs[i].name == SplitCookieName(name, |cs|);
      SplitCookieNameInjective(name, i, |cs|);
    }
    LoadChunks(after, name, cs, r);
  }

  lemma ReloadableReloads(attrs: nat, name: string, signed: string, jar: Jar)
    requires Configured(attrs, name) && |signed| < INT64_MAX - 1 && Reloadable(attrs, name, signed)
    ensures ReloadsFrom(attrs, name, signed, jar)
  {
    var cs, left := SessionCookies(attrs, name, signed), Cleared(jar, name);
    SessionCookiesAreDistinct(attrs, name, signed);
    SessionCookiesFit(attrs, name, signed);
    hide SetAll, SplitCookieName, Decimal, Chunks, Loads, Values;
    forall r | Loads(SetAll(left, cs), name, r)
      ensures r == Some(Cookie(name, signed))
    {
      if Splits(attrs, name, signed) {
        ChunksShape(attrs, name, signed, 0);
        ChunkIsMatched(name, |cs|);
        ChunksReload(left, name, cs, r);
      } else {
        SingleReloads(left, Cookie(name, signed), r);
      }
    }
  }

  lemma ClashSpoils(attrs: nat, name: string, signed: string, i: nat)
    requires Configured(attrs, name) && |signed| < INT64_MAX - 1 && Splits(attrs, name, signed)
    requires i < |SessionCookies(attrs, name, signed)| && SessionCookies(attrs, name, signed)[i].name == name
    ensures !ReloadsFrom(attrs, name, signed, map[])
  {
    var cs := SessionCookies(attrs, name, signed);
    SessionCookiesAreDistinct(attrs, name, signed);
    ChunkIsShorter(attrs, name, signed, i);
    hide Chunks, SetAll;
    SetAllGives(Cleared(map[], name), cs);
    assert Loads(SetAll(Cleared(map[], name), cs), name, Some(Cookie(name, cs[i].value)));
  }

  lemma StaleSpoils(attrs: nat, name: string, signed: string, stale: Cookie)
    requires Configured(attrs, name) && |signed| < INT64_MAX - 1 && Splits(attrs, name, signed)
    requires |SessionCookies(attrs, name, signed)| <= |signed| && !Clashes(name, |SessionCookies(attrs, name, signed)|)
    requires stale.name == SplitCookieName(name, |SessionCookies(attrs, name, signed)|) && stale.value != ""
    requires !MatchesSession(name, stale.name)
    ensures !ReloadsFrom(attrs, name, signed, map[stale.name := stale.value])
  {
    var cs := SessionCookies(attrs, name, signed);
    var jar: Jar := map[stale.name := stale.value];
    SessionCookiesAreDistinct(attrs, name, signed);
    SessionCookiesFit(attrs, name, signed);
    ChunksShape(attrs, name, signed, 0);
    UnmatchedStays(name, stale);
    hide Chunks, SplitCookieName, SetAll, Values, Loads, Cleared, MatchesSession, DistinctNames;
    StaleIsDistinct(name, cs, stale);
    StaleChunkIsJoined(jar, name, cs, stale);
    assert |Values(cs + [stale])| != |signed|;
  }

  lemma UnmatchedStays(name: string, stale: Cookie)
    requires !MatchesSession(name, stale.name)
    ensures Cleared(map[stale.name := stale.value], name) == map[stale.name := stale.value]
  {
  }

  /** A jar left over from earlier sessions that spoils the reload. */
  lemma UnreloadableFails(attrs: nat, name: string, signed: string) returns (jar: Jar)
    requires Configured(attrs, name) && |signed| < INT64_MAX - 1 && !Reloadable(attrs, name, signed)
    ensures !ReloadsFrom(attrs, name, signed, jar)
  {
    var cs := SessionCookies(attrs, name, signed);
    ChunksShape(attrs, name, signed, 0);
    if Clashes(name, |cs|) {
      var i :| 0 <= i < |cs| && SplitCookieName(name, i) == name;
      jar := map[];
      ClashSpoils(attrs, name, signed, i);
    } else {
      var stale := Cookie(SplitCookieName(name, |cs|), "stale");
      jar := map[stale.name := stale.value];
      ChunkIsMatched(name, |cs|);
      StaleSpoils(attrs, name, signed, stale);
    }
  }

  lemma StaleIsDistinct(name: string, cs: seq<Cookie>, stale: Cookie)
    requires |name| <= MAX_NAME_LENGTH && |cs| <= INT64_MAX && DistinctNames(cs)
    requires forall i :: 0 <= i < |cs| ==> cs[i].name == SplitCookieName(name, i)
    requires stale.name == SplitCookieName(name, |cs|)
    ensures DistinctNames(cs + [stale])
  {
    forall i | 0 <= i < |cs|
      ensures cs[i].name != stale.name
    {
      if cs[i].name == stale.name {
        SplitCookieNameInjective(name, i, |cs|);
      }
    }
  }

  lemma StaleChunkIsJoined(jar: Jar, name: string, cs: seq<Cookie>, stale: Cookie)
    requires |name| <= MAX_NAME_LENGTH && 2 <= |cs| < INT64_MAX - 1 && DistinctNames(cs + [stale])
             && !Clashes(name, |cs|)
    requires forall i :: 0 <= i < |cs| ==> cs[i].name == SplitCookieName(name, i)
    requires stale.name == SplitCookieName(name, |cs|) != name && jar == map[stale.name := stale.value]
    ensures Values(cs + [stale]) == Values(cs) + stale.value
    ensures Loads(SetAll(jar, cs), name, Some(Cookie(name, Values(cs + [stale]))))
  {
    hide SetAll, Values, Decimal, SplitCookieName;
    var after, all := SetAll(jar, cs), cs + [stale];
    ValuesAppend(cs, stale);
    ExactlyAfter(jar, cs, stale);
    assert forall i :: 0 <= i < |all| ==> all[i].name == SplitCookieName(name, i);
    NoStrayChunk(after, name, all);
    LoadChunks(after, name, all, Some(Cookie(name, Values(all))));
  }

  lemma ExactlyAfter(jar: Jar, cs: seq<Cookie>, stale: Cookie)
    requires DistinctNames(cs + [stale]) && jar == map[stale.name := stale.value]
    ensures Exactly(SetAll(jar, cs), cs + [stale])
  {
    var all := cs + [stale];
    assert forall i :: 0 <= i < |cs| ==> all[i] == cs[i];
    assert forall i :: 0 <= i < |cs| ==> all[i].name != all[|cs|].name;
    SetAllGives(jar, cs);
    SetAllKeeps(jar, cs, stale.name);
    forall n | n in SetAll(jar, cs)
      ensures exists i :: 0 <= i < |all| && all[i].name == n
    {
      if n in jar {
        assert all[|cs|].name == n;
      } else {
        var i :| 0 <= i < |cs| && cs[i].name == n;
        assert all[i].name == n;
      }
    }
  }

  lemma {:induction false} SetAllKeeps(jar: Jar, cs: seq<Cookie>, n: string)
    requires n in jar && forall i :: 0 <= i < |cs| ==> cs[i].name != n
    ensures n in SetAll(jar, cs) && SetAll(jar, cs)[n] == jar[n]
  {
    if cs != [] {
      SetAllKeeps(jar, cs[..|cs| - 1], n);
    }
  }

  /** Clear, Save, Load gives the saved cookie from every earlier jar exactly when the name and the
      number of chunks meet the condition above. */
  lemma ClearSaveLoad(attrs: nat, name: string, signed: string)
    requires Configured(attrs, name) && |signed| < INT64_MAX - 1
    ensures (forall jar: Jar :: ReloadsFrom(attrs, name, signed, jar)) <==> Reloadable(attrs, name, signed)
  {
    if Reloadable(attrs, name, signed) {
      forall jar: Jar
        ensures ReloadsFrom(attrs, name, signed, jar)
      {
        ReloadableReloads(attrs, name, signed, jar);
      }
    } else {
      var jar := UnreloadableFails(attrs, name, signed);
    }
  }

  /** The whole way: a session value signed, cut up, stored over any earlier jar after a Clear, loaded
      and checked comes back unchanged for as long as its signature is in the window. */
  lemma SessionRoundTrip(attrs: nat, mac: Mac, seed: string, name: string, value: string, signedAt: int,
                         jar: Jar, r: Option<Cookie>, expiration: int, now1: int, now2: int)
    requires Configured(attrs, name) && IsBytes(value) && value != ""
    requires INT64_MIN <= Unix(signedAt) <= INT64_MAX
    requires |SessionValue(mac, seed, name, value, signedAt)| < INT64_MAX - 1
    requires Reloadable(attrs, name, SessionValue(mac, seed, name, value, signedAt))
    requires Loads(SetAll(Cleared(jar, name), SessionCookies(attrs, name,
                            SessionValue(mac, seed, name, value, signedAt))), name, r)
    ensures r.Some?
    ensures Validate(mac, r.value.name, r.value.value, seed, expiration, now1, now2)
            == if InWindow(Unix(signedAt), expiration, now1, now2) then Some(Signed(value, Unix(signedAt))) else None
  {
    var signed := SessionValue(mac, seed, name, value, signedAt);
    ClearSaveLoad(attrs, name, signed);
    assert ReloadsFrom(attrs, name, signed, jar);
    ValidateSigned(mac, seed, name, value, signedAt, expiration, now1, now2);
  }
}
