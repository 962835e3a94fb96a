/** The cookie session store (pkg/sessions/cookie/session_store.go): a signed value too long for one
    cookie is cut into numbered chunks, and put together again from whatever the browser sends. */
module CookieStore {
  import opened Text
  import opened Signing

  const MAX_COOKIE_LENGTH := 4000
  const MAX_NAME_LENGTH := 256

  datatype Cookie = Cookie(name: string, value: string)

  /** `len(c.String())`: name, `=`, value, and `attrs` bytes of attributes, which are the same for
      every cookie of one store. The values here need no quoting. */
  function CookieLength(attrs: nat, c: Cookie): nat {
    |c.name| + 1 + |c.value| + attrs
  }

  /** What the store is configured with: a cookie name that passes validation
      (pkg/validation/cookie.go:47) and attributes that leave room for a value. */
  predicate Configured(attrs: nat, name: string) {
    |name| <= MAX_NAME_LENGTH && attrs + MAX_NAME_LENGTH + 1 < MAX_COOKIE_LENGTH
  }

  // ----- chunk names -----

  /** `count` is a Go int. The base name is cut so that the whole name stays within 256. */
  function SplitCookieName(name: string, count: nat): (r: string)
    requires |name| <= MAX_NAME_LENGTH && count <= INT64_MAX
    ensures |name| <= |r| <= MAX_NAME_LENGTH
  {
    Int64Length(count);
    var overflow := |name| + 1 + |Decimal(count)| - MAX_NAME_LENGTH;
    (if overflow > 0 then name[..|name| - overflow] else name) + "_" + Decimal(count)
  }

  /** The base name a chunk name was cut to. */
  function CutName(name: string, count: nat): (r: string)
    requires |name| <= MAX_NAME_LENGTH && count <= INT64_MAX
    ensures SplitCookieName(name, count) == r + ['_'] + Decimal(count)
  {
    Int64Length(count);
    var overflow := |name| + 1 + |Decimal(count)| - MAX_NAME_LENGTH;
    if overflow > 0 then name[..|name| - overflow] else name
  }

  /** Chunk names tell their indices apart, even when the base name is cut to different lengths. */
  lemma SplitCookieNameInjective(name: string, i: nat, j: nat)
    requires |name| <= MAX_NAME_LENGTH && i <= INT64_MAX && j <= INT64_MAX
    requires SplitCookieName(name, i) == SplitCookieName(name, j)
    ensures i == j
  {
    LastFieldUnique(CutName(name, i), Decimal(i), CutName(name, j), Decimal(j), '_');
    DecimalInjective(i, j);
  }

  /** A chunk name is the base name itself exactly when the base name uses all 256 characters and
      already ends in that index. */
  lemma ChunkNameIsBaseName(name: string, i: nat)
    requires |name| <= MAX_NAME_LENGTH && i <= INT64_MAX
    ensures SplitCookieName(name, i) == name <==> |name| == MAX_NAME_LENGTH && HasSuffix(name, "_" + Decimal(i))
  {
    Int64Length(i);
    var suffix := "_" + Decimal(i);
    var r := SplitCookieName(name, i);
    assert r[|r| - |suffix|..] == suffix;
    if |name| == MAX_NAME_LENGTH {
      assert r == name[..|name| - |suffix|] + suffix;
      assert name == name[..|name| - |suffix|] + name[|name| - |suffix|..];
    }
  }

  // ----- splitting -----

  function Chunks(attrs: nat, name: string, value: string, count: nat): seq<Cookie>
    requires Configured(attrs, name) && count + |value| <= INT64_MAX
    decreases |value|
  {
    if value == [] then []
    else
      var whole := Cookie(SplitCookieName(name, count), value);
      var length := CookieLength(attrs, whole);
      if length <= MAX_COOKIE_LENGTH then [whole]
      else
        var size := |value| - (length - MAX_COOKIE_LENGTH);
        [whole.(value := value[..size])] + Chunks(attrs, name, value[size..], count + 1)
  }

  method SplitCookie(attrs: nat, c: Cookie) returns (cookies: seq<Cookie>)
    requires Configured(attrs, c.name) && |c.value| <= INT64_MAX
    ensures cookies == if CookieLength(attrs, c) < MAX_COOKIE_LENGTH then [c] else Chunks(attrs, c.name, c.value, 0)
  {
    if CookieLength(attrs, c) < MAX_COOKIE_LENGTH {
      return [c];
    }
    cookies := [];
    var valueBytes := c.value;
    var count := 0;
    while |valueBytes| > 0
      invariant count + |valueBytes| <= INT64_MAX
      invariant cookies + Chunks(attrs, c.name, valueBytes, count) == Chunks(attrs, c.name, c.value, 0)
      decreases |valueBytes|
    {
      var newCookie := Cookie(SplitCookieName(c.name, count), valueBytes);
      var cookieLength := CookieLength(attrs, newCookie);
      var rest := [];
      if cookieLength > MAX_COOKIE_LENGTH {
        var overflow := cookieLength - MAX_COOKIE_LENGTH;
        var valueSize := |valueBytes| - overflow;
        newCookie := newCookie.(value := valueBytes[..valueSize]);
        rest := valueBytes[valueSize..];
      }
      assert Chunks(attrs, c.name, valueBytes, count) == [newCookie] + Chunks(attrs, c.name, rest, count + 1);
      valueBytes, count := rest, count + 1;
      cookies := cookies + [newCookie];
    }
  }

  function Values(cookies: seq<Cookie>): string {
    if cookies == [] then [] else cookies[0].value + Values(cookies[1..])
  }

  /** Cookies named by consecutive indices from `count` on, all but the last filled to the limit,
      that put together give `value`. */
  predicate Chunked(attrs: nat, name: string, value: string, count: nat, cs: seq<Cookie>)
    requires |name| <= MAX_NAME_LENGTH && count + |value| <= INT64_MAX
  {
    && |cs| <= |value| && (value != [] ==> cs != []) && Values(cs) == value
    && (forall i :: 0 <= i < |cs| ==> cs[i].name == SplitCookieName(name, count + i) && cs[i].value != [])
    && (forall i :: 0 <= i < |cs| ==> CookieLength(attrs, cs[i]) <= MAX_COOKIE_LENGTH)
    && (forall i :: 0 <= i < |cs| - 1 ==> CookieLength(attrs, cs[i]) == MAX_COOKIE_LENGTH)
  }

  lemma ChunkedCons(attrs: nat, name: string, value: string, count: nat, size: nat, rest: seq<Cookie>)
    requires |name| <= MAX_NAME_LENGTH && count + |value| <= INT64_MAX && 0 < size < |value|
    requires Chunked(attrs, name, value[size..], count + 1, rest)
    requires CookieLength(attrs, Cookie(SplitCookieName(name, count), value[..size])) == MAX_COOKIE_LENGTH
    ensures Chunked(attrs, name, value, count, [Cookie(SplitCookieName(name, count), value[..size])] + rest)
  {
    var cs := [Cookie(SplitCookieName(name, count), value[..size])] + rest;
    assert cs[1..] == rest;
    assert value == value[..size] + value[size..];
    assert forall i :: 1 <= i < |cs| ==> cs[i] == rest[i - 1];
  }

  lemma {:induction false} ChunksShape(attrs: nat, name: string, value: string, count: nat)
    requires Configured(attrs, name) && count + |value| <= INT64_MAX
    ensures Chunked(attrs, name, value, count, Chunks(attrs, name, value, count))
    decreases |value|
  {
    if value != [] {
      var whole := Cookie(SplitCookieName(name, count), value);
      var length := CookieLength(attrs, whole);
      if length > MAX_COOKIE_LENGTH {
        var size := |value| - (length - MAX_COOKIE_LENGTH);
        ChunksShape(attrs, name, value[size..], count + 1);
        ChunkedCons(attrs, name, value, count, size, Chunks(attrs, name, value[size..], count + 1));
      } else {
        assert [whole][1..] == [];
      }
    }
  }

  /** What `makeSessionCookie` sets for an already signed value. */
  function SessionCookies(attrs: nat, name: string, signed: string): seq<Cookie>
    requires Configured(attrs, name) && |signed| <= INT64_MAX
  {
    if Splits(attrs, name, signed) then Chunks(attrs, name, signed, 0) else [Cookie(name, signed)]
  }

  predicate Splits(attrs: nat, name: string, signed: string) {
    CookieLength(attrs, Cookie(name, signed)) > MAX_COOKIE_LENGTH
  }

  method MakeSessionCookie(attrs: nat, mac: Mac, seed: string, name: string, value: string, now: int)
    returns (cookies: seq<Cookie>)
    requires Configured(attrs, name) && IsBytes(value) && |SessionValue(mac, seed, name, value, now)| <= INT64_MAX
    ensures cookies == SessionCookies(attrs, name, SessionValue(mac, seed, name, value, now))
  {
    var c := Cookie(name, SessionValue(mac, seed, name, value, now));
    if CookieLength(attrs, c) > MAX_COOKIE_LENGTH {
      cookies := SplitCookie(attrs, c);
    } else {
      cookies := [c];
    }
  }

  /** An empty value is not signed. */
  function SessionValue(mac: Mac, seed: string, name: string, value: string, now: int): string
    requires IsBytes(value)
  {
    if value == "" then "" else SignedValue(mac, seed, name, value, now)
  }

  /** A value that is split at all gives at least two cookies, so `joinCookies` never meets the single
      cookie whose chunk name it would keep; and every cookie fits the limit. */
  lemma SessionCookiesFit(attrs: nat, name: string, signed: string)
    requires Configured(attrs, name) && |signed| <= INT64_MAX
    ensures var cs := SessionCookies(attrs, name, signed);
            && (|cs| >= 2 <==> |name| + 1 + |signed| + attrs > 4000) && (|cs| >= 2 <==> Splits(attrs, name, signed))
            && (forall i :: 0 <= i < |cs| ==> |cs[i].name| + 1 + |cs[i].value| + attrs <= 4000)
            && (forall i :: 0 <= i < |cs| - 1 ==> |cs[i].name| + 1 + |cs[i].value| + attrs == 4000)
            && Values(cs) == signed
  {
    var cs := SessionCookies(attrs, name, signed);
    if Splits(attrs, name, signed) {
      ChunksShape(attrs, name, signed, 0);
      var length := CookieLength(attrs, Cookie(SplitCookieName(name, 0), signed));
      ChunksShape(attrs, name, signed[|signed| - (length - MAX_COOKIE_LENGTH)..], 1);
    } else {
      assert cs[1..] == [] && Values(cs) == signed;
    }
  }

  // ----- loading -----

  /** `req.Cookie(name)`: the value of the first cookie of that name. */
  function Lookup(req: seq<Cookie>, name: string): Option<string> {
    if req == [] then None
    else if req[0].name == name then Some(req[0].value)
    else Lookup(req[1..], name)
  }

  type Jar = map<string, string>

  function Get(jar: Jar, name: string): Option<string> {
    if name in jar then Some(jar[name]) else None
  }

  /** What a request's cookies say, whatever their order. */
  function JarOf(req: seq<Cookie>): Jar {
    if req == [] then map[] else JarOf(req[1..])[req[0].name := req[0].value]
  }

  lemma {:induction false} LookupIsGet(req: seq<Cookie>, name: string)
    ensures Lookup(req, name) == Get(JarOf(req), name)
  {
    if req != [] {
      LookupIsGet(req[1..], name);
    }
  }

  /** The chunks 0 to n - 1 are there and chunk n is not. */
  ghost predicate ChunkCount(jar: Jar, name: string, n: nat)
    requires |name| <= MAX_NAME_LENGTH
  {
    && n <= INT64_MAX
    && (forall i :: 0 <= i < n ==> SplitCookieName(name, i) in jar)
    && SplitCookieName(name, n) !in jar
  }

  function JoinedValues(jar: Jar, name: string, n: nat): string
    requires |name| <= MAX_NAME_LENGTH && n <= INT64_MAX
    requires forall i :: 0 <= i < n ==> SplitCookieName(name, i) in jar
  {
    if n == 0 then [] else JoinedValues(jar, name, n - 1) + jar[SplitCookieName(name, n - 1)]
  }

  /** What loading a session cookie from a jar gives: the cookie of the base name; or else the chunks
      up to the first missing one, under the base name if there are at least two. */
  ghost predicate Loads(jar: Jar, name: string, r: Option<Cookie>)
    requires |name| <= MAX_NAME_LENGTH
  {
    if name in jar then r == Some(Cookie(name, jar[name]))
    else exists n :: ChunkCount(jar, name, n) && r == Joined(jar, name, n)
  }

  ghost function Joined(jar: Jar, name: string, n: nat): Option<Cookie>
    requires |name| <= MAX_NAME_LENGTH && ChunkCount(jar, name, n)
  {
    if n == 0 then None
    else Some(Cookie(if n == 1 then SplitCookieName(name, 0) else name, JoinedValues(jar, name, n)))
  }

  method JoinCookies(cookies: seq<Cookie>, cookieName: string) returns (c: Cookie)
    requires cookies != []
    ensures c == Cookie(if |cookies| == 1 then cookies[0].name else cookieName, Values(cookies))
  {
    if |cookies| == 1 {
      assert cookies[1..] == [];
      return cookies[0];
    }
    var value := cookies[0].value;
    assert Values(cookies[..1]) == value by { assert cookies[..1][1..] == []; }
    for i := 1 to |cookies|
      invariant value == Values(cookies[..i])
    {
      ValuesAppend(cookies[..i], cookies[i]);
      assert cookies[..i] + [cookies[i]] == cookies[..i + 1];
      value := value + cookies[i].value;
    }
    assert cookies[..|cookies|] == cookies;
    c := Cookie(cookieName, value);
  }

  lemma {:induction false} ValuesAppend(cookies: seq<Cookie>, c: Cookie)
    ensures Values(cookies + [c]) == Values(cookies) + c.value
  {
    if cookies == [] {
      assert ([] + [c])[1..] == [];
    } else {
      ValuesAppend(cookies[1..], c);
      assert (cookies + [c])[1..] == cookies[1..] + [c];
    }
  }

  ghost function ChunkNames(name: string, n: nat): set<string>
    requires |name| <= MAX_NAME_LENGTH && n <= INT64_MAX + 1
  {
    set i | 0 <= i < n :: SplitCookieName(name, i)
  }

  lemma ChunkNamesStep(name: string, n: nat)
    requires |name| <= MAX_NAME_LENGTH && 0 < n <= INT64_MAX + 1
    ensures ChunkNames(name, n) == ChunkNames(name, n - 1) + {SplitCookieName(name, n - 1)}
    ensures SplitCookieName(name, n - 1) !in ChunkNames(name, n - 1)
  {
    hide SplitCookieName;
    var last := SplitCookieName(name, n - 1);
    if last in ChunkNames(name, n - 1) {
      var i :| 0 <= i < n - 1 && SplitCookieName(name, i) == last;
      SplitCookieNameInjective(name, i, n - 1);
    }
  }

  /** n chunk names are n different names. */
  lemma {:induction false} ChunkNamesCount(name: string, n: nat)
    requires |name| <= MAX_NAME_LENGTH && n <= INT64_MAX + 1
    ensures |ChunkNames(name, n)| == n
  {
    if n > 0 {
      hide ChunkNames, SplitCookieName;
      ChunkNamesCount(name, n - 1);
      ChunkNamesStep(name, n);
    }
  }

  lemma ChunksWithinJar(jar: Jar, name: string, n: nat)
    requires |name| <= MAX_NAME_LENGTH && n <= INT64_MAX + 1
    requires forall i :: 0 <= i < n ==> SplitCookieName(name, i) in jar
    ensures n <= |jar|
  {
    ChunkNamesCount(name, n);
    SubsetSize(ChunkNames(name, n), jar.Keys);
  }

  /** The count loop ends, as a request has finitely many cookies and chunk names do not repeat. */
  method LoadCookie(req: seq<Cookie>, name: string) returns (r: Option<Cookie>)
    requires |name| <= MAX_NAME_LENGTH && |JarOf(req)| < INT64_MAX
    ensures Loads(JarOf(req), name, r)
  {
    ghost var jar := JarOf(req);
    LookupIsGet(req, name);
    var single := Lookup(req, name);
    if single.Some? {
      return Some(Cookie(name, single.value));
    }
    var cookies := [];
    var count := 0;
    LookupIsGet(req, SplitCookieName(name, 0));
    var next := Lookup(req, SplitCookieName(name, 0));
    while next.Some?
      invariant count <= |jar| && |cookies| == count
      invariant forall i :: 0 <= i < count ==> SplitCookieName(name, i) in jar
      invariant next == Get(jar, SplitCookieName(name, count))
      invariant Values(cookies) == JoinedValues(jar, name, count)
      invariant count > 0 ==> cookies[0].name == SplitCookieName(name, 0)
      decreases |jar| - count
    {
      ValuesAppend(cookies, Cookie(SplitCookieName(name, count), next.value));
      cookies := cookies + [Cookie(SplitCookieName(name, count), next.value)];
      count := count + 1;
      ChunksWithinJar(jar, name, count);
      LookupIsGet(req, SplitCookieName(name, count));
      next := Lookup(req, SplitCookieName(name, count));
    }
    assert ChunkCount(jar, name, count);
    if cookies == [] {
      r := None;
    } else {
      var c := JoinCookies(cookies, name);
      r := Some(c);
    }
  }
}
