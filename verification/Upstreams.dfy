/** Routing to upstreams (pkg/upstream/proxy.go): routes are registered in the order of an unstable
    sort, and the first one that matches serves the request. */
module Upstreams {
  import opened Text

  /** An upstream without a rewrite target is matched by its path; one with a target by the pattern
      its path holds. */
  datatype Upstream = Upstream(id: string, path: string, rewriteTarget: string)

  predicate Rewrites(u: Upstream) {
    u.rewriteTarget != ""
  }

  // ----- the order -----

  /** The comparison given to `sort.Slice`. */
  predicate Less(a: Upstream, b: Upstream) {
    if Rewrites(a) && Rewrites(b) then |a.path| > |b.path|
    else if Rewrites(a) then true
    else if Rewrites(b) then false
    else |a.path| > |b.path|
  }

  /** What `sort.Slice` asks of a comparison: a strict weak order. */
  lemma LessIsStrictWeakOrder(a: Upstream, b: Upstream, c: Upstream)
    ensures !Less(a, a)
    ensures Less(a, b) && Less(b, c) ==> Less(a, c)
    ensures !Less(a, b) && !Less(b, c) ==> !Less(a, c)
  {
  }

  /** Any outcome the sort may have: the same upstreams, none before one that is less. */
  predicate Arranged(config: seq<Upstream>, sorted: seq<Upstream>) {
    && multiset(sorted) == multiset(config)
    && forall i, j :: 0 <= i < j < |sorted| ==> !Less(sorted[j], sorted[i])
  }

  lemma ArrangedMembers(config: seq<Upstream>, sorted: seq<Upstream>)
    requires Arranged(config, sorted)
    ensures forall u :: u in config <==> u in sorted
  {
    forall u
      ensures u in config <==> u in sorted
    {
      assert u in config <==> u in multiset(config);
      assert u in sorted <==> u in multiset(sorted);
    }
  }

  // ----- matching -----

  /** Whether the pattern of a rewrite matches a path is up to Go's `regexp`. */
  type Patterns = (Upstream, string) -> bool

  predicate Matches(patterns: Patterns, u: Upstream, path: string) {
    if Rewrites(u) then patterns(u, path)
    else if HasSuffix(u.path, "/") then HasPrefix(path, u.path)
    else path == u.path
  }

  /** A configured path covers itself and, if it ends in a slash, whatever it starts. */
  predicate PathCovers(configured: string, path: string) {
    path == configured || (configured != "" && configured[|configured| - 1] == '/' && configured <= path)
  }

  /** The upstream can serve the path: by its pattern if it has a rewrite target, else by its path. */
  predicate CanServe(patterns: Patterns, u: Upstream, path: string) {
    if u.rewriteTarget != "" then patterns(u, path) else PathCovers(u.path, path)
  }

  lemma MatchesIsCanServe(patterns: Patterns, u: Upstream, path: string)
    ensures Matches(patterns, u, path) <==> CanServe(patterns, u, path)
  {
    if u.path != "" {
      assert u.path[|u.path| - 1..] == [u.path[|u.path| - 1]];
    }
  }

  function FirstMatch(patterns: Patterns, routes: seq<Upstream>, path: string): Option<Upstream> {
    if routes == [] then None
    else if Matches(patterns, routes[0], path) then Some(routes[0])
    else FirstMatch(patterns, routes[1..], path)
  }

  lemma {:induction false} FirstMatchIs(patterns: Patterns, routes: seq<Upstream>, path: string)
    ensures FirstMatch(patterns, routes, path).None? <==> forall u :: u in routes ==> !Matches(patterns, u, path)
    ensures FirstMatch(patterns, routes, path).Some? ==>
              exists k :: 0 <= k < |routes| && routes[k] == FirstMatch(patterns, routes, path).value
                          && Matches(patterns, routes[k], path)
                          && forall j :: 0 <= j < k ==> !Matches(patterns, routes[j], path)
  {
    if routes != [] {
      var rest := routes[1..];
      FirstMatchIs(patterns, rest, path);
      assert routes == [routes[0]] + rest;
      if Matches(patterns, routes[0], path) {
        assert routes[0] in routes;
      } else if FirstMatch(patterns, rest, path).Some? {
        var k :| 0 <= k < |rest| && rest[k] == FirstMatch(patterns, rest, path).value
                 && Matches(patterns, rest[k], path)
                 && forall j :: 0 <= j < k ==> !Matches(patterns, rest[j], path);
        assert routes[k + 1] == rest[k];
        assert forall j :: 1 <= j < k + 1 ==> routes[j] == rest[j - 1];
      }
    }
  }

  /** Whatever order the sort leaves equal upstreams in, the upstream served matches and no matching
      upstream of the configuration is less. */
  lemma ServedIsLeast(patterns: Patterns, config: seq<Upstream>, sorted: seq<Upstream>, path: string, v: Upstream)
    requires Arranged(config, sorted) && FirstMatch(patterns, sorted, path).Some?
    requires v in config && Matches(patterns, v, path)
    ensures var u := FirstMatch(patterns, sorted, path).value;
            u in config && Matches(patterns, u, path) && !Less(v, u)
  {
    FirstMatchIs(patterns, sorted, path);
    var k :| 0 <= k < |sorted| && sorted[k] == FirstMatch(patterns, sorted, path).value
             && Matches(patterns, sorted[k], path)
             && forall j :: 0 <= j < k ==> !Matches(patterns, sorted[j], path);
    ArrangedMembers(config, sorted);
    var m :| 0 <= m < |sorted| && sorted[m] == v;
    if m == k {
      LessIsStrictWeakOrder(v, v, v);
    }
  }

  /** The declarative meaning: a plain upstream whose path covers the request's, and no longer one does. */
  predicate LongestMatch(config: seq<Upstream>, path: string, u: Upstream) {
    && u in config && u.rewriteTarget == "" && PathCovers(u.path, path)
    && forall v :: v in config && v.rewriteTarget == "" && PathCovers(v.path, path) ==> |v.path| <= |u.path|
  }

  predicate UniquePaths(config: seq<Upstream>) {
    forall i, j :: 0 <= i < j < |config| ==> config[i].path != config[j].path
  }

  /** Two plain upstreams that match one path and are equally long are the same. */
  lemma EqualLengthMatches(patterns: Patterns, config: seq<Upstream>, path: string, u: Upstream, v: Upstream)
    requires UniquePaths(config) && u in config && v in config && !Rewrites(u) && !Rewrites(v)
    requires Matches(patterns, u, path) && Matches(patterns, v, path) && |u.path| == |v.path|
    ensures u == v
  {
    assert u.path == path[..|u.path|] == v.path;
  }

  /** With unique paths and no rewrite matching the request, the upstream served is the longest match,
      whatever the configuration order and whatever the sort does with equals. */
  lemma LongestMatchIsServed(patterns: Patterns, config: seq<Upstream>, sorted: seq<Upstream>, path: string,
                             u: Upstream)
    requires Arranged(config, sorted) && UniquePaths(config)
    requires forall v :: v in config && v.rewriteTarget != "" ==> !patterns(v, path)
    ensures FirstMatch(patterns, sorted, path) == Some(u) <==> LongestMatch(config, path, u)
    ensures Route(patterns, sorted, path) == Serve(u) <==> LongestMatch(config, path, u)
  {
    forall v
      ensures Matches(patterns, v, path) <==> CanServe(patterns, v, path)
    {
      MatchesIsCanServe(patterns, v, path);
    }
    hide Matches, PathCovers;
    FirstMatchIs(patterns, sorted, path);
    ArrangedMembers(config, sorted);
    var served := FirstMatch(patterns, sorted, path);
    if served.Some? {
      forall v | v in config && Matches(patterns, v, path)
        ensures !Rewrites(v) && |v.path| <= |served.value.path|
      {
        ServedIsLeast(patterns, config, sorted, path, v);
      }
      if LongestMatch(config, path, u) {
        EqualLengthMatches(patterns, config, path, u, served.value);
      }
    }
  }

  /** When a rewrite matches, one with the longest pattern among the matching rewrites serves. */
  lemma RewritesGoFirst(patterns: Patterns, config: seq<Upstream>, sorted: seq<Upstream>, path: string, v: Upstream)
    requires Arranged(config, sorted) && v in config && v.rewriteTarget != "" && patterns(v, path)
    ensures FirstMatch(patterns, sorted, path).Some?
    ensures var u := FirstMatch(patterns, sorted, path).value;
            u in config && u.rewriteTarget != "" && patterns(u, path) && |v.path| <= |u.path|
  {
    FirstMatchIs(patterns, sorted, path);
    ArrangedMembers(config, sorted);
    ServedIsLeast(patterns, config, sorted, path, v);
  }

  // ----- the trailing slash handler -----

  datatype Outcome = Serve(upstream: Upstream) | RedirectWithSlash | NotFound

  /** The router with the trailing slash handler as its last route. The handler asks the router again,
      itself included, for the path with a slash. */
  function Route(patterns: Patterns, routes: seq<Upstream>, path: string): Outcome
    decreases if HasSuffix(path, "/") then 0 else 1
  {
    match FirstMatch(patterns, routes, path)
    case Some(u) => Serve(u)
    case None =>
      if HasSuffix(path, "/") then NotFound
      else
        assert (path + "/")[|path|..] == "/";
        if Route(patterns, routes, path + "/") != NotFound then RedirectWithSlash else NotFound
  }

  predicate Served(patterns: Patterns, config: seq<Upstream>, path: string) {
    exists u :: u in config && CanServe(patterns, u, path)
  }

  /** An upstream serves exactly when one can; the redirect is sent exactly when none can serve the
      path, but one can serve it with a slash; and otherwise there is nothing. */
  lemma SlashRedirects(patterns: Patterns, config: seq<Upstream>, sorted: seq<Upstream>, path: string)
    requires Arranged(config, sorted)
    ensures Route(patterns, sorted, path).Serve? <==> Served(patterns, config, path)
    ensures Route(patterns, sorted, path).Serve? ==>
              var u := Route(patterns, sorted, path).upstream; u in config && CanServe(patterns, u, path)
    ensures Route(patterns, sorted, path) == RedirectWithSlash <==>
            !Served(patterns, config, path) && !HasSuffix(path, "/") && Served(patterns, config, path + "/")
  {
    forall v, p
      ensures Matches(patterns, v, p) <==> CanServe(patterns, v, p)
    {
      MatchesIsCanServe(patterns, v, p);
    }
    hide Matches, CanServe;
    FirstMatchIs(patterns, sorted, path);
    FirstMatchIs(patterns, sorted, path + "/");
    assert (path + "/")[|path|..] == "/";
    ArrangedMembers(config, sorted);
  }

  // ----- the sort, in place -----

  method Swap(a: array<Upstream>, j: nat)
    requires 0 < j < a.Length
    modifies a
    ensures a[..] == old(a[..])[j - 1 := old(a[j])][j := old(a[j - 1])]
    ensures multiset(a[..]) == multiset(old(a[..]))
  {
    a[j - 1], a[j] := a[j], a[j - 1];
  }

  /** One outcome the sort can have: the configuration is arranged in place. */
  method SortByPathLongest(a: array<Upstream>)
    modifies a
    ensures Arranged(old(a[..]), a[..])
  {
    for i := 0 to a.Length
      invariant multiset(a[..]) == multiset(old(a[..]))
      invariant forall m, n :: 0 <= m < n < i ==> !Less(a[n], a[m])
    {
      var j := i;
      while 0 < j && Less(a[j], a[j - 1])
        invariant 0 <= j <= i
        invariant multiset(a[..]) == multiset(old(a[..]))
        invariant forall m, n :: 0 <= m < n <= i && n != j && m != j ==> !Less(a[n], a[m])
        invariant forall n :: j < n <= i ==> !Less(a[n], a[j])
      {
        Swap(a, j);
        j := j - 1;
      }
    }
  }
}
