/** Redirect validation and choice (pkg/app/redirect, pkg/util/util.go:104-183,
    pkg/requests/util/util.go). */
module Redirects {
  import opened Text

  // ----- relative redirects -----

  predicate IsSlash(c: char) {
    c == '/' || c == '\\'
  }

  /** The class [\s\v]. */
  predicate IsSpace(c: char) {
    c == ' ' || c == '\t' || c == '\n' || c == '\r' || c == '\U{000B}' || c == '\U{000C}'
  }

  predicate AllSpace(s: string) {
    forall i :: 0 <= i < |s| ==> IsSpace(s[i])
  }

  /** Two slashes at i and j with only whitespace between them. */
  predicate SpacedSlashes(s: string, i: int, j: int) {
    0 <= i < j < |s| && IsSlash(s[i]) && IsSlash(s[j]) && AllSpace(s[i + 1..j])
  }

  /** Two slashes at i and j with one or two dots between them. */
  predicate DotSegment(s: string, i: int, j: int) {
    0 <= i < j < |s| && IsSlash(s[i]) && IsSlash(s[j]) && (s[i + 1..j] == "." || s[i + 1..j] == "..")
  }

  /** The pattern [/\\](?:[\s\v]*|\.{1,2})[/\\] matches somewhere. */
  predicate MatchesInvalid(s: string) {
    exists i, j :: 0 <= i < |s| && 0 <= j < |s| && (SpacedSlashes(s, i, j) || DotSegment(s, i, j))
  }

  /** The first case of `IsValidRedirect` that accepts. */
  predicate IsRelative(redirect: string) {
    HasPrefix(redirect, "/") && !HasPrefix(redirect, "//") && !MatchesInvalid(redirect)
  }

  /** The whitespace that a lenient browser drops. */
  predicate Dropped(c: char) {
    c in {' ', '\t', '\n', '\r', '\U{000B}', '\U{000C}'}
  }

  /** How a lenient browser may read a redirect: whitespace dropped, backslashes turned. */
  function Lenient(s: string): string {
    if s == [] then []
    else
      var c := s[|s| - 1];
      Lenient(s[..|s| - 1]) + (if Dropped(c) then [] else if c == '\\' then ['/'] else [c])
  }

  predicate HasDoubleSlash(s: string) {
    exists k :: 0 < k < |s| && s[k - 1] == '/' && s[k] == '/'
  }

  /** The last character that is not whitespace is a slash, at i. */
  predicate EndsInSlash(s: string, i: int) {
    0 <= i < |s| && IsSlash(s[i]) && AllSpace(s[i + 1..])
  }

  lemma EndsInSlashAppend(s: string, c: char, i: int)
    ensures IsSpace(c) ==> (EndsInSlash(s + [c], i) <==> EndsInSlash(s, i))
    ensures EndsInSlash(s + [c], i) && !IsSpace(c) ==> i == |s| && IsSlash(c)
  {
    var t := s + [c];
    if 0 <= i < |s| {
      var before, after := s[i + 1..], t[i + 1..];
      assert after == before + [c] && after[|before|] == c;
      if AllSpace(after) {
        assert forall j :: 0 <= j < |before| ==> before[j] == after[j];
      }
    }
  }

  lemma {:induction false} LenientEnd(s: string)
    ensures Lenient(s) != [] && Lenient(s)[|Lenient(s)| - 1] == '/' <==> exists i :: EndsInSlash(s, i)
  {
    if s != [] {
      var init, c := s[..|s| - 1], s[|s| - 1];
      LenientEnd(init);
      assert s == init + [c];
      forall i
        ensures IsSpace(c) ==> (EndsInSlash(s, i) <==> EndsInSlash(init, i))
        ensures EndsInSlash(s, i) && !IsSpace(c) ==> i == |init| && IsSlash(c)
      {
        EndsInSlashAppend(init, c, i);
      }
      if IsSlash(c) {
        assert EndsInSlash(s, |s| - 1);
      }
    }
  }

  lemma DoubleSlashAppend(t: string, c: char)
    ensures HasDoubleSlash(t + [c]) <==> HasDoubleSlash(t) || (t != [] && t[|t| - 1] == '/' && c == '/')
  {
    var u := t + [c];
    if HasDoubleSlash(t) {
      var k :| 0 < k < |t| && t[k - 1] == '/' && t[k] == '/';
      assert u[k - 1] == '/' && u[k] == '/';
    }
    if t != [] && t[|t| - 1] == '/' && c == '/' {
      assert u[|t| - 1] == '/' && u[|t|] == '/';
    }
    if HasDoubleSlash(u) {
      var k :| 0 < k < |u| && u[k - 1] == '/' && u[k] == '/';
      if k < |t| { assert t[k - 1] == '/' && t[k] == '/'; }
    }
  }

  lemma SpacedSlashesAppend(s: string, i: int, j: int)
    requires s != []
    ensures SpacedSlashes(s, i, j) <==>
            SpacedSlashes(s[..|s| - 1], i, j) || (j == |s| - 1 && IsSlash(s[j]) && EndsInSlash(s[..|s| - 1], i))
  {
    var init := s[..|s| - 1];
    if 0 <= i < j < |init| {
      assert s[i + 1..j] == init[i + 1..j];
    }
    if 0 <= i < j == |s| - 1 {
      assert s[i + 1..j] == init[i + 1..];
    }
  }

  /** Slashes that a browser would see side by side are exactly those the pattern finds. */
  lemma {:induction false} DoubleSlashIsSpaced(s: string)
    ensures HasDoubleSlash(Lenient(s)) <==> exists i, j :: SpacedSlashes(s, i, j)
  {
    if s != [] {
      var init, c := s[..|s| - 1], s[|s| - 1];
      DoubleSlashIsSpaced(init);
      LenientEnd(init);
      forall i, j
        ensures SpacedSlashes(s, i, j) <==>
                SpacedSlashes(init, i, j) || (j == |s| - 1 && IsSlash(c) && EndsInSlash(init, i))
      {
        SpacedSlashesAppend(s, i, j);
      }
      if IsSpace(c) {
        assert Lenient(s) == Lenient(init);
      } else {
        DoubleSlashAppend(Lenient(init), if c == '\\' then '/' else c);
        if exists i :: EndsInSlash(init, i) {
          var i :| EndsInSlash(init, i);
          assert IsSlash(c) ==> SpacedSlashes(s, i, |s| - 1);
        }
      }
    }
  }

  lemma {:induction false} LenientStart(s: string)
    requires HasPrefix(s, "/")
    ensures HasPrefix(Lenient(s), "/")
  {
    if |s| > 1 {
      LenientStart(s[..|s| - 1]);
    } else {
      assert s == "/" && s[..0] == [];
    }
  }

  /** The text is a slash of either kind, one or two dots and another slash, with text around. */
  predicate DotsBetween(s: string, before: string, open: char, dots: string, close: char, after: string) {
    && s == before + [open] + dots + [close] + after
    && open in {'/', '\\'} && close in {'/', '\\'} && dots in {".", ".."}
  }

  /** A path that stays on the host, however leniently it is read: after its leading slash no two slashes
      stand side by side, and no segment is a dot or two. */
  ghost predicate SafePath(s: string) {
    && s != "" && s[0] == '/' && !HasDoubleSlash(Lenient(s))
    && !exists before, open, dots, close, after :: DotsBetween(s, before, open, dots, close, after)
  }

  lemma DotSegmentIsDots(s: string)
    ensures (exists i, j :: DotSegment(s, i, j)) <==>
            exists before, open, dots, close, after :: DotsBetween(s, before, open, dots, close, after)
  {
    if i, j :| DotSegment(s, i, j) {
      assert s == s[..i] + [s[i]] + s[i + 1..j] + [s[j]] + s[j + 1..];
      assert DotsBetween(s, s[..i], s[i], s[i + 1..j], s[j], s[j + 1..]);
    }
    if before, open, dots, close, after :| DotsBetween(s, before, open, dots, close, after) {
      var i, j := |before|, |before| + 1 + |dots|;
      assert s[i] == open && s[j] == close && s[i + 1..j] == dots;
      assert DotSegment(s, i, j);
    }
  }

  /** The pattern accepts exactly the safe paths. */
  lemma RelativeIffSafe(redirect: string)
    ensures IsRelative(redirect) <==> SafePath(redirect)
    ensures SafePath(redirect) ==> HasPrefix(Lenient(redirect), "/")
  {
    DoubleSlashIsSpaced(redirect);
    DotSegmentIsDots(redirect);
    if HasPrefix(redirect, "/") {
      LenientStart(redirect);
      assert redirect[0] == '/';
    }
    if HasPrefix(redirect, "//") {
      assert redirect[1..1] == [];
      assert SpacedSlashes(redirect, 0, 1);
    }
    if exists i, j :: SpacedSlashes(redirect, i, j) {
      var i, j :| SpacedSlashes(redirect, i, j);
      assert HasPrefix(redirect, "/") ==> MatchesInvalid(redirect);
    }
    if exists i, j :: DotSegment(redirect, i, j) {
      var i, j :| DotSegment(redirect, i, j);
      assert HasPrefix(redirect, "/") ==> MatchesInvalid(redirect);
    }
    hide Lenient, HasDoubleSlash;
  }

  // ----- allowed domains -----

  function LastColon(s: string): (r: Option<nat>)
    ensures r.Some? ==> r.value < |s| && s[r.value] == ':' && ':' !in s[r.value + 1..]
    ensures r.None? ==> ':' !in s
  {
    if s == [] then None
    else if s[|s| - 1] == ':' then Some(|s| - 1)
    else
      var r := LastColon(s[..|s| - 1]);
      assert r.Some? ==> s[r.value + 1..] == s[..|s| - 1][r.value + 1..] + [s[|s| - 1]];
      r
  }

  predicate ValidOptionalPort(port: string) {
    port == "" || port == ":*" || (port[0] == ':' && AllDigits(port[1..]))
  }

  function StripBrackets(host: string): string {
    if |host| >= 2 && HasPrefix(host, "[") && HasSuffix(host, "]") then host[1..|host| - 1] else host
  }

  /** The host and port of an entry, its brackets still on. */
  function CutPort(s: string): (string, string) {
    var colon := LastColon(s);
    if colon.Some? && ValidOptionalPort(s[colon.value..]) then (s[..colon.value], s[colon.value + 1..]) else (s, "")
  }

  function SplitHostPort(hostport: string): (string, string) {
    var (host, port) := CutPort(hostport);
    (StripBrackets(host), port)
  }

  predicate IsHostnameAllowed(hostname: string, allowedHost: string) {
    || hostname == TrimPrefix(allowedHost, ".")
    || hostname == TrimPrefix(allowedHost, "*.")
    || (HasPrefix(allowedHost, ".") && HasSuffix(hostname, allowedHost))
    || (HasPrefix(allowedHost, "*.") && HasSuffix(hostname, allowedHost[1..]))
  }

  /** An entry without a leading "." or "*." allows exactly that host. */
  lemma PlainEntryAllowsOneHost(hostname: string, domain: string)
    requires !HasPrefix(domain, ".") && !HasPrefix(domain, "*.")
    ensures IsHostnameAllowed(hostname, domain) <==> hostname == domain
  {
  }

  /** The host is the domain, or ends in it at a label boundary. */
  predicate InDomain(hostname: string, domain: string) {
    hostname == domain || HasSuffix(hostname, "." + domain)
  }

  lemma DotEntryAllows(hostname: string, domain: string)
    ensures IsHostnameAllowed(hostname, "." + domain) <==> InDomain(hostname, domain)
  {
    var entry := "." + domain;
    assert entry[0] == '.' && entry[1..] == domain;
    assert HasPrefix(entry, ".") && TrimPrefix(entry, ".") == domain;
    assert !HasPrefix(entry, "*.") && TrimPrefix(entry, "*.") == entry;
    assert hostname == entry ==> HasSuffix(hostname, entry);
  }

  lemma StarEntryAllows(hostname: string, domain: string)
    ensures IsHostnameAllowed(hostname, "*." + domain) <==> InDomain(hostname, domain)
  {
    var entry := "*." + domain;
    assert entry[0] == '*' && entry[1..] == "." + domain && entry[2..] == domain;
    assert !HasPrefix(entry, ".") && TrimPrefix(entry, ".") == entry;
    assert HasPrefix(entry, "*.") && TrimPrefix(entry, "*.") == domain;
    assert hostname == entry ==> HasSuffix(hostname, "." + domain);
  }

  /** The entries ".d" and "*.d" allow the same hosts: d, and whatever ends in ".d". */
  lemma WildcardEntriesAgree(hostname: string, domain: string)
    ensures IsHostnameAllowed(hostname, "." + domain) <==> InDomain(hostname, domain)
    ensures IsHostnameAllowed(hostname, "*." + domain) <==> InDomain(hostname, domain)
  {
    hide IsHostnameAllowed, InDomain;
    DotEntryAllows(hostname, domain);
    StarEntryAllows(hostname, domain);
  }

  /** What the allow-list sees of a parsed URL. */
  datatype Endpoint = Endpoint(hostname: string, port: string)

  predicate EntryAllows(e: Endpoint, allowedDomain: string) {
    var (host, port) := SplitHostPort(allowedDomain);
    host != "" && IsHostnameAllowed(e.hostname, host) && (port == "*" || port == e.port || (port == "" && e.port == ""))
  }

  method IsEndpointAllowed(e: Endpoint, allowedDomains: seq<string>) returns (r: bool)
    ensures r <==> exists d :: d in allowedDomains && EntryAllows(e, d)
  {
    for i := 0 to |allowedDomains|
      invariant forall j :: 0 <= j < i ==> !EntryAllows(e, allowedDomains[j])
    {
      var (allowedHost, allowedPort) := SplitHostPort(allowedDomains[i]);
      if allowedHost == "" {
        continue;
      }
      if IsHostnameAllowed(e.hostname, allowedHost) {
        if allowedPort == "*" || allowedPort == e.port || (allowedPort == "" && e.port == "") {
          assert allowedDomains[i] in allowedDomains;
          return true;
        }
      }
    }
    return false;
  }

  /** A colon search that starts in a prefix without colons finds the same colon. */
  lemma {:induction false} LastColonShift(prefix: string, s: string)
    requires ':' !in prefix
    ensures LastColon(prefix + s) == match LastColon(s) case None => None case Some(k) => Some(|prefix| + k)
  {
    var r, k := LastColon(prefix + s), LastColon(s);
    if s != [] {
      LastColonShift(prefix, s[..|s| - 1]);
      assert (prefix + s)[..|prefix + s| - 1] == prefix + s[..|s| - 1];
    } else {
      assert prefix + s == prefix;
    }
  }

  lemma StripKeeps(host: string)
    requires host != [] && host[0] != '['
    ensures StripBrackets(host) == host
  {
  }

  lemma CutPortShift(prefix: string, s: string)
    requires ':' !in prefix
    ensures CutPort(prefix + s) == (prefix + CutPort(s).0, CutPort(s).1)
  {
    hide LastColon, ValidOptionalPort;
    LastColonShift(prefix, s);
    var t, colon := prefix + s, LastColon(s);
    if colon.Some? {
      var k := colon.value;
      assert t[|prefix| + k..] == s[k..];
      assert t[..|prefix| + k] == prefix + s[..k];
      assert t[|prefix| + k + 1..] == s[k + 1..];
    }
  }

  lemma SplitWithPrefix(prefix: string, s: string)
    requires ':' !in prefix && prefix != [] && prefix[0] != '['
    ensures SplitHostPort(prefix + s) == (prefix + CutPort(s).0, CutPort(s).1)
  {
    hide CutPort;
    CutPortShift(prefix, s);
    StripKeeps(prefix + CutPort(s).0);
  }

  /** With their ports, the entries ".x" and "*.x" allow the same endpoints, for every x. */
  lemma WildcardEndpointsAgree(e: Endpoint, x: string)
    ensures EntryAllows(e, "." + x) <==> EntryAllows(e, "*." + x)
  {
    SplitWithPrefix(".", x);
    SplitWithPrefix("*.", x);
    WildcardEntriesAgree(e.hostname, CutPort(x).0);
  }

  // ----- what an entry allows, told from its text -----

  /** The entry ends in a port: digits, or a star for any. */
  predicate HasPort(entry: string, host: string, port: string) {
    entry == host + ":" + port && (port == "*" || AllDigits(port))
  }

  /** The entry is written as this host and this port, or as a host without a port. */
  ghost predicate Spells(entry: string, host: string, port: string) {
    HasPort(entry, host, port) || (entry == host && port == "" && !exists h, p :: HasPort(entry, h, p))
  }

  lemma {:induction false} LastColonAt(host: string, port: string)
    requires ':' !in port
    ensures LastColon(host + ":" + port) == Some(|host|)
  {
    if port != [] {
      var s := host + ":" + port;
      LastColonAt(host, port[..|port| - 1]);
      assert s[..|s| - 1] == host + ":" + port[..|port| - 1];
    }
  }

  lemma PortIsCut(entry: string, host: string, port: string)
    requires HasPort(entry, host, port)
    ensures CutPort(entry) == (host, port)
  {
    assert ':' !in port;
    LastColonAt(host, port);
    hide LastColon;
    var tail := entry[|host|..];
    assert tail == ":" + port && tail[1..] == port && tail[0] == ':';
    assert entry[..|host|] == host && entry[|host| + 1..] == port;
    assert port == "*" ==> tail == ":*";
  }

  lemma CutPortSpells(entry: string, host: string, port: string)
    ensures CutPort(entry) == (host, port) <==> Spells(entry, host, port)
  {
    if h, p :| HasPort(entry, h, p) {
      PortIsCut(entry, h, p);
      if HasPort(entry, host, port) {
        PortIsCut(entry, host, port);
      }
    } else {
      hide LastColon;
      var k := LastColon(entry);
      if k.Some? && ValidOptionalPort(entry[k.value..]) {
        var h, p := entry[..k.value], entry[k.value + 1..];
        assert entry == h + ":" + p && entry[k.value..][1..] == p;
        assert HasPort(entry, h, p);
      }
    }
  }

  /** A leading "." or "*." stands for the domain and all its subdomains. */
  predicate HostRule(hostname: string, host: string) {
    if host != "" && host[0] == '.' then InDomain(hostname, host[1..])
    else if |host| > 1 && host[0] == '*' && host[1] == '.' then InDomain(hostname, host[2..])
    else hostname == host
  }

  lemma HostnameAllowedIsHostRule(hostname: string, host: string)
    ensures IsHostnameAllowed(hostname, host) <==> HostRule(hostname, host)
  {
    if host != "" && host[0] == '.' {
      assert host == "." + host[1..];
      DotEntryAllows(hostname, host[1..]);
    } else if |host| > 1 && host[0] == '*' && host[1] == '.' {
      assert host == "*." + host[2..];
      StarEntryAllows(hostname, host[2..]);
    } else {
      PlainEntryAllowsOneHost(hostname, host);
    }
  }

  /** The entry names a host that allows the endpoint's, and a star or the endpoint's own port; without
      a port in the entry the endpoint has none either. */
  ghost predicate Permits(entry: string, e: Endpoint) {
    exists written, host, port :: Spells(entry, written, port) && IsHost(written, host) && host != ""
                                  && HostRule(e.hostname, host) && (port == "*" || port == e.port)
  }

  /** A host is written as it is, or in the brackets of an IPv6 literal. */
  ghost predicate IsHost(written: string, host: string) {
    written == "[" + host + "]" || (written == host && !exists h :: InBrackets(written, h))
  }

  predicate InBrackets(written: string, host: string) {
    written == "[" + host + "]"
  }

  lemma StripBracketsIsHost(written: string, host: string)
    ensures StripBrackets(written) == host <==> IsHost(written, host)
  {
    if h :| InBrackets(written, h) {
      assert written[0] == '[' && written[|written| - 1..] == "]" && written[1..|written| - 1] == h;
      assert InBrackets(written, host) ==> written[1..|written| - 1] == host;
    } else if |written| >= 2 && HasPrefix(written, "[") && HasSuffix(written, "]") {
      assert written == "[" + written[1..|written| - 1] + written[|written| - 1..];
      assert InBrackets(written, written[1..|written| - 1]);
    }
  }

  lemma EntryAllowsIsPermits(e: Endpoint, entry: string)
    ensures EntryAllows(e, entry) <==> Permits(entry, e)
  {
    hide CutPort, Spells, HostRule, IsHostnameAllowed, StripBrackets, IsHost;
    var (written, port) := CutPort(entry);
    var host := StripBrackets(written);
    forall w, p
      ensures Spells(entry, w, p) <==> w == written && p == port
    {
      CutPortSpells(entry, w, p);
    }
    forall h
      ensures IsHost(written, h) <==> h == host
    {
      StripBracketsIsHost(written, h);
    }
    HostnameAllowedIsHostRule(e.hostname, host);
    assert Spells(entry, written, port) && IsHost(written, host);
  }

  /** An entry with a port allows that port only, one with a star any port, and one without a port the
      scheme's own. */
  lemma PortsOfEntries(e: Endpoint, host: string, port: string)
    requires host != "" && host[0] != '[' && AllDigits(port)
    ensures EntryAllows(e, host + ":" + port) <==> HostRule(e.hostname, host) && e.port == port
    ensures EntryAllows(e, host + ":*") <==> HostRule(e.hostname, host)
    ensures ':' !in host ==> (EntryAllows(e, host) <==> HostRule(e.hostname, host) && e.port == "")
  {
    hide HostRule, IsHostnameAllowed, CutPort, StripBrackets;
    StripKeeps(host);
    HostnameAllowedIsHostRule(e.hostname, host);
    PortIsCut(host + ":" + port, host, port);
    PortIsCut(host + ":*", host, "*");
    if ':' !in host {
      forall h, p
        ensures !HasPort(host, h, p)
      {
        assert (h + ":" + p)[|h|] == ':';
      }
      CutPortSpells(host, host, "");
    }
    assert !AllDigits("*") by { assert !IsDigit("*"[0]); }
  }

  // ----- the validator -----

  /** `parse` stands for `url.Parse`; None is an error. */
  datatype Validator = Validator(allowedDomains: seq<string>, parse: string -> Option<Endpoint>)

  predicate IsValidRedirect(v: Validator, redirect: string) {
    if redirect == "" then false
    else if IsRelative(redirect) then true
    else if HasPrefix(redirect, "http://") || HasPrefix(redirect, "https://") then
      match v.parse(redirect)
      case None => false
      case Some(e) => exists d :: d in v.allowedDomains && EntryAllows(e, d)
    else false
  }

  /** An http or https URL whose endpoint some entry of the list permits. */
  ghost predicate AllowedURL(v: Validator, redirect: string) {
    && ("http://" <= redirect || "https://" <= redirect) && v.parse(redirect).Some?
    && exists d :: d in v.allowedDomains && Permits(d, v.parse(redirect).value)
  }

  /** Of all strings, exactly the safe paths and the allowed URLs are valid redirects. */
  lemma ValidIsExact(v: Validator, redirect: string)
    ensures IsValidRedirect(v, redirect) <==> SafePath(redirect) || AllowedURL(v, redirect)
    ensures v.allowedDomains == [] ==> (IsValidRedirect(v, redirect) <==> SafePath(redirect))
  {
    RelativeIffSafe(redirect);
    assert redirect != "" ==> (HasPrefix(redirect, "/") <==> redirect[0] == '/');
    hide IsRelative, SafePath, EntryAllows, Permits;
    if v.parse(redirect).Some? {
      forall d
        ensures EntryAllows(v.parse(redirect).value, d) <==> Permits(d, v.parse(redirect).value)
      {
        EntryAllowsIsPermits(v.parse(redirect).value, d);
      }
    }
    assert SafePath("") == false by { RelativeIffSafe(""); EmptyIsNotRelative(); }
  }

  lemma EmptyIsNotRelative()
    ensures !IsRelative("")
  {
  }

  lemma RootIsValid(v: Validator)
    ensures IsValidRedirect(v, "/")
  {
    assert forall i, j :: !SpacedSlashes("/", i, j) && !DotSegment("/", i, j);
  }

  // ----- the choice -----

  /** What the director reads of a request; `trusted` says whether forwarded headers count, and the
      strings are empty when missing. */
  datatype Request = Request(parses: bool, rd: string, authRedirect: string, trusted: bool,
                             forwardedProto: string, forwardedHost: string, forwardedURI: string,
                             scheme: string, host: string, requestURI: string)

  function RequestProto(r: Request): string {
    if !r.trusted || r.forwardedProto == "" then r.scheme else r.forwardedProto
  }

  function RequestHost(r: Request): string {
    if !r.trusted || r.forwardedHost == "" then r.host else r.forwardedHost
  }

  function RequestURI(r: Request): string {
    if !r.trusted || r.forwardedURI == "" then r.requestURI else r.forwardedURI
  }

  datatype Director = Director(validator: Validator, proxyPrefix: string) {
    function Validated(redirect: string): string {
      if IsValidRedirect(validator, redirect) then redirect else ""
    }

    function FromForwardedHeaders(r: Request): string {
      if !(r.trusted && r.host != RequestHost(r)) then ""
      else
        var uri := if HasPrefix(RequestURI(r), proxyPrefix) then "/" else RequestURI(r);
        Validated(RequestProto(r) + "://" + RequestHost(r) + uri)
    }

    function FromURI(r: Request): string {
      var valid := Validated(RequestURI(r));
      var redirect := if valid == "" then r.requestURI else valid;
      if HasPrefix(redirect, proxyPrefix) then "/" else redirect
    }

    function Getters(r: Request): seq<string> {
      [Validated(r.rd), Validated(r.authRedirect), FromForwardedHeaders(r), FromURI(r)]
    }

    /** The first getter whose result is valid; "/" when none is; None when the form does not parse. */
    function GetRedirect(r: Request): Option<string> {
      if r.parses then Some(FirstValid(Getters(r))) else None
    }

    function FirstValid(candidates: seq<string>): string {
      if candidates == [] then "/"
      else if candidates[0] != "" && IsValidRedirect(validator, candidates[0]) then candidates[0]
      else FirstValid(candidates[1..])
    }

    lemma {:induction false} FirstValidIs(candidates: seq<string>)
      ensures IsValidRedirect(validator, FirstValid(candidates))
      ensures FirstValid(candidates) == "/" || FirstValid(candidates) in candidates
      ensures forall k :: 0 <= k < |candidates| && IsValidRedirect(validator, candidates[k])
                          && (forall j :: 0 <= j < k ==> !IsValidRedirect(validator, candidates[j]))
                          ==> FirstValid(candidates) == candidates[k]
    {
      RootIsValid(validator);
      if candidates != [] {
        FirstValidIs(candidates[1..]);
        forall k | 0 <= k < |candidates| && IsValidRedirect(validator, candidates[k])
                   && (forall j :: 0 <= j < k ==> !IsValidRedirect(validator, candidates[j]))
          ensures FirstValid(candidates) == candidates[k]
        {
          if k > 0 {
            assert !IsValidRedirect(validator, candidates[0]);
            assert candidates[1..][k - 1] == candidates[k];
            assert forall j :: 0 <= j < k - 1 ==> candidates[1..][j] == candidates[j + 1];
          }
        }
      }
    }

    /** Every redirect chosen is a safe path or an allowed URL, and a valid `rd` parameter, or else a valid
        header, is the one chosen. */
    lemma ChosenRedirectIsValid(r: Request)
      ensures GetRedirect(r).Some? <==> r.parses
      ensures r.parses ==> IsValidRedirect(validator, GetRedirect(r).value)
      ensures r.parses ==> SafePath(GetRedirect(r).value) || AllowedURL(validator, GetRedirect(r).value)
      ensures r.parses && IsValidRedirect(validator, r.rd) ==> GetRedirect(r) == Some(r.rd)
      ensures r.parses && !IsValidRedirect(validator, r.rd) && IsValidRedirect(validator, r.authRedirect) ==>
                GetRedirect(r) == Some(r.authRedirect)
    {
      var g := Getters(r);
      FirstValidIs(g);
      ValidIsExact(validator, FirstValid(g));
      hide SafePath, AllowedURL;
      assert g[0] == Validated(r.rd) && g[1] == Validated(r.authRedirect);
    }

    /** Whether the request comes through a trusted proxy that names another host. */
    predicate Forwarded(r: Request) {
      r.trusted && r.forwardedHost != "" && r.forwardedHost != r.host
    }

    /** A request that names no valid redirect is sent back to where it was going: to the forwarded
        host and path if it was forwarded and that is allowed, or else to its own path; in either case
        the proxy's own endpoints give way to the root. */
    lemma GoesBackWhereItCameFrom(r: Request)
      requires r.parses && !IsValidRedirect(validator, r.rd) && !IsValidRedirect(validator, r.authRedirect)
      ensures var uri := if r.trusted && r.forwardedURI != "" then r.forwardedURI else r.requestURI;
              var proto := if r.trusted && r.forwardedProto != "" then r.forwardedProto else r.scheme;
              var absolute := proto + "://" + r.forwardedHost + (if proxyPrefix <= uri then "/" else uri);
              && (Forwarded(r) && IsValidRedirect(validator, absolute) ==> GetRedirect(r) == Some(absolute))
              && (!(Forwarded(r) && IsValidRedirect(validator, absolute)) && IsValidRedirect(validator, uri) ==>
                    GetRedirect(r) == Some(if proxyPrefix <= uri then "/" else uri))
    {
      var g := Getters(r);
      FirstValidIs(g);
      RootIsValid(validator);
      assert g[0] == "" && g[1] == "" && g[2] == FromForwardedHeaders(r) && g[3] == FromURI(r);
      assert !IsValidRedirect(validator, "");
      hide IsValidRedirect, FirstValid;
      if IsValidRedirect(validator, g[2]) {
        assert FirstValid(g) == g[2];
      } else if IsValidRedirect(validator, g[3]) {
        assert FirstValid(g) == g[3];
      }
    }

    /** Forwarded headers of a request that is not trusted make no difference. */
    lemma UntrustedHeadersAreIgnored(r: Request, proto: string, host: string, uri: string)
      requires !r.trusted
      ensures GetRedirect(r.(forwardedProto := proto, forwardedHost := host, forwardedURI := uri)) == GetRedirect(r)
    {
    }

    /** A redirect made of the forwarded scheme and host is never accepted as a path, and what follows
        the host is not one of the proxy's own endpoints. */
    lemma ForwardedIsAbsolute(r: Request) returns (uri: string)
      requires HasPrefix(proxyPrefix, "/") && |proxyPrefix| > 1
      ensures FromForwardedHeaders(r) == "" || FromForwardedHeaders(r)[0] == 'h'
      ensures FromForwardedHeaders(r) != "" ==>
                FromForwardedHeaders(r) == RequestProto(r) + "://" + RequestHost(r) + uri
                && !HasPrefix(uri, proxyPrefix)
    {
      uri := if HasPrefix(RequestURI(r), proxyPrefix) then "/" else RequestURI(r);
      var f, k := FromForwardedHeaders(r), |RequestProto(r)| + 1;
      if f != "" {
        assert f[k] == '/' && f[k + 1] == '/' && f[k + 1..k + 1] == [];
        assert SpacedSlashes(f, k, k + 1);
        assert MatchesInvalid(f);
      }
    }

    /** Unless a request names a valid redirect itself, it is never sent back to one of the proxy's own
        endpoints, so no redirection loop arises: neither by a path nor, when the redirect is made of
        the forwarded headers, by what follows the host. */
    lemma NoRedirectLoop(r: Request)
      requires r.parses && HasPrefix(proxyPrefix, "/") && |proxyPrefix| > 1
      requires !IsValidRedirect(validator, r.rd) && !IsValidRedirect(validator, r.authRedirect)
      ensures !HasPrefix(GetRedirect(r).value, proxyPrefix)
      ensures FromForwardedHeaders(r) != "" ==>
                exists uri :: GetRedirect(r).value == RequestProto(r) + "://" + RequestHost(r) + uri
                              && !HasPrefix(uri, proxyPrefix)
    {
      var g := Getters(r);
      FirstValidIs(g);
      var uri := ForwardedIsAbsolute(r);
      assert IsValidRedirect(validator, FirstValid(g));
      assert g[0] == "" && g[1] == "" && g[2] == FromForwardedHeaders(r);
      if g[2] != "" {
        assert IsValidRedirect(validator, g[2]);
        assert FirstValid(g) == g[2];
      }
    }
  }
}
