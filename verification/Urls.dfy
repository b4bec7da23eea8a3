/**
 * URLs as `pkg/urlglobber/matcher.go` reads, splits and matches them.  `net/url` is modelled on
 * the characters of image references and host globs; `Supported` says which.
 */
module Urls {
  import opened Wrappers
  import opened Strings
  import opened Glob

  /** A parsed URL after its scheme is cleared.  `query` keeps its leading question mark. */
  datatype Url = Url(host: string, path: string, query: string)

  const HTTPS := "https://"
  const HTTP := "http://"

  predicate Supported(c: char) {
    || IsAlphanumeric(c) || c == '-' || c == '.' || c == '_' || c == '~'
    || c == ':' || c == '/' || c == '@' || c == '*' || c == '?'
  }

  predicate AllSupported(s: string) {
    forall i :: 0 <= i < |s| ==> Supported(s[i])
  }

  lemma SupportedConcat(a: string, b: string)
    ensures AllSupported(a + b) <==> AllSupported(a) && AllSupported(b)
  {
    if AllSupported(a + b) {
      assert forall i :: 0 <= i < |a| ==> (a + b)[i] == a[i];
      assert forall i :: 0 <= i < |b| ==> (a + b)[|a| + i] == b[i];
    }
  }

  // ---------- Parsing ----------

  predicate HasScheme(u: string) {
    HTTPS <= u || HTTP <= u
  }

  /** Nothing after the last colon but digits, or no colon at all. */
  predicate ValidOptionalPort(authority: string) {
    var i := LastIndexOf(authority, ':');
    forall k :: i < k < |authority| ==> IsDigit(authority[k])
  }

  /** What `url.Parse` makes of the text after `https://` or `http://`. */
  function ParseHierarchy(text: string): Option<Url> {
    var hierarchy := Before(text, '?');
    var authority := Before(hierarchy, '/');
    if !AllSupported(text) || '@' in authority || !ValidOptionalPort(authority) then None
    else Some(Url(authority, From(hierarchy, '/'), From(text, '?')))
  }

  function ParseURL(u: string): Option<Url>
    requires HasScheme(u)
  {
    ParseHierarchy(if HTTPS <= u then u[|HTTPS|..] else u[|HTTP|..])
  }

  /** The parser is told only what follows a scheme; `SchemeIsAdded` has it as the source puts it. */
  function ParsePotentiallySchemelessURL(u: string): Option<Url> {
    ParseHierarchy(if HTTPS <= u then u[|HTTPS|..] else if HTTP <= u then u[|HTTP|..] else u)
  }

  /** A missing scheme is put in front before the text is parsed. */
  lemma SchemeIsAdded(u: string)
    ensures ParsePotentiallySchemelessURL(u) == ParseURL(if !(HTTPS <= u) && !(HTTP <= u) then HTTPS + u else u)
  {
    assert (HTTPS + u)[|HTTPS|..] == u;
  }

  /** The host ends at the first slash or question mark, the path at the first question mark. */
  lemma HierarchyParsesIff(host: string, path: string, query: string)
    requires '/' !in host && '?' !in host
    requires (path == "" || "/" <= path) && '?' !in path && (query == "" || "?" <= query)
    ensures ParseHierarchy(host + path + query) ==
            if IsWellFormed(host + path + query) && HasNoUserOrBadPort(host) then Some(Url(host, path, query)) else None
  {
    var hierarchy := host + path;
    CutIs(hierarchy, query, '?');
    CutIs(host, path, '/');
    PortIsValidIff(host);
    SupportedIffWellFormed(hierarchy + query);
    hide AllSupported, IsWellFormed, ValidOptionalPort, EndsInANumber, Before, From;
  }

  lemma SupportedIffWellFormed(text: string)
    ensures AllSupported(text) <==> IsWellFormed(text)
  {
    assert forall i :: 0 <= i < |text| ==> text[i] in text;
  }

  /** A text parses, with a scheme or without, exactly when its characters and its host are well-formed. */
  lemma ParsesIff(host: string, path: string, query: string)
    requires '/' !in host && '?' !in host
    requires (path == "" || "/" <= path) && '?' !in path && (query == "" || "?" <= query)
    ensures var text := host + path + query;
            var u := if IsWellFormed(text) && HasNoUserOrBadPort(host) then Some(Url(host, path, query)) else None;
            && ParsePotentiallySchemelessURL("https://" + text) == u
            && ParsePotentiallySchemelessURL("http://" + text) == u
            && (!("https://" <= text) && !("http://" <= text) ==> ParsePotentiallySchemelessURL(text) == u)
  {
    hide IsWellFormed, HasNoUserOrBadPort, ParseHierarchy;
    HierarchyParsesIff(host, path, query);
    hide ParsePotentiallySchemelessURL;
    BehindScheme(host + path + query);
  }

  lemma BehindScheme(text: string)
    ensures ParsePotentiallySchemelessURL("https://" + text) == ParseHierarchy(text)
    ensures ParsePotentiallySchemelessURL("http://" + text) == ParseHierarchy(text)
    ensures !("https://" <= text) && !("http://" <= text) ==>
              ParsePotentiallySchemelessURL(text) == ParseHierarchy(text)
  {
    assert ("https://" + text)[|HTTPS|..] == text && ("http://" + text)[|HTTP|..] == text;
    assert ("http://" + text)[4] == ':' && HTTPS[4] == 's';
  }

  /** The characters of image references and host globs, and of what goes around them. */
  predicate IsWellFormed(text: string) {
    forall c :: c in text ==>
      'a' <= c <= 'z' || 'A' <= c <= 'Z' || '0' <= c <= '9' || c in "-._~:/@*?"
  }

  /** No user stands before the host, and nothing but digits after its last colon. */
  ghost predicate HasNoUserOrBadPort(host: string) {
    '@' !in host && (':' in host ==> EndsInANumber(host))
  }

  ghost predicate EndsInANumber(host: string) {
    exists name, port :: host == name + ":" + port && forall c :: c in port ==> '0' <= c <= '9'
  }

  lemma PortIsValidIff(authority: string)
    ensures ValidOptionalPort(authority) <==> (':' in authority ==> EndsInANumber(authority))
  {
    var i := LastIndexOf(authority, ':');
    if i < |authority| && ValidOptionalPort(authority) {
      var name, port := authority[..i], authority[i + 1..];
      assert authority == name + ":" + port;
      assert forall k :: 0 <= k < |port| ==> port[k] == authority[i + 1 + k];
      assert EndsInANumber(authority);
    }
    if name, port :| authority == name + ":" + port && forall c :: c in port ==> '0' <= c <= '9' {
      NumberIsValidPort(name, port);
    }
  }

  lemma NumberIsValidPort(name: string, port: string)
    requires forall c :: c in port ==> '0' <= c <= '9'
    ensures ValidOptionalPort(name + ":" + port)
  {
    var text := name + ":" + port;
    forall k | |name| < k < |text| ensures IsDigit(text[k]) {
      assert text[k] == port[k - |name| - 1] && port[k - |name| - 1] in port;
    }
    LastIndexOfIs(text, ':', |name|);
  }

  // ---------- Printing ----------

  /** `url.URL.String` for a URL without a scheme. */
  function Print(u: Url): string {
    var authority := if u.host == "" then "" else "//" + u.host;
    var separator := if u.path != "" && u.path[0] != '/' && u.host != "" then "/" else "";
    var dot := if authority == "" && ':' in Before(u.path, '/') then "./" else "";
    authority + separator + dot + u.path + u.query
  }

  /** The name under which a URL is handed on: printed, without the leading slashes. */
  function Name(u: Url): string {
    TrimPrefix(Print(u), "//")
  }

  lemma NameWithHost(u: Url)
    requires u.host != ""
    ensures Name(u) == u.host + (if u.path == "" || u.path[0] == '/' then u.path else "/" + u.path) + u.query
  {
    var rest := (if u.path == "" || u.path[0] == '/' then u.path else "/" + u.path) + u.query;
    assert Print(u) == "//" + (u.host + rest);
  }

  // ---------- Splitting and matching ----------

  /** `net.SplitHostPort` without brackets: it fails unless there is exactly one colon. */
  function SplitHostPort(hostport: string): Option<(string, string)> {
    var rest := From(hostport, ':');
    if rest == "" || ':' in rest[1..] then None else Some((Before(hostport, ':'), rest[1..]))
  }

  lemma SplitHostPortIs(host: string, port: string)
    requires ':' !in host && ':' !in port
    ensures SplitHostPort(host + ":" + port) == Some((host, port))
  {
    CutIs(host, ":" + port, ':');
    assert host + ":" + port == host + (":" + port);
  }

  /** A host and a port come from a text with one colon between them. */
  lemma SplitHostPortIff(hostport: string, host: string, port: string)
    ensures SplitHostPort(hostport) == Some((host, port)) <==>
            hostport == host + ":" + port && ':' !in host && ':' !in port
  {
    CutJoins(hostport, ':');
    if hostport == host + ":" + port && ':' !in host && ':' !in port {
      SplitHostPortIs(host, port);
    }
  }

  /** A text that has no colon, or more than one, is all host. */
  lemma HostAndPortIs(hostport: string)
    ensures var (host, port) := HostAndPort(hostport);
            if exists h, p :: hostport == h + ":" + p && ':' !in h && ':' !in p
            then hostport == host + ":" + port && ':' !in host && ':' !in port
            else host == hostport && port == ""
  {
    SplitHostPortJoins(hostport);
    if h, p :| hostport == h + ":" + p && ':' !in h && ':' !in p {
      SplitHostPortIff(hostport, h, p);
    }
    var split := SplitHostPort(hostport);
    if split.Some? {
      SplitHostPortIff(hostport, split.value.0, split.value.1);
    }
  }

  lemma SplitHostPortJoins(hostport: string)
    ensures var split := SplitHostPort(hostport);
            split.Some? ==> hostport == split.value.0 + ":" + split.value.1
  {
    CutJoins(hostport, ':');
  }

  function HostAndPort(hostport: string): (string, string) {
    match SplitHostPort(hostport)
    case Some(pair) => pair
    case None => (hostport, "")
  }

  function SplitURL(u: Url): (r: (seq<string>, string)) {
    var (host, port) := HostAndPort(u.host);
    (Split(host, '.'), port)
  }

  /**
   * The documented rule: equal ports, the glob's path a prefix of the target's, and the glob's
   * host, in which a wildcard stays within one dot-separated part, matching the target's host.
   */
  predicate Matches(glob: Url, target: Url) {
    var (globHost, globPort) := HostAndPort(glob.host);
    var (targetHost, targetPort) := HostAndPort(target.host);
    globPort == targetPort && glob.path <= target.path && HostMatch(globHost, targetHost)
  }

  predicate MatchesStr(glob: string, target: string) {
    var globURL := ParsePotentiallySchemelessURL(glob);
    var targetURL := ParsePotentiallySchemelessURL(target);
    globURL.Some? && targetURL.Some? && Matches(globURL.value, targetURL.value)
  }

  method URLsMatch(globURL: Url, targetURL: Url) returns (matched: bool)
    ensures matched <==> Matches(globURL, targetURL)
  {
    hide HostMatch, FilepathMatch, SplitHostPort;
    var (globParts, globPort) := SplitURL(globURL);
    var (targetParts, targetPort) := SplitURL(targetURL);
    SplitMatchIsHostMatch(HostAndPort(globURL.host).0, HostAndPort(targetURL.host).0);
    if globPort != targetPort {
      return false;
    }
    if |globParts| != |targetParts| {
      return false;
    }
    if !(globURL.path <= targetURL.path) {
      return false;
    }
    for k := 0 to |globParts|
      invariant forall i :: 0 <= i < k ==> FilepathMatch(globParts[i], targetParts[i])
    {
      if !FilepathMatch(globParts[k], targetParts[k]) {
        return false;
      }
    }
    return true;
  }

  method URLsMatchStr(glob: string, target: string) returns (matched: Result<bool, string>)
    ensures matched.Failure? <==>
            ParsePotentiallySchemelessURL(glob).None? || ParsePotentiallySchemelessURL(target).None?
    ensures matched.Failure? ==>
              matched.error == if ParsePotentiallySchemelessURL(glob).None? then glob else target
    ensures matched == Success(true) <==> MatchesStr(glob, target)
  {
    var globURL := ParsePotentiallySchemelessURL(glob);
    if globURL.None? {
      return Failure(glob);
    }
    var targetURL := ParsePotentiallySchemelessURL(target);
    if targetURL.None? {
      return Failure(target);
    }
    var m := URLsMatch(globURL.value, targetURL.value);
    return Success(m);
  }

  // ---------- Matching is a preorder on parseable texts ----------

  lemma ParsedHostHasNoQuestionMark(text: string)
    ensures var u := ParsePotentiallySchemelessURL(text);
            u.Some? ==> '?' !in u.value.host && '?' !in HostAndPort(u.value.host).0
  {
    var u := ParsePotentiallySchemelessURL(text);
    ParseDeliversParsed(text);
    if u.Some? {
      SplitHostPortJoins(u.value.host);
    }
  }

  lemma MatchesStrReflexive(text: string)
    ensures MatchesStr(text, text) <==> ParsePotentiallySchemelessURL(text).Some?
  {
    var u := ParsePotentiallySchemelessURL(text);
    if u.Some? {
      MatchReflexive(HostAndPort(u.value.host).0, {'/', '.'});
    }
  }

  lemma MatchesStrTransitive(a: string, b: string, c: string)
    requires MatchesStr(a, b) && MatchesStr(b, c)
    ensures MatchesStr(a, c)
  {
    var ua, ub, uc := ParsePotentiallySchemelessURL(a).value, ParsePotentiallySchemelessURL(b).value,
                      ParsePotentiallySchemelessURL(c).value;
    ParsedHostHasNoQuestionMark(a);
    MatchTransitive(HostAndPort(ua.host).0, HostAndPort(ub.host).0, HostAndPort(uc.host).0, {'/', '.'});
  }

  /** On one host only the paths count, wildcards in it or not. */
  lemma MatchesOnOneHost(a: Url, b: Url)
    requires a.host == b.host
    ensures Matches(a, b) <==> a.path <= b.path
  {
    MatchReflexive(HostAndPort(a.host).0, {'/', '.'});
    hide HostAndPort;
  }

  /** The same host and port; a colon with nothing behind it makes no difference. */
  predicate IsSameHost(a: string, b: string) {
    a == b || (':' !in a && b == a + ":") || (':' !in b && a == b + ":")
  }

  lemma SameHostAndPort(a: string, b: string)
    ensures HostAndPort(a) == HostAndPort(b) <==> IsSameHost(a, b)
  {
    HostAndPortIs(a);
    HostAndPortIs(b);
    if ':' !in a && b == a + ":" {
      SplitHostPortIff(b, a, "");
      assert b == a + ":" + "";
    }
    if ':' !in b && a == b + ":" {
      SplitHostPortIff(a, b, "");
      assert a == b + ":" + "";
    }
  }

  /** A key whose host has no wildcard matches the URLs on that host and port below its path, and no others. */
  lemma LiteralHostMatches(glob: Url, target: Url)
    requires '*' !in glob.host && '?' !in glob.host
    ensures Matches(glob, target) <==> glob.path <= target.path && IsSameHost(glob.host, target.host)
  {
    HostAndPortIs(glob.host);
    LiteralPatternMatches(HostAndPort(glob.host).0, HostAndPort(target.host).0, {'/', '.'});
    SameHostAndPort(glob.host, target.host);
  }

  /** The same for texts. */
  lemma LiteralKeyMatches(key: string, image: string, k: Url, u: Url)
    requires ParsePotentiallySchemelessURL(key) == Some(k) && ParsePotentiallySchemelessURL(image) == Some(u)
    requires '*' !in k.host
    ensures MatchesStr(key, image) <==> k.path <= u.path && IsSameHost(k.host, u.host)
  {
    ParsedHostHasNoQuestionMark(key);
    LiteralHostMatches(k, u);
  }

  // ---------- Printing and parsing again ----------

  /** A URL as the parser delivers it. */
  predicate Parsed(u: Url) {
    && AllSupported(u.host) && AllSupported(u.path) && AllSupported(u.query)
    && '/' !in u.host && '?' !in u.host && '@' !in u.host && ValidOptionalPort(u.host)
    && (u.path == "" || u.path[0] == '/') && '?' !in u.path
    && (u.query == "" || u.query[0] == '?')
  }

  lemma ParseHierarchyDeliversParsed(text: string)
    ensures var u := ParseHierarchy(text);
            u.Some? ==> Parsed(u.value) && text == u.value.host + u.value.path + u.value.query
  {
    CutJoins(text, '?');
    CutJoins(Before(text, '?'), '/');
    SupportedConcat(Before(text, '?'), From(text, '?'));
    SupportedConcat(Before(Before(text, '?'), '/'), From(Before(text, '?'), '/'));
  }

  lemma ParseDeliversParsed(text: string)
    ensures var u := ParsePotentiallySchemelessURL(text); u.Some? ==> Parsed(u.value)
  {
    var text := if HTTPS <= text then text[|HTTPS|..] else if HTTP <= text then text[|HTTP|..] else text;
    ParseHierarchyDeliversParsed(text);
  }

  lemma ParseHierarchyOf(u: Url)
    requires Parsed(u)
    ensures ParseHierarchy(u.host + u.path + u.query) == Some(u)
  {
    var hierarchy := u.host + u.path;
    SupportedConcat(u.host, u.path);
    SupportedConcat(hierarchy, u.query);
    CutIs(hierarchy, u.query, '?');
    CutIs(u.host, u.path, '/');
  }

  lemma SchemelessParses(u: Url)
    requires Parsed(u) && !HasScheme(u.host + u.path + u.query)
    ensures ParsePotentiallySchemelessURL(u.host + u.path + u.query) == Some(u)
  {
    ParseHierarchyOf(u);
  }

  /** What a text parses to is no longer than the text. */
  lemma ParsedIsNoLonger(text: string)
    ensures var u := ParsePotentiallySchemelessURL(text);
            u.Some? ==>
                |u.value.host + u.value.path + u.value.query| <= |text| - (if HasScheme(text) then |HTTP| else 0)
  {
    ParseHierarchyDeliversParsed(if HTTPS <= text then text[|HTTPS|..] else if HTTP <= text then text[|HTTP|..] else text);
  }

  lemma NameWithoutHost(u: Url)
    requires Parsed(u) && u.host == ""
    ensures Name(u) == TrimPrefix(u.path + u.query, "//")
    ensures "//" <= u.path + u.query <==> "//" <= u.path
  {
    assert Before(u.path, '/') == "";
    assert Print(u) == u.path + u.query;
    var text := u.path + u.query;
    if |text| > 1 {
      assert text[0] == (if u.path == "" then u.query[0] else '/');
      assert text[1] == if |u.path| > 1 then u.path[1] else u.query[1 - |u.path|];
    }
  }

  /** A relative path gets `./` in front if its first segment could be taken for a scheme. */
  lemma NameOfRelativePath(u: Url, first: string, rest: string)
    requires u.host == "" && u.path == first + rest
    requires first != "" && '/' !in first && (rest == "" || "/" <= rest)
    ensures Name(u) == (if ':' in first then "./" else "") + u.path + u.query
  {
    CutIs(first, rest, '/');
    assert Print(u) == (if ':' in first then "./" else "") + u.path + u.query;
    assert Print(u)[0] == if ':' in first then '.' else first[0];
  }

  /**
   * A URL survives being printed, trimmed and parsed again exactly when the printed name does not
   * itself begin with a scheme, as the host `http:` with the path `//x` would, or, when it has no
   * host, when its path does not begin with the two slashes that are trimmed.
   */
  lemma NameParsesBack(u: Url)
    requires Parsed(u)
    ensures ParsePotentiallySchemelessURL(Name(u)) == Some(u) <==>
            if u.host == "" then !("//" <= u.path) else !HasScheme(Name(u))
  {
    var text := u.host + u.path + u.query;
    ParsedIsNoLonger(Name(u));
    if u.host == "" {
      NameWithoutHost(u);
      assert text == u.path + u.query;
      if !("//" <= u.path) {
        assert text == "" || text[0] == '/' || text[0] == '?';
        assert HTTPS[0] == HTTP[0] == 'h';
        SchemelessParses(u);
      }
    } else {
      NameWithHost(u);
      assert Name(u) == text;
      if !HasScheme(text) {
        SchemelessParses(u);
      }
    }
  }

  /** The three ways to write an endpoint parse alike. */
  lemma SchemeIsIgnored(endpoint: string)
    requires !HasScheme(endpoint)
    ensures ParsePotentiallySchemelessURL(endpoint) == ParsePotentiallySchemelessURL(HTTP + endpoint)
    ensures ParsePotentiallySchemelessURL(endpoint) == ParsePotentiallySchemelessURL(HTTPS + endpoint)
  {
    assert (HTTPS + endpoint)[|HTTPS|..] == endpoint;
    assert (HTTP + endpoint)[|HTTP|..] == endpoint;
    assert !(HTTPS <= HTTP + endpoint) by {
      assert (HTTP + endpoint)[4] == ':' && HTTPS[4] == 's';
    }
  }
}
