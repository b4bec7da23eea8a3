/**
 * The wildcard domain of an image, `pkg/urlglobber/globber.go`.
 */
module Globber {
  import opened Wrappers
  import opened Strings
  import opened Glob
  import opened Urls

  /** Replaces every maximal run of characters other than a dot by a star. */
  function ReplaceRuns(s: string): string
    decreases |s|
  {
    if s == [] then ""
    else if s[0] == '.' then "." + ReplaceRuns(s[1..])
    else
      CutJoins(s, '.');
      "*" + ReplaceRuns(From(s, '.'))
  }

  /** `net.JoinHostPort`, which brackets a host that has a colon in it, as a globbed one never has. */
  function JoinHostPort(host: string, port: string): string {
    if ':' in host then "[" + host + "]:" + port else host + ":" + port
  }

  function GlobbedDomain(domain: string): string {
    var split := SplitHostPort(domain);
    var globbed := ReplaceRuns(if split.Some? then split.value.0 else domain);
    if split.Some? then JoinHostPort(globbed, split.value.1) else globbed
  }

  /** The domain of the image is what the reference parser says it is; it may refuse the image. */
  function GlobbedDomainForImage(domainOf: string -> Option<string>, img: string): Option<string> {
    match domainOf(img)
    case Some(domain) => Some(GlobbedDomain(domain))
    case None => None
  }

  // ---------- The scan is split, map, join ----------

  function Star(part: string): string {
    if part == "" then "" else "*"
  }

  function Stars(parts: seq<string>): (stars: seq<string>)
    ensures |stars| == |parts|
    ensures forall k :: 0 <= k < |parts| ==> stars[k] == Star(parts[k])
  {
    seq(|parts|, k requires 0 <= k < |parts| => Star(parts[k]))
  }

  lemma SplitAfterRun(s: string)
    ensures var rest := Split(From(s, '.'), '.');
            rest[0] == "" && Split(s, '.') == [Before(s, '.')] + rest[1..]
  {
    CutJoins(s, '.');
    var run, rest := Before(s, '.'), From(s, '.');
    hide Before, From;
    SplitWithout(run, '.');
    if rest == "" {
      assert s == run;
    } else {
      var tail := rest[1..];
      assert rest == ['.'] + tail && s == run + ['.'] + tail;
      hide Split;
      SplitConcat(run, '.', tail);
      SplitCons('.', tail, '.');
    }
  }

  lemma {:induction false} SplitReplaceRuns(s: string)
    ensures Split(ReplaceRuns(s), '.') == Stars(Split(s, '.'))
    decreases |s|
  {
    if s == [] {
    } else if s[0] == '.' {
      SplitReplaceRuns(s[1..]);
      SplitCons('.', ReplaceRuns(s[1..]), '.');
      assert Stars([""] + Split(s[1..], '.')) == [""] + Stars(Split(s[1..], '.'));
    } else {
      SplitAfterRun(s);
      CutJoins(s, '.');
      var rest := Split(From(s, '.'), '.');
      SplitReplaceRuns(From(s, '.'));
      SplitCons('*', ReplaceRuns(From(s, '.')), '.');
      assert Stars([Before(s, '.')] + rest[1..]) == ["*"] + Stars(rest)[1..];
      assert "*" + Stars(rest)[0] == "*";
    }
  }

  lemma ReplaceRunsIsSplitMapJoin(s: string)
    ensures ReplaceRuns(s) == Join(Stars(Split(s, '.')), '.')
    ensures forall k :: 0 <= k < |Split(s, '.')| ==>
              Stars(Split(s, '.'))[k] == if Split(s, '.')[k] == "" then "" else "*"
  {
    SplitReplaceRuns(s);
    JoinSplit(ReplaceRuns(s), '.');
  }

  lemma ReplaceRunsIdempotent(s: string)
    ensures ReplaceRuns(ReplaceRuns(s)) == ReplaceRuns(s)
  {
    ReplaceRunsIsSplitMapJoin(s);
    ReplaceRunsIsSplitMapJoin(ReplaceRuns(s));
    SplitReplaceRuns(s);
    assert Stars(Stars(Split(s, '.'))) == Stars(Split(s, '.'));
  }

  // ---------- Domains ----------

  /** A part of a DNS-style host name: it begins with a letter or a digit. */
  predicate IsLabel(part: string) {
    part != "" && IsAlphanumeric(part[0]) && forall c :: c in part ==> IsAlphanumeric(c) || c == '-'
  }

  predicate IsHostName(host: string) {
    forall part :: part in Split(host, '.') ==> IsLabel(part)
  }

  predicate IsPort(port: string) {
    port != "" && forall c :: c in port ==> IsDigit(c)
  }

  /** A domain of a normalised image reference: a host name and perhaps a port. */
  predicate IsDomain(domain: string) {
    match SplitHostPort(domain)
    case Some(pair) => IsHostName(pair.0) && IsPort(pair.1)
    case None => IsHostName(domain)
  }

  /** Labels joined by dots, with a number behind a colon or without, make a domain. */
  lemma DomainOfLabels(parts: seq<string>, port: string)
    requires parts != [] && port != "" && forall c :: c in port ==> '0' <= c <= '9'
    requires forall part, c :: part in parts && c in part ==>
               'a' <= c <= 'z' || 'A' <= c <= 'Z' || '0' <= c <= '9' || c == '-'
    requires forall part :: part in parts ==> part != "" && part[0] != '-'
    ensures IsDomain(Join(parts, '.')) && IsDomain(Join(parts, '.') + ":" + port)
  {
    var host := Join(parts, '.');
    forall part | part in parts ensures IsLabel(part) {
      assert part[0] in part;
    }
    SplitJoin(parts, '.');
    JoinChars(parts, '.');
    SplitHostPortIs(host, port);
    CutIs(host, "", ':');
    assert host + "" == host;
  }

  lemma HostNameChars(host: string)
    requires IsHostName(host)
    ensures host != "" && IsAlphanumeric(host[0])
    ensures forall c :: c in host ==> IsAlphanumeric(c) || c == '-' || c == '.'
  {
    var parts := Split(host, '.');
    JoinSplit(host, '.');
    JoinChars(parts, '.');
    assert parts[0] in parts;
    assert host[0] == parts[0][0];
  }

  lemma {:induction false} ReplaceRunsChars(s: string)
    ensures forall c :: c in ReplaceRuns(s) ==> c == '*' || c == '.'
    ensures s != "" ==> ReplaceRuns(s) != "" && (ReplaceRuns(s)[0] == '*' <==> s[0] != '.')
    decreases |s|
  {
    CutJoins(s, '.');
    if s != [] {
      ReplaceRunsChars(if s[0] == '.' then s[1..] else From(s, '.'));
    }
  }

  /** A domain and its globbed form split into the same port, and into a host and its stars. */
  lemma GlobbedDomainSplits(domain: string)
    requires ':' in domain ==> SplitHostPort(domain).Some?
    ensures HostAndPort(GlobbedDomain(domain)) ==
            (ReplaceRuns(HostAndPort(domain).0), HostAndPort(domain).1)
  {
    var split := SplitHostPort(domain);
    var globbed := ReplaceRuns(HostAndPort(domain).0);
    ReplaceRunsChars(HostAndPort(domain).0);
    if split.Some? {
      SplitHostPortIs(globbed, split.value.1);
    } else {
      CutIs(globbed, "", ':');
      assert globbed + "" == globbed;
    }
  }

  /** The host is globbed, and a port is put behind it again as it was. */
  lemma GlobbedDomainIs(domain: string)
    ensures var (host, port) := HostAndPort(domain);
            GlobbedDomain(domain) == if domain == host then ReplaceRuns(domain) else ReplaceRuns(host) + ":" + port
  {
    HostAndPortIs(domain);
    SplitHostPortJoins(domain);
    ReplaceRunsChars(HostAndPort(domain).0);
  }

  /**
   * What the globbed domain of one image matches: the same port, and the same number of parts, with
   * a part left empty only where the first domain leaves one empty.
   */
  lemma GlobbedDomainMatchesExactly(domain: string, other: string, path: string, query: string)
    requires ':' in domain ==> SplitHostPort(domain).Some?
    requires '/' !in other
    ensures Matches(Url(GlobbedDomain(domain), "", ""), Url(other, path, query)) <==>
            var (host, port) := HostAndPort(domain);
            var (otherHost, otherPort) := HostAndPort(other);
            var (parts, otherParts) := (Split(host, '.'), Split(otherHost, '.'));
            port == otherPort && |parts| == |otherParts| &&
            forall k :: 0 <= k < |parts| ==> parts[k] == "" ==> otherParts[k] == ""
  {
    var (host, port) := HostAndPort(domain);
    var (otherHost, otherPort) := HostAndPort(other);
    var parts, otherParts := Split(host, '.'), Split(otherHost, '.');
    GlobbedDomainSplits(domain);
    SplitReplaceRuns(host);
    SplitMatchIsHostMatch(ReplaceRuns(host), otherHost);
    SplitParts(otherHost, '.');
    SplitHostPortJoins(other);
    assert '/' !in otherHost;
    hide HostAndPort, ReplaceRuns, Split, HostMatch, GlobbedDomain;
    forall k | 0 <= k < |otherParts| ensures FilepathMatch("*", otherParts[k]) {
      WhereStarStops(otherParts[k]);
    }
    forall k | 0 <= k < |parts| && k < |otherParts|
      ensures FilepathMatch(Stars(parts)[k], otherParts[k]) <==> (parts[k] == "" ==> otherParts[k] == "")
    {
      assert Stars(parts)[k] == Star(parts[k]);
    }
  }

  lemma DomainIsAHost(domain: string)
    requires IsDomain(domain)
    ensures domain != "" && IsAlphanumeric(domain[0])
    ensures AllSupported(domain) && '/' !in domain && '?' !in domain && '@' !in domain
    ensures ValidOptionalPort(domain) && (':' in domain ==> SplitHostPort(domain).Some?)
    ensures IsHostName(HostAndPort(domain).0) && domain[|domain| - 1] != ':'
  {
    var split := SplitHostPort(domain);
    HostNameChars(HostAndPort(domain).0);
    SplitHostPortJoins(domain);
    if split.Some? {
      NumberIsValidPort(split.value.0, split.value.1);
      assert domain[|domain| - 1] == split.value.1[|split.value.1| - 1];
      assert IsDigit(split.value.1[|split.value.1| - 1]);
    }
  }

  /** Among valid domains: the same number of parts and the same port, and nothing else counts. */
  lemma GlobbedDomainMatchesDomain(domain: string, other: string, path: string, query: string)
    requires IsDomain(domain) && IsDomain(other)
    ensures Matches(Url(GlobbedDomain(domain), "", ""), Url(other, path, query)) <==>
            && HostAndPort(domain).1 == HostAndPort(other).1
            && |Split(HostAndPort(domain).0, '.')| == |Split(HostAndPort(other).0, '.')|
  {
    DomainIsAHost(domain);
    DomainIsAHost(other);
    GlobbedDomainMatchesExactly(domain, other, path, query);
    var parts := Split(HostAndPort(domain).0, '.');
    assert forall k :: 0 <= k < |parts| ==> parts[k] in parts && IsLabel(parts[k]);
  }

  lemma DigitsHaveNoColon(port: string)
    requires forall c :: c in port ==> IsDigit(c)
    ensures forall k :: 0 <= k < |port| ==> port[k] != ':'
    ensures AllSupported(port) && '/' !in port && '?' !in port && '@' !in port
  {
    assert forall k :: 0 <= k < |port| ==> port[k] in port && IsDigit(port[k]);
  }

  /** A host, or a host with a port, is a URL's host if its characters are. */
  lemma HostWithPortIsParsed(host: string, port: string)
    requires AllSupported(host) && '/' !in host && '?' !in host && '@' !in host && ':' !in host
    requires forall c :: c in port ==> IsDigit(c)
    ensures Parsed(Url(host, "", "")) && Parsed(Url(host + ":" + port, "", ""))
  {
    NumberIsValidPort(host, port);
    DigitsHaveNoColon(port);
    SupportedConcat(host, ":");
    SupportedConcat(host + ":", port);
    assert ValidOptionalPort(host);
    assert AllSupported(":") && AllSupported("");
    hide ValidOptionalPort, AllSupported, IsDigit;
  }

  lemma GlobbedDomainIsAHost(domain: string)
    requires IsDomain(domain)
    ensures Parsed(Url(GlobbedDomain(domain), "", ""))
    ensures GlobbedDomain(domain) != "" && GlobbedDomain(domain)[0] == '*'
  {
    var (host, port) := HostAndPort(domain);
    var stars := ReplaceRuns(host);
    DomainIsAHost(domain);
    HostNameChars(host);
    ReplaceRunsChars(host);
    hide Parsed, IsHostName;
    assert forall i :: 0 <= i < |stars| ==> stars[i] in stars && Supported(stars[i]);
    HostWithPortIsParsed(stars, port);
    assert GlobbedDomain(domain) == stars || GlobbedDomain(domain) == stars + ":" + port;
  }

  /** The globbed domain parses as a host and nothing more. */
  lemma GlobbedDomainParses(domain: string)
    requires IsDomain(domain)
    ensures ParsePotentiallySchemelessURL(GlobbedDomain(domain)) == Some(Url(GlobbedDomain(domain), "", ""))
  {
    var globbed := GlobbedDomain(domain);
    GlobbedDomainIsAHost(domain);
    assert globbed + "" + "" == globbed;
    SchemelessParses(Url(globbed, "", ""));
  }

  lemma DomainIsNoScheme(domain: string, rest: string)
    requires IsDomain(domain)
    ensures !HasScheme(domain + "/" + rest)
  {
    var text := domain + "/" + rest;
    DomainIsAHost(domain);
    assert forall i :: 0 <= i < |domain| ==> text[i] == domain[i] != '/';
    assert text[|domain|] == '/';
    assert forall i :: 0 <= i < 6 ==> HTTPS[i] != '/';
    assert forall i :: 0 <= i < 5 ==> HTTP[i] != '/';
    assert HTTPS[6] == '/' && HTTP[5] == '/';
  }
}
