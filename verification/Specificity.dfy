/**
 * Where the choice is sure to be the most specific key, whatever the order.
 */
module Specificity {
  import opened Wrappers
  import opened Strings
  import opened Urls
  import opened Globber
  import opened Selection

  /** A key as text: the host's parts, the port with its colon if any, and the path. */
  function KeyText(parts: seq<string>, port: string, path: string): string {
    Join(parts, '.') + (port + path)
  }

  /** Some parts of the host replaced whole by a star. */
  predicate Widens(wide: seq<string>, parts: seq<string>) {
    |wide| == |parts| && forall i :: 0 <= i < |parts| ==> wide[i] == parts[i] || wide[i] == "*"
  }

  /** The key has a host wider than or equal to the parts, and a path that begins the path. */
  ghost predicate Generalises(key: string, parts: seq<string>, port: string, path: string) {
    exists wide, shorter :: Widens(wide, parts) && shorter <= path && key == KeyText(wide, port, shorter)
  }

  lemma {:induction false} WiderTextIsSmaller(wide: seq<string>, parts: seq<string>, x: string, y: string)
    requires Widens(wide, parts) && parts != [] && x <= y
    requires forall part :: part in parts ==> IsLabel(part)
    ensures AtMost(Join(wide, '.') + x, Join(parts, '.') + y)
    ensures |Join(wide, '.') + x| <= |Join(parts, '.') + y|
  {
    assert parts[0] in parts && (wide[0] == parts[0] || wide[0] == "*");
    if |parts| > 1 {
      WiderTextIsSmaller(wide[1..], parts[1..], x, y);
      TextOfParts(wide, x);
      TextOfParts(parts, y);
      var w, p := Join(wide[1..], '.') + x, Join(parts[1..], '.') + y;
      hide *;
      AtMostAfterDot(w, p);
      WiderPartIsSmaller(wide[0], parts[0], "." + w, "." + p);
    } else {
      hide IsLabel, Less;
      PrefixAtMost(x, y);
      WiderPartIsSmaller(wide[0], parts[0], x, y);
    }
  }

  lemma TextOfParts(parts: seq<string>, x: string)
    requires |parts| > 1
    ensures Join(parts, '.') + x == parts[0] + ("." + (Join(parts[1..], '.') + x))
  {
  }

  lemma AtMostAfterDot(a: string, b: string)
    requires AtMost(a, b)
    ensures AtMost("." + a, "." + b)
  {
    LessAfterCommon(".", a, b);
  }

  lemma WiderPartIsSmaller(wide: string, part: string, a: string, b: string)
    requires IsLabel(part) && (wide == part || wide == "*") && AtMost(a, b) && |a| <= |b|
    ensures AtMost(wide + a, part + b) && |wide + a| <= |part + b|
  {
    if wide == part {
      LessAfterCommon(wide, a, b);
    } else {
      assert (wide + a)[0] == '*' && (part + b)[0] == part[0];
    }
  }

  /** A literal key is chosen in every order if every other matched key generalises it. */
  lemma LiteralKeyWins(offers: Offers, parts: seq<string>, port: string, path: string, order: seq<Stop>)
    requires parts != [] && forall part :: part in parts ==> IsLabel(part)
    requires KeyText(parts, port, path) in Keys(offers)
    requires forall k :: k in Keys(offers) ==> Generalises(k, parts, port, path)
    requires IsOrder(offers, order)
    ensures Chosen(offers, order).key == KeyText(parts, port, path)
  {
    var literal := KeyText(parts, port, path);
    forall k | k in Keys(offers) ensures AtMost(k, literal) && |k| <= |literal| {
      var wide, shorter :| Widens(wide, parts) && shorter <= path && k == KeyText(wide, port, shorter);
      WiderTextIsSmaller(wide, parts, port + shorter, port + path);
    }
    DominantWinsInEveryOrder(offers, literal, order);
  }

  /** The key is the host text followed by a path, with no scheme in front. */
  predicate IsKeyOn(host: string, key: string) {
    host <= key && !HasScheme(key) && Parsed(Url(host, key[|host|..], ""))
  }

  lemma KeyOnParses(host: string, key: string)
    requires IsKeyOn(host, key)
    ensures ParsePotentiallySchemelessURL(key) == Some(Url(host, key[|host|..], ""))
  {
    var u := Url(host, key[|host|..], "");
    assert u.host + u.path + u.query == key;
    SchemelessParses(u);
  }

  lemma MatchedPath(key: string, u: Url, image: string)
    requires ParsePotentiallySchemelessURL(key) == Some(u) && MatchesStr(key, image)
    ensures ParsePotentiallySchemelessURL(image).Some?
    ensures u.path <= ParsePotentiallySchemelessURL(image).value.path
  {
  }

  /** Two matched keys on one host begin with the same path, so the shorter is a prefix. */
  lemma KeysOnOneHostNest(host: string, k: string, longer: string, image: string)
    requires host <= k && host <= longer
    requires IsKeyOn(host, k) && IsKeyOn(host, longer) && |k| <= |longer|
    requires MatchesStr(k, image) && MatchesStr(longer, image)
    ensures k <= longer
  {
    hide *;
    KeyOnParses(host, k);
    KeyOnParses(host, longer);
    var p, q := k[|host|..], longer[|host|..];
    MatchedPath(k, Url(host, p, ""), image);
    MatchedPath(longer, Url(host, q, ""), image);
    assert k == host + p && longer == host + q;
  }

  /** The matched keys on one host are prefixes of one another, and the longest is always chosen. */
  lemma LongestPathWins(offers: Offers, host: string, image: string, order: seq<Stop>)
    requires Keys(offers) != {}
    requires forall k :: k in Keys(offers) ==> IsKeyOn(host, k) && MatchesStr(k, image)
    requires IsOrder(offers, order)
    ensures forall k :: k in Keys(offers) ==> k <= Chosen(offers, order).key
  {
    var longest := LongestExists(Keys(offers));
    forall k | k in Keys(offers) ensures k <= longest && AtMost(k, longest) {
      KeysOnOneHostNest(host, k, longest, image);
      PrefixAtMost(k, longest);
    }
    DominantWinsInEveryOrder(offers, longest, order);
  }

  // ---------- Where it is not ----------

  lemma BareDomainParses(domain: string, path: string)
    requires IsDomain(domain) && AllSupported(path) && '?' !in path && (path == "" || "/" <= path)
    ensures ParsePotentiallySchemelessURL(domain + path) == Some(Url(domain, path, ""))
  {
    DomainIsAHost(domain);
    var u := Url(domain, path, "");
    assert Parsed(u) && u.host + u.path + u.query == domain + path;
    DomainIsNoScheme(domain, if path == "" then "" else path[1..]);
    hide IsDomain, Parsed;
    if path == "" {
      assert domain + "/" + "" == (domain + path) + "/";
    } else {
      assert domain + "/" + path[1..] == domain + path;
    }
    SchemelessParses(u);
  }

  lemma GlobbedKeyParses(domain: string, path: string)
    requires IsDomain(domain) && AllSupported(path) && '?' !in path && (path == "" || "/" <= path)
    ensures ParsePotentiallySchemelessURL(GlobbedDomain(domain) + path) == Some(Url(GlobbedDomain(domain), path, ""))
  {
    var globbed := GlobbedDomain(domain);
    GlobbedDomainIsAHost(domain);
    var u := Url(globbed, path, "");
    assert Parsed(u) && u.host + u.path + u.query == globbed + path;
    assert (globbed + path)[0] == '*' && HTTPS[0] == HTTP[0] == 'h';
    hide GlobbedDomain, Parsed, IsDomain;
    SchemelessParses(u);
  }

  /** The bare domain and the globbed domain with the image's path both match the image. */
  lemma BothKeysMatch(domain: string, path: string)
    requires IsDomain(domain) && AllSupported(path) && '?' !in path && (path == "" || "/" <= path)
    ensures MatchesStr(domain, domain + path) && MatchesStr(GlobbedDomain(domain) + path, domain + path)
    ensures Less(GlobbedDomain(domain) + path, domain)
  {
    var globbed := GlobbedDomain(domain);
    BareDomainParses(domain, path);
    BareDomainParses(domain, "");
    assert domain + "" == domain;
    GlobbedKeyParses(domain, path);
    DomainIsAHost(domain);
    GlobbedDomainIsAHost(domain);
    assert (globbed + path)[0] == '*';
    hide ParsePotentiallySchemelessURL, Parsed, IsDomain, GlobbedDomain, Matches;
    MatchesOnOneHost(Url(domain, "", ""), Url(domain, path, ""));
    GlobbedDomainMatchesDomain(domain, domain, path, "");
    GlobbedPathOnly(globbed, domain, path);
  }

  lemma GlobbedPathOnly(globbed: string, domain: string, path: string)
    ensures Matches(Url(globbed, path, ""), Url(domain, path, "")) <==>
        Matches(Url(globbed, "", ""), Url(domain, path, ""))
  {
  }

  /**
   * Of the two keys the bare domain is the greater; so which is chosen depends on the order exactly
   * when the wildcard key is the longer, as it is for all but the shortest paths.
   */
  lemma WildcardWithPathAgainstBareDomain(domain: string, path: string, provider: string, wildcard: Entry, bare: Entry)
    requires IsDomain(domain) && AllSupported(path) && '?' !in path && (path == "" || "/" <= path)
    ensures MatchesStr(domain, domain + path) && MatchesStr(GlobbedDomain(domain) + path, domain + path)
    ensures var globKey := GlobbedDomain(domain) + path;
            KeyOrderIndependent(map[provider := map[globKey := wildcard, domain := bare]]) <==> |globKey| <= |domain|
  {
    BothKeysMatch(domain, path);
    DomainIsAHost(domain);
    var globKey := GlobbedDomain(domain) + path;
    hide MatchesStr, IsDomain, GlobbedDomain, Less, KeyOrderIndependent;
    LessTrichotomy(globKey, domain);
    assert globKey != "" by { GlobbedDomainIsAHost(domain); }
    KeyOrderDecidedByLength(globKey, domain, provider, wildcard, bare);
  }

  lemma KeyOrderDecidedByLength(less: string, greater: string, provider: string, a: Entry, b: Entry)
    requires Less(less, greater) && less != "" && greater != ""
    ensures KeyOrderIndependent(map[provider := map[less := a, greater := b]]) <==> |less| <= |greater|
  {
    var offers: Offers := map[provider := map[less := a, greater := b]];
    LessTrichotomy(less, greater);
    hide Less, KeyOrderIndependent;
    KeyOrderIndependence(offers);
    assert less in offers[provider] && greater in offers[provider];
    assert Keys(offers) == {less, greater};
    assert |less| <= |greater| ==> Dominant(Keys(offers), greater);
  }
}
