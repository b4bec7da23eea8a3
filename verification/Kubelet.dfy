/**
 * How the kubelet reads a response, and what order the mirror strategies promise it.
 */
module Kubelet {
  import opened Wrappers
  import opened Strings
  import opened Urls
  import opened Globber
  import opened Selection
  import opened Config

  type Auth = map<string, AuthConfig>

  /** The keys the kubelet tries for an image: those that match, in reverse string order. */
  ghost predicate IsTraversal(auth: Auth, img: string, keys: seq<string>) {
    (forall k :: k in keys <==> k in auth && MatchesStr(k, img)) && Descends(keys)
  }

  ghost predicate Descends(keys: seq<string>) {
    forall i, j :: 0 <= i < j < |keys| ==> Less(keys[j], keys[i])
  }

  function Credentials(auth: Auth, keys: seq<string>): seq<AuthConfig>
    requires forall k :: k in keys ==> k in auth
  {
    seq(|keys|, i requires 0 <= i < |keys| => auth[keys[i]])
  }

  /** There is a traversal, and it yields these credentials in this order. */
  ghost predicate Tries(auth: Auth, img: string, credentials: seq<AuthConfig>) {
    && (exists keys :: IsTraversal(auth, img, keys))
    && (forall keys :: IsTraversal(auth, img, keys) ==> Credentials(auth, keys) == credentials)
  }

  /** What one lookup of an image finds.  `auth` is the zero value when nothing is found. */
  datatype Found = Found(auth: AuthConfig, cacheDuration: int, found: bool)

  const NOT_FOUND := Found(NO_AUTH, 0, false)

  function FoundFrom(choice: Visit): Found {
    Found(choice.entry.auth, choice.entry.duration, choice.key != "")
  }

  /** The map after `updateAuthConfigMapForMirror` with one of the three strategies. */
  function Merged(auth: Auth, img: string, globbed: string, strategy: Strategy, mirrorAuth: AuthConfig): Auth {
    match strategy
    case MirrorCredentialsOnly => auth[img := mirrorAuth]
    case MirrorCredentialsLast => auth[globbed := mirrorAuth]
    case MirrorCredentialsFirst =>
      (if img in auth then auth[globbed := auth[img]] else auth)[img := mirrorAuth]
    case Unknown(_) => auth
  }

  // ---------- Normalised images ----------

  /** A full image name: the domain the reference parser reports, a slash, and the rest. */
  predicate IsNormalised(domainOf: string -> Option<string>, img: string) {
    && domainOf(img).Some? && IsDomain(domainOf(img).value)
    && domainOf(img).value + "/" <= img && AllSupported(img)
  }

  /** Labels joined by dots, perhaps a port, a slash, and the rest make a full image name. */
  lemma FullNameIsNormalised(domainOf: string -> Option<string>, parts: seq<string>, port: string, rest: string)
    requires parts != [] && port != "" && forall c :: c in port ==> '0' <= c <= '9'
    requires forall part, c :: part in parts && c in part ==>
               'a' <= c <= 'z' || 'A' <= c <= 'Z' || '0' <= c <= '9' || c == '-'
    requires forall part :: part in parts ==> part != "" && part[0] != '-'
    requires IsWellFormed(rest)
    ensures forall domain :: domain == Join(parts, '.') || domain == Join(parts, '.') + ":" + port ==>
              domainOf(domain + "/" + rest) == Some(domain) ==> IsNormalised(domainOf, domain + "/" + rest)
  {
    DomainOfLabels(parts, port);
    forall domain | (domain == Join(parts, '.') || domain == Join(parts, '.') + ":" + port) &&
                    domainOf(domain + "/" + rest) == Some(domain)
      ensures IsNormalised(domainOf, domain + "/" + rest)
    {
      DomainIsAHost(domain);
      SupportedConcat(domain, "/");
      SupportedConcat(domain + "/", rest);
      assert forall i :: 0 <= i < |rest| ==> rest[i] in rest;
    }
  }

  lemma NormalisedHasDomain(domainOf: string -> Option<string>, img: string)
    requires IsNormalised(domainOf, img)
    ensures domainOf(img).Some?
  {
  }

  lemma DomainBeforePathIsParsed(domain: string, rest: string)
    requires IsDomain(domain) && AllSupported(domain + "/" + rest)
    ensures var u := Url(domain, Before("/" + rest, '?'), From("/" + rest, '?'));
            Parsed(u) && u.host + u.path + u.query == domain + "/" + rest
  {
    DomainIsAHost(domain);
    hide IsDomain, ValidOptionalPort, HostAndPort, AllSupported;
    CutJoins("/" + rest, '?');
    var path, query := Before("/" + rest, '?'), From("/" + rest, '?');
    assert domain + path + query == domain + (path + query);
    assert domain + "/" + rest == domain + ("/" + rest);
    SupportedConcat(domain, "/" + rest);
    SupportedConcat(path, query);
  }

  lemma NormalisedParses(domainOf: string -> Option<string>, img: string)
    requires IsNormalised(domainOf, img)
    ensures ParsePotentiallySchemelessURL(img).Some?
    ensures ParsePotentiallySchemelessURL(img).value.host == domainOf(img).value
  {
    var domain := domainOf(img).value;
    var rest := img[|domain| + 1..];
    var u := Url(domain, Before("/" + rest, '?'), From("/" + rest, '?'));
    assert img == domain + "/" + rest && IsDomain(domain) && AllSupported(img);
    hide *;
    DomainIsNoScheme(domain, rest);
    DomainBeforePathIsParsed(domain, rest);
    SchemelessParses(u);
  }

  /** The globbed key matches the image and sorts below it. */
  lemma GlobbedKeyComesLast(domainOf: string -> Option<string>, img: string)
    requires IsNormalised(domainOf, img)
    ensures MatchesStr(img, img)
    ensures MatchesStr(GlobbedDomain(domainOf(img).value), img)
    ensures Less(GlobbedDomain(domainOf(img).value), img)
  {
    var domain := domainOf(img).value;
    NormalisedParses(domainOf, img);
    MatchesStrReflexive(img);
    var u := ParsePotentiallySchemelessURL(img).value;
    DomainIsAHost(domain);
    assert img[0] == domain[0];
    GlobbedDomainIsAHost(domain);
    GlobbedDomainParses(domain);
    hide ParsePotentiallySchemelessURL, Matches, IsDomain, GlobbedDomain, Parsed;
    GlobbedDomainMatchesDomain(domain, domain, u.path, u.query);
  }

  // ---------- The order the strategies promise ----------

  lemma SomeElement(keys: seq<string>)
    requires keys != []
    ensures exists k :: k in keys
  {
    assert keys[0] in keys;
  }

  /** There is one way to put keys into reverse order. */
  lemma {:induction false} DescendingIsUnique(a: seq<string>, b: seq<string>)
    requires Descends(a) && Descends(b) && forall k :: k in a <==> k in b
    ensures a == b
  {
    if a != [] {
      assert a[0] in a && b[0] in b;
      LessTrichotomy(a[0], b[0]);
      assert a[0] == b[0];
      forall k ensures k in a[1..] <==> k in b[1..] {
        LessTrichotomy(a[0], a[0]);
        assert k in a <==> k == a[0] || k in a[1..];
        assert k in b <==> k == b[0] || k in b[1..];
      }
      DescendingIsUnique(a[1..], b[1..]);
    } else if b != [] {
      SomeElement(b);
    }
  }

  lemma {:induction false} DescendingExists(keys: set<string>) returns (order: seq<string>)
    ensures Descends(order) && forall k :: k in order <==> k in keys
    decreases |keys|
  {
    if keys == {} {
      order := [];
    } else {
      var g := GreatestExists(keys);
      var rest := DescendingExists(keys - {g});
      order := [g] + rest;
      forall i, j | 0 <= i < j < |order| ensures Less(order[j], order[i]) {
        assert rest[j - 1] in rest;
      }
    }
  }

  /** Every response has a traversal for every image, and only one. */
  lemma OneTraversal(auth: Auth, img: string) returns (keys: seq<string>)
    ensures forall other :: IsTraversal(auth, img, other) <==> other == keys
  {
    keys := DescendingExists(set k | k in auth && MatchesStr(k, img));
    hide MatchesStr;
    forall other | IsTraversal(auth, img, other) ensures other == keys {
      DescendingIsUnique(other, keys);
    }
  }

  lemma TraversalOf(auth: Auth, img: string, globbed: string, keys: seq<string>, expected: seq<string>)
    requires MatchesStr(img, img) && MatchesStr(globbed, img) && Less(globbed, img)
    requires auth.Keys == (set k | k in expected) && expected in {[], [img], [img, globbed]}
    ensures IsTraversal(auth, img, keys) <==> keys == expected
  {
    hide MatchesStr;
    assert IsTraversal(auth, img, expected);
    if IsTraversal(auth, img, keys) {
      DescendingIsUnique(keys, expected);
    }
  }

  /** The map `GetCredentials` builds from what the two lookups find. */
  function ResponseAuth(mirror: Option<MirrorConfig>, img: string, globbed: string, m: Found, o: Found): Auth {
    var origin := if mirror.Some? && mirror.value.strategy == MirrorCredentialsOnly then map[] else map[img := o.auth];
    if mirror.Some? && m.found then Merged(origin, img, globbed, mirror.value.strategy, m.auth) else origin
  }

  /** The credentials in the order in which they are to be tried. */
  function Promised(mirror: Option<MirrorConfig>, m: Found, o: Found): seq<AuthConfig> {
    if mirror.None? then [o.auth]
    else match mirror.value.strategy
      case MirrorCredentialsOnly => if m.found then [m.auth] else []
      case MirrorCredentialsFirst => if m.found then [m.auth, o.auth] else [o.auth]
      case MirrorCredentialsLast => if m.found then [o.auth, m.auth] else [o.auth]
      case Unknown(_) => [o.auth]
  }

  lemma PromiseKept(mirror: Option<MirrorConfig>, img: string, globbed: string, m: Found, o: Found)
    requires MatchesStr(img, img) && MatchesStr(globbed, img) && Less(globbed, img)
    ensures Tries(ResponseAuth(mirror, img, globbed, m, o), img, Promised(mirror, m, o))
  {
    hide MatchesStr, IsTraversal;
    LessTrichotomy(img, globbed);
    var auth := ResponseAuth(mirror, img, globbed, m, o);
    var expected := if auth == map[] then [] else if globbed in auth then [img, globbed] else [img];
    assert auth.Keys == set k | k in expected;
    forall keys ensures IsTraversal(auth, img, keys) <==> keys == expected {
      TraversalOf(auth, img, globbed, keys, expected);
    }
    if globbed in auth {
      assert Credentials(auth, expected) == [auth[img], auth[globbed]];
    } else if auth != map[] {
      assert Credentials(auth, expected) == [auth[img]];
    }
    assert Credentials(auth, expected) == Promised(mirror, m, o);
    assert IsTraversal(auth, img, expected);
  }

  /** For a normalised image the kubelet tries exactly what the strategy promises, in its order. */
  lemma StrategyOrder(domainOf: string -> Option<string>, mirror: Option<MirrorConfig>, img: string, m: Found, o: Found)
    requires IsNormalised(domainOf, img)
    ensures var globbed := GlobbedDomain(domainOf(img).value);
            Tries(ResponseAuth(mirror, img, globbed, m, o), img, Promised(mirror, m, o))
  {
    GlobbedKeyComesLast(domainOf, img);
    var globbed := GlobbedDomain(domainOf(img).value);
    hide MatchesStr, IsNormalised, GlobbedDomain, ResponseAuth, Tries;
    PromiseKept(mirror, img, globbed, m, o);
  }
}
