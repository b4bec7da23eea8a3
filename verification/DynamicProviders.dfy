/**
 * The provider behind the `get-credentials` command, `pkg/credentialprovider/dynamic/dynamic.go`.
 */
module DynamicProviders {
  import opened Wrappers
  import opened Strings
  import opened Urls
  import opened Globber
  import opened Selection
  import opened Outcomes
  import opened PluginProviders
  import opened Config
  import opened Mirror
  import opened Kubelet

  /** The response to the kubelet.  `cacheDuration` is its lifetime. */
  datatype CredentialResponse = CredentialResponse(cacheDuration: int, auth: Auth)

  /** A map that is passed along and changed in place. */
  class AuthMap {
    var entries: Auth

    constructor ()
      ensures entries == map[]
    {
      entries := map[];
    }
  }

  method UpdateAuthConfigMapForMirror(
      authMap: AuthMap, img: string, domainOf: string -> Option<string>, strategy: Strategy, mirrorAuth: AuthConfig)
    returns (r: Result<(), Error>)
    modifies authMap
    ensures domainOf(img).None? ==> r == Failure(InvalidImageReference(img))
    ensures domainOf(img).Some? ==>
        r == if strategy.Unknown? then Failure(UnsupportedStrategy(strategy)) else Success(())
    ensures r.Failure? ==> authMap.entries == old(authMap.entries)
    ensures r.Success? ==>
      var globbed, old' := GlobbedDomain(domainOf(img).value), old(authMap.entries);
      && (strategy == MirrorCredentialsOnly ==> authMap.entries == old'[img := mirrorAuth])
      && (strategy == MirrorCredentialsLast ==> authMap.entries == old'[globbed := mirrorAuth])
      && (strategy == MirrorCredentialsFirst && img in old' ==>
            authMap.entries == old'[globbed := old'[img]][img := mirrorAuth])
      && (strategy == MirrorCredentialsFirst && img !in old' ==> authMap.entries == old'[img := mirrorAuth])
    ensures r.Success? ==>
      authMap.entries ==
      Merged(old(authMap.entries), img, GlobbedDomain(domainOf(img).value), strategy, mirrorAuth)
  {
    var globbed := GlobbedDomainForImage(domainOf, img);
    if globbed.None? {
      return Failure(InvalidImageReference(img));
    }
    match strategy {
      case MirrorCredentialsOnly =>
        authMap.entries := authMap.entries[img := mirrorAuth];
      case MirrorCredentialsLast =>
        authMap.entries := authMap.entries[globbed.value := mirrorAuth];
      case MirrorCredentialsFirst =>
        if img in authMap.entries {
          authMap.entries := authMap.entries[globbed.value := authMap.entries[img]];
        }
        authMap.entries := authMap.entries[img := mirrorAuth];
      case Unknown(_) =>
        return Failure(UnsupportedStrategy(strategy));
    }
    return Success(());
  }

  // ---------- What a lookup may find ----------

  /** Some order of the maps makes the lookup of the image find this. */
  ghost predicate MayFind(providers: map<string, PluginProvider>, img: string, found: Found) {
    && !SomeProviderFails(providers, img)
    && exists order :: IsOrder(OffersOf(providers, img), order) &&
                       found == FoundFrom(Chosen(OffersOf(providers, img), order))
  }

  /** The error is that of a provider that is asked about the image and fails. */
  ghost predicate IsPluginFailure(providers: map<string, PluginProvider>, img: string, error: Error) {
    error.PluginFailed? &&
    exists name :: name in providers && Allows(providers[name], img) &&
                   providers[name].execPlugin(img) == Failed(error.message)
  }

  /**
   * What is found is one plugin's credential under one matching key, with the lifetime that its reply
   * or else its configuration gives; and when nothing is found no reply has such a key.
   */
  ghost predicate IsAnswer(providers: map<string, PluginProvider>, img: string, found: Found) {
    if found.found then
      exists name, key :: name in providers && key != "" && MatchesStr(key, img) &&
                          Returns(providers[name], img, key, found.auth, found.cacheDuration)
    else
      && found.auth == AuthConfig("", "") && found.cacheDuration == 0
      && forall name, key, auth, duration ::
           name in providers && MatchesStr(key, img) && Returns(providers[name], img, key, auth, duration) ==> key == ""
  }

  /** Whatever the order, a lookup answers with what a plugin returned. */
  lemma FoundIsAnAnswer(providers: map<string, PluginProvider>, img: string, found: Found)
    requires MayFind(providers, img, found)
    ensures IsAnswer(providers, img, found)
  {
    var offers := OffersOf(providers, img);
    var order :| IsOrder(offers, order) && found == FoundFrom(Chosen(offers, order));
    hide MatchesStr, IsOrder, Returns, OffersOf;
    ChosenIsOneEntry(offers, order);
    if found.found {
      var name :| name in offers && Chosen(offers, order).key in offers[name] &&
                  Chosen(offers, order).entry == offers[name][Chosen(offers, order).key];
      OfferedIsReturned(providers, img, name, Chosen(offers, order).key);
    } else {
      forall name, key, auth, duration |
        name in providers && MatchesStr(key, img) && Returns(providers[name], img, key, auth, duration)
        ensures key == ""
      {
        OfferedIsReturned(providers, img, name, key);
        assert key != "" ==> key in Keys(offers);
      }
    }
  }

  lemma FoundInSomeOrder(providers: map<string, PluginProvider>, img: string, order: seq<Stop>)
    requires !SomeProviderFails(providers, img) && IsOrder(OffersOf(providers, img), order)
    ensures MayFind(providers, img, FoundFrom(Chosen(OffersOf(providers, img), order)))
  {
  }

  /** Some plugin that is asked about the image returns a key that matches it. */
  predicate SomethingMatches(providers: map<string, PluginProvider>, img: string) {
    exists name :: name in providers && HasMatch(providers[name], img)
  }

  predicate HasMatch(p: PluginProvider, img: string) {
    && Allows(p, img) && p.execPlugin(img).Replied?
    && exists key :: key in p.execPlugin(img).response.auth && key != "" && MatchesStr(key, img)
  }

  /** Whether anything is found does not depend on the order. */
  lemma FoundIffSomethingMatches(providers: map<string, PluginProvider>, img: string, found: Found)
    requires MayFind(providers, img, found)
    ensures found.found <==> SomethingMatches(providers, img)
    ensures !found.found ==> found == NOT_FOUND
  {
    FoundIsAnAnswer(providers, img, found);
    if name :| name in providers && HasMatch(providers[name], img) {
      var response := providers[name].execPlugin(img).response;
      var key :| key in response.auth && key != "" && MatchesStr(key, img);
      var duration := response.cacheDuration.GetOr(providers[name].defaultCacheDuration.GetOr(0));
      assert Returns(providers[name], img, key, response.auth[key], duration);
    }
  }

  /** What a lookup finds does not depend on the order exactly when the credential chosen does not. */
  lemma LookupIndependence(providers: map<string, PluginProvider>, img: string)
    requires !SomeProviderFails(providers, img)
    ensures (forall a, b :: MayFind(providers, img, a) && MayFind(providers, img, b) ==> a == b) <==>
            CredentialIndependent(OffersOf(providers, img))
  {
    var offers := OffersOf(providers, img);
    hide OffersOf, SomeProviderFails, IsOrder, Chosen;
    if CredentialIndependent(offers) {
      forall a, b | MayFind(providers, img, a) && MayFind(providers, img, b) ensures a == b {
        FoundIffSomethingMatches(providers, img, a);
        FoundIffSomethingMatches(providers, img, b);
      }
    } else {
      var o1, o2 :| IsOrder(offers, o1) && IsOrder(offers, o2) && Chosen(offers, o1).entry != Chosen(offers, o2).entry;
      FoundInSomeOrder(providers, img, o1);
      FoundInSomeOrder(providers, img, o2);
      assert FoundFrom(Chosen(offers, o1)) != FoundFrom(Chosen(offers, o2));
    }
  }

  /** A dominant key under which the providers agree makes the lookup independent of the order. */
  lemma DominantKeySettlesTheLookup(providers: map<string, PluginProvider>, img: string, g: string, a: Found, b: Found)
    requires Dominant(Keys(OffersOf(providers, img)), g) && Agreed(OffersOf(providers, img), g)
    requires MayFind(providers, img, a) && MayFind(providers, img, b)
    ensures a == b
  {
    OrderIndependence(OffersOf(providers, img));
  }

  /**
   * A provider configured for the endpoint that returns the endpoint as a key is consulted for
   * every image behind the mirror, and whatever the orders, a mirror credential is found.
   */
  lemma EndpointCredentialIsFound(
      providers: map<string, PluginProvider>, name: string, endpoint: string, img: string,
      mirror: Url, image: Url, found: Found)
    requires ParsePotentiallySchemelessURL(endpoint) == Some(mirror) && mirror.host != "" && IsTidy(mirror.path)
    requires ParsePotentiallySchemelessURL(img) == Some(image) && IsImagePath(image.path)
    requires MirrorImage(endpoint, img).Success? && MayFind(providers, MirrorImage(endpoint, img).value, found)
    requires name in providers && Allows(providers[name], endpoint)
    requires var reply := providers[name].execPlugin(MirrorImage(endpoint, img).value);
             reply.Replied? && endpoint in reply.response.auth
    ensures found.found
  {
    var mirrorImage := MirrorImage(endpoint, img).value;
    EndpointMatchesIffTidy(endpoint, img, mirror, image);
    KeyInsideThePatterns(providers[name], endpoint, mirrorImage);
    FoundIffSomethingMatches(providers, mirrorImage, found);
    EmptyTextHasNoHost();
    hide MatchesStr, ParsePotentiallySchemelessURL, Allows, MayFind, MirrorImage, IsTidy, IsImagePath;
    assert HasMatch(providers[name], mirrorImage);
  }

  lemma EmptyTextHasNoHost()
    ensures var u := ParsePotentiallySchemelessURL(""); u.Some? ==> u.value.host == ""
  {
  }

  predicate OnlyMirror(mirror: Option<MirrorConfig>) {
    mirror.Some? && mirror.value.strategy == MirrorCredentialsOnly
  }

  predicate MirrorLookupFails(mirror: Option<MirrorConfig>, providers: map<string, PluginProvider>, img: string) {
    mirror.Some? &&
    (MirrorImage(mirror.value.endpoint, img).Failure? ||
     SomeProviderFails(providers, MirrorImage(mirror.value.endpoint, img).value))
  }

  ghost predicate IsMirrorFailure(
    mirror: Option<MirrorConfig>, providers: map<string, PluginProvider>, img: string, error: Error)
  {
    && mirror.Some?
    && match MirrorImage(mirror.value.endpoint, img)
       case Failure(e) => error == e
       case Success(name) => IsPluginFailure(providers, name, error)
  }

  ghost predicate MayFindAtMirror(
    mirror: Option<MirrorConfig>, providers: map<string, PluginProvider>, img: string, found: Found)
  {
    if mirror.None? then found == NOT_FOUND
    else
      && MirrorImage(mirror.value.endpoint, img).Success?
      && MayFind(providers, MirrorImage(mirror.value.endpoint, img).value, found)
  }

  lemma MirrorFoundIffSomethingMatches(
      mirror: Option<MirrorConfig>, providers: map<string, PluginProvider>, img: string, found: Found)
    requires MayFindAtMirror(mirror, providers, img, found)
    ensures !found.found ==> found == NOT_FOUND
    ensures mirror.Some? ==>
      (found.found <==> SomethingMatches(providers, MirrorImage(mirror.value.endpoint, img).value))
  {
    if mirror.Some? {
      FoundIffSomethingMatches(providers, MirrorImage(mirror.value.endpoint, img).value, found);
    }
  }

  /** The lifetime is the least of those of the credentials found, and zero when there are none. */
  predicate IsLifetime(lifetime: int, m: Found, o: Found) {
    && (m.found ==> lifetime <= m.cacheDuration)
    && (o.found ==> lifetime <= o.cacheDuration)
    && ((m.found && lifetime == m.cacheDuration) || (o.found && lifetime == o.cacheDuration) ||
        (!m.found && !o.found && lifetime == 0))
  }

  class DynamicProvider {
    const mirror: Option<MirrorConfig>
    const domainOf: string -> Option<string>
    var providers: map<string, PluginProvider>

    constructor (mirror: Option<MirrorConfig>, domainOf: string -> Option<string>,
        providers: map<string, PluginProvider>)
      ensures this.mirror == mirror && this.domainOf == domainOf && this.providers == providers
    {
      this.mirror, this.domainOf, this.providers := mirror, domainOf, providers;
    }

    method GetCredentialsForImage(img: string) returns (r: Result<Found, Error>)
      ensures r.Failure? <==>
        exists name, pattern :: name in providers && pattern in providers[name].matchImages &&
                                MatchesStr(pattern, img) && providers[name].execPlugin(img).Failed?
      ensures r.Failure? ==>
        r.error.PluginFailed? &&
        exists name :: name in providers && providers[name].execPlugin(img) == Failed(r.error.message)
      ensures r.Failure? <==> SomeProviderFails(providers, img)
      ensures r.Failure? ==> IsPluginFailure(providers, img, r.error)
      ensures r.Success? ==> MayFind(providers, img, r.value) && IsAnswer(providers, img, r.value)
    {
      ghost var offers := OffersOf(providers, img);
      ghost var order: seq<Stop> := [];
      ghost var best := NOTHING;
      var longestMatchedURL, authConfig, cacheDuration := "", NO_AUTH, 0;
      var todo := providers.Keys;
      NoProviders(offers);
      assert offers.Keys == providers.Keys;
      while todo != {}
        invariant todo <= providers.Keys
        invariant forall name :: name in providers && name !in todo ==> !GatedReply(providers[name], img).Failed?
        invariant AmongProviders(offers, order, todo, best)
        invariant best == Visit(longestMatchedURL, Entry(authConfig, cacheDuration))
      {
        var name :| name in todo;
        var prov := providers[name];
        var reply := Provide(prov, img);
        if reply.Failed? {
          return Failure(PluginFailed(reply.message));
        }
        ghost var visits, last, keys := VisitsSoFar(offers, order, todo, best), best, [];
        if reply.Nothing? {
          OfferOfNothing(prov, img);
          NoKeys(visits, offers[name], {});
        } else {
          OfferOfResponse(prov, reply.response, img);
          var auth := reply.response.auth;
          var keysTodo := auth.Keys;
          NoKeys(visits, offers[name], keysTodo);
          while keysTodo != {}
            invariant keysTodo <= auth.Keys
            invariant AmongKeys(visits, offers[name], keys, keysTodo, best)
            invariant best == Visit(longestMatchedURL, Entry(authConfig, cacheDuration))
          {
            var k :| k in keysTodo;
            NextKey(visits, offers[name], keys, keysTodo, best, k);
            keysTodo := keysTodo - {k};
            var matched := URLsMatchStr(k, img);
            if matched != Success(true) {
              continue;
            }
            if |longestMatchedURL| < |k| || Less(longestMatchedURL, k) {
              longestMatchedURL := k;
              authConfig := auth[k];
              cacheDuration := DefaultCacheDuration(prov);
              if reply.response.cacheDuration.Some? {
                cacheDuration := reply.response.cacheDuration.value;
              }
            }
            keys, best := keys + [k], Consider(best, Visit(k, offers[name][k]));
          }
        }
        NextProvider(offers, order, todo, last, name, keys, best);
        order := order + [Stop(name, keys)];
        todo := todo - {name};
      }
      AllProviders(offers, order, best);
      FoundInSomeOrder(providers, img, order);
      FoundIsAnAnswer(providers, img, FoundFrom(best));
      return Success(Found(authConfig, cacheDuration, longestMatchedURL != ""));
    }

    method GetMirrorCredentialsForImage(img: string) returns (r: Result<Found, Error>)
      ensures r.Failure? <==> MirrorLookupFails(mirror, providers, img)
      ensures r.Failure? ==> IsMirrorFailure(mirror, providers, img, r.error)
      ensures mirror.Some? && ParsePotentiallySchemelessURL(img).None? ==> r == Failure(UnparsableImage(img))
      ensures mirror.Some? && ParsePotentiallySchemelessURL(mirror.value.endpoint).None? ==>
        ParsePotentiallySchemelessURL(img).Some? ==> r == Failure(UnparsableMirror(img))
      ensures r.Success? ==> MayFindAtMirror(mirror, providers, img, r.value)
      ensures r.Success? && mirror.Some? ==> IsAnswer(providers, MirrorImage(mirror.value.endpoint, img).value, r.value)
    {
      if mirror.None? {
        return Success(NOT_FOUND);
      }
      MirrorImageFails(mirror.value.endpoint, img);
      var name := MirrorImage(mirror.value.endpoint, img);
      if name.Failure? {
        return Failure(name.error);
      }
      r := GetCredentialsForImage(name.value);
    }

    /** `m` and `o` are what the lookups at the mirror and at the origin found. */
    method GetCredentials(img: string) returns (r: Result<CredentialResponse, Error>, ghost m: Found, ghost o: Found)
      ensures mirror.None? ==> (r.Failure? <==> SomeProviderFails(providers, img))
      ensures mirror.Some? ==>
        (r.Failure? <==>
          || MirrorLookupFails(mirror, providers, img)
          || (mirror.value.strategy != MirrorCredentialsOnly && SomeProviderFails(providers, img))
          || (SomethingMatches(providers, MirrorImage(mirror.value.endpoint, img).value) &&
              (domainOf(img).None? || mirror.value.strategy.Unknown?)))
      ensures r.Failure? ==>
        if MirrorLookupFails(mirror, providers, img) then IsMirrorFailure(mirror, providers, img, r.error)
        else if mirror.None? || (mirror.value.strategy != MirrorCredentialsOnly && SomeProviderFails(providers, img))
        then IsPluginFailure(providers, img, r.error)
        else if domainOf(img).None? then r.error == InvalidImageReference(img)
        else r.error == UnsupportedStrategy(mirror.value.strategy)
      ensures mirror.Some? && ParsePotentiallySchemelessURL(img).None? ==> r == Failure(UnparsableImage(img))
      ensures mirror.Some? && ParsePotentiallySchemelessURL(mirror.value.endpoint).None? ==>
        ParsePotentiallySchemelessURL(img).Some? ==> r == Failure(UnparsableMirror(img))
      ensures r.Success? && mirror.None? ==> m == NOT_FOUND
      ensures r.Success? && mirror.Some? ==>
        && MayFindAtMirror(mirror, providers, img, m)
        && IsAnswer(providers, MirrorImage(mirror.value.endpoint, img).value, m)
      ensures r.Success? && (mirror.None? || mirror.value.strategy != MirrorCredentialsOnly) ==>
        MayFind(providers, img, o) && IsAnswer(providers, img, o)
      ensures r.Success? && mirror.Some? && mirror.value.strategy == MirrorCredentialsOnly ==> o == NOT_FOUND
      ensures r.Success? ==>
        && IsLifetime(r.value.cacheDuration, m, o)
        && r.value.auth == ResponseAuth(mirror, img, GlobbedDomain(domainOf(img).GetOr("")), m, o)
      ensures r.Success? && IsNormalised(domainOf, img) ==>
        Tries(r.value.auth, img, Promised(mirror, m, o))
    {
      hide Tries, GlobbedDomain, IsNormalised, MirrorImage, MayFind, SomeProviderFails, SomethingMatches, IsAnswer,
        ParsePotentiallySchemelessURL;
      m, o := NOT_FOUND, NOT_FOUND;
      var authMap := new AuthMap();
      var mirrored := GetMirrorCredentialsForImage(img);
      if mirrored.Failure? {
        return Failure(mirrored.error), m, o;
      }
      m := mirrored.value;
      MirrorFoundIffSomethingMatches(mirror, providers, img, m);
      var mirrorAuth, cacheDuration, mirrorAuthFound :=
        mirrored.value.auth, mirrored.value.cacheDuration, mirrored.value.found;
      if !OnlyMirror(mirror) {
        var origin := GetCredentialsForImage(img);
        if origin.Failure? {
          return Failure(origin.error), m, o;
        }
        o := origin.value;
        authMap.entries := authMap.entries[img := origin.value.auth];
        if origin.value.found && (!mirrorAuthFound || cacheDuration > origin.value.cacheDuration) {
          cacheDuration := origin.value.cacheDuration;
        }
      }
      if mirror.Some? && mirrorAuthFound {
        var updated := UpdateAuthConfigMapForMirror(authMap, img, domainOf, mirror.value.strategy, mirrorAuth);
        if updated.Failure? {
          return Failure(updated.error), m, o;
        }
      }
      r := Success(CredentialResponse(cacheDuration, authMap.entries));
      if IsNormalised(domainOf, img) {
        StrategyOrder(domainOf, mirror, img, m, o);
        NormalisedHasDomain(domainOf, img);
      }
    }
  }
}
