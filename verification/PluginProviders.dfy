/**
 * A provider backed by a plugin, `pkg/credentialprovider/dynamic/plugin_executor.go`, and what a
 * map of them offers for an image.
 */
module PluginProviders {
  import opened Wrappers
  import opened Urls
  import opened Selection

  datatype Response = Response(auth: map<string, AuthConfig>, cacheDuration: Option<int>)

  /** What a call yields: an error, no response, or a response. */
  datatype Reply = Failed(message: string) | Nothing | Replied(response: Response)

  /** `execPlugin` stands for running the plugin's program on an image. */
  datatype PluginProvider = PluginProvider(
    matchImages: seq<string>,
    defaultCacheDuration: Option<int>,
    execPlugin: string -> Reply
  )

  function DefaultCacheDuration(p: PluginProvider): int {
    p.defaultCacheDuration.GetOr(0)
  }

  predicate Allows(p: PluginProvider, image: string) {
    exists pattern :: pattern in p.matchImages && MatchesStr(pattern, image)
  }

  function GatedReply(p: PluginProvider, image: string): Reply {
    if Allows(p, image) then p.execPlugin(image) else Nothing
  }

  method IsImageAllowed(p: PluginProvider, image: string) returns (allowed: bool)
    ensures allowed <==> exists pattern :: pattern in p.matchImages && MatchesStr(pattern, image)
  {
    hide MatchesStr, ParsePotentiallySchemelessURL;
    for i := 0 to |p.matchImages|
      invariant forall pattern :: pattern in p.matchImages[..i] ==> !MatchesStr(pattern, image)
    {
      var matched := URLsMatchStr(p.matchImages[i], image);
      if matched == Success(true) {
        return true;
      }
    }
    return false;
  }

  method Provide(p: PluginProvider, image: string) returns (reply: Reply)
    ensures (exists pattern :: pattern in p.matchImages && MatchesStr(pattern, image)) ==>
              reply == p.execPlugin(image)
    ensures (forall pattern :: pattern in p.matchImages ==> !MatchesStr(pattern, image)) ==> reply == Nothing
    ensures reply == GatedReply(p, image)
  {
    var allowed := IsImageAllowed(p, image);
    if !allowed {
      return Nothing;
    }
    return p.execPlugin(image);
  }

  // ---------- Offers ----------

  /** The keys of a response that match, each with its credential and lifetime. */
  function Offer(p: PluginProvider, reply: Reply, image: string): map<string, Entry> {
    match reply
    case Replied(response) =>
      map k | k in response.auth && MatchesStr(k, image) ::
        Entry(response.auth[k], response.cacheDuration.GetOr(DefaultCacheDuration(p)))
    case _ => map[]
  }

  function OffersOf(providers: map<string, PluginProvider>, image: string): Offers {
    map name | name in providers :: Offer(providers[name], GatedReply(providers[name], image), image)
  }

  lemma OfferOfResponse(p: PluginProvider, response: Response, image: string)
    ensures var offer := Offer(p, Replied(response), image);
            && (forall k :: k in offer <==> k in response.auth && MatchesStr(k, image))
            && (forall k :: k in offer ==>
                  offer[k] == Entry(response.auth[k], response.cacheDuration.GetOr(DefaultCacheDuration(p))))
  {
  }

  lemma OfferOfNothing(p: PluginProvider, image: string)
    ensures Offer(p, Nothing, image) == map[]
  {
  }

  /** Some plugin that is asked about the image fails. */
  predicate SomeProviderFails(providers: map<string, PluginProvider>, image: string) {
    exists name :: name in providers && Allows(providers[name], image) && providers[name].execPlugin(image).Failed?
  }

  /** The plugin, asked about the image, returns the credential under the key, to be kept for so long. */
  predicate Returns(p: PluginProvider, image: string, key: string, auth: AuthConfig, duration: int) {
    && Allows(p, image) && p.execPlugin(image).Replied?
    && var response := p.execPlugin(image).response;
       && key in response.auth && response.auth[key] == auth
       && match (response.cacheDuration, p.defaultCacheDuration)
          case (Some(d), _) => duration == d
          case (None, Some(d)) => duration == d
          case (None, None) => duration == 0
  }

  /** What is offered for the image is what plugins return for it under keys that match it. */
  lemma OfferedIsReturned(providers: map<string, PluginProvider>, image: string, name: string, key: string)
    requires name in providers
    ensures var offer := OffersOf(providers, image)[name];
            && (key in offer ==>
                  && MatchesStr(key, image)
                  && Returns(providers[name], image, key, offer[key].auth, offer[key].duration))
            && (forall auth, duration ::
                  MatchesStr(key, image) && Returns(providers[name], image, key, auth, duration) ==>
                  key in offer && offer[key] == Entry(auth, duration))
  {
    hide MatchesStr, Allows;
  }

  /** The offers there would be without the gate, every plugin being run on every image. */
  function UngatedOffersOf(providers: map<string, PluginProvider>, image: string): Offers {
    map name | name in providers :: Offer(providers[name], providers[name].execPlugin(image), image)
  }

  /** The plugin returns no key outside the patterns it is configured for. */
  predicate KeepsToItsPatterns(p: PluginProvider, image: string) {
    p.execPlugin(image).Replied? ==>
      forall key :: key in p.execPlugin(image).response.auth ==> Allows(p, key)
  }

  lemma KeyInsideThePatterns(p: PluginProvider, key: string, image: string)
    requires Allows(p, key) && MatchesStr(key, image)
    ensures Allows(p, image)
  {
    var pattern :| pattern in p.matchImages && MatchesStr(pattern, key);
    MatchesStrTransitive(pattern, key, image);
  }

  /** A plugin that keeps to its patterns offers the same with the gate as without it. */
  lemma GateKeepsOffer(p: PluginProvider, image: string)
    requires KeepsToItsPatterns(p, image)
    ensures Offer(p, GatedReply(p, image), image) == Offer(p, p.execPlugin(image), image)
  {
    var reply := p.execPlugin(image);
    if !Allows(p, image) && reply.Replied? {
      forall key | key in reply.response.auth ensures !MatchesStr(key, image) {
        if MatchesStr(key, image) {
          KeyInsideThePatterns(p, key, image);
        }
      }
      assert Offer(p, reply, image) == map[];
    }
  }

  /** For plugins that keep to their patterns the gate takes away no offer, for any image. */
  lemma GateLosesNothing(providers: map<string, PluginProvider>, image: string)
    requires forall name :: name in providers ==> KeepsToItsPatterns(providers[name], image)
    ensures OffersOf(providers, image) == UngatedOffersOf(providers, image)
  {
    forall name | name in providers
      ensures OffersOf(providers, image)[name] == UngatedOffersOf(providers, image)[name]
    {
      GateKeepsOffer(providers[name], image);
    }
  }
}
