/**
 * The choice `getCredentialsForImage` makes among the keys that match an image, over every order
 * in which Go may range over the provider map and over each provider's keys.
 */
module Selection {
  import opened Strings

  datatype AuthConfig = AuthConfig(username: string, password: string)

  /** The zero value of an auth config. */
  const NO_AUTH := AuthConfig("", "")

  /** What a provider offers under one key: a credential and how long it may be cached. */
  datatype Entry = Entry(auth: AuthConfig, duration: int)

  /** Per provider, the entries whose keys match the image. */
  type Offers = map<string, map<string, Entry>>

  /** One provider of an order, with its matching keys in the order they come up. */
  datatype Stop = Stop(provider: string, keys: seq<string>)

  datatype Visit = Visit(key: string, entry: Entry)

  const NOTHING := Visit("", Entry(NO_AUTH, 0))

  // ---------- Orders ----------

  predicate Enumerates<T(==)>(s: seq<T>, elements: set<T>) {
    && (forall x :: x in s ==> x in elements)
    && (forall x :: x in elements ==> x in s)
    && (forall i, j :: 0 <= i < j < |s| ==> s[i] != s[j])
  }

  function Providers(order: seq<Stop>): seq<string> {
    seq(|order|, i requires 0 <= i < |order| => order[i].provider)
  }

  ghost predicate IsOrder(offers: Offers, order: seq<Stop>) {
    Enumerates(Providers(order), offers.Keys) && StopsWithin(offers, order)
  }

  /** A stop at one of the providers that goes through its keys once. */
  ghost predicate StopsAt(offers: Offers, stop: Stop) {
    stop.provider in offers && Enumerates(stop.keys, offers[stop.provider].Keys)
  }

  ghost predicate StopsWithin(offers: Offers, stops: seq<Stop>) {
    forall i :: 0 <= i < |stops| ==> StopsAt(offers, stops[i])
  }

  function VisitsOf(offer: map<string, Entry>, keys: seq<string>): (visits: seq<Visit>)
    requires forall k :: k in keys ==> k in offer
    ensures |visits| == |keys|
  {
    seq(|keys|, i requires 0 <= i < |keys| => Visit(keys[i], offer[keys[i]]))
  }

  ghost function Visits(offers: Offers, order: seq<Stop>): seq<Visit>
    requires StopsWithin(offers, order)
  {
    if order == [] then []
    else
      var last := order[|order| - 1];
      assert StopsAt(offers, last);
      Visits(offers, order[..|order| - 1]) + VisitsOf(offers[last.provider], last.keys)
  }

  // ---------- The choice ----------

  /** The test of the loop.  It is not transitive. */
  predicate Replaces(best: string, key: string) {
    |best| < |key| || Less(best, key)
  }

  function Consider(best: Visit, next: Visit): Visit {
    if Replaces(best.key, next.key) then next else best
  }

  function Choose(visits: seq<Visit>): Visit {
    if visits == [] then NOTHING
    else Consider(Choose(visits[..|visits| - 1]), visits[|visits| - 1])
  }

  ghost function Chosen(offers: Offers, order: seq<Stop>): Visit
    requires IsOrder(offers, order)
  {
    Choose(Visits(offers, order))
  }

  /** The keys that can be chosen at all. */
  function Keys(offers: Offers): set<string> {
    set p, k | p in offers && k in offers[p] && k != "" :: k
  }

  /** The key is the greatest in string order and no other is longer. */
  ghost predicate Dominant(keys: set<string>, g: string) {
    g in keys && forall k :: k in keys ==> AtMost(k, g) && |k| <= |g|
  }

  // ---------- Visits one by one ----------

  /** The choice is one of the visits; it is no key only when there was no other. */
  lemma {:induction false} ChoiceIsAVisit(visits: seq<Visit>)
    ensures Choose(visits).key == "" <==> forall v :: v in visits ==> v.key == ""
    ensures Choose(visits).key == "" ==> Choose(visits) == NOTHING
    ensures Choose(visits).key != "" ==> Choose(visits) in visits
  {
    if visits != [] {
      var init, last := visits[..|visits| - 1], visits[|visits| - 1];
      ChoiceIsAVisit(init);
      assert visits == init + [last];
    }
  }

  /** Once a key is chosen that no later key replaces, the choice stands. */
  lemma {:induction false} ChoiceStands(a: seq<Visit>, b: seq<Visit>)
    requires forall v :: v in b ==> !Replaces(Choose(a).key, v.key)
    ensures Choose(a + b) == Choose(a)
  {
    if b == [] {
      assert a + b == a;
    } else {
      ChoiceStands(a, b[..|b| - 1]);
      assert (a + b)[..|a + b| - 1] == a + b[..|b| - 1];
      assert b[|b| - 1] in b;
    }
  }

  lemma NotReplaced(g: string, k: string)
    requires AtMost(k, g) && |k| <= |g|
    ensures !Replaces(g, k)
  {
    LessTrichotomy(g, k);
  }

  /** A key that is greatest and longest is chosen, wherever it comes up. */
  lemma {:induction false} DominantIsChosen(visits: seq<Visit>, g: Visit)
    requires g in visits && g.key != ""
    requires forall v :: v in visits ==> AtMost(v.key, g.key) && |v.key| <= |g.key|
    ensures Choose(visits).key == g.key
  {
    var init, last := visits[..|visits| - 1], visits[|visits| - 1];
    assert visits == init + [last];
    ChoiceIsAVisit(init);
    if g in init {
      DominantIsChosen(init, g);
      NotReplaced(g.key, last.key);
    } else {
      assert Choose(init).key != "" ==> AtMost(Choose(init).key, g.key);
    }
  }

  /** A key that replaces every other is chosen when it comes last. */
  lemma LastIsChosen(visits: seq<Visit>, last: Visit)
    requires last.key != ""
    requires forall v :: v in visits ==> v.key == "" || v.key == last.key || Replaces(v.key, last.key)
    ensures Choose(visits + [last]).key == last.key
  {
    ChoiceIsAVisit(visits);
    assert (visits + [last])[..|visits|] == visits;
  }

  // ---------- Visits of an order ----------

  lemma {:induction false} VisitsConcat(offers: Offers, a: seq<Stop>, b: seq<Stop>)
    requires StopsWithin(offers, a) && StopsWithin(offers, b)
    ensures StopsWithin(offers, a + b)
    ensures Visits(offers, a + b) == Visits(offers, a) + Visits(offers, b)
  {
    if b == [] {
      assert a + b == a;
    } else {
      var init, last := b[..|b| - 1], b[|b| - 1];
      assert StopsAt(offers, last);
      hide Visits, StopsAt;
      VisitsConcat(offers, a, init);
      VisitsConcatLast(offers, a, init, last);
      assert b == init + [last];
    }
  }

  lemma VisitsConcatLast(offers: Offers, a: seq<Stop>, b: seq<Stop>, last: Stop)
    requires StopsWithin(offers, a) && StopsWithin(offers, b) && StopsWithin(offers, a + b) && StopsAt(offers, last)
    requires Visits(offers, a + b) == Visits(offers, a) + Visits(offers, b)
    ensures StopsWithin(offers, b + [last]) && StopsWithin(offers, a + (b + [last]))
    ensures Visits(offers, a + (b + [last])) == Visits(offers, a) + Visits(offers, b + [last])
  {
    hide *;
    VisitsOfLast(offers, a + b, last);
    VisitsOfLast(offers, b, last);
    assert a + (b + [last]) == (a + b) + [last];
  }

  lemma VisitsOfLast(offers: Offers, order: seq<Stop>, stop: Stop)
    requires StopsWithin(offers, order) && StopsAt(offers, stop)
    ensures StopsWithin(offers, order + [stop])
    ensures Visits(offers, order + [stop]) == Visits(offers, order) + VisitsOf(offers[stop.provider], stop.keys)
  {
    assert (order + [stop])[..|order|] == order;
  }

  lemma {:induction false} VisitedIsOffered(offers: Offers, order: seq<Stop>, v: Visit)
    requires StopsWithin(offers, order)
    requires v in Visits(offers, order)
    ensures exists p :: p in offers && v.key in offers[p] && v.entry == offers[p][v.key]
  {
    var last := order[|order| - 1];
    if v !in VisitsOf(offers[last.provider], last.keys) {
      VisitedIsOffered(offers, order[..|order| - 1], v);
    }
  }

  lemma OfferedIsVisited(offers: Offers, order: seq<Stop>, p: string, k: string)
    requires IsOrder(offers, order) && p in offers && k in offers[p]
    ensures Visit(k, offers[p][k]) in Visits(offers, order)
  {
    assert p in Providers(order);
    var i :| 0 <= i < |order| && Providers(order)[i] == p;
    StopIsVisited(offers, order, i, k);
  }

  lemma {:induction false} StopIsVisited(offers: Offers, order: seq<Stop>, i: nat, k: string)
    requires StopsWithin(offers, order)
    requires i < |order| && StopsAt(offers, order[i]) && k in offers[order[i].provider]
    ensures Visit(k, offers[order[i].provider][k]) in Visits(offers, order)
  {
    if i == |order| - 1 {
      var j :| 0 <= j < |order[i].keys| && order[i].keys[j] == k;
      assert VisitsOf(offers[order[i].provider], order[i].keys)[j] == Visit(k, offers[order[i].provider][k]);
    } else {
      StopIsVisited(offers, order[..|order| - 1], i, k);
    }
  }

  /** The key, the credential and the duration come from one provider's one entry. */
  lemma ChosenIsOneEntry(offers: Offers, order: seq<Stop>)
    requires IsOrder(offers, order)
    ensures Chosen(offers, order).key == "" <==> Keys(offers) == {}
    ensures Chosen(offers, order).key == "" ==> Chosen(offers, order) == NOTHING
    ensures Chosen(offers, order).key != "" ==>
              exists p :: p in offers && Chosen(offers, order).key in offers[p] &&
                          Chosen(offers, order).entry == offers[p][Chosen(offers, order).key]
  {
    var visits := Visits(offers, order);
    ChoiceIsAVisit(visits);
    if Keys(offers) != {} {
      var k :| k in Keys(offers);
      var p :| p in offers && k in offers[p];
      OfferedIsVisited(offers, order, p, k);
    }
    if Choose(visits).key != "" {
      VisitedIsOffered(offers, order, Choose(visits));
      assert Choose(visits).key in Keys(offers);
    }
  }

  // ---------- The loops, half way ----------

  /** Some of the keys of one provider are still to come; `best` is the choice so far. */
  ghost predicate AmongKeys(
    before: seq<Visit>, offer: map<string, Entry>, keys: seq<string>, todo: set<string>, best: Visit)
  {
    Enumerates(keys, offer.Keys - todo) && Choose(before + VisitsOf(offer, keys)) == best
  }

  /** Some of the providers are still to come. */
  ghost predicate AmongProviders(offers: Offers, order: seq<Stop>, todo: set<string>, best: Visit) {
    && Enumerates(Providers(order), offers.Keys - todo) && StopsWithin(offers, order)
    && Choose(Visits(offers, order)) == best
  }

  ghost function VisitsSoFar(offers: Offers, order: seq<Stop>, todo: set<string>, best: Visit): (visits: seq<Visit>)
    requires AmongProviders(offers, order, todo, best)
    ensures Choose(visits) == best
  {
    Visits(offers, order)
  }

  lemma EnumeratesNext<T>(s: seq<T>, elements: set<T>, x: T)
    requires Enumerates(s, elements) && x !in elements
    ensures Enumerates(s + [x], elements + {x})
  {
  }

  lemma NextKey(before: seq<Visit>, offer: map<string, Entry>, keys: seq<string>, todo: set<string>,
      best: Visit, k: string)
    requires AmongKeys(before, offer, keys, todo, best) && k in todo
    ensures if k in offer
            then AmongKeys(before, offer, keys + [k], todo - {k}, Consider(best, Visit(k, offer[k])))
            else AmongKeys(before, offer, keys, todo - {k}, best)
  {
    if k in offer {
      EnumeratesNext(keys, offer.Keys - todo, k);
      assert offer.Keys - (todo - {k}) == (offer.Keys - todo) + {k};
      var all := before + VisitsOf(offer, keys + [k]);
      assert all[..|all| - 1] == before + VisitsOf(offer, keys);
    } else {
      assert offer.Keys - (todo - {k}) == offer.Keys - todo;
    }
  }

  lemma NextProvider(offers: Offers, order: seq<Stop>, todo: set<string>, before: Visit,
                     name: string, keys: seq<string>, best: Visit)
    requires AmongProviders(offers, order, todo, before) && name in todo && name in offers
    requires AmongKeys(VisitsSoFar(offers, order, todo, before), offers[name], keys, {}, best)
    ensures AmongProviders(offers, order + [Stop(name, keys)], todo - {name}, best)
  {
    var stop := Stop(name, keys);
    assert offers[name].Keys - {} == offers[name].Keys;
    EnumeratesNext(Providers(order), offers.Keys - todo, name);
    assert offers.Keys - (todo - {name}) == (offers.Keys - todo) + {name};
    assert Providers(order + [stop]) == Providers(order) + [name];
    VisitsOfLast(offers, order, stop);
  }

  lemma NoKeys(before: seq<Visit>, offer: map<string, Entry>, todo: set<string>)
    requires offer.Keys <= todo
    ensures AmongKeys(before, offer, [], todo, Choose(before))
  {
    assert before + VisitsOf(offer, []) == before;
  }

  lemma NoProviders(offers: Offers)
    ensures AmongProviders(offers, [], offers.Keys, NOTHING)
  {
  }

  lemma AllProviders(offers: Offers, order: seq<Stop>, best: Visit)
    requires AmongProviders(offers, order, {}, best)
    ensures IsOrder(offers, order) && Chosen(offers, order) == best
  {
    assert offers.Keys - {} == offers.Keys;
  }

  // ---------- Orders that end or begin as wanted ----------

  lemma {:induction false} EnumerationExists<T>(elements: set<T>) returns (s: seq<T>)
    ensures Enumerates(s, elements)
    decreases |elements|
  {
    if elements == {} {
      s := [];
    } else {
      var x :| x in elements;
      var rest := EnumerationExists(elements - {x});
      s := rest + [x];
    }
  }

  lemma {:induction false} StopsExist(offers: Offers, providers: seq<string>) returns (stops: seq<Stop>)
    requires forall p :: p in providers ==> p in offers
    ensures Providers(stops) == providers
    ensures StopsWithin(offers, stops)
  {
    if providers == [] {
      stops := [];
    } else {
      var p := providers[|providers| - 1];
      var rest := StopsExist(offers, providers[..|providers| - 1]);
      var keys := EnumerationExists(offers[p].Keys);
      stops := rest + [Stop(p, keys)];
    }
  }

  /** There is always some order, so that what holds in every order holds in one. */
  lemma OrderExists(offers: Offers) returns (order: seq<Stop>)
    ensures IsOrder(offers, order)
  {
    var providers := EnumerationExists(offers.Keys);
    order := StopsExist(offers, providers);
  }

  /** Some order comes to the key `k` of the provider `p` at the very end. */
  lemma OrderEndingAt(offers: Offers, p: string, k: string) returns (order: seq<Stop>, before: seq<Visit>)
    requires p in offers && k in offers[p]
    ensures IsOrder(offers, order)
    ensures Visits(offers, order) == before + [Visit(k, offers[p][k])]
    ensures forall v :: v in before ==> v.key == "" || v.key in Keys(offers)
  {
    var providers := EnumerationExists(offers.Keys - {p});
    var stops := StopsExist(offers, providers);
    var keys := EnumerationExists(offers[p].Keys - {k});
    var last := Stop(p, keys + [k]);
    order := stops + [last];
    assert Providers(order) == providers + [p];
    assert order[..|order| - 1] == stops;
    before := Visits(offers, stops) + VisitsOf(offers[p], keys);
    assert VisitsOf(offers[p], last.keys) == VisitsOf(offers[p], keys) + [Visit(k, offers[p][k])];
    assert Visits(offers, order) == before + [Visit(k, offers[p][k])];
    forall v | v in before && v.key != "" ensures v.key in Keys(offers) {
      if v in Visits(offers, stops) {
        VisitedIsOffered(offers, stops, v);
      }
    }
  }

  lemma OrderStartingAt(offers: Offers, p: string) returns (order: seq<Stop>)
    requires p in offers
    ensures IsOrder(offers, order) && order != [] && order[0].provider == p
  {
    var providers := EnumerationExists(offers.Keys - {p});
    var stops := StopsExist(offers, providers);
    var keys := EnumerationExists(offers[p].Keys);
    order := [Stop(p, keys)] + stops;
    assert Providers(order) == [p] + providers;
  }

  // ---------- The greatest and the longest key ----------

  lemma {:induction false} GreatestExists(keys: set<string>) returns (g: string)
    requires keys != {}
    ensures g in keys && forall k :: k in keys ==> AtMost(k, g)
    decreases |keys|
  {
    g :| g in keys;
    if keys != {g} {
      var h := GreatestExists(keys - {g});
      LessTrichotomy(g, h);
      if Less(g, h) {
        g := h;
      } else {
        forall k | k in keys - {g} ensures AtMost(k, g) {
          assert AtMost(k, h);
          if Less(k, h) && h != g {
            LessTransitive(k, h, g);
          }
        }
      }
    }
  }

  lemma {:induction false} LongestExists(keys: set<string>) returns (l: string)
    requires keys != {}
    ensures l in keys && forall k :: k in keys ==> |k| <= |l|
    decreases |keys|
  {
    l :| l in keys;
    if keys != {l} {
      var m := LongestExists(keys - {l});
      if |l| < |m| {
        l := m;
      }
    }
  }

  /** The greatest among the longest keys replaces every other key. */
  lemma GreatestLongestExists(keys: set<string>) returns (l: string)
    requires keys != {}
    ensures l in keys && forall k :: k in keys ==> |k| <= |l| && (k == l || Replaces(k, l))
  {
    var m := LongestExists(keys);
    var longest := set k | k in keys && |k| == |m|;
    assert m in longest;
    l := GreatestExists(longest);
    forall k | k in keys ensures |k| <= |l| && (k == l || Replaces(k, l)) {
      if |k| == |l| {
        assert k in longest;
      }
    }
  }

  lemma SomeOrderChooses(offers: Offers, k: string) returns (order: seq<Stop>)
    requires k in Keys(offers)
    requires forall k' :: k' in Keys(offers) ==> k' == k || Replaces(k', k)
    ensures IsOrder(offers, order) && Chosen(offers, order).key == k
  {
    var p :| p in offers && k in offers[p];
    var before;
    order, before := OrderEndingAt(offers, p, k);
    LastIsChosen(before, Visit(k, offers[p][k]));
  }

  // ---------- Main results ----------

  ghost predicate KeyOrderIndependent(offers: Offers) {
    forall o1, o2 :: IsOrder(offers, o1) && IsOrder(offers, o2) ==>
                       Chosen(offers, o1).key == Chosen(offers, o2).key
  }

  lemma DominantWinsInEveryOrder(offers: Offers, g: string, order: seq<Stop>)
    requires Dominant(Keys(offers), g) && IsOrder(offers, order)
    ensures Chosen(offers, order).key == g
  {
    var p :| p in offers && g in offers[p];
    OfferedIsVisited(offers, order, p, g);
    forall v | v in Visits(offers, order) ensures AtMost(v.key, g) && |v.key| <= |g| {
      VisitedIsOffered(offers, order, v);
    }
    DominantIsChosen(Visits(offers, order), Visit(g, offers[p][g]));
  }

  /** The chosen key is the same in every order exactly when the greatest matched key is also longest. */
  lemma KeyOrderIndependence(offers: Offers)
    ensures KeyOrderIndependent(offers) <==>
            Keys(offers) == {} || exists g :: Dominant(Keys(offers), g)
  {
    var keys := Keys(offers);
    if keys == {} {
      forall o1, o2 | IsOrder(offers, o1) && IsOrder(offers, o2)
        ensures Chosen(offers, o1).key == Chosen(offers, o2).key
      {
        ChosenIsOneEntry(offers, o1);
        ChosenIsOneEntry(offers, o2);
      }
    } else if g :| Dominant(keys, g) {
      forall o1, o2 | IsOrder(offers, o1) && IsOrder(offers, o2)
        ensures Chosen(offers, o1).key == Chosen(offers, o2).key
      {
        DominantWinsInEveryOrder(offers, g, o1);
        DominantWinsInEveryOrder(offers, g, o2);
      }
    } else {
      var g := GreatestExists(keys);
      var l := GreatestLongestExists(keys);
      assert !Dominant(keys, g);
      var o1 := SomeOrderChooses(offers, g);
      var o2 := SomeOrderChooses(offers, l);
      assert Chosen(offers, o1).key != Chosen(offers, o2).key;
    }
  }

  ghost predicate OrderIndependent(offers: Offers) {
    forall o1, o2 :: IsOrder(offers, o1) && IsOrder(offers, o2) ==> Chosen(offers, o1) == Chosen(offers, o2)
  }

  /** All providers that offer the key offer the same under it. */
  predicate Agreed(offers: Offers, key: string) {
    forall p, q :: p in offers && q in offers && key in offers[p] && key in offers[q] ==>
                     offers[p][key] == offers[q][key]
  }

  /** When a dominant key is offered twice, the provider that comes first decides. */
  lemma FirstProviderDecides(offers: Offers, g: string, p: string, order: seq<Stop>)
    requires Dominant(Keys(offers), g) && p in offers && g in offers[p]
    requires IsOrder(offers, order) && order != [] && order[0].provider == p
    ensures Chosen(offers, order) == Visit(g, offers[p][g])
  {
    var first, rest := order[..1], order[1..];
    assert order == first + rest && first == [] + [order[0]];
    VisitsConcat(offers, first, rest);
    VisitsOfLast(offers, [], order[0]);
    StopIsVisited(offers, first, 0, g);
    forall v | v in Visits(offers, order) ensures AtMost(v.key, g) && |v.key| <= |g| {
      VisitedIsOffered(offers, order, v);
    }
    var visits, later := Visits(offers, first), Visits(offers, rest);
    assert visits == VisitsOf(offers[p], order[0].keys);
    hide AtMost, IsOrder, StopsWithin, StopsAt, Dominant, Visits;
    DominantIsChosen(visits, Visit(g, offers[p][g]));
    ChoiceIsAVisit(visits);
    forall v | v in later ensures !Replaces(g, v.key) {
      assert v in visits + later;
      NotReplaced(g, v.key);
    }
    ChoiceStands(visits, later);
  }

  /**
   * The whole choice, credential and duration included, is the same in every order exactly when
   * there is a dominant key and its providers agree on what they offer under it.
   */
  lemma OrderIndependence(offers: Offers)
    ensures OrderIndependent(offers) <==>
            Keys(offers) == {} || exists g :: Dominant(Keys(offers), g) && Agreed(offers, g)
  {
    KeyOrderIndependence(offers);
    if Keys(offers) == {} {
      forall o | IsOrder(offers, o) ensures Chosen(offers, o) == NOTHING {
        ChosenIsOneEntry(offers, o);
      }
    } else if g :| Dominant(Keys(offers), g) && Agreed(offers, g) {
      var p :| p in offers && g in offers[p];
      forall o | IsOrder(offers, o) ensures Chosen(offers, o) == Visit(g, offers[p][g]) {
        DominantWinsInEveryOrder(offers, g, o);
        ChosenIsOneEntry(offers, o);
      }
    } else if OrderIndependent(offers) {
      assert KeyOrderIndependent(offers);
      var g :| Dominant(Keys(offers), g);
      forall p, q | p in offers && q in offers && g in offers[p] && g in offers[q]
        ensures offers[p][g] == offers[q][g]
      {
        var o1 := OrderStartingAt(offers, p);
        var o2 := OrderStartingAt(offers, q);
        FirstProviderDecides(offers, g, p, o1);
        FirstProviderDecides(offers, g, q, o2);
      }
      assert Agreed(offers, g);
    }
  }
}
