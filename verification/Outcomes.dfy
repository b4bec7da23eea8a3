/**
 * Which choices some order leads to.  The orders of the keys are replaced by chains of replacements:
 * a provider's keys can end in exactly those of them that all the others lead to.
 */
module Outcomes {
  import opened Strings
  import opened Selection

  // ---------- Chains of replacements ----------

  /** The keys that lead to `target` in at most so many replacements. */
  ghost function Within(keys: set<string>, target: string, steps: nat): set<string> {
    if steps == 0 then {target}
    else
      var closer := Within(keys, target, steps - 1);
      closer + set k | k in keys && exists next :: next in closer && Replaces(k, next)
  }

  ghost predicate LeadsTo(keys: set<string>, k: string, target: string) {
    exists steps: nat :: k in Within(keys, target, steps)
  }

  /** A key that every other key leads to. */
  ghost predicate IsFinal(keys: set<string>, target: string) {
    target in keys && forall k :: k in keys ==> LeadsTo(keys, k, target)
  }

  lemma LeadsOn(keys: set<string>, k: string, next: string, target: string)
    requires k in keys && Replaces(k, next) && LeadsTo(keys, next, target)
    ensures LeadsTo(keys, k, target)
  {
    var steps: nat :| next in Within(keys, target, steps);
    assert k in Within(keys, target, steps + 1);
  }

  lemma LeadsToItself(keys: set<string>, target: string)
    ensures LeadsTo(keys, target, target)
  {
    assert target in Within(keys, target, 0);
  }

  lemma {:induction false} WithinGrows(keys: set<string>, target: string, few: nat, many: nat)
    requires few <= many
    ensures Within(keys, target, few) <= Within(keys, target, many)
    decreases many
  {
    if few < many {
      WithinGrows(keys, target, few, many - 1);
    }
  }

  lemma {:induction false} WithinIsKeys(keys: set<string>, target: string, steps: nat)
    requires target in keys
    ensures Within(keys, target, steps) <= keys
  {
    if steps > 0 {
      WithinIsKeys(keys, target, steps - 1);
    }
  }

  /** One number of steps is enough for all. */
  lemma {:induction false} EnoughSteps(keys: set<string>, target: string, some: set<string>) returns (steps: nat)
    requires forall k :: k in some ==> LeadsTo(keys, k, target)
    ensures some <= Within(keys, target, steps)
    decreases |some|
  {
    if some == {} {
      steps := 0;
    } else {
      var k :| k in some;
      var n: nat :| k in Within(keys, target, n);
      var m := EnoughSteps(keys, target, some - {k});
      steps := if n < m then m else n;
      WithinGrows(keys, target, n, steps);
      WithinGrows(keys, target, m, steps);
    }
  }

  /** Of two keys one replaces the other. */
  lemma OneReplacesTheOther(a: string, b: string)
    requires a != b
    ensures Replaces(a, b) || Replaces(b, a)
  {
    LessTrichotomy(a, b);
  }

  /** What does not replace a key is replaced by all that does. */
  lemma NotReplacingIsReplaced(best: string, weak: string, strong: string)
    requires !Replaces(best, weak) && Replaces(best, strong)
    ensures Replaces(weak, strong)
  {
    LessTrichotomy(best, weak);
    if Less(weak, best) && Less(best, strong) {
      LessTransitive(weak, best, strong);
    }
  }

  // ---------- Going through visits from a choice so far ----------

  function Go(best: Visit, visits: seq<Visit>): Visit {
    if visits == [] then best
    else Consider(Go(best, visits[..|visits| - 1]), visits[|visits| - 1])
  }

  lemma {:induction false} ChooseThenGo(a: seq<Visit>, b: seq<Visit>)
    ensures Choose(a + b) == Go(Choose(a), b)
  {
    if b == [] {
      assert a + b == a;
    } else {
      ChooseThenGo(a, b[..|b| - 1]);
      assert (a + b)[..|a + b| - 1] == a + b[..|b| - 1];
    }
  }

  lemma {:induction false} GoOn(best: Visit, a: seq<Visit>, b: seq<Visit>)
    ensures Go(best, a + b) == Go(Go(best, a), b)
  {
    if b == [] {
      assert a + b == a;
    } else {
      GoOn(best, a, b[..|b| - 1]);
      assert (a + b)[..|a + b| - 1] == a + b[..|b| - 1];
    }
  }

  /** Either no visit replaces the choice so far, or one of the visits becomes the choice. */
  lemma {:induction false} StaysOrMoves(best: Visit, visits: seq<Visit>)
    ensures || (Go(best, visits) == best && forall v :: v in visits ==> !Replaces(best.key, v.key))
            || Go(best, visits) in visits
  {
    if visits != [] {
      var init, last := visits[..|visits| - 1], visits[|visits| - 1];
      StaysOrMoves(best, init);
      assert visits == init + [last];
    }
  }

  lemma VisitsOfConcat(offer: map<string, Entry>, a: seq<string>, b: seq<string>)
    requires forall k :: k in a || k in b ==> k in offer
    ensures VisitsOf(offer, a + b) == VisitsOf(offer, a) + VisitsOf(offer, b)
  {
  }

  lemma VisitIsOfAKey(offer: map<string, Entry>, keys: seq<string>, v: Visit)
    requires forall k :: k in keys ==> k in offer
    ensures v in VisitsOf(offer, keys) <==> v.key in keys && v.entry == offer[v.key]
  {
    if v.key in keys && v.entry == offer[v.key] {
      var i :| 0 <= i < |keys| && keys[i] == v.key;
      assert VisitsOf(offer, keys)[i] == v;
    }
  }

  // ---------- One provider ----------

  /** Some order of the provider's keys leads from one choice to the other. */
  ghost predicate CanYield(offer: map<string, Entry>, best: Visit, v: Visit) {
    exists keys :: Enumerates(keys, offer.Keys) && Go(best, VisitsOf(offer, keys)) == v
  }

  /** The choice stands if no key replaces it; otherwise it becomes one of the final keys. */
  ghost predicate Yields(offer: map<string, Entry>, best: Visit, v: Visit) {
    if exists k :: k in offer && Replaces(best.key, k)
    then IsFinal(offer.Keys, v.key) && v.entry == offer[v.key]
    else v == best
  }

  lemma EnumeratesBoth(a: seq<string>, b: seq<string>, s: set<string>, t: set<string>)
    requires Enumerates(a, s) && Enumerates(b, t) && s !! t
    ensures Enumerates(a + b, s + t)
  {
    forall i, j | 0 <= i < j < |a + b| ensures (a + b)[i] != (a + b)[j] {
      assert i < |a| ==> a[i] in s;
      assert j >= |a| ==> b[j - |a|] in t;
    }
  }

  /** After the keys that are farther away, something nearer replaces the choice. */
  lemma {:induction false} FarKeysFirst(offer: map<string, Entry>, best: Visit, target: string, steps: nat, all: nat)
    returns (keys: seq<string>)
    requires target in offer && steps <= all && offer.Keys <= Within(offer.Keys, target, all)
    requires exists k :: k in offer && Replaces(best.key, k)
    ensures Enumerates(keys, offer.Keys - Within(offer.Keys, target, steps))
    ensures exists next ::
        next in Within(offer.Keys, target, steps) && Replaces(Go(best, VisitsOf(offer, keys)).key, next)
    decreases all - steps
  {
    var near := Within(offer.Keys, target, steps);
    if steps == all {
      keys := [];
    } else {
      var far := FarKeysFirst(offer, best, target, steps + 1, all);
      var farther := Within(offer.Keys, target, steps + 1);
      WithinIsKeys(offer.Keys, target, steps + 1);
      var ring := EnumerationExists(farther - near);
      keys := far + ring;
      EnumeratesBoth(far, ring, offer.Keys - farther, farther - near);
      assert offer.Keys - near == (offer.Keys - farther) + (farther - near);
      VisitsOfConcat(offer, far, ring);
      GoOn(best, VisitsOf(offer, far), VisitsOf(offer, ring));
      var before := Go(best, VisitsOf(offer, far));
      StaysOrMoves(before, VisitsOf(offer, ring));
      var after := Go(before, VisitsOf(offer, ring));
      if after in VisitsOf(offer, ring) {
        VisitIsOfAKey(offer, ring, after);
        assert after.key in farther - near;
      } else {
        var next :| next in farther && Replaces(before.key, next);
        if next !in near {
          VisitIsOfAKey(offer, ring, Visit(next, offer[next]));
        }
      }
    }
  }

  lemma FinalKeyCanBeReached(offer: map<string, Entry>, best: Visit, target: string) returns (keys: seq<string>)
    requires IsFinal(offer.Keys, target)
    requires exists k :: k in offer && Replaces(best.key, k)
    ensures Enumerates(keys, offer.Keys) && Go(best, VisitsOf(offer, keys)) == Visit(target, offer[target])
  {
    var all := EnoughSteps(offer.Keys, target, offer.Keys);
    var others := FarKeysFirst(offer, best, target, 0, all);
    keys := others + [target];
    EnumeratesNext(others, offer.Keys - {target}, target);
    assert offer.Keys - {target} + {target} == offer.Keys;
    VisitsOfConcat(offer, others, [target]);
    var visits := VisitsOf(offer, keys);
    assert VisitsOf(offer, [target]) == [Visit(target, offer[target])];
    assert visits[..|visits| - 1] == VisitsOf(offer, others);
  }

  /** Once a key is visited that does not lead to the target, the choice never gets there. */
  lemma {:induction false} NeverGetsThere(offer: map<string, Entry>, best: Visit, keys: seq<string>,
      target: string, lost: string)
    requires forall k :: k in keys ==> k in offer
    requires lost in keys && Replaces(best.key, lost) && !LeadsTo(offer.Keys, lost, target)
    ensures var k := Go(best, VisitsOf(offer, keys)).key; k in offer && !LeadsTo(offer.Keys, k, target)
  {
    var init, last := keys[..|keys| - 1], keys[|keys| - 1];
    assert keys == init + [last];
    VisitsOfConcat(offer, init, [last]);
    assert VisitsOf(offer, keys)[..|keys| - 1] == VisitsOf(offer, init);
    var before := Go(best, VisitsOf(offer, init));
    if lost in init {
      NeverGetsThere(offer, best, init, target, lost);
      if Replaces(before.key, last) && LeadsTo(offer.Keys, last, target) {
        LeadsOn(offer.Keys, before.key, last, target);
      }
    } else {
      StaysOrMoves(best, VisitsOf(offer, init));
      if before in VisitsOf(offer, init) {
        VisitIsOfAKey(offer, init, before);
        OneReplacesTheOther(before.key, lost);
        if Replaces(lost, before.key) && LeadsTo(offer.Keys, before.key, target) {
          LeadsOn(offer.Keys, lost, before.key, target);
        }
      }
    }
  }

  lemma ReachedKeyIsFinal(offer: map<string, Entry>, best: Visit, keys: seq<string>)
    requires Enumerates(keys, offer.Keys)
    requires exists k :: k in offer && Replaces(best.key, k)
    ensures var v := Go(best, VisitsOf(offer, keys)); IsFinal(offer.Keys, v.key) && v.entry == offer[v.key]
  {
    var v := Go(best, VisitsOf(offer, keys));
    var strong :| strong in offer && Replaces(best.key, strong);
    VisitIsOfAKey(offer, keys, Visit(strong, offer[strong]));
    StaysOrMoves(best, VisitsOf(offer, keys));
    VisitIsOfAKey(offer, keys, v);
    LeadsToItself(offer.Keys, v.key);
    forall k | k in offer ensures LeadsTo(offer.Keys, k, v.key) {
      if !LeadsTo(offer.Keys, k, v.key) {
        if Replaces(best.key, k) {
          NeverGetsThere(offer, best, keys, v.key, k);
        } else if LeadsTo(offer.Keys, strong, v.key) {
          NotReplacingIsReplaced(best.key, k, strong);
          LeadsOn(offer.Keys, k, strong, v.key);
        } else {
          NeverGetsThere(offer, best, keys, v.key, strong);
        }
      }
    }
  }

  /** What the keys of one provider can make of a choice, over all their orders. */
  lemma ProviderOutcomes(offer: map<string, Entry>, best: Visit, v: Visit)
    ensures CanYield(offer, best, v) <==> Yields(offer, best, v)
  {
    if exists k :: k in offer && Replaces(best.key, k) {
      if keys :| Enumerates(keys, offer.Keys) && Go(best, VisitsOf(offer, keys)) == v {
        ReachedKeyIsFinal(offer, best, keys);
      }
      if Yields(offer, best, v) {
        var keys := FinalKeyCanBeReached(offer, best, v.key);
      }
    } else {
      forall keys | Enumerates(keys, offer.Keys) ensures Go(best, VisitsOf(offer, keys)) == best {
        StaysOrMoves(best, VisitsOf(offer, keys));
        var after := Go(best, VisitsOf(offer, keys));
        if after != best {
          VisitIsOfAKey(offer, keys, after);
          MovesOnlyWhenReplaced(best, VisitsOf(offer, keys));
        }
      }
      var keys := EnumerationExists(offer.Keys);
    }
  }

  lemma {:induction false} MovesOnlyWhenReplaced(best: Visit, visits: seq<Visit>)
    requires Go(best, visits) != best
    ensures exists v :: v in visits && Replaces(best.key, v.key)
  {
    var init, last := visits[..|visits| - 1], visits[|visits| - 1];
    assert visits == init + [last];
    if Go(best, init) != best {
      MovesOnlyWhenReplaced(best, init);
    }
  }

  // ---------- All providers ----------

  /** The choices that some sequence of these providers can come to, one provider after the other. */
  ghost predicate Possible(offers: Offers, providers: set<string>, v: Visit)
    requires providers <= offers.Keys
    decreases |providers|
  {
    if providers == {} then v == NOTHING
    else exists p, best :: p in providers && Possible(offers, providers - {p}, best) && Yields(offers[p], best, v)
  }

  /** An order of some of the providers only. */
  ghost predicate IsOrderOf(offers: Offers, providers: set<string>, order: seq<Stop>) {
    Enumerates(Providers(order), providers) && StopsWithin(offers, order)
  }

  lemma OrderOfLast(offers: Offers, providers: set<string>, order: seq<Stop>, p: string, keys: seq<string>)
    requires p in offers && p !in providers && IsOrderOf(offers, providers, order)
    requires Enumerates(keys, offers[p].Keys)
    ensures IsOrderOf(offers, providers + {p}, order + [Stop(p, keys)])
    ensures Choose(Visits(offers, order + [Stop(p, keys)])) ==
            Go(Choose(Visits(offers, order)), VisitsOf(offers[p], keys))
  {
    var last := Stop(p, keys);
    EnumeratesNext(Providers(order), providers, p);
    assert Providers(order + [last]) == Providers(order) + [p];
    VisitsOfLast(offers, order, last);
    ChooseThenGo(Visits(offers, order), VisitsOf(offers[p], keys));
  }

  lemma {:induction false} OrderIsPossible(offers: Offers, providers: set<string>, order: seq<Stop>)
    requires providers <= offers.Keys && IsOrderOf(offers, providers, order)
    ensures Possible(offers, providers, Choose(Visits(offers, order)))
    decreases |order|
  {
    if order == [] {
      assert providers == {} by {
        assert forall p :: p in providers ==> p in Providers(order);
      }
    } else {
      var init, last := order[..|order| - 1], order[|order| - 1];
      InitIsOrder(offers, providers, order);
      OrderIsPossible(offers, providers - {last.provider}, init);
      OrderOfLast(offers, providers - {last.provider}, init, last.provider, last.keys);
      assert order == init + [last];
      var best := Choose(Visits(offers, init));
      var v := Choose(Visits(offers, order));
      assert CanYield(offers[last.provider], best, v);
      ProviderOutcomes(offers[last.provider], best, v);
    }
  }

  lemma InitIsOrder(offers: Offers, providers: set<string>, order: seq<Stop>)
    requires order != [] && providers <= offers.Keys && IsOrderOf(offers, providers, order)
    ensures var last := order[|order| - 1];
            && last.provider in providers && StopsAt(offers, last)
            && IsOrderOf(offers, providers - {last.provider}, order[..|order| - 1])
  {
    var init, last := order[..|order| - 1], order[|order| - 1];
    var names := Providers(order);
    assert names[|order| - 1] == last.provider && last.provider in names;
    assert names == Providers(init) + [last.provider];
    forall p | p in providers - {last.provider} ensures p in Providers(init) {
      assert p in names;
    }
    assert forall i :: 0 <= i < |init| ==> Providers(init)[i] == names[i];
  }

  lemma {:induction false} PossibleHasAnOrder(offers: Offers, providers: set<string>, v: Visit)
    returns (order: seq<Stop>)
    requires providers <= offers.Keys && Possible(offers, providers, v)
    ensures IsOrderOf(offers, providers, order) && Choose(Visits(offers, order)) == v
    decreases |providers|
  {
    if providers == {} {
      order := [];
    } else {
      var p, best :| p in providers && Possible(offers, providers - {p}, best) && Yields(offers[p], best, v);
      hide Yields, IsOrderOf, Visits, Choose, Go;
      var before := PossibleHasAnOrder(offers, providers - {p}, best);
      order := OrderWithOneMore(offers, providers - {p}, before, p, best, v);
      assert providers - {p} + {p} == providers;
    }
  }

  lemma OrderWithOneMore(offers: Offers, providers: set<string>, before: seq<Stop>, p: string, best: Visit, v: Visit)
    returns (order: seq<Stop>)
    requires p in offers && p !in providers && IsOrderOf(offers, providers, before)
    requires Choose(Visits(offers, before)) == best && Yields(offers[p], best, v)
    ensures IsOrderOf(offers, providers + {p}, order) && Choose(Visits(offers, order)) == v
  {
    ProviderOutcomes(offers[p], best, v);
    var keys :| Enumerates(keys, offers[p].Keys) && Go(best, VisitsOf(offers[p], keys)) == v;
    OrderOfLast(offers, providers, before, p, keys);
    order := before + [Stop(p, keys)];
  }

  /** The choices some order of the maps comes to are exactly the possible ones. */
  lemma OutcomesAreThePossible(offers: Offers, v: Visit)
    ensures (exists order :: IsOrder(offers, order) && Chosen(offers, order) == v) <==>
            Possible(offers, offers.Keys, v)
  {
    if order :| IsOrder(offers, order) && Chosen(offers, order) == v {
      OrderIsPossible(offers, offers.Keys, order);
    }
    if Possible(offers, offers.Keys, v) {
      var order := PossibleHasAnOrder(offers, offers.Keys, v);
      assert IsOrder(offers, order);
    }
  }

  // ---------- The returned credential ----------

  /** In all orders the same credential is returned, with the same lifetime. */
  ghost predicate CredentialIndependent(offers: Offers) {
    forall o1, o2 :: IsOrder(offers, o1) && IsOrder(offers, o2) ==> Chosen(offers, o1).entry == Chosen(offers, o2).entry
  }

  /** The returned credential is independent of the order exactly when all possible choices agree on it. */
  lemma CredentialIndependence(offers: Offers)
    ensures CredentialIndependent(offers) <==>
            forall v, w :: Possible(offers, offers.Keys, v) && Possible(offers, offers.Keys, w) ==> v.entry == w.entry
  {
    if CredentialIndependent(offers) {
      forall v, w | Possible(offers, offers.Keys, v) && Possible(offers, offers.Keys, w) ensures v.entry == w.entry {
        OutcomesAreThePossible(offers, v);
        OutcomesAreThePossible(offers, w);
      }
    } else {
      var o1, o2 :| IsOrder(offers, o1) && IsOrder(offers, o2) && Chosen(offers, o1).entry != Chosen(offers, o2).entry;
      OutcomesAreThePossible(offers, Chosen(offers, o1));
      OutcomesAreThePossible(offers, Chosen(offers, o2));
    }
  }

  /** With one provider: exactly when it offers the same under all its final keys. */
  lemma CredentialIndependenceOfOne(p: string, offer: map<string, Entry>)
    ensures CredentialIndependent(map[p := offer]) <==>
            forall k, l :: IsFinal(offer.Keys, k) && IsFinal(offer.Keys, l) ==> offer[k] == offer[l]
  {
    var offers: Offers := map[p := offer];
    CredentialIndependence(offers);
    forall v ensures Possible(offers, offers.Keys, v) <==> Yields(offer, NOTHING, v) {
      assert offers.Keys == {p} && {p} - {p} == {};
      if Yields(offer, NOTHING, v) {
        assert Possible(offers, {p} - {p}, NOTHING) && Yields(offers[p], NOTHING, v);
      }
    }
    if exists k :: k in offer && Replaces("", k) {
      forall k ensures IsFinal(offer.Keys, k) ==> Yields(offer, NOTHING, Visit(k, offer[k])) {
      }
    }
  }

  /** The greatest key is final, and so is the greatest of the longest keys. */
  lemma GreatestAndLongestAreFinal(keys: set<string>, target: string)
    requires target in keys && forall k :: k in keys ==> k == target || Replaces(k, target)
    ensures IsFinal(keys, target)
  {
    LeadsToItself(keys, target);
    forall k | k in keys && k != target ensures LeadsTo(keys, k, target) {
      LeadsOn(keys, k, target, target);
    }
  }
}
