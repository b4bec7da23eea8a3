/**
 * The glob that Go's `filepath.Match` decides, for patterns of literals, `*` and `?`.
 */
module Glob {
  import opened Strings

  /** `*` matches a run of characters and `?` one character, none of them in `stop`. */
  predicate Match(pattern: string, name: string, stop: set<char>)
    decreases |pattern| + |name|
  {
    if pattern == [] then name == []
    else if pattern[0] == '*' then
      || Match(pattern[1..], name, stop)
      || (name != [] && name[0] !in stop && Match(pattern, name[1..], stop))
    else if pattern[0] == '?' then
      name != [] && name[0] !in stop && Match(pattern[1..], name[1..], stop)
    else
      name != [] && name[0] == pattern[0] && Match(pattern[1..], name[1..], stop)
  }

  /** `filepath.Match` on Unix: wildcards stop at a slash. */
  predicate FilepathMatch(pattern: string, name: string) {
    Match(pattern, name, {'/'})
  }

  /** One glob over a whole host: wildcards stop at a dot as well. */
  predicate HostMatch(pattern: string, host: string) {
    Match(pattern, host, {'/', '.'})
  }

  predicate PartsMatch(patterns: seq<string>, names: seq<string>) {
    |patterns| == |names| && forall k :: 0 <= k < |patterns| ==> FilepathMatch(patterns[k], names[k])
  }

  lemma PartsMatchCons(p: string, ps: seq<string>, n: string, ns: seq<string>)
    ensures PartsMatch([p] + ps, [n] + ns) <==> FilepathMatch(p, n) && PartsMatch(ps, ns)
  {
    if PartsMatch([p] + ps, [n] + ns) {
      assert FilepathMatch(([p] + ps)[0], ([n] + ns)[0]);
      forall k | 0 <= k < |ps| ensures FilepathMatch(ps[k], ns[k]) {
        assert FilepathMatch(([p] + ps)[k + 1], ([n] + ns)[k + 1]);
      }
    }
  }

  lemma PartsMatchSplit(ps: seq<string>, ns: seq<string>)
    requires ps != [] && ns != []
    ensures PartsMatch(ps, ns) <==> FilepathMatch(ps[0], ns[0]) && PartsMatch(ps[1..], ns[1..])
  {
    PartsMatchCons(ps[0], ps[1..], ns[0], ns[1..]);
    assert ps == [ps[0]] + ps[1..] && ns == [ns[0]] + ns[1..];
  }

  /** Matching dot-separated parts one by one is the whole-host glob. */
  lemma {:induction false} SplitMatchIsHostMatch(pattern: string, host: string)
    ensures PartsMatch(Split(pattern, '.'), Split(host, '.')) <==> HostMatch(pattern, host)
    decreases |pattern| + |host|
  {
    var ps, ns := Split(pattern, '.'), Split(host, '.');
    PartsMatchSplit(ps, ns);
    if pattern == [] {
      assert ps[1..] == [];
    } else {
      var ps' := Split(pattern[1..], '.');
      PartsMatchSplit(ps', ns);
      SplitMatchIsHostMatch(pattern[1..], host);
      if host != [] {
        var ns' := Split(host[1..], '.');
        PartsMatchSplit(ps', ns');
        PartsMatchSplit(ps, ns');
        SplitMatchIsHostMatch(pattern[1..], host[1..]);
        SplitMatchIsHostMatch(pattern, host[1..]);
        assert host[0] == '.' ==> ns[1..] == ns';
        assert host[0] != '.' ==> ns[1..] == ns'[1..] && ns[0][1..] == ns'[0];
      }
      assert pattern[0] == '.' ==> ps[1..] == ps';
      assert pattern[0] != '.' ==> ps[1..] == ps'[1..] && ps[0][1..] == ps'[0];
    }
  }

  // ---------- What fixes the glob ----------

  lemma EmptyMatches(name: string, stop: set<char>)
    ensures Match("", name, stop) <==> name == ""
  {
  }

  /** Any other character matches itself and nothing else. */
  lemma LiteralMatches(c: char, name: string, stop: set<char>)
    requires c != '*' && c != '?'
    ensures Match([c], name, stop) <==> name == [c]
  {
    EmptyMatches(if name == "" then "" else name[1..], stop);
  }

  lemma {:induction false} StarMatches(name: string, stop: set<char>)
    ensures Match("*", name, stop) <==> forall c :: c in name ==> c !in stop
  {
    EmptyMatches(name, stop);
    if name != "" {
      StarMatches(name[1..], stop);
      assert forall c :: c in name <==> c == name[0] || c in name[1..];
    }
  }

  lemma QuestionMarkMatches(name: string, stop: set<char>)
    ensures Match("?", name, stop) <==> |name| == 1 && name[0] !in stop
  {
    EmptyMatches(if name == "" then "" else name[1..], stop);
  }

  /** The name can be cut in two, of which each piece is matched by its pattern. */
  ghost predicate MatchesInTwo(a: string, b: string, name: string, stop: set<char>) {
    exists i :: 0 <= i <= |name| && Match(a, name[..i], stop) && Match(b, name[i..], stop)
  }

  /** Two patterns in a row match two pieces in a row. */
  lemma {:induction false} MatchConcat(a: string, b: string, name: string, stop: set<char>)
    ensures Match(a + b, name, stop) <==> MatchesInTwo(a, b, name, stop)
    decreases |a| + |name|
  {
    if a == "" {
      assert a + b == b && name[..0] == "" && name[0..] == name;
      assert Match(a, name[..0], stop);
    } else {
      assert (a + b)[1..] == a[1..] + b;
      MatchConcat(a[1..], b, name, stop);
      if name != "" {
        MatchConcat(a[1..], b, name[1..], stop);
        MatchConcat(a, b, name[1..], stop);
        TwoPieces(a, b, name, stop);
        TwoPieces(a[1..], b, name, stop);
      }
      assert name == "" ==> name[..0] == name;
    }
  }

  /** The first piece is empty, or it begins with the first character of the name. */
  lemma TwoPieces(a: string, b: string, name: string, stop: set<char>)
    requires name != ""
    ensures MatchesInTwo(a, b, name, stop) <==>
            || (Match(a, "", stop) && Match(b, name, stop))
            || exists i :: 0 <= i < |name| &&
                           Match(a, [name[0]] + name[1..][..i], stop) && Match(b, name[1..][i..], stop)
  {
    assert name[..0] == "" && name[0..] == name;
    forall i | 0 <= i < |name|
      ensures [name[0]] + name[1..][..i] == name[..i + 1] && name[1..][i..] == name[i + 1..]
    {
    }
    if i :| 0 < i <= |name| && Match(a, name[..i], stop) && Match(b, name[i..], stop) {
      assert Match(a, [name[0]] + name[1..][..i - 1], stop) && Match(b, name[1..][i - 1..], stop);
    }
    if i :| 0 <= i < |name| && Match(a, [name[0]] + name[1..][..i], stop) && Match(b, name[1..][i..], stop) {
      assert Match(a, name[..i + 1], stop) && Match(b, name[i + 1..], stop);
    }
  }

  /** A pattern without wildcards matches its own text only. */
  lemma {:induction false} LiteralPatternMatches(pattern: string, name: string, stop: set<char>)
    requires '*' !in pattern && '?' !in pattern
    ensures Match(pattern, name, stop) <==> name == pattern
  {
    if pattern != "" && name != "" {
      LiteralPatternMatches(pattern[1..], name[1..], stop);
      assert pattern == [pattern[0]] + pattern[1..] && name == [name[0]] + name[1..];
    }
  }

  /** Within a part a wildcard stops at a slash, and within a host at a dot as well. */
  lemma WhereStarStops(name: string)
    ensures FilepathMatch("*", name) <==> '/' !in name
    ensures HostMatch("*", name) <==> '/' !in name && '.' !in name
  {
    StarMatches(name, {'/'});
    StarMatches(name, {'/', '.'});
  }

  // ---------- Matching as an order on patterns ----------

  lemma {:induction false} MatchReflexive(pattern: string, stop: set<char>)
    requires '*' !in stop && '?' !in stop
    ensures Match(pattern, pattern, stop)
  {
    if pattern != [] {
      MatchReflexive(pattern[1..], stop);
      if pattern[0] == '*' {
        StarAbsorbs(pattern[1..], pattern[1..], stop);
      }
    }
  }

  lemma StarAbsorbs(pattern: string, name: string, stop: set<char>)
    requires Match(pattern, name, stop)
    ensures Match("*" + pattern, name, stop)
  {
    assert ("*" + pattern)[1..] == pattern;
  }

  /** A pattern without `?` matches whatever a pattern it matches as text does. */
  lemma {:induction false} MatchTransitive(a: string, b: string, c: string, stop: set<char>)
    requires '?' !in a
    requires Match(a, b, stop) && Match(b, c, stop)
    ensures Match(a, c, stop)
    decreases |a| + |b| + |c|
  {
    if a == [] {
    } else if a[0] == '*' {
      if Match(a[1..], b, stop) {
        MatchTransitive(a[1..], b, c, stop);
      } else if b[0] == '*' {
        if Match(b[1..], c, stop) {
          MatchTransitive(a, b[1..], c, stop);
        } else {
          MatchTransitive(a, b, c[1..], stop);
        }
      } else {
        MatchTransitive(a, b[1..], c[1..], stop);
      }
    } else {
      MatchTransitive(a[1..], b[1..], c[1..], stop);
    }
  }

  /** Transitivity from `a`: every text matched through an intermediate pattern is matched directly. */
  ghost predicate Composes(a: string, stop: set<char>) {
    forall b, c :: Match(a, b, stop) && Match(b, c, stop) ==> Match(a, c, stop)
  }

  /** How many characters a text must have at least to be matched. */
  function MinLength(pattern: string): nat {
    if pattern == [] then 0 else (if pattern[0] == '*' then 0 else 1) + MinLength(pattern[1..])
  }

  lemma {:induction false} MatchedIsLongEnough(pattern: string, name: string, stop: set<char>)
    requires Match(pattern, name, stop)
    ensures |name| >= MinLength(pattern)
    decreases |pattern| + |name|
  {
    if pattern != [] {
      if pattern[0] == '*' && !Match(pattern[1..], name, stop) {
        MatchedIsLongEnough(pattern, name[1..], stop);
      } else if pattern[0] == '*' {
        MatchedIsLongEnough(pattern[1..], name, stop);
      } else {
        MatchedIsLongEnough(pattern[1..], name[1..], stop);
      }
    }
  }

  /** A shortest matched text: stars match nothing and question marks the character `fill`. */
  function Shortest(pattern: string, fill: char): string {
    if pattern == [] then ""
    else (if pattern[0] == '*' then "" else if pattern[0] == '?' then [fill] else [pattern[0]]) +
         Shortest(pattern[1..], fill)
  }

  lemma {:induction false} ShortestMatches(pattern: string, fill: char, stop: set<char>)
    requires fill !in stop
    ensures Match(pattern, Shortest(pattern, fill), stop)
    ensures |Shortest(pattern, fill)| == MinLength(pattern)
  {
    if pattern != [] {
      ShortestMatches(pattern[1..], fill, stop);
      if pattern[0] != '*' {
        assert Shortest(pattern, fill)[1..] == Shortest(pattern[1..], fill);
      } else {
        assert Shortest(pattern, fill) == Shortest(pattern[1..], fill);
      }
    }
  }

  function Widen(pattern: string): (wide: string)
    requires '?' in pattern
  {
    if pattern[0] == '?' then "*" + pattern[1..] else [pattern[0]] + Widen(pattern[1..])
  }

  lemma {:induction false} WidenDropsOne(pattern: string, stop: set<char>)
    requires '?' in pattern && '*' !in stop && '?' !in stop
    ensures Match(pattern, Widen(pattern), stop)
    ensures MinLength(Widen(pattern)) + 1 == MinLength(pattern)
  {
    var wide := Widen(pattern);
    if pattern[0] == '?' {
      MatchReflexive(pattern[1..], stop);
      assert wide[1..] == pattern[1..];
    } else {
      WidenDropsOne(pattern[1..], stop);
      assert wide[1..] == Widen(pattern[1..]);
      if pattern[0] == '*' {
        StarAbsorbs(pattern[1..], wide[1..], stop);
        assert pattern == "*" + pattern[1..];
      }
    }
  }

  /** Matching composes from exactly those patterns that have no `?`. */
  lemma ComposesIffNoQuestionMark(a: string, stop: set<char>)
    requires '*' !in stop && '?' !in stop && 'x' !in stop
    ensures Composes(a, stop) <==> '?' !in a
  {
    if '?' !in a {
      forall b, c | Match(a, b, stop) && Match(b, c, stop) ensures Match(a, c, stop) {
        MatchTransitive(a, b, c, stop);
      }
    } else {
      var b := Widen(a);
      var c := Shortest(b, 'x');
      WidenDropsOne(a, stop);
      ShortestMatches(b, 'x', stop);
      if Match(a, c, stop) {
        MatchedIsLongEnough(a, c, stop);
      }
    }
  }
}
