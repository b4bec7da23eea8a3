/**
 * The string operations the Go code takes from its standard library.  One `char` stands for one
 * byte of a Go string, so `|s|` is Go's `len(s)`.
 */
module Strings {

  // ---------- Order: Go's `<` on strings ----------

  predicate Less(a: string, b: string) {
    b != [] && (a == [] || a[0] < b[0] || (a[0] == b[0] && Less(a[1..], b[1..])))
  }

  predicate AtMost(a: string, b: string) {
    a == b || Less(a, b)
  }

  lemma {:induction false} LessTrichotomy(a: string, b: string)
    ensures a == b || Less(a, b) || Less(b, a)
    ensures !(Less(a, b) && Less(b, a))
    ensures !Less(a, a)
  {
    if a != [] {
      LessTrichotomy(a[1..], a[1..]);
      if b != [] && a[0] == b[0] {
        LessTrichotomy(a[1..], b[1..]);
        assert a == [a[0]] + a[1..] && b == [b[0]] + b[1..];
      }
    }
  }

  /** The smaller text ends first, or has the smaller character where the two first differ. */
  lemma {:induction false} LessIff(a: string, b: string)
    ensures Less(a, b) <==>
            exists i :: 0 <= i <= |a| && i < |b| && a[..i] == b[..i] && (i == |a| || a[i] < b[i])
  {
    if a == [] {
      assert b != [] ==> a[..0] == b[..0];
    } else if b != [] {
      LessIff(a[1..], b[1..]);
      if a[0] < b[0] {
        assert a[..0] == b[..0];
      }
      if a[0] == b[0] && Less(a[1..], b[1..]) {
        var i :| 0 <= i <= |a[1..]| && i < |b[1..]| && a[1..][..i] == b[1..][..i] &&
                 (i == |a[1..]| || a[1..][i] < b[1..][i]);
        assert a[..i + 1] == [a[0]] + a[1..][..i] && b[..i + 1] == [b[0]] + b[1..][..i];
      }
      if i :| 0 <= i <= |a| && i < |b| && a[..i] == b[..i] && (i == |a| || a[i] < b[i]) {
        if i > 0 {
          assert a[..i][0] == a[0] && b[..i][0] == b[0];
          assert a[1..][..i - 1] == a[..i][1..] && b[1..][..i - 1] == b[..i][1..];
        }
      }
    }
  }

  lemma {:induction false} LessTransitive(a: string, b: string, c: string)
    requires Less(a, b) && Less(b, c)
    ensures Less(a, c)
  {
    if a != [] && a[0] == b[0] == c[0] {
      LessTransitive(a[1..], b[1..], c[1..]);
    }
  }

  lemma {:induction false} PrefixAtMost(a: string, b: string)
    requires a <= b
    ensures AtMost(a, b)
  {
    if a != [] {
      PrefixAtMost(a[1..], b[1..]);
      assert a == [a[0]] + a[1..] && b == [b[0]] + b[1..];
    }
  }

  /** Strings that agree on `common` are ordered by what follows it. */
  lemma {:induction false} LessAfterCommon(common: string, a: string, b: string)
    ensures Less(common + a, common + b) <==> Less(a, b)
  {
    if common == [] {
      assert common + a == a && common + b == b;
    } else {
      LessAfterCommon(common[1..], a, b);
      assert (common + a)[1..] == common[1..] + a;
      assert (common + b)[1..] == common[1..] + b;
    }
  }

  // ---------- Searching ----------

  /** The text up to the first `c`: `strings.Cut` gives it, and what follows. */
  function Before(s: string, c: char): string {
    if s == [] || s[0] == c then [] else [s[0]] + Before(s[1..], c)
  }

  /** The text from the first `c` on, empty when there is none. */
  function From(s: string, c: char): string {
    if s == [] || s[0] == c then s else From(s[1..], c)
  }

  /** The index of the last `c`, or `|s|` when there is none. */
  function LastIndexOf(s: string, c: char): (i: nat)
    ensures i <= |s|
    ensures i == |s| <==> c !in s
    ensures i < |s| ==> s[i] == c && forall k :: i < k < |s| ==> s[k] != c
  {
    if s == [] then 0
    else if s[|s| - 1] == c then |s| - 1
    else
      assert s == s[..|s| - 1] + [s[|s| - 1]];
      var i := LastIndexOf(s[..|s| - 1], c);
      if i == |s| - 1 then |s| else i
  }

  /** The two pieces make up the text, and they meet at the first `c`. */
  lemma {:induction false} CutJoins(s: string, c: char)
    ensures Before(s, c) + From(s, c) == s
    ensures c !in Before(s, c)
    ensures From(s, c) == "" || From(s, c)[0] == c
  {
    if s != [] && s[0] != c {
      var before, from := Before(s[1..], c), From(s[1..], c);
      CutJoins(s[1..], c);
      assert Before(s, c) == [s[0]] + before && From(s, c) == from;
      assert ([s[0]] + before) + from == [s[0]] + (before + from) == s;
    }
  }

  lemma {:induction false} CutIs(a: string, b: string, c: char)
    requires c !in a && (b == "" || b[0] == c)
    ensures Before(a + b, c) == a && From(a + b, c) == b
  {
    if a == [] {
      assert a + b == b;
    } else {
      CutIs(a[1..], b, c);
      assert (a + b)[1..] == a[1..] + b;
    }
  }

  lemma LastIndexOfIs(s: string, c: char, i: nat)
    requires i < |s| && s[i] == c && forall k :: i < k < |s| ==> s[k] != c
    ensures LastIndexOf(s, c) == i
  {
  }

  // ---------- strings.Split and strings.Join with a one-character separator ----------

  function Split(s: string, c: char): (parts: seq<string>)
    ensures |parts| > 0
  {
    if s == [] then [""] else Prepend(s[0], Split(s[1..], c), c)
  }

  /** The parts of a text with `x` put in front, from the parts of the text. */
  function Prepend(x: char, parts: seq<string>, c: char): (longer: seq<string>)
    requires parts != []
    ensures longer != []
  {
    if x == c then [""] + parts else [[x] + parts[0]] + parts[1..]
  }

  function Join(parts: seq<string>, c: char): string {
    if parts == [] then ""
    else if |parts| == 1 then parts[0]
    else parts[0] + [c] + Join(parts[1..], c)
  }

  lemma {:induction false} JoinSplit(s: string, c: char)
    ensures Join(Split(s, c), c) == s
  {
    if s != [] {
      JoinSplit(s[1..], c);
      assert s == [s[0]] + s[1..];
      var rest := Split(s[1..], c);
      if s[0] != c {
        assert Split(s, c)[1..] == rest[1..];
      }
    }
  }

  /** No part of a split contains the separator, and every part's characters come from the text. */
  lemma {:induction false} SplitParts(s: string, c: char)
    ensures forall part :: part in Split(s, c) ==> c !in part
    ensures forall part, x :: part in Split(s, c) && x in part ==> x in s
  {
    if s != [] {
      SplitParts(s[1..], c);
    }
  }

  lemma SplitCons(x: char, s: string, c: char)
    ensures Split([x] + s, c) == Prepend(x, Split(s, c), c)
  {
    assert ([x] + s)[1..] == s;
  }

  lemma PrependConcat(x: char, parts: seq<string>, more: seq<string>, c: char)
    requires parts != []
    ensures Prepend(x, parts + more, c) == Prepend(x, parts, c) + more
  {
    assert (parts + more)[1..] == parts[1..] + more;
  }

  lemma {:induction false} SplitConcat(a: string, c: char, b: string)
    ensures Split(a + [c] + b, c) == Split(a, c) + Split(b, c)
  {
    if a == [] {
      assert a + [c] + b == [c] + b;
      SplitCons(c, b, c);
    } else {
      SplitConcat(a[1..], c, b);
      assert a + [c] + b == [a[0]] + (a[1..] + [c] + b);
      SplitCons(a[0], a[1..] + [c] + b, c);
      PrependConcat(a[0], Split(a[1..], c), Split(b, c), c);
      assert a == [a[0]] + a[1..];
      SplitCons(a[0], a[1..], c);
    }
  }

  lemma {:induction false} SplitWithout(s: string, c: char)
    requires c !in s
    ensures Split(s, c) == [s]
  {
    if s != [] {
      SplitWithout(s[1..], c);
      assert s == [s[0]] + s[1..];
    }
  }

  lemma {:induction false} SplitJoin(parts: seq<string>, c: char)
    requires parts != [] && forall part :: part in parts ==> c !in part
    ensures Split(Join(parts, c), c) == parts
  {
    SplitWithout(parts[0], c);
    if |parts| > 1 {
      SplitJoin(parts[1..], c);
      SplitConcat(parts[0], c, Join(parts[1..], c));
    }
  }

  lemma {:induction false} JoinConcat(a: seq<string>, b: seq<string>, c: char)
    requires a != [] && b != []
    ensures Join(a + b, c) == Join(a, c) + [c] + Join(b, c)
  {
    if |a| == 1 {
      assert (a + b)[1..] == b;
    } else {
      JoinConcat(a[1..], b, c);
      assert (a + b)[1..] == a[1..] + b;
    }
  }

  /** A character of a joined text is the separator or comes from one of the parts. */
  lemma {:induction false} JoinChars(parts: seq<string>, c: char)
    ensures forall x :: x in Join(parts, c) ==> x == c || exists part :: part in parts && x in part
  {
    if |parts| > 1 {
      JoinChars(parts[1..], c);
    }
  }

  // ---------- Prefixes and suffixes ----------

  function TrimPrefix(s: string, prefix: string): string {
    if prefix <= s then s[|prefix|..] else s
  }

  predicate HasSuffix(s: string, suffix: string) {
    |suffix| <= |s| && s[|s| - |suffix|..] == suffix
  }

  // ---------- Character classes ----------

  predicate IsDigit(c: char) { '0' <= c <= '9' }

  predicate IsAlphanumeric(c: char) {
    IsDigit(c) || 'a' <= c <= 'z' || 'A' <= c <= 'Z'
  }
}
