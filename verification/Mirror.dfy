/**
 * The name under which an image is looked up at the mirror: the mirror's URL joined with the path
 * of the image, `pkg/credentialprovider/dynamic/dynamic.go`.
 */
module Mirror {
  import opened Wrappers
  import opened Strings
  import opened Urls
  import opened Config

  // ---------- Joining paths ----------

  /** The segments of a rooted path that `path.Clean` leaves. */
  function Resolve(segments: seq<string>): seq<string> {
    if segments == [] then []
    else
      var kept, last := Resolve(segments[..|segments| - 1]), segments[|segments| - 1];
      if last == "" || last == "." then kept
      else if last == ".." then (if kept == [] then [] else kept[..|kept| - 1])
      else kept + [last]
  }

  /** `path.Clean` of a path that begins with a slash. */
  function Clean(path: string): string {
    "/" + Join(Resolve(Split(path, '/')), '/')
  }

  /** `path.Join` of two paths of which the first is not empty. */
  function PathJoin(first: string, second: string): string {
    Clean(if second == "" then first else first + "/" + second)
  }

  /** `url.URL.JoinPath` with one element. */
  function JoinPath(base: Url, elem: string): Url {
    var rooted := "/" <= base.path;
    var joined := if rooted then PathJoin(base.path, elem) else PathJoin("/" + base.path, elem)[1..];
    base.(path := if HasSuffix(elem, "/") && !HasSuffix(joined, "/") then joined + "/" else joined)
  }

  /** The image name the mirror's credentials are looked up for. */
  function MirrorImage(endpoint: string, img: string): Result<string, Error> {
    var imgURL := ParsePotentiallySchemelessURL(img);
    if imgURL.None? then Failure(UnparsableImage(img))
    else
      var mirrorURL := ParsePotentiallySchemelessURL(endpoint);
      if mirrorURL.None? then Failure(UnparsableMirror(img))
      else Success(Name(JoinPath(mirrorURL.value, imgURL.value.path)))
  }

  lemma MirrorImageFails(endpoint: string, img: string)
    ensures MirrorImage(endpoint, img) == Failure(UnparsableImage(img)) <==>
            ParsePotentiallySchemelessURL(img).None?
    ensures MirrorImage(endpoint, img) == Failure(UnparsableMirror(img)) <==>
            ParsePotentiallySchemelessURL(img).Some? && ParsePotentiallySchemelessURL(endpoint).None?
    ensures MirrorImage(endpoint, img).Success? <==>
            ParsePotentiallySchemelessURL(img).Some? && ParsePotentiallySchemelessURL(endpoint).Some?
  {
  }

  // ---------- Segments ----------

  predicate IsPlain(segment: string) {
    segment != "" && segment != "." && segment != ".." && '/' !in segment
  }

  /** A segment of an image's path: it begins with a letter or a digit. */
  predicate IsImageSegment(segment: string) {
    segment != "" && IsAlphanumeric(segment[0]) && '/' !in segment
  }

  /** The path of an image: a slash and then image segments. */
  predicate IsImagePath(path: string) {
    "/" <= path && forall segment :: segment in Split(path[1..], '/') ==> IsImageSegment(segment)
  }

  /** An endpoint's path that cleaning keeps as it is, but for one trailing slash. */
  predicate IsTidy(path: string) {
    var segments := Split(path, '/');
    && (forall i :: 1 <= i < |segments| - 1 ==> IsPlain(segments[i]))
    && (segments[|segments| - 1] == "" || IsPlain(segments[|segments| - 1]))
  }

  lemma {:induction false} ResolveAppendsPlain(a: seq<string>, b: seq<string>)
    requires forall segment :: segment in b ==> IsPlain(segment)
    ensures Resolve(a + b) == Resolve(a) + b
  {
    if b == [] {
      assert a + b == a;
    } else {
      var init := b[..|b| - 1];
      ResolveAppendsPlain(a, init);
      assert (a + b)[..|a + b| - 1] == a + init;
      assert b[|b| - 1] in b;
    }
  }

  lemma ResolveDropsEmpty(a: seq<string>)
    ensures Resolve(a + [""]) == Resolve(a)
  {
    assert (a + [""])[..|a|] == a;
  }

  lemma {:induction false} ResolveKeepsPlain(segments: seq<string>)
    requires forall segment :: segment in segments ==> '/' !in segment
    ensures forall segment :: segment in Resolve(segments) ==> IsPlain(segment) && segment in segments
  {
    if segments != [] {
      ResolveKeepsPlain(segments[..|segments| - 1]);
    }
  }

  // ---------- What cleaning is ----------

  function Rooted(segments: seq<string>): string {
    "/" + Join(segments, '/')
  }

  lemma {:induction false} ResolveAfter(a: seq<string>, b: seq<string>, rest: seq<string>)
    requires Resolve(a) == Resolve(b)
    ensures Resolve(a + rest) == Resolve(b + rest)
  {
    if rest == [] {
      assert a + rest == a && b + rest == b;
    } else {
      var init, last := rest[..|rest| - 1], rest[|rest| - 1];
      hide Resolve;
      assert rest == init + [last];
      assert a + rest == (a + init) + [last];
      assert b + rest == (b + init) + [last];
      ResolveAfter(a, b, init);
      ResolveOneMore(a + init, b + init, last);
    }
  }

  lemma ResolveOneMore(a: seq<string>, b: seq<string>, last: string)
    requires Resolve(a) == Resolve(b)
    ensures Resolve(a + [last]) == Resolve(b + [last])
  {
    assert (a + [last])[..|a|] == a && (b + [last])[..|b|] == b;
  }

  lemma CleanIs(segments: seq<string>)
    requires forall segment :: segment in segments ==> '/' !in segment
    ensures Clean(Rooted(segments)) == Rooted(Resolve(segments))
  {
    ResolveDropsEmpty([]);
    assert [] + [""] == [""];
    if segments == [] {
      ResolveDropsEmpty([""]);
      assert Split("/", '/') == [""] + [""];
    } else {
      SplitJoin(segments, '/');
      SplitCons('/', Join(segments, '/'), '/');
      ResolveAfter([""], [], segments);
      assert [] + segments == segments;
    }
  }

  /**
   * The rules that `path.Clean` is documented to apply as long as they apply, for a rooted path:
   * repeated slashes and `.` go, `..` goes with the segment before it, and at the root it goes alone.
   */
  lemma CleanRules(a: seq<string>, b: seq<string>, segment: string)
    requires forall s :: s in a + b ==> '/' !in s
    requires '/' !in segment && segment != "" && segment != "." && segment != ".."
    ensures Clean(Rooted(a + [""] + b)) == Clean(Rooted(a + b))
    ensures Clean(Rooted(a + ["."] + b)) == Clean(Rooted(a + b))
    ensures Clean(Rooted(a + [segment, ".."] + b)) == Clean(Rooted(a + b))
    ensures Clean(Rooted([".."] + b)) == Clean(Rooted(b))
  {
    assert forall s :: s in b ==> s in a + b;
    hide Clean, Rooted, Resolve;
    CleanIs(a + b);
    CleanIs(b);
    CleanIs(a + [""] + b);
    CleanIs(a + ["."] + b);
    CleanIs(a + [segment, ".."] + b);
    CleanIs([".."] + b);
    ResolveRules(a, segment);
    ResolveAfter(a + [""], a, b);
    ResolveAfter(a + ["."], a, b);
    ResolveAfter(a + [segment, ".."], a, b);
    ResolveAfter([".."], [], b);
    assert [] + b == b;
  }

  lemma ResolveRules(a: seq<string>, segment: string)
    requires segment != "" && segment != "." && segment != ".."
    ensures Resolve(a + [""]) == Resolve(a + ["."]) == Resolve(a + [segment, ".."]) == Resolve(a)
    ensures Resolve([".."]) == Resolve([])
  {
    assert (a + [""])[..|a|] == a && (a + ["."])[..|a|] == a;
    assert (a + [segment, ".."])[..|a| + 1] == a + [segment] && (a + [segment])[..|a|] == a;
    assert [".."][..0] == [];
  }

  /** Where no rule applies, the path is clean. */
  lemma CleanKeepsPlain(segments: seq<string>)
    requires forall s :: s in segments ==> '/' !in s && s != "" && s != "." && s != ".."
    ensures Clean(Rooted(segments)) == Rooted(segments)
  {
    CleanIs(segments);
    ResolveAppendsPlain([], segments);
    assert [] + segments == segments;
  }

  lemma CleanEndsInNoSlash(path: string)
    ensures "/" <= Clean(path)
    ensures HasSuffix(Clean(path), "/") <==> Clean(path) == "/"
  {
    var segments := Resolve(Split(path, '/'));
    SplitParts(path, '/');
    ResolveKeepsPlain(Split(path, '/'));
    if segments != [] {
      var last := segments[|segments| - 1];
      assert IsPlain(last);
      JoinEndsAsItsLastPart(segments, '/');
      assert last[|last| - 1] in last;
      assert Clean(path)[|Clean(path)| - 1] == last[|last| - 1];
      assert Clean(path)[|Clean(path)| - 1..] == [Clean(path)[|Clean(path)| - 1]];
    }
  }

  lemma PathJoinIs(path: string, elem: string)
    ensures PathJoin(if path == "" then "/" else path, elem) == Clean(path + "/" + elem)
  {
    var a, b := Split(path, '/'), Split(elem, '/');
    SplitConcat(path, '/', elem);
    SplitConcat("/", '/', elem);
    assert Split("/", '/') == [""] + [""];
    hide Join;
    ResolveDropsEmpty(a);
    ResolveDropsEmpty([""]);
    ResolveAfter([""] + [""], [""], b);
  }

  /** The joined path is the two paths with a slash between them, cleaned, and it keeps a trailing slash. */
  lemma JoinPathIs(base: Url, elem: string)
    requires base.path == "" || "/" <= base.path
    ensures var clean := Clean(base.path + "/" + elem);
            var path := if base.path == "" then clean[1..] else clean;
            var slash := if elem != "" && elem[|elem| - 1] == '/' && path != "/" then "/" else "";
            JoinPath(base, elem) == Url(base.host, path + slash, base.query)
  {
    var clean := Clean(base.path + "/" + elem);
    var path := if base.path == "" then clean[1..] else clean;
    PathJoinIs(base.path, elem);
    CleanEndsInNoSlash(base.path + "/" + elem);
    EndsInSlash(elem);
    EndsInSlash(clean);
    EndsInSlash(path);
    hide PathJoin, Clean, HasSuffix;
    assert base.path == "" ==> "/" + base.path == "/" && path != "/";
    assert path + "" == path;
  }

  lemma EndsInSlash(s: string)
    ensures HasSuffix(s, "/") <==> s != "" && s[|s| - 1] == '/'
  {
    assert s != "" ==> s[|s| - 1..] == [s[|s| - 1]];
  }

  /** All segments but the last are the same, and the last begins its counterpart. */
  predicate SegmentPrefix(p: seq<string>, q: seq<string>) {
    && 0 < |p| <= |q|
    && (forall i :: 0 <= i < |p| - 1 ==> p[i] == q[i])
    && p[|p| - 1] <= q[|p| - 1]
  }

  lemma PrependPrefix(x: char, p: seq<string>, y: char, q: seq<string>)
    requires p != [] && q != []
    ensures SegmentPrefix(Prepend(x, p, '/'), Prepend(y, q, '/')) <==> x == y && SegmentPrefix(p, q)
  {
    var p', q' := Prepend(x, p, '/'), Prepend(y, q, '/');
    if x == y == '/' {
      assert forall i :: 0 <= i < |p| ==> p'[i + 1] == p[i];
      assert forall i :: 0 <= i < |q| ==> q'[i + 1] == q[i];
    } else if x == y {
      assert forall i :: 1 <= i < |p| ==> p'[i] == p[i];
      assert forall i :: 1 <= i < |q| ==> q'[i] == q[i];
      assert p'[0][1..] == p[0] && q'[0][1..] == q[0];
    } else {
      assert x != '/' ==> p'[0][0] == x;
      assert y != '/' ==> q'[0][0] == y;
      assert x == '/' ==> |p'| > 1 && p'[0] != q'[0];
      assert x != '/' ==> !(p'[0] <= q'[0]);
    }
  }

  /** One text is a prefix of another exactly when it is so segment by segment. */
  lemma {:induction false} PrefixBySegments(a: string, b: string)
    ensures a <= b <==> SegmentPrefix(Split(a, '/'), Split(b, '/'))
  {
    if a != [] && b != [] {
      PrefixBySegments(a[1..], b[1..]);
      PrependPrefix(a[0], Split(a[1..], '/'), b[0], Split(b[1..], '/'));
      assert a <= b <==> a[0] == b[0] && a[1..] <= b[1..];
    }
  }

  // ---------- The mirror's name for an image ----------

  /** Where the image's path ends up below the mirror's. */
  function MirrorPath(mirrorPath: string, imagePath: string): (path: string)
    requires "/" <= imagePath
    ensures "/" <= path
  {
    "/" + Join(Resolve(Split(mirrorPath, '/')) + Split(imagePath[1..], '/'), '/')
  }

  lemma ImageSegmentsArePlain(path: string)
    requires IsImagePath(path)
    ensures forall segment :: segment in Split(path[1..], '/') ==> IsPlain(segment)
    ensures Split(path, '/') == [""] + Split(path[1..], '/')
  {
    forall segment | segment in Split(path[1..], '/') ensures IsPlain(segment) {
      assert IsImageSegment(segment);
    }
  }

  lemma ImagePathOfSegments(segments: seq<string>)
    requires segments != []
    requires forall segment :: segment in segments ==> '/' !in segment && segment != ""
    requires forall segment :: segment in segments ==>
               'a' <= segment[0] <= 'z' || 'A' <= segment[0] <= 'Z' || '0' <= segment[0] <= '9'
    ensures IsImagePath("/" + Join(segments, '/'))
  {
    SplitJoin(segments, '/');
  }

  lemma ImagePathEndsInASegment(path: string)
    requires IsImagePath(path)
    ensures |path| > 1 && !HasSuffix(path, "/")
  {
    var segments := Split(path[1..], '/');
    JoinSplit(path[1..], '/');
    var last := segments[|segments| - 1];
    assert IsImageSegment(last);
    JoinEndsAsItsLastPart(segments, '/');
    assert path[|path| - 1] == last[|last| - 1];
  }

  lemma {:induction false} JoinEndsAsItsLastPart(parts: seq<string>, c: char)
    requires parts != [] && parts[|parts| - 1] != ""
    ensures var text := Join(parts, c); var last := parts[|parts| - 1];
            text != "" && text[|text| - 1] == last[|last| - 1]
  {
    if |parts| > 1 {
      JoinEndsAsItsLastPart(parts[1..], c);
    }
  }

  /** Cleaning the two paths put together is cleaning the first and adding the second. */
  lemma CleanOfBoth(first: string, imagePath: string)
    requires IsImagePath(imagePath)
    ensures Clean(first + "/" + imagePath) == MirrorPath(first, imagePath)
  {
    var a, b := Split(first, '/'), Split(imagePath[1..], '/');
    ImageSegmentsArePlain(imagePath);
    SplitConcat(first, '/', imagePath);
    assert Split(first + "/" + imagePath, '/') == (a + [""]) + b;
    ResolveAppendsPlain(a + [""], b);
    ResolveDropsEmpty(a);
  }

  lemma MirrorPathOfNothing(first: string, imagePath: string)
    requires first == "" || first == "/"
    requires IsImagePath(imagePath)
    ensures MirrorPath(first, imagePath) == imagePath
  {
    var segments := Split(imagePath[1..], '/');
    ResolveDropsEmpty([]);
    ResolveDropsEmpty([""]);
    assert [] + [""] == [""] && [""] + [""] == Split("/", '/');
    assert [] + segments == segments;
    JoinSplit(imagePath[1..], '/');
  }

  lemma JoinedPath(base: Url, imagePath: string)
    requires (base.path == "" || base.path[0] == '/') && IsImagePath(imagePath)
    ensures var path := MirrorPath(base.path, imagePath);
            JoinPath(base, imagePath) == base.(path := if base.path == "" then path[1..] else path)
  {
    ImagePathEndsInASegment(imagePath);
    if base.path == "" {
      CleanOfBoth("/", imagePath);
      MirrorPathOfNothing("/", imagePath);
      MirrorPathOfNothing("", imagePath);
      assert "/" + base.path == "/";
    } else {
      CleanOfBoth(base.path, imagePath);
    }
  }

  lemma JoinedName(base: Url, imagePath: string)
    requires base.host != "" && (base.path == "" || base.path[0] == '/') && IsImagePath(imagePath)
    ensures Name(JoinPath(base, imagePath)) == base.host + MirrorPath(base.path, imagePath) + base.query
  {
    var path := MirrorPath(base.path, imagePath);
    hide *;
    JoinedPath(base, imagePath);
    NameWithHost(JoinPath(base, imagePath));
    if base.path == "" {
      MirrorPathOfNothing("", imagePath);
      FirstSegmentIsPlain(imagePath);
    }
  }

  lemma FirstSegmentIsPlain(imagePath: string)
    requires IsImagePath(imagePath)
    ensures |imagePath| > 1 && imagePath[0] == '/' && imagePath[1] != '/'
  {
    var segments := Split(imagePath[1..], '/');
    JoinSplit(imagePath[1..], '/');
    assert IsImageSegment(segments[0]);
    assert imagePath[1..][0] == segments[0][0];
  }

  lemma MirrorPathSegments(mirrorPath: string, imagePath: string)
    requires IsImagePath(imagePath)
    ensures var all := Resolve(Split(mirrorPath, '/')) + Split(imagePath[1..], '/');
            && Split(MirrorPath(mirrorPath, imagePath), '/') == [""] + all
            && (forall segment :: segment in all ==> IsPlain(segment))
            && |MirrorPath(mirrorPath, imagePath)| > 1 && MirrorPath(mirrorPath, imagePath)[1] != '/'
  {
    var all := Resolve(Split(mirrorPath, '/')) + Split(imagePath[1..], '/');
    SplitParts(mirrorPath, '/');
    ResolveKeepsPlain(Split(mirrorPath, '/'));
    ImageSegmentsArePlain(imagePath);
    SplitJoin(all, '/');
    SplitCons('/', Join(all, '/'), '/');
    assert IsPlain(all[0]);
  }

  lemma MirrorPathChars(mirrorPath: string, imagePath: string)
    requires IsImagePath(imagePath)
    ensures forall c :: c in MirrorPath(mirrorPath, imagePath) ==> c == '/' || c in mirrorPath || c in imagePath
  {
    var kept, segments := Resolve(Split(mirrorPath, '/')), Split(imagePath[1..], '/');
    SplitParts(mirrorPath, '/');
    SplitParts(imagePath[1..], '/');
    ResolveKeepsPlain(Split(mirrorPath, '/'));
    JoinChars(kept + segments, '/');
    forall c | c in Join(kept + segments, '/') ensures c == '/' || c in mirrorPath || c in imagePath {
      if c != '/' {
        var part :| part in kept + segments && c in part;
        assert part in Split(mirrorPath, '/') || part in segments;
        assert c in mirrorPath || c in imagePath[1..];
      }
    }
  }

  /** The mirror's host, the image below the mirror's path, and the endpoint's query if any. */
  function MirrorURL(mirror: Url, imagePath: string): Url
    requires "/" <= imagePath
  {
    Url(mirror.host, MirrorPath(mirror.path, imagePath), mirror.query)
  }

  lemma MirrorURLIsParsed(mirror: Url, imagePath: string)
    requires Parsed(mirror) && IsImagePath(imagePath) && AllSupported(imagePath) && '?' !in imagePath
    ensures Parsed(MirrorURL(mirror, imagePath))
  {
    var path := MirrorPath(mirror.path, imagePath);
    MirrorPathChars(mirror.path, imagePath);
    assert forall i :: 0 <= i < |path| ==> path[i] in path;
  }

  lemma NoSchemeBeforeSlash(host: string, rest: string)
    requires '/' !in host && "/" <= rest && !("//" <= rest)
    ensures !HasScheme(host + rest)
  {
    var text := host + rest;
    assert forall i :: 0 <= i < |host| ==> text[i] != '/';
    assert forall i :: |host| <= i < |text| ==> text[i] == rest[i - |host|];
    assert text[|host|] == '/';
    assert forall i :: 0 <= i < 6 ==> HTTPS[i] != '/';
    assert forall i :: 0 <= i < 5 ==> HTTP[i] != '/';
    assert HTTPS[6] == HTTPS[7] == '/' && HTTP[5] == HTTP[6] == '/';
  }

  lemma MirrorURLHasNoScheme(mirror: Url, imagePath: string)
    requires '/' !in mirror.host && IsImagePath(imagePath)
    ensures var u := MirrorURL(mirror, imagePath); !HasScheme(u.host + u.path + u.query)
  {
    MirrorPathSegments(mirror.path, imagePath);
    var u := MirrorURL(mirror, imagePath);
    hide MirrorPath, IsImagePath, HasScheme;
    var rest := u.path + u.query;
    assert rest[0] == '/' && rest[1] == u.path[1] != '/';
    NoSchemeBeforeSlash(u.host, rest);
    assert u.host + (u.path + u.query) == u.host + u.path + u.query;
  }

  lemma JoinedNameParses(mirror: Url, imagePath: string)
    requires Parsed(mirror) && mirror.host != ""
    requires IsImagePath(imagePath) && AllSupported(imagePath) && '?' !in imagePath
    ensures ParsePotentiallySchemelessURL(Name(JoinPath(mirror, imagePath))) == Some(MirrorURL(mirror, imagePath))
  {
    var u := MirrorURL(mirror, imagePath);
    MirrorURLIsParsed(mirror, imagePath);
    MirrorURLHasNoScheme(mirror, imagePath);
    JoinedName(mirror, imagePath);
    assert u == Url(mirror.host, MirrorPath(mirror.path, imagePath), mirror.query);
    hide *;
    SchemelessParses(u);
  }

  /** The image name the mirror is asked for parses to the mirror's host and the joined path. */
  lemma MirrorImageParses(endpoint: string, img: string, mirror: Url, image: Url)
    requires ParsePotentiallySchemelessURL(endpoint) == Some(mirror) && mirror.host != ""
    requires ParsePotentiallySchemelessURL(img) == Some(image) && IsImagePath(image.path)
    ensures MirrorImage(endpoint, img).Success?
    ensures ParsePotentiallySchemelessURL(MirrorImage(endpoint, img).value) == Some(MirrorURL(mirror, image.path))
  {
    ParseDeliversParsed(endpoint);
    ParseDeliversParsed(img);
    hide ParsePotentiallySchemelessURL, JoinPath, IsImagePath, HasScheme, Name, MirrorPath;
    JoinedNameParses(mirror, image.path);
  }

  /** A rooted path, as its segments: an empty one, some in the middle, and the last. */
  lemma RootedSegments(path: string, middle: seq<string>, last: string)
    requires "/" <= path
    requires Split(path, '/') == [""] + middle + [last]
    ensures IsTidy(path) <==>
        (forall segment :: segment in middle ==> IsPlain(segment)) && (last == "" || IsPlain(last))
  {
    var segments := Split(path, '/');
    if IsTidy(path) {
      forall segment | segment in middle ensures IsPlain(segment) {
        var i :| 0 <= i < |middle| && middle[i] == segment;
        assert segments[i + 1] == segment;
      }
    }
    assert forall i :: 1 <= i < |segments| - 1 ==> segments[i] == middle[i - 1] && segments[i] in middle;
  }

  /** Dot segments make the cleaned path shorter, so that an image segment stands in their place. */
  lemma DotSegmentIsReplaced(middle: seq<string>, last: string, segments: seq<string>)
    requires forall segment :: segment in middle ==> IsPlain(segment)
    requires segments != [] && forall segment :: segment in segments ==> IsImageSegment(segment)
    requires last == "." || last == ".."
    requires var all := Resolve([""] + middle + [last]) + segments;
             |middle| < |all| && middle == all[..|middle|]
    ensures var all := Resolve([""] + middle + [last]) + segments; !(last <= all[|middle|])
  {
    var front := [""] + middle;
    ResolveAppendsPlain([""], middle);
    ResolveDropsEmpty([]);
    assert [] + [""] == [""];
    assert (front + [last])[..|front|] == front;
    assert Resolve(front) == middle;
    var kept := Resolve(front + [last]);
    var at := |middle| - |kept|;
    assert at < |segments| && (kept + segments)[|middle|] == segments[at];
    assert IsImageSegment(segments[at]);
  }

  lemma TidyIffPrefix(path: string, imagePath: string)
    requires path == "" || "/" <= path
    requires IsImagePath(imagePath)
    ensures path <= MirrorPath(path, imagePath) <==> IsTidy(path)
  {
    var joined := MirrorPath(path, imagePath);
    var segments := Split(imagePath[1..], '/');
    MirrorPathSegments(path, imagePath);
    PrefixBySegments(path, joined);
    hide MirrorPath, IsImageSegment, SegmentPrefix, Resolve;
    if path == "" {
      assert IsTidy(path);
    } else {
      assert path == ['/'] + path[1..];
      SplitCons('/', path[1..], '/');
      SplitParts(path, '/');
      TidyIffSegmentPrefix(path, Split(path[1..], '/'), segments);
    }
  }

  lemma TidyIffSegmentPrefix(path: string, rest: seq<string>, segments: seq<string>)
    requires "/" <= path && rest != [] && Split(path, '/') == [""] + rest
    requires forall segment :: segment in [""] + rest ==> '/' !in segment
    requires segments != [] && forall segment :: segment in segments ==> IsImageSegment(segment)
    ensures IsTidy(path) <==> SegmentPrefix([""] + rest, [""] + (Resolve([""] + rest) + segments))
  {
    var middle, last := rest[..|rest| - 1], rest[|rest| - 1];
    assert [""] + rest == [""] + middle + [last];
    hide SegmentPrefix, Resolve, IsImageSegment, IsPlain;
    RootedSegments(path, middle, last);
    if IsTidy(path) {
      TidyIsPrefix(middle, last, segments);
    } else if SegmentPrefix([""] + rest, [""] + (Resolve([""] + rest) + segments)) {
      PrefixIsTidy(middle, last, segments);
    }
  }

  lemma PrefixIsTidy(middle: seq<string>, last: string, segments: seq<string>)
    requires segments != [] && forall segment :: segment in segments ==> IsImageSegment(segment)
    requires forall segment :: segment in [""] + middle + [last] ==> '/' !in segment
    requires SegmentPrefix([""] + middle + [last], [""] + (Resolve([""] + middle + [last]) + segments))
    ensures forall segment :: segment in middle ==> IsPlain(segment)
    ensures last == "" || IsPlain(last)
  {
    var path := [""] + middle + [last];
    var all := Resolve(path) + segments;
    ResolveKeepsPlain(path);
    assert forall i :: 0 <= i < |middle| ==> path[i + 1] == middle[i] && ([""] + all)[i + 1] == all[i];
    assert middle == all[..|middle|];
    forall segment | segment in middle ensures IsPlain(segment) {
      assert segment in all;
      assert segment in segments ==> IsImageSegment(segment);
    }
    assert last <= all[|middle|];
    if last == "." || last == ".." {
      DotSegmentIsReplaced(middle, last, segments);
    }
    assert last in path;
  }

  lemma TidyIsPrefix(middle: seq<string>, last: string, segments: seq<string>)
    requires segments != []
    requires forall segment :: segment in middle ==> IsPlain(segment)
    requires last == "" || IsPlain(last)
    ensures SegmentPrefix([""] + middle + [last], [""] + (Resolve([""] + middle + [last]) + segments))
  {
    var kept := if last == "" then middle else middle + [last];
    ResolveDropsEmpty([]);
    ResolveAppendsPlain([""], kept);
    assert [] + [""] == [""];
    if last == "" {
      ResolveDropsEmpty([""] + middle);
    } else {
      assert [""] + middle + [last] == [""] + kept;
    }
  }

  /**
   * A credential keyed by the endpoint itself, in any of its spellings, matches the mirror's name
   * for the image exactly when the endpoint's path is tidy.
   */
  lemma EndpointMatchesIffTidy(endpoint: string, img: string, mirror: Url, image: Url)
    requires ParsePotentiallySchemelessURL(endpoint) == Some(mirror) && mirror.host != ""
    requires ParsePotentiallySchemelessURL(img) == Some(image) && IsImagePath(image.path)
    ensures MirrorImage(endpoint, img).Success?
    ensures MatchesStr(endpoint, MirrorImage(endpoint, img).value) <==> IsTidy(mirror.path)
  {
    ParseDeliversParsed(endpoint);
    MirrorImageParses(endpoint, img, mirror, image);
    hide ParsePotentiallySchemelessURL, MirrorImage, IsImagePath, MirrorPath, IsTidy, Matches, Resolve, Split;
    TidyIffPrefix(mirror.path, image.path);
    MatchesOnOneHost(mirror, MirrorURL(mirror, image.path));
  }

  /** The name does not depend on the image's host or on how the endpoint's scheme is written. */
  lemma MirrorImageIgnoresHostAndScheme(endpoint: string, img: string, other: string, image: Url, otherImage: Url)
    requires !HasScheme(endpoint) && ParsePotentiallySchemelessURL(endpoint).Some?
    requires ParsePotentiallySchemelessURL(img) == Some(image)
    requires ParsePotentiallySchemelessURL(other) == Some(otherImage) && image.path == otherImage.path
    ensures MirrorImage(endpoint, img).Success?
    ensures MirrorImage(endpoint, img) == MirrorImage(HTTP + endpoint, other) == MirrorImage(HTTPS + endpoint, other)
  {
    SchemeIsIgnored(endpoint);
    hide ParsePotentiallySchemelessURL, HasScheme, JoinPath;
  }
}
