/** Redirects from a backend: the response mapping undoes the request mapping
    (internal/webproxy/location.go, dispatch.go). */
module Locations {
  import opened ProxyPaths
  import opened UrlEscape
  import opened Wrappers

  // ---- Ambiguous paths -----------------------------------------------------

  /** The segments between slashes. */
  function Segments(path: Bytes): (s: seq<Bytes>)
    ensures s != []
  {
    if path == [] then [[]] else Extended(path[0], Segments(path[1..]))
  }

  function Extended(b: Byte, segments: seq<Bytes>): (s: seq<Bytes>)
    requires segments != []
    ensures s != []
  {
    if b == SLASH then [[]] + segments else [[b] + segments[0]] + segments[1..]
  }

  lemma ExtendedConcat(b: Byte, x: seq<Bytes>, y: seq<Bytes>)
    requires x != []
    ensures Extended(b, x + y) == Extended(b, x) + y
  {
    assert (x + y)[0] == x[0] && (x + y)[1..] == x[1..] + y;
  }

  predicate DotSegment(s: Bytes) {
    s == [DOT] || s == [DOT, DOT]
  }

  predicate DoubleSlash(path: Bytes) {
    exists i :: 0 <= i < |path| - 1 && path[i] == SLASH && path[i + 1] == SLASH
  }

  predicate Ambiguous(path: Bytes) {
    || BACKSLASH in path
    || DoubleSlash(path)
    || exists s :: s in Segments(path) && DotSegment(s)
  }

  lemma {:induction false} SegmentsJoin(x: Bytes, y: Bytes)
    ensures Segments(x + [SLASH] + y) == Segments(x) + Segments(y)
  {
    var whole := x + [SLASH] + y;
    if x == [] {
      assert whole[1..] == y;
    } else {
      hide Extended;
      SegmentsJoin(x[1..], y);
      assert whole[1..] == x[1..] + [SLASH] + y;
      ExtendedConcat(x[0], Segments(x[1..]), Segments(y));
    }
  }

  /** A path is unambiguous exactly when both halves at a slash are, and no slash
      meets another one there. */
  lemma AmbiguousJoin(x: Bytes, y: Bytes)
    ensures !Ambiguous(x + [SLASH] + y) <==> !Ambiguous(x) && !Ambiguous(y) && !EndsSlash(x) && !StartsSlash(y)
  {
    var whole := x + [SLASH] + y;
    SegmentsJoin(x, y);
    DoubleSlashJoin(x, y);
    assert BACKSLASH in whole <==> BACKSLASH in x || BACKSLASH in y;
    assert forall s :: s in Segments(whole) <==> s in Segments(x) || s in Segments(y);
  }

  lemma DoubleSlashJoin(x: Bytes, y: Bytes)
    ensures DoubleSlash(x + [SLASH] + y) <==> DoubleSlash(x) || DoubleSlash(y) || EndsSlash(x) || StartsSlash(y)
  {
    var whole := x + [SLASH] + y;
    var n := |x|;
    if DoubleSlash(whole) {
      var i :| 0 <= i < |whole| - 1 && whole[i] == SLASH && whole[i + 1] == SLASH;
      if i > n {
        assert y[i - n - 1] == SLASH && y[i - n - 1 + 1] == SLASH;
      }
    }
    if DoubleSlash(x) {
      var i :| 0 <= i < |x| - 1 && x[i] == SLASH && x[i + 1] == SLASH;
      assert whole[i] == SLASH && whole[i + 1] == SLASH;
    }
    if DoubleSlash(y) {
      var i :| 0 <= i < |y| - 1 && y[i] == SLASH && y[i + 1] == SLASH;
      assert whole[n + 1 + i] == SLASH && whole[n + 1 + i + 1] == SLASH;
    }
    if EndsSlash(x) {
      assert whole[n - 1] == SLASH && whole[n - 1 + 1] == SLASH;
    }
    if StartsSlash(y) {
      assert whole[n] == SLASH && whole[n + 1] == SLASH;
    }
  }

  // ---- The response mapping ------------------------------------------------

  function Base(target: UrlPath): Bytes {
    var base := TrimSlash(target.path);
    if base == [] then [SLASH] else base
  }

  function Relocated(location: UrlPath, target: UrlPath, strip: bool, frontend: Bytes): UrlPath {
    if !strip || !PathMatch(Base(target), location.path) || Ambiguous(location.path) then location
    else Join(UrlPath(Normalized(frontend), []), Stripped(location, Base(target)))
  }

  /** The URL of a Location header, rewritten in place. */
  class Url {
    var path: Bytes
    var rawPath: Bytes

    constructor (u: UrlPath)
      ensures Value() == u
    {
      path, rawPath := u.path, u.rawPath;
    }

    function Value(): UrlPath
      reads this
    {
      UrlPath(path, rawPath)
    }
  }

  method RewriteLocationPath(location: Url, target: UrlPath, strip: bool, frontend: Bytes)
    modifies location
    ensures location.Value() == Relocated(old(location.Value()), target, strip, frontend)
  {
    if !strip {
      return;
    }
    var base := TrimSlash(target.path);
    if base == [] {
      base := [SLASH];
    }
    if !PathMatch(base, location.path) || Ambiguous(location.path) {
      return;
    }
    var stripped := StripFrontendURL(location.Value(), base);
    var joined := Join(UrlPath(Normalized(frontend), []), stripped);
    location.path, location.rawPath := joined.path, joined.rawPath;
  }

  // ---- What is ambiguous, and what lies inside -----------------------------

  /** The text stands in the path at i, at its beginning or behind a slash, and up to its
      end or a slash. */
  predicate StandsAt(path: Bytes, i: int, s: Bytes) {
    && 0 <= i <= i + |s| <= |path| && path[i..i + |s|] == s
    && (i == 0 || path[i - 1] == SLASH) && (i + |s| == |path| || path[i + |s|] == SLASH)
  }

  ghost predicate HasSegment(path: Bytes, s: Bytes) {
    exists i :: StandsAt(path, i, s)
  }

  lemma {:induction false} FirstSegment(path: Bytes, s: Bytes)
    requires SLASH !in s
    ensures s == Segments(path)[0] <==> s <= path && (|path| == |s| || path[|s|] == SLASH)
    decreases |path|
  {
    if path != [] && path[0] != SLASH {
      if s != [] {
        FirstSegment(path[1..], s[1..]);
      }
    }
  }

  lemma {:induction false} SegmentsStand(path: Bytes, s: Bytes)
    requires SLASH !in s
    ensures s in Segments(path)[1..] <==> HasLaterSegment(path, s)
    ensures s in Segments(path) <==> HasSegment(path, s)
    decreases |path|
  {
    hide HasLaterSegment, HasSegment, Segments, StandsAt;
    FirstSegment(path, s);
    AtTheBeginning(path, s);
    if path == [] {
      NothingLater(s);
    } else {
      SegmentsStand(path[1..], s);
      LaterOn(path, s);
      LaterSegments(path, s);
    }
  }

  lemma NothingLater(s: Bytes)
    ensures Segments([]) == [[]] && !HasLaterSegment([], s)
  {
  }

  /** Behind the beginning of the path. */
  ghost predicate HasLaterSegment(path: Bytes, s: Bytes) {
    exists i :: i > 0 && StandsAt(path, i, s)
  }

  lemma AtTheBeginning(path: Bytes, s: Bytes)
    requires SLASH !in s
    ensures HasSegment(path, s) <==> (s <= path && (|path| == |s| || path[|s|] == SLASH)) || HasLaterSegment(path, s)
  {
    if s <= path && (|path| == |s| || path[|s|] == SLASH) {
      assert StandsAt(path, 0, s);
    }
  }

  lemma Shifted(path: Bytes, i: int, s: Bytes)
    requires path != [] && i > 0
    ensures StandsAt(path, i, s) <==> StandsAt(path[1..], i - 1, s) && (i == 1 ==> path[0] == SLASH)
  {
    if i + |s| <= |path| {
      assert path[i..i + |s|] == path[1..][i - 1..i - 1 + |s|];
    }
  }

  lemma LaterOn(path: Bytes, s: Bytes)
    requires path != [] && SLASH !in s
    ensures HasLaterSegment(path, s)
            <==> if path[0] == SLASH then HasSegment(path[1..], s) else HasLaterSegment(path[1..], s)
  {
    hide StandsAt;
    var rest := path[1..];
    if i :| i > 0 && StandsAt(path, i, s) {
      Shifted(path, i, s);
      NotBefore(rest, i - 1, s);
    }
    if i :| StandsAt(rest, i, s) && (path[0] == SLASH || i > 0) {
      NotBefore(rest, i, s);
      Shifted(path, i + 1, s);
    }
  }

  lemma NotBefore(path: Bytes, i: int, s: Bytes)
    requires StandsAt(path, i, s)
    ensures i >= 0
  {
  }

  lemma LaterSegments(path: Bytes, s: Bytes)
    requires path != []
    ensures s in Segments(path)[1..] <==> if path[0] == SLASH then s in Segments(path[1..])
                                          else s in Segments(path[1..])[1..]
    ensures s in Segments(path) <==> s == Segments(path)[0] || s in Segments(path)[1..]
  {
    assert Segments(path) == [Segments(path)[0]] + Segments(path)[1..];
  }

  /** A path is ambiguous exactly when it has a backslash, two slashes in a row, or a dot
      or two dots alone between slashes or ends. */
  lemma AmbiguousExactlyWhen(path: Bytes)
    ensures Ambiguous(path)
            <==> || '\\' as int in path
                 || (exists i :: 0 <= i < |path| - 1 && path[i] == path[i + 1] == '/' as int)
                 || HasSegment(path, ['.' as int]) || HasSegment(path, ['.' as int, '.' as int])
  {
    hide Segments, HasSegment;
    SegmentsStand(path, [DOT]);
    SegmentsStand(path, [DOT, DOT]);
  }

  /** A path lies in the subtree of a prefix exactly when it is the prefix or goes on with
      a slash, the prefix's own or the next one. */
  lemma PathMatchExactlyWhen(prefix: Bytes, path: Bytes)
    requires prefix != [] && prefix != [SLASH]
    ensures PathMatch(prefix, path)
            <==> path == prefix || TrimSlash(prefix) + [SLASH] <= path
  {
    var stem := TrimSlash(prefix) + [SLASH];
    if EndsSlash(prefix) {
      assert stem == prefix;
    } else {
      assert stem == prefix + [SLASH];
    }
  }

  /** What lies in the backend's subtree is moved to the frontend's. */
  lemma RelocatedInside(location: UrlPath, target: UrlPath, frontend: Bytes, prefix: Bytes)
    requires IsPrefixOf(frontend, prefix) && RootedOrEmpty(target.path)
    requires StartsSlash(location.path) && StartsSlash(EscapedPath(location))
    requires PathMatch(Base(target), location.path) && !Ambiguous(location.path)
    ensures Base(target) <= location.path
    ensures var base, out := Base(target), Relocated(location, target, true, frontend);
            && out.path == TrimSlash(prefix) + ([SLASH] + Tail(location.path, base))
            && EscapedPath(out) == TrimSlash(Escape(prefix)) + ([SLASH] + EncodedTail(location, base))
  {
    hide Ambiguous, Unescape, Escape, EscapedPath, Rest, Join, Stripped, EncodedTail, Tail, PathMatch;
    var base := Base(target);
    StrippedShape(location, base);
    var a, s := UrlPath(prefix, []), Stripped(location, base);
    EscapedIsRooted(a);
    UnescapedIsPlain(a);
    JoinShape(a, s);
  }

  /** A redirect is left alone exactly as far as it must be: without stripping, outside the
      backend's subtree, or when its path is ambiguous. Otherwise its path behind the
      backend's comes behind the frontend's prefix, in both forms. */
  lemma RelocatedExactlyWhen(location: UrlPath, target: UrlPath, strip: bool, frontend: Bytes, prefix: Bytes)
    requires IsPrefixOf(frontend, prefix) && RootedOrEmpty(target.path)
    requires StartsSlash(location.path) && StartsSlash(EscapedPath(location))
    ensures var base := if target.path == [] || target.path == [SLASH] then [SLASH] else TrimSlash(target.path);
            var out := Relocated(location, target, strip, frontend);
            var inside := base == [SLASH] || location.path == base || TrimSlash(base) + [SLASH] <= location.path;
            if !strip || !inside || Ambiguous(location.path) then out == location
            else
              && base <= location.path
              && out.path == TrimSlash(prefix) + ([SLASH] + TrimFirstSlash(location.path[|base|..]))
              && EscapedPath(out) == TrimSlash(Escape(prefix)) + ([SLASH] + EncodedTail(location, base))
  {
    hide Ambiguous, Unescape, Escape, EscapedPath, Rest, Join, Stripped, EncodedTail, PathMatch;
    var base := Base(target);
    assert base == if target.path == [] || target.path == [SLASH] then [SLASH] else TrimSlash(target.path);
    RootMatches(location.path);
    if base != [SLASH] {
      PathMatchExactlyWhen(base, location.path);
    }
    if strip && PathMatch(base, location.path) && !Ambiguous(location.path) {
      RelocatedInside(location, target, frontend, prefix);
      assert Tail(location.path, base) == TrimFirstSlash(location.path[|base|..]);
    }
  }

  lemma RootMatches(path: Bytes)
    ensures PathMatch([SLASH], path)
  {
  }

  // ---- Shapes of the mapped paths ------------------------------------------

  /** The slash at the end of the path is a literal one. */
  predicate Plain(a: UrlPath) {
    EndsSlash(a.path) <==> EndsSlash(EscapedPath(a))
  }

  predicate RootedOrEmpty(s: Bytes) {
    s == [] || s[0] == SLASH
  }

  lemma {:induction false} EndsSlashDecodes(s: Bytes)
    requires Unescape(s).Some? && EndsSlash(s)
    ensures EndsSlash(Unescape(s).value) && Unescape(TrimSlash(s)) == Some(TrimSlash(Unescape(s).value))
  {
    var x := TrimSlash(s);
    assert s == x + [SLASH];
    TrimmedDecodes(s);
    assert Unescape([SLASH]) == Some([SLASH]) by {
      SlashDecodes([]);
      assert [SLASH] + [] == [SLASH];
    }
    UnescapeConcat(x, [SLASH]);
  }

  /** No escape sequence ends in a slash, so it can be cut off. */
  lemma {:induction false} TrimmedDecodes(s: Bytes)
    requires Unescape(s).Some? && EndsSlash(s)
    ensures Unescape(s[..|s| - 1]).Some?
  {
    var n := Unit(s);
    if |s| > n {
      TrimmedDecodes(s[n..]);
      assert s[..|s| - 1][n..] == s[n..][..|s[n..]| - 1];
    } else {
      assert n == 1;
      assert s[..0] == [];
    }
  }

  lemma EscapeTrim(s: Bytes)
    ensures TrimSlash(Escape(s)) == Escape(TrimSlash(s)) && (EndsSlash(s) <==> EndsSlash(Escape(s)))
  {
    hide Unescape, Unreserved;
    EscapeDecodes(s);
    if EndsSlash(s) {
      assert s == s[..|s| - 1] + [SLASH];
      EscapeConcat(s[..|s| - 1], [SLASH]);
      assert Escape([SLASH]) == EscapeByte(SLASH) + Escape([]) == [SLASH];
    } else if EndsSlash(Escape(s)) {
      EndsSlashDecodes(Escape(s));
    }
  }

  lemma EscapedIsRooted(u: UrlPath)
    requires StartsSlash(u.path) && u.rawPath == []
    ensures EscapedPath(u) == Escape(u.path) && StartsSlash(EscapedPath(u))
  {
  }

  lemma EscapedSlashDecodes(u: UrlPath)
    requires EndsSlash(EscapedPath(u))
    ensures EndsSlash(u.path)
  {
    EscapedPathDecodes(u);
    EndsSlashDecodes(EscapedPath(u));
  }

  lemma UnescapedIsPlain(a: UrlPath)
    requires a.rawPath == [] && RootedOrEmpty(a.path)
    ensures Plain(a)
  {
    EscapeTrim(a.path);
  }

  /** Joining behind a plain path puts exactly one slash in between, in both forms. */
  lemma JoinShape(a: UrlPath, s: UrlPath)
    requires RootedOrEmpty(a.path) && StartsSlash(s.path) && StartsSlash(EscapedPath(s))
    requires Plain(a)
    ensures Join(a, s).path == TrimSlash(a.path) + s.path
    ensures EscapedPath(Join(a, s)) == TrimSlash(EscapedPath(a)) + EscapedPath(s)
  {
    hide Unescape, ValidEncoded, Escape;
    if a.rawPath == [] && s.rawPath == [] {
      JoinShapeUnescaped(a, s);
    } else {
      JoinIsCoherent(a, s);
      SlashBetween(a.path, s.path);
      SlashBetween(EscapedPath(a), EscapedPath(s));
    }
  }

  lemma SlashBetween(x: Bytes, y: Bytes)
    requires StartsSlash(y)
    ensures Joined(x, y, EndsSlash(x), true) == TrimSlash(x) + y
  {
    if EndsSlash(x) {
      assert x + y[1..] == x[..|x| - 1] + y;
    }
  }

  lemma JoinShapeUnescaped(a: UrlPath, s: UrlPath)
    requires RootedOrEmpty(a.path) && StartsSlash(s.path) && a.rawPath == [] && s.rawPath == []
    ensures Join(a, s).path == TrimSlash(a.path) + s.path
    ensures EscapedPath(Join(a, s)) == TrimSlash(EscapedPath(a)) + EscapedPath(s)
  {
    SlashBetween(a.path, s.path);
    EscapeConcat(TrimSlash(a.path), s.path);
    EscapeTrim(a.path);
    assert EscapedPath(a) == Escape(a.path) && EscapedPath(s) == Escape(s.path);
    var p := TrimSlash(a.path) + s.path;
    assert StartsSlash(p);
  }

  /** A stripped request: a slash and the tail, in both forms. */
  lemma StrippedShape(u: UrlPath, prefix: Bytes)
    requires StartsSlash(u.path) && StartsSlash(EscapedPath(u)) && !Ambiguous(u.path)
    requires StartsSlash(prefix) && PathMatch(prefix, u.path)
    ensures prefix <= u.path
    ensures Stripped(u, prefix).path == [SLASH] + Tail(u.path, prefix)
    ensures EscapedPath(Stripped(u, prefix)) == [SLASH] + EncodedTail(u, prefix)
  {
    hide Unescape, Ambiguous, EscapedPath, Rest;
    if prefix == [SLASH] {
      RootShape(u);
    } else {
      StripIsCoherent(u, prefix, prefix);
    }
  }

  lemma RootShape(u: UrlPath)
    requires StartsSlash(u.path) && StartsSlash(EscapedPath(u)) && !Ambiguous(u.path)
    ensures u.path == [SLASH] + Tail(u.path, [SLASH])
    ensures EscapedPath(u) == [SLASH] + EncodedTail(u, [SLASH])
  {
    hide Unescape, Ambiguous, EscapedPath, Segments;
    assert u.path == [] + [SLASH] + u.path[1..];
    AmbiguousJoin([], u.path[1..]);
    RestOfSlash(EscapedPath(u));
  }

  lemma RestOfSlash(raw: Bytes)
    requires StartsSlash(raw)
    ensures Rest(raw, 1) == raw[1..] && raw == [SLASH] + raw[1..]
  {
    assert Rest(raw[1..], 0) == raw[1..];
  }

  // ---- Round trip ----------------------------------------------------------

  /** A request path and a backend path as they reach the mapping. */
  predicate Routable(u: UrlPath, target: UrlPath, frontend: Bytes) {
    && StartsSlash(u.path) && StartsSlash(EscapedPath(u)) && !Ambiguous(u.path)
    && PathMatch(Normalized(frontend), u.path)
    && RootedOrEmpty(target.path) && RootedOrEmpty(EscapedPath(target)) && !Ambiguous(target.path)
  }

  lemma NormalizedTwice(u: UrlPath, frontend: Bytes)
    ensures Stripped(u, Normalized(frontend)) == Stripped(u, frontend)
  {
  }

  lemma SentShape(u: UrlPath, target: UrlPath, frontend: Bytes)
    requires Routable(u, target, frontend) && Plain(target)
    ensures Normalized(frontend) <= u.path
    ensures Sent(target, u, frontend).path == TrimSlash(target.path) + [SLASH] + Tail(u.path, Normalized(frontend))
    ensures EscapedPath(Sent(target, u, frontend))
            == TrimSlash(EscapedPath(target)) + [SLASH] + EncodedTail(u, Normalized(frontend))
  {
    hide EscapedPath, Ambiguous, EncodedTail, Tail, Join, Stripped, TrimSlash;
    var prefix := Normalized(frontend);
    StrippedShape(u, prefix);
    var s := Stripped(u, prefix);
    NormalizedTwice(u, frontend);
    JoinShape(target, s);
    assert TrimSlash(target.path) + ([SLASH] + Tail(u.path, prefix))
        == TrimSlash(target.path) + [SLASH] + Tail(u.path, prefix);
    assert TrimSlash(EscapedPath(target)) + ([SLASH] + EncodedTail(u, prefix))
        == TrimSlash(EscapedPath(target)) + [SLASH] + EncodedTail(u, prefix);
  }

  /** The tail of an unambiguous path is unambiguous, and the prefix, a slash and the
      tail make up the path, a bare prefix aside. */
  lemma TailOfPath(path: Bytes, prefix: Bytes)
    requires StartsSlash(path) && !Ambiguous(path) && StartsSlash(prefix) && PathMatch(prefix, path)
    ensures prefix <= path && !Ambiguous(Tail(path, prefix)) && !StartsSlash(Tail(path, prefix))
    ensures TrimSlash(prefix) + [SLASH] + Tail(path, prefix)
            == if path == prefix && !EndsSlash(prefix) then prefix + [SLASH] else path
  {
    var tail := path[|prefix|..];
    if prefix == [SLASH] {
      assert path == [] + [SLASH] + path[1..];
      AmbiguousJoin([], path[1..]);
    } else if EndsSlash(prefix) {
      assert path == TrimSlash(prefix) + [SLASH] + tail;
      AmbiguousJoin(TrimSlash(prefix), tail);
    } else if path == prefix {
      assert Segments([]) == [[]];
    } else {
      assert path == prefix + [SLASH] + tail[1..];
      AmbiguousJoin(prefix, tail[1..]);
    }
  }

  lemma SentIsUnambiguous(u: UrlPath, target: UrlPath, frontend: Bytes)
    requires Routable(u, target, frontend) && Plain(target)
    ensures !Ambiguous(Sent(target, u, frontend).path)
  {
    var prefix := Normalized(frontend);
    SentShape(u, target, frontend);
    TailOfPath(u.path, prefix);
    TrimmedIsUnambiguous(target.path);
    AmbiguousJoin(TrimSlash(target.path), Tail(u.path, prefix));
  }

  lemma TrimmedIsUnambiguous(path: Bytes)
    requires !Ambiguous(path)
    ensures !Ambiguous(TrimSlash(path)) && !EndsSlash(TrimSlash(path))
  {
    if EndsSlash(path) {
      assert path == TrimSlash(path) + [SLASH] + [];
      AmbiguousJoin(TrimSlash(path), []);
    }
  }

  lemma BaseMatches(path: Bytes, target: UrlPath, tail: Bytes)
    requires path == TrimSlash(target.path) + [SLASH] + tail && !StartsSlash(tail)
    ensures var base := Base(target);
            && PathMatch(base, path) && base <= path && Tail(path, base) == tail
            && |base| + (if StartsSlash(path[|base|..]) then 1 else 0) == |TrimSlash(target.path)| + 1
  {
    var b := TrimSlash(target.path);
    if b == [] {
      assert path == [SLASH] + tail;
      assert path[1..] == tail;
    } else {
      assert path[..|b|] == b && path[|b|..] == [SLASH] + tail;
    }
  }

  /** Stripping the backend's base gives the tail back, in both forms. */
  lemma BaseStripped(location: UrlPath, target: UrlPath, tail: Bytes, encoded: Bytes)
    requires RootedOrEmpty(target.path) && RootedOrEmpty(EscapedPath(target)) && Plain(target)
    requires location.path == TrimSlash(target.path) + [SLASH] + tail && !Ambiguous(location.path)
    requires EscapedPath(location) == TrimSlash(EscapedPath(target)) + [SLASH] + encoded
    ensures PathMatch(Base(target), location.path)
    ensures Stripped(location, Base(target)).path == [SLASH] + tail
    ensures EscapedPath(Stripped(location, Base(target))) == [SLASH] + encoded
  {
    hide Ambiguous, Unescape, Escape, EscapedPath, Tail, PathMatch, Stripped, Rest, Plain;
    AmbiguousJoin(TrimSlash(target.path), tail);
    BaseMatches(location.path, target, tail);
    StrippedShape(location, Base(target));
    BaseSlash(target);
    RestOfConcat(TrimSlash(EscapedPath(target)) + [SLASH], encoded);
  }

  lemma BaseSlash(target: UrlPath)
    requires Plain(target)
    ensures Unescape(TrimSlash(EscapedPath(target)) + [SLASH]) == Some(TrimSlash(target.path) + [SLASH])
  {
    EscapedPathDecodes(target);
    var x := TrimSlash(EscapedPath(target));
    if EndsSlash(EscapedPath(target)) {
      EndsSlashDecodes(EscapedPath(target));
    }
    assert Unescape([SLASH]) == Some([SLASH]) by {
      SlashDecodes([]);
      assert [SLASH] + [] == [SLASH];
    }
    UnescapeConcat(x, [SLASH]);
  }

  /** What a location with the path that was sent is rewritten to. */
  lemma RelocatedShape(location: UrlPath, u: UrlPath, target: UrlPath, frontend: Bytes)
    requires Routable(u, target, frontend) && Plain(target)
    requires location.path == Sent(target, u, frontend).path
    requires EscapedPath(location) == EscapedPath(Sent(target, u, frontend))
    ensures Normalized(frontend) <= u.path
    ensures var prefix, out := Normalized(frontend), Relocated(location, target, true, frontend);
            && out.path == TrimSlash(prefix) + [SLASH] + Tail(u.path, prefix)
            && EscapedPath(out) == TrimSlash(Escape(prefix)) + [SLASH] + EncodedTail(u, prefix)
  {
    hide Ambiguous, Unescape, Escape, EscapedPath, Tail, EncodedTail, PathMatch, Join, Stripped, TrimSlash, Base, Plain;
    var prefix := Normalized(frontend);
    SentShape(u, target, frontend);
    SentIsUnambiguous(u, target, frontend);
    var tail, encoded := Tail(u.path, prefix), EncodedTail(u, prefix);
    BaseStripped(location, target, tail, encoded);
    var front := UrlPath(prefix, []);
    UnescapedIsPlain(front);
    EscapedIsRooted(front);
    assert EscapedPath(front) == Escape(prefix);
    JoinShape(front, Stripped(location, Base(target)));
    assert TrimSlash(prefix) + ([SLASH] + tail) == TrimSlash(prefix) + [SLASH] + tail;
    assert TrimSlash(Escape(prefix)) + ([SLASH] + encoded) == TrimSlash(Escape(prefix)) + [SLASH] + encoded;
  }

  /** The public path of a request; a bare prefix regains its slash. */
  function Public(path: Bytes, prefix: Bytes): Bytes {
    if path == prefix && !EndsSlash(prefix) then prefix + [SLASH] else path
  }

  lemma NotPlainJoin(target: UrlPath, s: UrlPath)
    requires !Plain(target) && RootedOrEmpty(target.path) && StartsSlash(s.path) && StartsSlash(EscapedPath(s))
    ensures Join(target, s).path == target.path + s.path && EndsSlash(target.path)
  {
    if EndsSlash(EscapedPath(target)) {
      EscapedSlashDecodes(target);
    }
    if target.rawPath == [] {
      UnescapedIsPlain(target);
    }
  }

  lemma NotPlainIsLeftAlone(location: UrlPath, u: UrlPath, target: UrlPath, frontend: Bytes)
    requires Routable(u, target, frontend) && !Plain(target)
    requires location.path == Sent(target, u, frontend).path
    ensures Ambiguous(location.path) && Relocated(location, target, true, frontend) == location
  {
    hide Ambiguous, Unescape, Escape, EscapedPath, Tail, EncodedTail, PathMatch, Join, Plain, Base;
    var prefix := Normalized(frontend);
    StrippedShape(u, prefix);
    var s := Stripped(u, prefix);
    assert s == Stripped(u, frontend);
    NotPlainJoin(target, s);
    assert s.path == [SLASH] + s.path[1..];
    assert location.path == target.path + [SLASH] + s.path[1..];
    AmbiguousJoin(target.path, s.path[1..]);
  }

  /** What is sent is unambiguous exactly when the backend path does not end in an
      encoded slash. */
  lemma SentIsUnambiguousExactlyWhen(u: UrlPath, target: UrlPath, frontend: Bytes)
    requires Routable(u, target, frontend)
    ensures !Ambiguous(Sent(target, u, frontend).path) <==> Plain(target)
  {
    hide *;
    if Plain(target) {
      SentIsUnambiguous(u, target, frontend);
    } else {
      NotPlainIsLeftAlone(Sent(target, u, frontend), u, target, frontend);
    }
  }

  /** Main result 3. A redirect to the path a request was sent under leads back to the
      path the request came in under, with the same bytes behind the prefix; this is
      so exactly when the backend path does not end in an encoded slash. */
  lemma LocationRoundTrip(location: UrlPath, u: UrlPath, target: UrlPath, frontend: Bytes)
    requires Routable(u, target, frontend)
    requires location.path == Sent(target, u, frontend).path
    requires EscapedPath(location) == EscapedPath(Sent(target, u, frontend))
    ensures Normalized(frontend) <= u.path
    ensures var prefix, out := Normalized(frontend), Relocated(location, target, true, frontend);
            && (out.path == Public(u.path, prefix) <==> Plain(target))
            && (Plain(target) ==> EscapedPath(out) == TrimSlash(Escape(prefix)) + [SLASH] + EncodedTail(u, prefix))
  {
    hide Ambiguous, Unescape, Escape, EscapedPath, Tail, EncodedTail, PathMatch, Join, Stripped, Relocated;
    var prefix := Normalized(frontend);
    TailOfPath(u.path, prefix);
    PublicIsUnambiguous(u.path, prefix);
    if Plain(target) {
      RelocatedShape(location, u, target, frontend);
    } else {
      NotPlainIsLeftAlone(location, u, target, frontend);
    }
  }

  lemma PublicIsUnambiguous(path: Bytes, prefix: Bytes)
    requires StartsSlash(path) && !Ambiguous(path) && StartsSlash(prefix) && PathMatch(prefix, path)
    ensures !Ambiguous(Public(path, prefix))
  {
    if path == prefix && !EndsSlash(prefix) {
      assert Segments([]) == [[]];
      assert prefix + [SLASH] == prefix + [SLASH] + [];
      AmbiguousJoin(prefix, []);
    }
  }

  // ---- A backend path that ends in an encoded slash ------------------------

  /** The path of the backend URL "http://h/x%2F". */
  const ENCODED_END: UrlPath := UrlPath([SLASH, 120, SLASH], [SLASH, 120, PERCENT, 50, 70])

  /** A request for "/a". */
  const SHORT: UrlPath := UrlPath([SLASH, 97], [])

  lemma LetterDecodes(b: Byte, s: Bytes)
    requires b != PERCENT && Unescape(s).Some?
    ensures Unescape([b] + s) == Some([b] + Unescape(s).value)
  {
    assert ([b] + s)[1..] == s;
  }

  lemma EncodedSlashDecodes()
    ensures Unescape([PERCENT, 50, 70]) == Some([SLASH])
  {
    var s: Bytes := [PERCENT, 50, 70];
    assert DecodeUnit(s) == Some(SLASH) && Unit(s) == 3;
    assert s[3..] == [] && Unescape([]) == Some([]);
    assert [SLASH] + [] == [SLASH];
  }

  lemma EncodedEndKeepsItsForm()
    ensures EscapedPath(ENCODED_END) == ENCODED_END.rawPath
  {
    hide Unescape;
    EncodedSlashDecodes();
    LetterDecodes(120, [PERCENT, 50, 70]);
    LetterDecodes(SLASH, [120] + [PERCENT, 50, 70]);
    assert ENCODED_END.rawPath == [SLASH] + ([120] + [PERCENT, 50, 70]);
    assert ENCODED_END.path == [SLASH] + ([120] + [SLASH]);
  }

  lemma ShortKeepsItsForm()
    ensures EscapedPath(SHORT) == SHORT.path
  {
    assert [97][1..] == [] && Escape([97]) == [97];
    assert SHORT.path[1..] == [97];
  }

  lemma LetterIsUnambiguous(b: Byte)
    requires b !in [SLASH, BACKSLASH, DOT]
    ensures !Ambiguous([b])
  {
    assert [b][1..] == [] && Segments([]) == [[]];
    assert Segments([b]) == Extended(b, [[]]);
    assert [b] + [] == [b];
  }

  lemma BothAreUnambiguous()
    ensures !Ambiguous(SHORT.path) && !Ambiguous(ENCODED_END.path)
  {
    hide Ambiguous;
    LetterIsUnambiguous(97);
    LetterIsUnambiguous(120);
    EmptyIsUnambiguous();
    AmbiguousJoin([], [97]);
    AmbiguousJoin([120], []);
    AmbiguousJoin([], [120, SLASH]);
    assert [] + [SLASH] + [97] == SHORT.path && [120] + [SLASH] + [] == [120, SLASH];
    assert [] + [SLASH] + [120, SLASH] == ENCODED_END.path;
  }

  lemma EmptyIsUnambiguous()
    ensures !Ambiguous([])
  {
    assert Segments([]) == [[]];
  }

  /** Behind a backend path that ends in an encoded slash, the request for "/a" is
      sent as "/x%2F/a", and a redirect to where it was sent keeps that path. */
  lemma EncodedEndIsNotUndone()
    ensures Routable(SHORT, ENCODED_END, [SLASH]) && !Plain(ENCODED_END)
    ensures var sent := Sent(ENCODED_END, SHORT, [SLASH]);
            && sent == UrlPath([SLASH, 120, SLASH, SLASH, 97], [SLASH, 120, PERCENT, 50, 70, SLASH, 97])
            && Relocated(sent, ENCODED_END, true, [SLASH]) == sent && sent.path != Public(SHORT.path, [SLASH])
  {
    hide Ambiguous, Escape, EscapedPath, Unescape;
    EncodedEndKeepsItsForm();
    ShortKeepsItsForm();
    BothAreUnambiguous();
    NotPlainIsLeftAlone(Sent(ENCODED_END, SHORT, [SLASH]), SHORT, ENCODED_END, [SLASH]);
  }
}
