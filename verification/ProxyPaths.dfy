/** The path a request takes to a backend and the way back in a redirect
    (internal/webproxy/reverse.go, location.go, dispatch.go, advanced.go). */
module ProxyPaths {
  import opened UrlEscape
  import opened Wrappers

  predicate StartsSlash(s: Bytes) {
    s != [] && s[0] == SLASH
  }

  predicate EndsSlash(s: Bytes) {
    s != [] && s[|s| - 1] == SLASH
  }

  function TrimSlash(s: Bytes): Bytes {
    if EndsSlash(s) then s[..|s| - 1] else s
  }

  function Normalized(prefix: Bytes): Bytes {
    if prefix == [] then [SLASH] else if !StartsSlash(prefix) then [SLASH] + prefix else prefix
  }

  /** A prefix match that ends on a segment boundary. */
  predicate PathMatch(prefix: Bytes, path: Bytes) {
    || prefix == [] || prefix == [SLASH]
    || (prefix <= path && (|path| == |prefix| || EndsSlash(prefix) || path[|prefix|] == SLASH))
  }

  // ---- Stripping the frontend prefix ---------------------------------------

  /** What follows the prefix and the slash at its end, decoded. */
  function Tail(path: Bytes, prefix: Bytes): Bytes
    requires prefix <= path
  {
    var tail := path[|prefix|..];
    if StartsSlash(tail) then tail[1..] else tail
  }

  /** The same in the encoding it came in. */
  function EncodedTail(u: UrlPath, prefix: Bytes): Bytes
    requires prefix <= u.path
  {
    Rest(EscapedPath(u), |prefix| + if StartsSlash(u.path[|prefix|..]) then 1 else 0)
  }

  function Stripped(u: UrlPath, frontend: Bytes): UrlPath {
    var prefix := Normalized(frontend);
    if prefix == [SLASH] || !(prefix <= u.path) then u
    else UrlPath([SLASH] + Tail(u.path, prefix), [SLASH] + EncodedTail(u, prefix))
  }

  /** The loop of `stripFrontendURL`: it walks the encoded path one decoded byte at a
      time and never leaves it. */
  method SkipDecoded(raw: Bytes, path: Bytes, count: nat) returns (offset: nat)
    requires Unescape(raw) == Some(path) && count <= |path|
    ensures offset <= |raw| && raw[offset..] == Rest(raw, count)
  {
    hide Rest, Unescape;
    offset := 0;
    RestNothing(raw);
    for n := 0 to count
      invariant offset <= |raw| && raw[offset..] == Rest(raw, n)
      invariant Unescape(raw[offset..]) == Some(path[n..])
    {
      RestNext(raw, path, offset, n);
      var width := if raw[offset] == PERCENT then 3 else 1;
      offset := offset + width;
    }
  }

  lemma RestNothing(raw: Bytes)
    ensures raw[0..] == raw == Rest(raw, 0)
  {
  }

  lemma RestNext(raw: Bytes, path: Bytes, offset: nat, n: nat)
    requires offset <= |raw| && raw[offset..] == Rest(raw, n)
    requires n < |path| && Unescape(raw[offset..]) == Some(path[n..])
    ensures offset < |raw|
    ensures var width := if raw[offset] == PERCENT then 3 else 1;
            && offset + width <= |raw| && raw[offset + width..] == Rest(raw, n + 1)
            && Unescape(raw[offset + width..]) == Some(path[n + 1..])
  {
    assert raw[offset..] != [] && raw[offset..][0] == raw[offset];
    var width := if raw[offset] == PERCENT then 3 else 1;
    RestStep(raw[offset..]);
    RestAdds(raw, n, 1);
    assert path[n..][1..] == path[n + 1..];
    assert raw[offset..][width..] == raw[offset + width..];
  }

  /** `stripFrontendURL`, and the same as an expression. */
  method StripFrontendURL(u: UrlPath, frontend: Bytes) returns (out: UrlPath)
    ensures out == Stripped(u, frontend)
  {
    hide Rest, Unescape, Normalized, EscapedPath;
    var prefix := Normalized(frontend);
    out := u;
    if prefix == [SLASH] || !(prefix <= u.path) {
      return;
    }
    var raw := EscapedPath(u);
    EscapedPathDecodes(u);
    var offset := SkipDecoded(raw, u.path, |prefix|);
    var path, rawPath := u.path[|prefix|..], raw[offset..];
    BoundarySlash(u, prefix);
    if StartsSlash(path) && !StartsSlash(rawPath) {
      rawPath := [SLASH] + rawPath[3..];
    }
    if !StartsSlash(path) {
      path := [SLASH] + path;
      rawPath := [SLASH] + rawPath;
    }
    out := UrlPath(path, rawPath);
  }

  /** The boundary slash may have come in encoded. */
  lemma BoundarySlash(u: UrlPath, prefix: Bytes)
    requires prefix <= u.path
    ensures var rest := Rest(EscapedPath(u), |prefix|);
            if StartsSlash(u.path[|prefix|..]) then
              && rest != []
              && EncodedTail(u, prefix)
                 == (if StartsSlash(rest) then rest[1..] else if |rest| >= 3 then rest[3..] else [])
              && (!StartsSlash(rest) ==> |rest| >= 3)
            else EncodedTail(u, prefix) == rest
  {
    hide Rest, Unescape, EscapedPath;
    var raw := EscapedPath(u);
    EscapedPathDecodes(u);
    RestDecodes(raw, |prefix|);
    RestAdds(raw, |prefix|, 1);
    if StartsSlash(u.path[|prefix|..]) {
      RestStep(Rest(raw, |prefix|));
    }
  }

  /** The prefix of a frontend: rooted, and a slash when there is none. */
  predicate IsPrefixOf(frontend: Bytes, prefix: Bytes) {
    prefix == if frontend == [] then [SLASH] else if frontend[0] == SLASH then frontend else [SLASH] + frontend
  }

  function TrimFirstSlash(s: Bytes): Bytes {
    if StartsSlash(s) then s[1..] else s
  }

  lemma StrippedTails(u: UrlPath, frontend: Bytes, prefix: Bytes)
    requires IsPrefixOf(frontend, prefix) && prefix != [SLASH] && prefix <= u.path
    ensures Stripped(u, frontend) == UrlPath([SLASH] + Tail(u.path, prefix), [SLASH] + EncodedTail(u, prefix))
    ensures Tail(u.path, prefix) == TrimFirstSlash(u.path[|prefix|..])
  {
    hide Unescape, EscapedPath, EncodedTail;
  }

  /** Main result 1. A URL under the prefix is stripped of exactly that, and what is left
      is rooted; a URL elsewhere stays. The stripped URL is coherent: its raw path decodes
      to its path, and behind the boundary slash it has the bytes that came in. */
  lemma StripIsCoherent(u: UrlPath, frontend: Bytes, prefix: Bytes)
    requires IsPrefixOf(frontend, prefix)
    ensures var out := Stripped(u, frontend);
            if prefix == [SLASH] || !(prefix <= u.path) then out == u
            else
              && StartsSlash(out.path) && StartsSlash(out.rawPath)
              && (u.path == prefix + out.path || (u.path == prefix + out.path[1..] && !StartsSlash(out.path[1..])))
              && Unescape(out.rawPath) == Some(out.path) && EscapedPath(out) == out.rawPath
              && |out.rawPath[1..]| <= |EscapedPath(u)|
              && EscapedPath(u)[|EscapedPath(u)| - |out.rawPath[1..]|..] == out.rawPath[1..]
  {
    hide Unescape, EscapedPath, Rest, EncodedTail, Tail;
    if prefix != [SLASH] && prefix <= u.path {
      StrippedTails(u, frontend, prefix);
      StrippedOnce(u.path, prefix);
      EncodedTailDecodes(u, prefix);
      SlashDecodes(EncodedTail(u, prefix));
      RawIsKept(Stripped(u, frontend));
    }
  }

  lemma StrippedOnce(path: Bytes, prefix: Bytes)
    requires prefix <= path
    ensures var tail := TrimFirstSlash(path[|prefix|..]);
            path == prefix + ([SLASH] + tail) || (path == prefix + tail && !StartsSlash(tail))
  {
  }

  lemma RawIsKept(u: UrlPath)
    requires u.rawPath != [] && ValidEncoded(u.rawPath) && Unescape(u.rawPath) == Some(u.path)
    ensures EscapedPath(u) == u.rawPath
  {
  }

  lemma EncodedTailDecodes(u: UrlPath, prefix: Bytes)
    requires prefix <= u.path
    ensures var rest := EncodedTail(u, prefix);
            && Unescape(rest) == Some(Tail(u.path, prefix)) && ValidEncoded(rest)
            && |rest| <= |EscapedPath(u)| && EscapedPath(u)[|EscapedPath(u)| - |rest|..] == rest
  {
    var n := |prefix| + if StartsSlash(u.path[|prefix|..]) then 1 else 0;
    EscapedPathDecodes(u);
    RestDecodes(EscapedPath(u), n);
    assert u.path[n..] == Tail(u.path, prefix);
  }

  lemma SlashDecodes(s: Bytes)
    requires Unescape(s).Some?
    ensures Unescape([SLASH] + s) == Some([SLASH] + Unescape(s).value)
  {
    assert ([SLASH] + s)[1..] == s;
  }

  // ---- Joining with the backend path ---------------------------------------

  function Join(a: UrlPath, b: UrlPath): UrlPath {
    if a.rawPath == [] && b.rawPath == [] then
      UrlPath(Joined(a.path, b.path, EndsSlash(a.path), StartsSlash(b.path)), [])
    else
      var aPath, bPath := EscapedPath(a), EscapedPath(b);
      var aSlash, bSlash := EndsSlash(aPath), StartsSlash(bPath);
      EscapedPathDecodes(b);
      UrlPath(Joined(a.path, b.path, aSlash, bSlash), Joined(aPath, bPath, aSlash, bSlash))
  }

  function Joined(a: Bytes, b: Bytes, aSlash: bool, bSlash: bool): Bytes
    requires bSlash ==> b != []
  {
    if aSlash && bSlash then a + b[1..]
    else if !aSlash && !bSlash then a + [SLASH] + b
    else a + b
  }

  /** Main result 2. A join puts exactly one slash between its parts, in the form that is
      sent; what comes out is coherent, and its raw path is sent as it is. */
  lemma JoinIsCoherent(a: UrlPath, b: UrlPath)
    ensures var out := Join(a, b);
            && (out.rawPath != [] ==> Unescape(out.rawPath) == Some(out.path) && EscapedPath(out) == out.rawPath)
            && (if a.rawPath == [] && b.rawPath == []
                then out == UrlPath(TrimSlash(a.path) + [SLASH] + TrimFirstSlash(b.path), [])
                else out.rawPath == TrimSlash(EscapedPath(a)) + [SLASH] + TrimFirstSlash(EscapedPath(b)))
  {
    hide Unescape, EscapedPath;
    EscapedPathDecodes(a);
    EscapedPathDecodes(b);
    JoinedDecodes(EscapedPath(a), EscapedPath(b));
    OneSlash(a.path, b.path);
    OneSlash(EscapedPath(a), EscapedPath(b));
    if Join(a, b).rawPath != [] {
      RawIsKept(Join(a, b));
    }
  }

  lemma OneSlash(x: Bytes, y: Bytes)
    ensures Joined(x, y, EndsSlash(x), StartsSlash(y)) == TrimSlash(x) + [SLASH] + TrimFirstSlash(y)
  {
  }

  lemma JoinedDecodes(x: Bytes, y: Bytes)
    requires Unescape(x).Some? && Unescape(y).Some? && ValidEncoded(x) && ValidEncoded(y)
    ensures StartsSlash(y) ==> StartsSlash(Unescape(y).value)
    ensures Unescape(Joined(x, y, EndsSlash(x), StartsSlash(y)))
            == Some(Joined(Unescape(x).value, Unescape(y).value, EndsSlash(x), StartsSlash(y)))
    ensures ValidEncoded(Joined(x, y, EndsSlash(x), StartsSlash(y)))
  {
    hide Unescape;
    UnescapeConcat(x, y);
    SlashDecodes(y);
    UnescapeConcat(x, [SLASH] + y);
    assert x + ([SLASH] + y) == x + [SLASH] + y;
    assert Unescape(x).value + ([SLASH] + Unescape(y).value) == Unescape(x).value + [SLASH] + Unescape(y).value;
    if StartsSlash(y) {
      LeadingSlash(y);
      UnescapeConcat(x, y[1..]);
    }
  }

  lemma LeadingSlash(y: Bytes)
    requires StartsSlash(y) && Unescape(y).Some?
    ensures Unescape(y[1..]).Some? && StartsSlash(Unescape(y).value) && Unescape(y).value[1..] == Unescape(y[1..]).value
  {
  }

  /** The path sent to the backend when the frontend prefix is stripped. */
  function Sent(target: UrlPath, u: UrlPath, frontend: Bytes): UrlPath {
    Join(target, Stripped(u, frontend))
  }

  /** `rewrittenURL`: another prefix in place of the frontend's. */
  function Rewritten(u: UrlPath, frontend: Bytes, rewrite: Bytes): UrlPath {
    var stripped, prefix := Stripped(u, frontend), TrimSlash(rewrite);
    UrlPath(prefix + stripped.path, EscapedPath(UrlPath(prefix, [])) + EscapedPath(stripped))
  }

  lemma RewriteShape(u: UrlPath, frontend: Bytes, rewrite: Bytes, prefix: Bytes)
    requires IsPrefixOf(frontend, prefix) && prefix != [SLASH] && prefix <= u.path
    ensures var out := Rewritten(u, frontend, rewrite);
            && out.path == TrimSlash(rewrite) + [SLASH] + TrimFirstSlash(u.path[|prefix|..])
            && out.rawPath == EscapedPath(UrlPath(TrimSlash(rewrite), [])) + [SLASH] + EncodedTail(u, prefix)
  {
    hide Unescape, EscapedPath, EncodedTail, Stripped, TrimSlash;
    StripIsCoherent(u, frontend, prefix);
    StrippedTails(u, frontend, prefix);
    var trimmed := TrimSlash(rewrite);
    var raw := EscapedPath(UrlPath(trimmed, []));
    assert trimmed + ([SLASH] + Tail(u.path, prefix)) == trimmed + [SLASH] + Tail(u.path, prefix);
    assert raw + ([SLASH] + EncodedTail(u, prefix)) == raw + [SLASH] + EncodedTail(u, prefix);
  }

  /** The path under the frontend's prefix, rooted, comes behind the rewrite prefix, and in
      the encoded form with the bytes it came in with. */
  lemma RewriteIsCoherent(u: UrlPath, frontend: Bytes, rewrite: Bytes, prefix: Bytes)
    requires IsPrefixOf(frontend, prefix)
    ensures var out := Rewritten(u, frontend, rewrite);
            && Unescape(out.rawPath) == Some(out.path) && (out.rawPath != [] ==> EscapedPath(out) == out.rawPath)
            && (if prefix == [SLASH] || !(prefix <= u.path) then
                  && out.path == TrimSlash(rewrite) + u.path
                  && out.rawPath == EscapedPath(UrlPath(TrimSlash(rewrite), [])) + EscapedPath(u)
                else
                  && out.path == TrimSlash(rewrite) + [SLASH] + TrimFirstSlash(u.path[|prefix|..])
                  && out.rawPath == EscapedPath(UrlPath(TrimSlash(rewrite), [])) + [SLASH] + EncodedTail(u, prefix))
  {
    hide Unescape, EscapedPath, EncodedTail, Tail, TrimFirstSlash, TrimSlash;
    var stripped, trimmed := Stripped(u, frontend), TrimSlash(rewrite);
    var out := Rewritten(u, frontend, rewrite);
    EscapedPathDecodes(UrlPath(trimmed, []));
    EscapedPathDecodes(stripped);
    UnescapeConcat(EscapedPath(UrlPath(trimmed, [])), EscapedPath(stripped));
    if out.rawPath != [] {
      RawIsKept(out);
    }
    if prefix != [SLASH] && prefix <= u.path {
      RewriteShape(u, frontend, rewrite, prefix);
    }
  }
}
