/**
 Properties of the request matcher that relate several calls: reflexivity,
 exact matching of wildcard-free patterns, widening a pattern with the
 wildcard, collapsing of repeated trailing slashes, the exclusive method
 predicates, and the documented examples.
 */
module FrameworkProperties {
  import opened JavaString
  import opened Framework

  /** A pattern or path written out from its segments and its trailing-slash flag. */
  function Render(segments: seq<string>, trailingSlash: bool): string {
    "/" + Join(segments, '/') + (if trailingSlash then "/" else "")
  }

  /**
   Segment sequences that `Render` writes and a parse reads back: at least
   one segment, none containing a slash, the last one non-empty. Of the
   parse results only `[]` and `[""]` are not of this form.
   */
  predicate Renderable(segments: seq<string>) {
    |segments| >= 1 && DelimiterFree(segments, '/') && segments[|segments| - 1] != []
  }

  /**
   Parsing undoes `Render`: the matcher reads back the segments and the
   trailing-slash flag that were written.
   */
  lemma ParseRender(segments: seq<string>, trailingSlash: bool)
    requires Renderable(segments)
    ensures |Render(segments, trailingSlash)| >= 1
    ensures PathSegments(Render(segments, trailingSlash)) == segments
    ensures EndsWith(Render(segments, trailingSlash), '/') <==> trailingSlash
  {
    var joined := Join(segments, '/');
    var path := Render(segments, trailingSlash);
    JoinEndsWithLastPiece(segments, '/');
    SplitOfJoin(segments, '/');
    if trailingSlash {
      assert path == "/" + joined + "/";
      assert path[1..] == joined + ['/'];
      SplitIgnoresTrailingDelimiter(joined, '/');
    } else {
      assert path == "/" + joined;
      assert path[1..] == joined;
    }
  }

  /** Every URI matches itself as a pattern, whatever the method. */
  lemma IsPathReflexive(httpMethod: string, uri: string)
    requires |uri| >= 1
    ensures IsPath(Create(httpMethod, uri), uri)
  {
  }

  /**
   A pattern without wildcards matches exactly when its segments and its
   trailing slash are those of the request.
   */
  lemma LiteralPatternExact(info: RequestInfo, expression: string)
    requires |expression| >= 1
    requires forall i :: 0 <= i < |PathSegments(expression)| ==> PathSegments(expression)[i] != Wildcard
    ensures IsPath(info, expression) <==>
      PathSegments(expression) == info.parts && (EndsWith(expression, '/') <==> info.endsWithSlash)
  {
    var checkParts := PathSegments(expression);
    if IsPath(info, expression) {
      assert forall i :: 0 <= i < |checkParts| ==> checkParts[i] == info.parts[i];
    }
  }

  /**
   Seen from the URIs: a wildcard-free pattern matches a request exactly
   when it would build the same matcher as the request's URI.
   */
  lemma LiteralPatternSameRequest(httpMethod: string, uri: string, expression: string)
    requires |uri| >= 1 && |expression| >= 1
    requires forall i :: 0 <= i < |PathSegments(expression)| ==> PathSegments(expression)[i] != Wildcard
    ensures IsPath(Create(httpMethod, uri), expression) <==> Create(httpMethod, expression) == Create(httpMethod, uri)
  {
    LiteralPatternExact(Create(httpMethod, uri), expression);
  }

  /** Only the split of the empty string ends in an empty segment, and that split has one segment. */
  lemma LastSegmentNonEmpty(expression: string)
    requires |expression| >= 1 && |PathSegments(expression)| >= 2
    ensures PathSegments(expression)[|PathSegments(expression)| - 1] != []
  {
  }

  /** Putting the wildcard into a parsed pattern keeps it renderable. */
  lemma WidenedRenderable(expression: string, i: nat)
    requires |expression| >= 1 && i < |PathSegments(expression)|
    ensures Renderable(PathSegments(expression)[i := Wildcard])
  {
    var checkParts := PathSegments(expression);
    var widened := checkParts[i := Wildcard];
    if i < |checkParts| - 1 {
      LastSegmentNonEmpty(expression);
    }
    forall k | 0 <= k < |widened|
      ensures '/' !in widened[k]
    {
      if k != i {
        assert widened[k] == checkParts[k];
      }
    }
  }

  /**
   Replacing any one segment of a matching pattern by the wildcard keeps it
   matching.
   */
  lemma WildcardWidening(info: RequestInfo, expression: string, i: nat)
    requires |expression| >= 1 && IsPath(info, expression)
    requires i < |PathSegments(expression)|
    ensures IsPath(info, Render(PathSegments(expression)[i := Wildcard], EndsWith(expression, '/')))
  {
    var checkParts := PathSegments(expression);
    var slash := EndsWith(expression, '/');
    var widened := checkParts[i := Wildcard];
    WidenedRenderable(expression, i);
    ParseRender(widened, slash);
    forall k | 0 <= k < |info.parts|
      ensures SegmentMatches(widened[k], info.parts[k])
    {
      if k != i {
        assert SegmentMatches(checkParts[k], info.parts[k]);
      }
    }
  }

  /**
   Repeated trailing slashes collapse: one more slash after a URI that
   already ends in a slash builds the same matcher, so `/a//` and `/a/` are
   indistinguishable.
   */
  lemma TrailingSlashesCollapse(httpMethod: string, uri: string)
    requires |uri| >= 2 && uri[|uri| - 1] == '/'
    ensures Create(httpMethod, uri + "/") == Create(httpMethod, uri)
  {
    assert (uri + "/")[1..] == uri[1..] + ['/'];
    SplitIgnoresTrailingDelimiter(uri[1..], '/');
  }

  lemma TrailingSlashesExample()
    ensures Create("GET", "/a//") == Create("GET", "/a/")
    ensures IsPath(Create("GET", "/a/"), "/a//")
  {
    TrailingSlashesCollapse("GET", "/a/");
    assert "/a/" + "/" == "/a//";
    IsPathReflexive("GET", "/a//");
  }

  /** Method comparison is exact, so at most one method predicate holds. */
  lemma MethodPredicatesExclusive(info: RequestInfo)
    ensures !(IsGet(info) && IsPut(info))
    ensures !(IsGet(info) && IsPost(info))
    ensures !(IsPut(info) && IsPost(info))
    ensures IsGet(info) ==> info.httpMethod == "GET"
    ensures !IsGet(RequestInfo("get", info.parts, info.endsWithSlash))
    ensures !IsPost(RequestInfo("Post", info.parts, info.endsWithSlash))
    ensures !IsPut(RequestInfo("PUT ", info.parts, info.endsWithSlash))
  {
  }

  /**
   The method-and-path predicates: each agrees with the bare pattern match
   for its own method, is false for every other method (even for an empty
   expression, which is never parsed then), and at most one of them holds.
   */
  lemma CombinedPredicates(info: RequestInfo, expression: string)
    requires IsGet(info) || IsPut(info) || IsPost(info) ==> |expression| >= 1
    ensures info.httpMethod == "GET" ==> (IsGetPath(info, expression) <==> IsPath(info, expression))
    ensures info.httpMethod == "PUT" ==> (IsPutPath(info, expression) <==> IsPath(info, expression))
    ensures info.httpMethod == "POST" ==> (IsPostPath(info, expression) <==> IsPath(info, expression))
    ensures info.httpMethod != "GET" ==> !IsGetPath(info, expression)
    ensures info.httpMethod != "PUT" ==> !IsPutPath(info, expression)
    ensures info.httpMethod != "POST" ==> !IsPostPath(info, expression)
    ensures !(IsGetPath(info, expression) && IsPutPath(info, expression))
    ensures !(IsGetPath(info, expression) && IsPostPath(info, expression))
    ensures !(IsPutPath(info, expression) && IsPostPath(info, expression))
  {
  }

  /**
   The short circuit in practice: a GET request answers false to the PUT
   and POST questions even for the empty expression, which `isPath` would
   reject.
   */
  lemma ShortCircuitSkipsPattern(parts: seq<string>, endsWithSlash: bool)
    ensures !IsPutPath(RequestInfo("GET", parts, endsWithSlash), "")
    ensures !IsPostPath(RequestInfo("GET", parts, endsWithSlash), "")
  {
  }

  /**
   The bounds test in `get` is looser than the array: it admits the
   position one past the end and every negative position above the
   smallest `int`, which the array read then rejects; it never rejects a
   valid position.
   */
  lemma GetGuardLoose(length: nat, pos: int)
    requires length < INT32_MAX && IsInt32(pos)
    ensures 0 <= pos < length ==> GetGuard(length, pos)
    ensures GetGuard(length, length) && GetGuard(length, length + 1)
    ensures INT32_MIN < pos < 0 ==> GetGuard(length, pos)
    ensures !GetGuard(length, INT32_MIN)
  {
  }

  /** Matching a rendered URI against a rendered pattern, stated on their segments. */
  lemma MatchRendered(httpMethod: string, uriSegments: seq<string>, uriSlash: bool,
                      patternSegments: seq<string>, patternSlash: bool)
    requires Renderable(uriSegments) && Renderable(patternSegments)
    ensures |Render(uriSegments, uriSlash)| >= 1 && |Render(patternSegments, patternSlash)| >= 1
    ensures IsPath(Create(httpMethod, Render(uriSegments, uriSlash)), Render(patternSegments, patternSlash)) <==>
      && |patternSegments| == |uriSegments|
      && (patternSlash <==> uriSlash)
      && SegmentsMatch(patternSegments, uriSegments)
  {
    ParseRender(uriSegments, uriSlash);
    ParseRender(patternSegments, patternSlash);
  }

  // The example lemmas below receive the URI and the pattern as parameters
  // fixed by their preconditions rather than as literals in the conclusion:
  // a literal argument lets the verifier unfold the split of that literal
  // eagerly, which makes these proofs far more expensive.

  /** `/users/123` matches `/users/_`. */
  lemma DocUsersWildcard(httpMethod: string, uri: string, pattern: string)
    requires uri == "/users/123" && pattern == "/users/_"
    ensures IsPath(Create(httpMethod, uri), pattern)
  {
    var us := ["users", "123"];
    var ps := ["users", "_"];
    assert uri == Render(us, false);
    assert pattern == Render(ps, false);
    assert SegmentsMatch(ps, us);
    MatchRendered(httpMethod, us, false, ps, false);
  }

  /** `/users/123` does not match `/users/_/`: the pattern has a trailing slash. */
  lemma DocUsersWildcardSlash(httpMethod: string, uri: string, pattern: string)
    requires uri == "/users/123" && pattern == "/users/_/"
    ensures !IsPath(Create(httpMethod, uri), pattern)
  {
    var us := ["users", "123"];
    var ps := ["users", "_"];
    assert uri == Render(us, false);
    assert pattern == Render(ps, true);
    assert SegmentsMatch(ps, us);
    MatchRendered(httpMethod, us, false, ps, true);
  }

  /** `/users/123` matches `/_/123`. */
  lemma DocWildcardId(httpMethod: string, uri: string, pattern: string)
    requires uri == "/users/123" && pattern == "/_/123"
    ensures IsPath(Create(httpMethod, uri), pattern)
  {
    var us := ["users", "123"];
    var ps := ["_", "123"];
    assert uri == Render(us, false);
    assert pattern == Render(ps, false);
    assert SegmentsMatch(ps, us);
    MatchRendered(httpMethod, us, false, ps, false);
  }

  /** `/users/123` does not match `/_/123/`. */
  lemma DocWildcardIdSlash(httpMethod: string, uri: string, pattern: string)
    requires uri == "/users/123" && pattern == "/_/123/"
    ensures !IsPath(Create(httpMethod, uri), pattern)
  {
    var us := ["users", "123"];
    var ps := ["_", "123"];
    assert uri == Render(us, false);
    assert pattern == Render(ps, true);
    assert SegmentsMatch(ps, us);
    MatchRendered(httpMethod, us, false, ps, true);
  }

  /** `/users/123` matches `/_/_`. */
  lemma DocAllWildcards(httpMethod: string, uri: string, pattern: string)
    requires uri == "/users/123" && pattern == "/_/_"
    ensures IsPath(Create(httpMethod, uri), pattern)
  {
    var us := ["users", "123"];
    var ps := ["_", "_"];
    assert uri == Render(us, false);
    assert pattern == Render(ps, false);
    assert SegmentsMatch(ps, us);
    MatchRendered(httpMethod, us, false, ps, false);
  }

  /** `/users/123` does not match `/_/_/`. */
  lemma DocAllWildcardsSlash(httpMethod: string, uri: string, pattern: string)
    requires uri == "/users/123" && pattern == "/_/_/"
    ensures !IsPath(Create(httpMethod, uri), pattern)
  {
    var us := ["users", "123"];
    var ps := ["_", "_"];
    assert uri == Render(us, false);
    assert pattern == Render(ps, true);
    assert SegmentsMatch(ps, us);
    MatchRendered(httpMethod, us, false, ps, true);
  }

  /** The examples documented for `isPath`, against the URI `/users/123`. */
  lemma DocExamples(httpMethod: string, uri: string)
    requires uri == "/users/123"
    ensures IsPath(Create(httpMethod, uri), "/users/_")
    ensures !IsPath(Create(httpMethod, uri), "/users/_/")
    ensures IsPath(Create(httpMethod, uri), "/_/123")
    ensures !IsPath(Create(httpMethod, uri), "/_/123/")
    ensures IsPath(Create(httpMethod, uri), "/_/_")
    ensures !IsPath(Create(httpMethod, uri), "/_/_/")
  {
    DocUsersWildcard(httpMethod, uri, "/users/_");
    DocUsersWildcardSlash(httpMethod, uri, "/users/_/");
    DocWildcardId(httpMethod, uri, "/_/123");
    DocWildcardIdSlash(httpMethod, uri, "/_/123/");
    DocAllWildcards(httpMethod, uri, "/_/_");
    DocAllWildcardsSlash(httpMethod, uri, "/_/_/");
  }

  /** A trailing slash on both sides matches. */
  lemma MatchesWithBothSlashes(httpMethod: string, uri: string, pattern: string)
    requires uri == "/users/123/" && pattern == "/users/_/"
    ensures IsPath(Create(httpMethod, uri), pattern)
  {
    var us := ["users", "123"];
    var ps := ["users", "_"];
    assert uri == Render(us, true);
    assert pattern == Render(ps, true);
    assert SegmentsMatch(ps, us);
    MatchRendered(httpMethod, us, true, ps, true);
  }

  /** The wildcard accepts any segment value. */
  lemma WildcardMatchesAnyLiteral(httpMethod: string, uri: string, pattern: string)
    requires uri == "/users/abc" && pattern == "/users/_"
    ensures IsPath(Create(httpMethod, uri), pattern)
  {
    var us := ["users", "abc"];
    var ps := ["users", "_"];
    assert uri == Render(us, false);
    assert pattern == Render(ps, false);
    assert SegmentsMatch(ps, us);
    MatchRendered(httpMethod, us, false, ps, false);
  }

  /** A trailing slash on the URI alone prevents a match. */
  lemma SlashOnlyOnUri(httpMethod: string, uri: string, pattern: string)
    requires uri == "/a/b/" && pattern == "/_/_"
    ensures !IsPath(Create(httpMethod, uri), pattern)
  {
    var us := ["a", "b"];
    var ps := ["_", "_"];
    assert uri == Render(us, true);
    assert pattern == Render(ps, false);
    assert SegmentsMatch(ps, us);
    MatchRendered(httpMethod, us, true, ps, false);
  }

  /** A pattern with fewer segments never matches. */
  lemma FewerPatternSegments(httpMethod: string, uri: string, pattern: string)
    requires uri == "/a/b/c" && pattern == "/a/b"
    ensures !IsPath(Create(httpMethod, uri), pattern)
  {
    var us := ["a", "b", "c"];
    var ps := ["a", "b"];
    assert uri == Render(us, false);
    assert pattern == Render(ps, false);
    MatchRendered(httpMethod, us, false, ps, false);
  }

  /** One differing literal segment prevents a match. */
  lemma LiteralMismatch(httpMethod: string, uri: string, pattern: string)
    requires uri == "/users/123" && pattern == "/accounts/_"
    ensures !IsPath(Create(httpMethod, uri), pattern)
  {
    var us := ["users", "123"];
    var ps := ["accounts", "_"];
    assert uri == Render(us, false);
    assert pattern == Render(ps, false);
    assert !SegmentsMatch(ps, us);
    MatchRendered(httpMethod, us, false, ps, false);
  }

  /** `get` on the parts of `/users/123`. */
  lemma GetExamples()
    ensures Get(Create("GET", "/users/123"), 0) == Some("users")
    ensures Get(Create("GET", "/users/123"), 1) == Some("123")
    ensures Get(Create("GET", "/users/123"), 2) == None
    ensures Get(Create("GET", "/users/123"), -1) == None
  {
    assert Render(["users", "123"], false) == "/users/123";
    ParseRender(["users", "123"], false);
  }
}
