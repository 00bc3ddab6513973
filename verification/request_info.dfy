/**
 The request matcher of the skimpy framework: an immutable value built from
 an HTTP method and a request URI path, with exact method predicates, a
 positional accessor for path segments and a pattern matcher in which `_`
 stands for any single segment.
 */
module Framework {
  import opened JavaString

  datatype Option<T> = None | Some(value: T)

  const INT32_MIN: int := -0x8000_0000
  const INT32_MAX: int := 0x7fff_ffff

  predicate IsInt32(x: int) {
    INT32_MIN <= x <= INT32_MAX
  }

  /** Java `int` subtraction: the exact difference wrapped into 32 bits. */
  function Sub32(x: int, y: int): (r: int)
    requires IsInt32(x) && IsInt32(y)
    ensures IsInt32(r)
    ensures (r - (x - y)) % 0x1_0000_0000 == 0
  {
    var diff := x - y;
    if diff < INT32_MIN then diff + 0x1_0000_0000
    else if diff > INT32_MAX then diff - 0x1_0000_0000
    else diff
  }

  /** The wildcard pattern segment. */
  const Wildcard: string := "_"

  /**
   The request as the matcher sees it: the method token, the path segments
   after the first character, and whether the path ends in a slash.
   */
  datatype RequestInfo = RequestInfo(httpMethod: string, parts: seq<string>, endsWithSlash: bool)

  /**
   `path.substring(1).split("/")`; `substring(1)` fails on an empty string.
   The segments are the limit-0 split of everything after the first character.
   */
  function PathSegments(path: string): (segments: seq<string>)
    requires |path| >= 1
    ensures SplitShape(path[1..], '/', segments)
  {
    Split(path[1..], '/')
  }

  /**
   Builds the matcher for a request. The URI is its first character, then
   its parts joined by `/`, then nothing but slashes; no part contains a
   slash; the parts are exactly the limit-0 split of the rest of the URI, so
   no empty part is kept at the end; and the slash flag records the URI's
   last character.
   */
  function Create(httpMethod: string, uri: string): (info: RequestInfo)
    requires |uri| >= 1
    ensures info.httpMethod == httpMethod
    ensures info.endsWithSlash <==> uri[|uri| - 1] == '/'
    ensures DelimiterFree(info.parts, '/')
    ensures uri[..1] + Join(info.parts, '/') <= uri
    ensures forall j :: 1 + |Join(info.parts, '/')| <= j < |uri| ==> uri[j] == '/'
    ensures SplitShape(uri[1..], '/', info.parts)
  {
    var info := RequestInfo(httpMethod, PathSegments(uri), EndsWith(uri, '/'));
    assert forall j :: |Join(info.parts, '/')| <= j < |uri[1..]| ==> uri[1..][j] == '/';
    info
  }

  /** The bounds test `parts.length >= pos - 1` made before the array read; it admits every valid index. */
  predicate GetGuard(length: nat, pos: int)
    requires IsInt32(pos)
    ensures 0 <= pos < length ==> GetGuard(length, pos)
  {
    length >= Sub32(pos, 1)
  }

  /**
   The segment at position `pos`. The guard rejects some positions and the
   array read rejects the rest of the invalid ones; both failures become
   `None`, so the result is present exactly for a valid index.
   */
  function Get(info: RequestInfo, pos: int): (r: Option<string>)
    requires IsInt32(pos)
    ensures r.Some? <==> 0 <= pos < |info.parts|
    ensures r.Some? ==> r.value == info.parts[pos]
  {
    if GetGuard(|info.parts|, pos) then
      if 0 <= pos < |info.parts| then Some(info.parts[pos])
      else None  // the array read throws
    else None    // the guard throws
  }

  /** `method.equals("GET")`: an exact comparison, so no other method name is accepted. */
  predicate IsGet(info: RequestInfo)
    ensures IsGet(info) ==> info.httpMethod != "PUT" && info.httpMethod != "POST"
  {
    info.httpMethod == "GET"
  }

  /** `method.equals("PUT")`: an exact comparison, so no other method name is accepted. */
  predicate IsPut(info: RequestInfo)
    ensures IsPut(info) ==> info.httpMethod != "GET" && info.httpMethod != "POST"
  {
    info.httpMethod == "PUT"
  }

  /** `method.equals("POST")`: an exact comparison, so no other method name is accepted. */
  predicate IsPost(info: RequestInfo)
    ensures IsPost(info) ==> info.httpMethod != "GET" && info.httpMethod != "PUT"
  {
    info.httpMethod == "POST"
  }

  /** One pattern segment accepts one request segment. */
  predicate SegmentMatches(pattern: string, segment: string) {
    pattern == Wildcard || pattern == segment
  }

  /** Position-by-position comparison of two equally long segment sequences. */
  function SegmentsMatch(patterns: seq<string>, segments: seq<string>): (b: bool)
    requires |patterns| == |segments|
    ensures b <==> forall i :: 0 <= i < |patterns| ==> SegmentMatches(patterns[i], segments[i])
  {
    if |patterns| == 0 then true
    else SegmentMatches(patterns[0], segments[0]) && SegmentsMatch(patterns[1..], segments[1..])
  }

  /**
   Whether the request matches `expression`: the pattern has as many
   segments as the request, its trailing slash agrees with the request's,
   and each pattern segment is the wildcard or equals the request segment
   at the same position.
   */
  function IsPath(info: RequestInfo, expression: string): (b: bool)
    requires |expression| >= 1
    ensures b <==>
      && |PathSegments(expression)| == |info.parts|
      && (EndsWith(expression, '/') <==> info.endsWithSlash)
      && forall i :: 0 <= i < |info.parts| ==> SegmentMatches(PathSegments(expression)[i], info.parts[i])
  {
    var checkParts := PathSegments(expression);
    if |checkParts| != |info.parts| then false
    else if EndsWith(expression, '/') != info.endsWithSlash then false
    else SegmentsMatch(checkParts, info.parts)
  }

  /** The matcher written as the Java loop of `isPath`, with its early returns. */
  method IsPathLoop(info: RequestInfo, expression: string) returns (b: bool)
    requires |expression| >= 1
    ensures b == IsPath(info, expression)
  {
    var checkParts := PathSegments(expression);
    if |checkParts| != |info.parts| {
      return false;
    }
    if EndsWith(expression, '/') != info.endsWithSlash {
      return false;
    }
    var pos := 0;
    while pos < |checkParts|
      invariant 0 <= pos <= |checkParts|
      invariant forall i :: 0 <= i < pos ==> SegmentMatches(checkParts[i], info.parts[i])
    {
      if checkParts[pos] != Wildcard && checkParts[pos] != info.parts[pos] {
        return false;
      }
      pos := pos + 1;
    }
    return true;
  }

  /**
   `isGet() && isPath(expression)`. The `&&` short-circuits, so the pattern
   is parsed, and must be non-empty, only for a GET request; for any other
   method the answer is false whatever the expression.
   */
  predicate IsGetPath(info: RequestInfo, expression: string)
    requires IsGet(info) ==> |expression| >= 1
    ensures IsGetPath(info, expression) ==> IsGet(info) && IsPath(info, expression)
    ensures !IsGet(info) ==> !IsGetPath(info, expression)
  {
    IsGet(info) && IsPath(info, expression)
  }

  /** `isPut() && isPath(expression)`, short-circuiting as `IsGetPath` does. */
  predicate IsPutPath(info: RequestInfo, expression: string)
    requires IsPut(info) ==> |expression| >= 1
    ensures IsPutPath(info, expression) ==> IsPut(info) && IsPath(info, expression)
    ensures !IsPut(info) ==> !IsPutPath(info, expression)
  {
    IsPut(info) && IsPath(info, expression)
  }

  /** `isPost() && isPath(expression)`, short-circuiting as `IsGetPath` does. */
  predicate IsPostPath(info: RequestInfo, expression: string)
    requires IsPost(info) ==> |expression| >= 1
    ensures IsPostPath(info, expression) ==> IsPost(info) && IsPath(info, expression)
    ensures !IsPost(info) ==> !IsPostPath(info, expression)
  {
    IsPost(info) && IsPath(info, expression)
  }
}
