# RequestInfo: the skimpy request matcher, in Dafny

The skimpy web framework routes a request with `RequestInfo`, an immutable
value built from the request's HTTP method and URI path. It keeps three
fields: the method string; `parts`, the path without its first character
split on `/`; and `endsWithSlash`, whether the URI ends in `/`. It answers
exact, case-sensitive method questions (`isGet`, `isPut`, `isPost`), gives
the segment at a position (`get`), and matches the path against a pattern
(`isPath`) in which `_` stands for exactly one segment, the segment counts
must be equal and the trailing slash must agree. `isGet(expr)`,
`isPut(expr)` and `isPost(expr)` combine a method test with a pattern test.

The model has three modules:

- `JavaString` (`java_string.dfy`): Java's `endsWith` for one character and
  `String.split("/")` with the default limit 0. An input without the
  delimiter comes back whole, so `""` splits to `[""]`. Otherwise the string
  is cut at every delimiter and all trailing empty pieces are dropped, so
  `"/"` splits to `[]`. `SplitShape` describes the result without saying
  how to compute it, and `SplitUnique` proves that it determines the result.
  `Join` is the inverse.
- `Framework` (`request_info.dfy`): the `RequestInfo` datatype and the
  operations, as pure functions. `IsPathLoop` is the Java loop of `isPath`
  with its early returns, proved equal to `IsPath`.
- `FrameworkProperties` (`request_info_properties.dfy`): the properties
  that relate several calls, and the documented examples.

`substring(1)` throws on an empty string, so `Create` and `IsPath` require
a non-empty URI and pattern. The combined predicates short-circuit, so
`IsPutPath` and `IsPostPath` accept the empty expression on a GET request
and answer false; only the predicate of the request's own method needs a
non-empty expression. A URI that does not start with `/` still loses its
first character, as `RequestInfo.java` does for any character that is a
single UTF-16 unit (see "Left out" for the others). Java's `get(int)` guard
`parts.length >= pos-1` is looser than the array bound, so some invalid
positions are rejected by the guard and the rest by the array read. The
model keeps both checks, including the 32-bit wrap of `pos - 1`, and maps
both failures to `None`. `Get` returns a value exactly when
`0 <= pos < |parts|`.

`RequestInfo.java:106` compares the pattern's trailing slash with the
request's in both directions: a pattern without one does not match a URI
with one, and the other way round. So `/_/_` does not match `/a/b/`
(`SlashOnlyOnUri`).

## Model

| member | source | states |
|---|---|---|
| JavaString.Split | src/main/java/net/caprazzi/skimpy/framework/RequestInfo.java:17 | `split("/")` with limit 0. No piece contains the delimiter. The result is `[""]` exactly for the empty input. Only that result ends in an empty piece. The input is the pieces joined by the delimiter, followed only by delimiters. |
| JavaString.SplitUnique | src/main/java/net/caprazzi/skimpy/framework/RequestInfo.java:17 | Any sequence with the shape above equals `Split`, so the shape is a complete reference specification of Java's split. |
| JavaString.SplitOfJoin | src/main/java/net/caprazzi/skimpy/framework/RequestInfo.java:17 | Split inverts Join on every non-empty sequence of slash-free pieces whose last piece is non-empty. |
| JavaString.SplitIgnoresTrailingDelimiter | src/main/java/net/caprazzi/skimpy/framework/RequestInfo.java:17 | Appending one more delimiter to a non-empty string does not change its split. |
| JavaString.SplitExamples | src/main/java/net/caprazzi/skimpy/framework/RequestInfo.java:17 | `"a/b/"` gives `["a","b"]`, `"/a"` gives `["","a"]`, `""` gives `[""]`, `"/"` gives `[]`, and `"a//"` and `"a/"` both give `["a"]`. |
| Framework.Sub32 | src/main/java/net/caprazzi/skimpy/framework/RequestInfo.java:39 | Java `int` subtraction, as used in `pos-1`: the result is a 32-bit value congruent to the exact difference modulo 2^32. |
| Framework.PathSegments | src/main/java/net/caprazzi/skimpy/framework/RequestInfo.java:17 | `substring(1).split("/")`, shared by the constructor and `isPath` (line 102): the segments satisfy the limit-0 split shape of everything after the first character, which by `SplitUnique` fixes them completely. |
| Framework.Create | src/main/java/net/caprazzi/skimpy/framework/RequestInfo.java:15-19 | Keeps the method. `endsWithSlash` holds exactly when the URI's last character is `/`. The parts are exactly the limit-0 split of the URI after its first character, so no trailing empty part is kept. No part contains `/`. The URI is its first character, then the parts joined by `/`, then only slashes. |
| Framework.GetGuard | src/main/java/net/caprazzi/skimpy/framework/RequestInfo.java:39 | The guard `parts.length >= pos-1`, with Java's wrapping subtraction, admits every valid index. |
| Framework.Get | src/main/java/net/caprazzi/skimpy/framework/RequestInfo.java:38-42 | Models both the loose guard and the array read. A value comes back exactly when `pos` is at least 0 and below the number of parts, and that value is `parts[pos]`. Negative positions and the position equal to the number of parts fail. |
| Framework.SegmentsMatch | src/main/java/net/caprazzi/skimpy/framework/RequestInfo.java:109-112 | The position-by-position loop accepts exactly when every pattern segment is `_` or equals the request segment at the same index. |
| Framework.IsPath | src/main/java/net/caprazzi/skimpy/framework/RequestInfo.java:101-115 | A pattern matches exactly when three things hold: its segment count equals the number of parts, its trailing-slash state equals `endsWithSlash` (both directions), and each segment is `_` or equal to the request segment. A count mismatch or a slash mismatch always gives false. |
| Framework.IsPathLoop | src/main/java/net/caprazzi/skimpy/framework/RequestInfo.java:101-115 | The Java loop with its early returns computes the same answer as `IsPath` for every request and pattern. |
| Framework.IsGet | src/main/java/net/caprazzi/skimpy/framework/RequestInfo.java:29-31 | `method.equals("GET")`: exact comparison, so a GET request is never taken for PUT or POST. |
| Framework.IsPut | src/main/java/net/caprazzi/skimpy/framework/RequestInfo.java:48-50 | `method.equals("PUT")`: exact comparison, so a PUT request is never taken for GET or POST. |
| Framework.IsPost | src/main/java/net/caprazzi/skimpy/framework/RequestInfo.java:56-58 | `method.equals("POST")`: exact comparison, so a POST request is never taken for GET or PUT. |
| Framework.IsGetPath | src/main/java/net/caprazzi/skimpy/framework/RequestInfo.java:65-67 | True only for a GET request that matches the pattern. For any other method it is false whatever the expression, the empty one included, because the `&&` never parses it. |
| Framework.IsPutPath | src/main/java/net/caprazzi/skimpy/framework/RequestInfo.java:74-76 | True only for a PUT request that matches the pattern. For any other method it is false whatever the expression, the empty one included. |
| Framework.IsPostPath | src/main/java/net/caprazzi/skimpy/framework/RequestInfo.java:83-85 | True only for a POST request that matches the pattern. For any other method it is false whatever the expression, the empty one included. |
| JavaString.EndsWith | src/main/java/net/caprazzi/skimpy/framework/RequestInfo.java:18 | `endsWith("/")`, also used at line 106: true exactly when the string is non-empty and is its own prefix followed by the character. |
| FrameworkProperties.ParseRender | src/main/java/net/caprazzi/skimpy/framework/RequestInfo.java:102-107 | Writing slash-free segments (last one non-empty) as `/` + joined + optional `/`, then parsing the result as the matcher does, gives back the same segments and slash flag. |
| FrameworkProperties.IsPathReflexive | src/main/java/net/caprazzi/skimpy/framework/RequestInfo.java:101-115 | For every method and non-empty URI, the matcher built from the URI matches the URI itself as a pattern, wildcards included. |
| FrameworkProperties.LiteralPatternExact | src/main/java/net/caprazzi/skimpy/framework/RequestInfo.java:109-114 | A pattern with no `_` segment matches exactly when its segments and its slash flag are those of the request. |
| FrameworkProperties.LiteralPatternSameRequest | src/main/java/net/caprazzi/skimpy/framework/RequestInfo.java:101-115 | A pattern with no `_` segment matches a URI exactly when both strings build the same matcher. |
| FrameworkProperties.WildcardWidening | src/main/java/net/caprazzi/skimpy/framework/RequestInfo.java:109-114 | Replacing any one segment of a matching pattern with `_`, keeping the pattern's trailing slash, still matches. |
| FrameworkProperties.TrailingSlashesCollapse | src/main/java/net/caprazzi/skimpy/framework/RequestInfo.java:17-18 | An extra `/` after a URI of two or more characters that already ends in `/` builds an identical matcher. |
| FrameworkProperties.TrailingSlashesExample | src/main/java/net/caprazzi/skimpy/framework/RequestInfo.java:17-18 | `/a//` and `/a/` build the same matcher, so a request for `/a/` matches the pattern `/a//`. |
| FrameworkProperties.MethodPredicatesExclusive | src/main/java/net/caprazzi/skimpy/framework/RequestInfo.java:29-58 | At most one of `isGet`, `isPut` and `isPost` holds. The comparison is exact: `get`, `Post` and `PUT ` (with a space) are not recognised. |
| FrameworkProperties.CombinedPredicates | src/main/java/net/caprazzi/skimpy/framework/RequestInfo.java:65-85 | For its own method, each combined predicate agrees with `isPath`. For any other method it is false, also for the empty expression, which only the request's own method requires to be non-empty. At most one of the three holds. |
| FrameworkProperties.ShortCircuitSkipsPattern | src/main/java/net/caprazzi/skimpy/framework/RequestInfo.java:74-85 | On a GET request, `isPut("")` and `isPost("")` are false and do not reach `substring(1)`. |
| FrameworkProperties.GetGuardLoose | src/main/java/net/caprazzi/skimpy/framework/RequestInfo.java:39 | The guard never rejects a valid position. It admits the number of parts, that number plus one, and every negative position except the smallest `int`, which the array read then rejects. |
| FrameworkProperties.GetExamples | src/main/java/net/caprazzi/skimpy/framework/RequestInfo.java:38-42 | For `/users/123`, positions 0 and 1 give `users` and `123`. Positions 2 and -1 fail. |
| FrameworkProperties.DocUsersWildcard | src/main/java/net/caprazzi/skimpy/framework/RequestInfo.java:91 | `/users/123` matches `/users/_`. |
| FrameworkProperties.DocUsersWildcardSlash | src/main/java/net/caprazzi/skimpy/framework/RequestInfo.java:92 | `/users/123` does not match `/users/_/`. |
| FrameworkProperties.DocWildcardId | src/main/java/net/caprazzi/skimpy/framework/RequestInfo.java:93 | `/users/123` matches `/_/123`. |
| FrameworkProperties.DocWildcardIdSlash | src/main/java/net/caprazzi/skimpy/framework/RequestInfo.java:94 | `/users/123` does not match `/_/123/`. |
| FrameworkProperties.DocAllWildcards | src/main/java/net/caprazzi/skimpy/framework/RequestInfo.java:95 | `/users/123` matches `/_/_`. |
| FrameworkProperties.DocAllWildcardsSlash | src/main/java/net/caprazzi/skimpy/framework/RequestInfo.java:96 | `/users/123` does not match `/_/_/`. |
| FrameworkProperties.DocExamples | src/main/java/net/caprazzi/skimpy/framework/RequestInfo.java:89-97 | All six documented results for the URI `/users/123`, for every method. |
| FrameworkProperties.MatchesWithBothSlashes | src/main/java/net/caprazzi/skimpy/framework/RequestInfo.java:106-107 | `/users/123/` matches `/users/_/`. |
| FrameworkProperties.SlashOnlyOnUri | src/main/java/net/caprazzi/skimpy/framework/RequestInfo.java:106-107 | `/a/b/` does not match `/_/_`: the URI's trailing slash alone is enough to refuse. |
| FrameworkProperties.WildcardMatchesAnyLiteral | src/main/java/net/caprazzi/skimpy/framework/RequestInfo.java:110 | `/users/abc` matches `/users/_`. |
| FrameworkProperties.FewerPatternSegments | src/main/java/net/caprazzi/skimpy/framework/RequestInfo.java:103-104 | `/a/b/c` does not match `/a/b`. |
| FrameworkProperties.LiteralMismatch | src/main/java/net/caprazzi/skimpy/framework/RequestInfo.java:110-111 | `/users/123` does not match `/accounts/_`. |

## Left out

- `fromRequest(HttpServletRequest)` (lines 21-23) is a one-line adapter over a servlet request object. It is not part of this model. The model takes the method and the URI as plain strings.
- Exception types are not modelled. The `RuntimeException` from the guard in `get` and the `ArrayIndexOutOfBoundsException` from the array read both become `None`. The `StringIndexOutOfBoundsException` that `substring(1)` throws on an empty URI or pattern becomes a precondition of `Create` and `IsPath`. For the combined predicates it is a precondition only of the predicate for the request's own method, since the others never call `isPath`.
- Strings are modelled as sequences of Unicode scalar values, not of UTF-16 code units. For a URI or pattern that starts with a character outside the Basic Multilingual Plane, Java's `substring(1)` removes only the high surrogate and leaves the low surrogate at the start of the first part; the model removes the whole character. Java strings with unpaired surrogates cannot be represented at all.
- `split` takes a regular expression. The model splits on the single literal character `/` and has no regex engine.
- `null` arguments are not modelled: Dafny strings cannot be null, so the exception Java raises on a null method or URI has no counterpart.
- Thread safety is not modelled. The value is immutable and nothing in it is concurrent.
