/** Matching a request against a route, and reading path and query
    parameters once a route is chosen (the router's `matchRoute`,
    `extractParams` and `extractQueryString`, and the `find` over the
    route table). */
module Matching {
  import opened RouterTypes
  import opened Paths

  predicate IsUpper(c: char) {
    'A' <= c <= 'Z'
  }

  function LowerChar(c: char): char {
    if IsUpper(c) then (c as int + 32) as char else c
  }

  /** `toLowerCase()` on the ASCII letters. */
  function ToLower(s: string): (r: string)
    ensures |r| == |s|
    ensures forall i :: 0 <= i < |r| ==> !IsUpper(r[i])
    ensures forall i :: 0 <= i < |r| && !IsUpper(s[i]) ==> r[i] == s[i]
    ensures forall i :: 0 <= i < |r| && IsUpper(s[i]) ==> r[i] as int == s[i] as int + ('a' as int - 'A' as int)
  {
    seq(|s|, i requires 0 <= i < |s| => LowerChar(s[i]))
  }

  /** `req.method?.toLowerCase()`: a missing method stays missing. */
  function LowerMethod(m: Option<string>): (lowered: Option<string>)
    ensures lowered.Some? <==> m.Some?
    ensures lowered.Some? ==> |lowered.value| == |m.value| && ToLower(lowered.value) == lowered.value
    ensures lowered.Some? ==> lowered.value == ToLower(m.value)
  {
    if m.Some? then
      var l := ToLower(m.value);
      assert ToLower(l) == l;
      Some(l)
    else None
  }

  /** `routeSegments.every(...)`: each route segment is a parameter or equals
      the path segment at the same position. */
  function SegmentsAgree(rs: seq<string>, ps: seq<string>): (agree: bool)
    requires |rs| == |ps|
    ensures agree <==> forall i :: 0 <= i < |rs| ==> IsParam(rs[i]) || rs[i] == ps[i]
  {
    |rs| == 0 || ((IsParam(rs[0]) || rs[0] == ps[0]) && SegmentsAgree(rs[1..], ps[1..]))
  }

  /** `matchRoute`: the stored method equals the (already lower-cased) request
      method exactly, the segment counts agree, and every route segment is a
      parameter or equals the path segment at its position. */
  function MatchRoute(route: Route, pathname: string, verb: Option<string>): (matched: bool)
    ensures matched <==>
      && verb == Some(route.verb)
      && |Segments(route.path)| == |Segments(pathname)|
      && forall i :: 0 <= i < |Segments(route.path)| ==>
           IsParam(Segments(route.path)[i]) || Segments(route.path)[i] == Segments(pathname)[i]
  {
    if verb != Some(route.verb) then false
    else
      var rs := Segments(route.path);
      var ps := Segments(pathname);
      if |rs| != |ps| then false else SegmentsAgree(rs, ps)
  }

  /** A leading or trailing slash on the request path never changes whether a route matches. */
  lemma SlashesDoNotAffectMatching(route: Route, pathname: string, verb: Option<string>)
    ensures MatchRoute(route, pathname + [Slash], verb) == MatchRoute(route, pathname, verb)
    ensures MatchRoute(route, [Slash] + pathname, verb) == MatchRoute(route, pathname, verb)
  {
    SlashesInsignificant(pathname, "");
  }

  /** The router lower-cases only the request's method, never the stored one:
      a route declared with an upper-case letter in its method matches no request. */
  lemma UpperCaseRouteMethodNeverMatches(route: Route, pathname: string, requestMethod: Option<string>, k: nat)
    requires k < |route.verb| && IsUpper(route.verb[k])
    ensures !MatchRoute(route, pathname, LowerMethod(requestMethod))
  {
  }

  /** A route matches the request method it was declared with, once lower-case,
      at its own path. */
  lemma RouteMatchesOwnPath(route: Route, requestMethod: string)
    requires ToLower(requestMethod) == route.verb
    ensures MatchRoute(route, route.path, LowerMethod(Some(requestMethod)))
  {
  }

  /** `pathSegments[index]`: undefined past the end. */
  function At(ps: seq<string>, i: nat): (segment: Option<string>)
    ensures segment.Some? <==> i < |ps|
    ensures segment.Some? ==> segment.value == ps[i]
  {
    if i < |ps| then Some(ps[i]) else None
  }

  /** The params map `extractParams` builds: each parameter segment, left to
      right, sets its name to the path segment at the same position. */
  function ParamsOf(rs: seq<string>, ps: seq<string>): (params: map<string, Option<string>>)
    ensures forall name :: name in params ==> params[name] == None || params[name].value in ps
    decreases |rs|
  {
    if |rs| == 0 then map[]
    else
      var i := |rs| - 1;
      var before := ParamsOf(rs[..i], ps);
      if IsParam(rs[i]) then before[ParamName(rs[i]) := At(ps, i)] else before
  }

  /** Position `i` holds the last parameter segment named `name`. */
  ghost predicate LastNamed(rs: seq<string>, i: int, name: string) {
    && 0 <= i < |rs| && IsParam(rs[i]) && ParamName(rs[i]) == name
    && forall j :: i < j < |rs| && IsParam(rs[j]) ==> ParamName(rs[j]) != name
  }

  /** The keys of the params map are exactly the names of the parameter
      segments (literal segments contribute nothing), and each name maps to
      the path segment at the last position that declares it. */
  lemma {:induction false} ParamsOfSpec(rs: seq<string>, ps: seq<string>)
    ensures forall name :: name in ParamsOf(rs, ps) <==>
      exists i :: 0 <= i < |rs| && IsParam(rs[i]) && ParamName(rs[i]) == name
    ensures forall i, name :: LastNamed(rs, i, name) ==> ParamsOf(rs, ps)[name] == At(ps, i)
    decreases |rs|
  {
    if |rs| > 0 {
      var n := |rs| - 1;
      var front := rs[..n];
      ParamsOfSpec(front, ps);
      forall name | name in ParamsOf(rs, ps)
        ensures exists i :: 0 <= i < |rs| && IsParam(rs[i]) && ParamName(rs[i]) == name
      {
        if !(IsParam(rs[n]) && ParamName(rs[n]) == name) {
          assert name in ParamsOf(front, ps);
          var i :| 0 <= i < |front| && IsParam(front[i]) && ParamName(front[i]) == name;
          assert rs[i] == front[i];
        }
      }
      forall name | exists i :: 0 <= i < |rs| && IsParam(rs[i]) && ParamName(rs[i]) == name
        ensures name in ParamsOf(rs, ps)
      {
        var i :| 0 <= i < |rs| && IsParam(rs[i]) && ParamName(rs[i]) == name;
        if i < n {
          assert front[i] == rs[i];
        }
      }
      forall i, name | LastNamed(rs, i, name)
        ensures ParamsOf(rs, ps)[name] == At(ps, i)
      {
        if i < n {
          assert LastNamed(front, i, name);
        }
      }
    }
  }

  /** For a matched route every parameter is defined: its value is the path
      segment at the position of the last segment that names it. */
  lemma MatchedParamsDefined(route: Route, pathname: string, verb: Option<string>)
    requires MatchRoute(route, pathname, verb)
    ensures forall name :: name in ParamsOf(Segments(route.path), Segments(pathname)) ==>
      exists i :: LastNamed(Segments(route.path), i, name) &&
        ParamsOf(Segments(route.path), Segments(pathname))[name] == Some(Segments(pathname)[i])
  {
    var rs, ps := Segments(route.path), Segments(pathname);
    ParamsOfSpec(rs, ps);
    forall name | name in ParamsOf(rs, ps)
      ensures exists i :: LastNamed(rs, i, name) && ParamsOf(rs, ps)[name] == Some(ps[i])
    {
      var i :| 0 <= i < |rs| && IsParam(rs[i]) && ParamName(rs[i]) == name;
      var last := LastParamNamed(rs, name, i);
      assert LastNamed(rs, last, name);
    }
  }

  /** The last position at or after `i` holding a parameter named `name`. */
  ghost function LastParamNamed(rs: seq<string>, name: string, i: nat): (last: nat)
    requires i < |rs| && IsParam(rs[i]) && ParamName(rs[i]) == name
    ensures i <= last < |rs| && LastNamed(rs, last, name)
    decreases |rs| - i
  {
    if exists j :: i < j < |rs| && IsParam(rs[j]) && ParamName(rs[j]) == name then
      var j :| i < j < |rs| && IsParam(rs[j]) && ParamName(rs[j]) == name;
      LastParamNamed(rs, name, j)
    else i
  }

  /** `extractParams`: fills the params map in one pass over the route's segments. */
  method ExtractParams(routePath: string, pathname: string) returns (params: map<string, Option<string>>)
    ensures params == ParamsOf(Segments(routePath), Segments(pathname))
    ensures forall name :: name in params <==>
      exists i :: 0 <= i < |Segments(routePath)| && IsParam(Segments(routePath)[i]) &&
        ParamName(Segments(routePath)[i]) == name
    ensures forall i, name :: LastNamed(Segments(routePath), i, name) ==>
      params[name] == At(Segments(pathname), i)
  {
    var rs := Segments(routePath);
    var ps := Segments(pathname);
    params := map[];
    for i := 0 to |rs|
      invariant params == ParamsOf(rs[..i], ps)
    {
      assert rs[..i + 1][..i] == rs[..i];
      if IsParam(rs[i]) {
        params := params[ParamName(rs[i]) := At(ps, i)];
      }
    }
    assert rs[..|rs|] == rs;
    ParamsOfSpec(rs, ps);
  }

  /** `copy` holds exactly the keys of `query` whose value is defined, each
      with its value unchanged. */
  ghost predicate CopiesDefined(copy: map<string, QueryValue>, query: map<string, Option<QueryValue>>) {
    && (forall key :: key in copy <==> key in query && query[key].Some?)
    && (forall key :: key in copy ==> query[key] == Some(copy[key]))
  }

  /** The copied query is determined by the parsed query. */
  lemma CopiesDefinedUnique(a: map<string, QueryValue>, b: map<string, QueryValue>, query: map<string, Option<QueryValue>>)
    requires CopiesDefined(a, query) && CopiesDefined(b, query)
    ensures a == b
  {
  }

  /** `extractQueryString`: copies each defined entry of the parsed query. */
  method ExtractQueryString(query: map<string, Option<QueryValue>>) returns (copy: map<string, QueryValue>)
    ensures forall key :: key in copy <==> key in query && query[key].Some?
    ensures forall key :: key in copy ==> query[key] == Some(copy[key])
    ensures copy.Keys <= query.Keys
  {
    copy := map[];
    var pending := query.Keys;
    while pending != {}
      invariant pending <= query.Keys
      invariant forall key :: key in copy <==> key in query && key !in pending && query[key].Some?
      invariant forall key :: key in copy ==> query[key] == Some(copy[key])
      decreases pending
    {
      var key :| key in pending;
      if query[key].Some? {
        copy := copy[key := query[key].value];
      }
      pending := pending - {key};
    }
  }

  /** Route `i` is the first in the table that matches. */
  ghost predicate FirstMatch(routes: seq<Route>, pathname: string, verb: Option<string>, i: int) {
    && 0 <= i < |routes|
    && MatchRoute(routes[i], pathname, verb)
    && forall j :: 0 <= j < i ==> !MatchRoute(routes[j], pathname, verb)
  }

  /** `routes.find(...)`: the first matching route in table order, if any. */
  method Find(routes: seq<Route>, pathname: string, verb: Option<string>) returns (found: Option<nat>)
    ensures found.None? <==> forall j :: 0 <= j < |routes| ==> !MatchRoute(routes[j], pathname, verb)
    ensures found.Some? ==> FirstMatch(routes, pathname, verb, found.value)
  {
    for i := 0 to |routes|
      invariant forall j :: 0 <= j < i ==> !MatchRoute(routes[j], pathname, verb)
    {
      if MatchRoute(routes[i], pathname, verb) {
        return Some(i);
      }
    }
    return None;
  }

  /** Registration only appends, so a request that some route already
      dispatches to keeps going to that route whatever is registered later. */
  lemma FirstMatchSurvivesAppend(routes: seq<Route>, later: seq<Route>, pathname: string, verb: Option<string>, i: int)
    requires FirstMatch(routes, pathname, verb, i)
    ensures FirstMatch(routes + later, pathname, verb, i)
  {
  }

  /** Appending routes never turns a match into a 404, and a request that no
      old route matches goes to the first matching new one, if any. */
  lemma FirstMatchAfterAppend(routes: seq<Route>, later: seq<Route>, pathname: string, verb: Option<string>, k: int)
    requires forall j :: 0 <= j < |routes| ==> !MatchRoute(routes[j], pathname, verb)
    requires FirstMatch(later, pathname, verb, k)
    ensures FirstMatch(routes + later, pathname, verb, |routes| + k)
  {
  }
}

/** Dispatch scenarios on concrete paths. */
module MatchingExamples {
  import opened RouterTypes
  import opened Paths
  import opened Matching

  const Show: Handler := Handler("show", [], None)

  /** The segments of `/a/b` and of `/a/b/`, for words `a` and `b`. */
  lemma TwoSegments(a: string, b: string)
    requires a != "" && Slash !in a && b != "" && Slash !in b
    ensures Segments([Slash] + a + [Slash] + b) == [a, b]
    ensures Segments([Slash] + a + [Slash] + b + [Slash]) == [a, b]
  {
    SegmentsOfWord(a);
    SegmentsOfWord(b);
    SegmentsAtSlash(a, b);
    assert [Slash] + a + [Slash] + b == [Slash] + (a + [Slash] + b);
    SlashesInsignificant([Slash] + a + [Slash] + b, "");
  }

  /** `/users/:id` matches `/users/42`, and binds `id` to "42";
      with a trailing slash the request matches the same way. */
  lemma UserIdExample()
    ensures MatchRoute(Route("get", "/users/:id", Show), "/users/42", Some("get"))
    ensures MatchRoute(Route("get", "/users/:id", Show), "/users/42/", Some("get"))
    ensures ParamsOf(Segments("/users/:id"), Segments("/users/42")) == map["id" := Some("42")]
  {
    TwoSegments("users", ":id");
    assert "/users/:id" == [Slash] + "users" + [Slash] + ":id";
    TwoSegments("users", "42");
    assert "/users/42" == [Slash] + "users" + [Slash] + "42";
    assert "/users/42/" == [Slash] + "users" + [Slash] + "42" + [Slash];
    var rs, ps := ["users", ":id"], ["users", "42"];
    assert rs[..1] == ["users"] && rs[..1][..0] == [];
    assert ParamsOf(rs, ps) == map["id" := Some("42")];
  }

  /** Segment counts must agree: `/a/:b` does not match `/a/b/c`. */
  lemma CountMismatchExample()
    ensures !MatchRoute(Route("get", "/a/:b", Show), "/a/b/c", Some("get"))
  {
  }

  /** With `/users/:id` registered before `/users/me`, the request
      `/users/me` goes to the first. */
  lemma FirstRegisteredWinsExample()
    ensures FirstMatch([Route("get", "/users/:id", Show), Route("get", "/users/me", Show)], "/users/me", Some("get"), 0)
  {
    TwoSegments("users", ":id");
    assert "/users/:id" == [Slash] + "users" + [Slash] + ":id";
    TwoSegments("users", "me");
    assert "/users/me" == [Slash] + "users" + [Slash] + "me";
    assert MatchRoute(Route("get", "/users/:id", Show), "/users/me", Some("get"));
  }

  /** A `POST` request does not match a route declared for `get`. */
  lemma OtherVerbExample(pathname: string)
    ensures !MatchRoute(Route("get", pathname, Show), pathname, LowerMethod(Some("POST")))
  {
  }

  /** The request's method is lower-cased before the comparison, so a `GET`
      request reaches a route declared for `get`. */
  lemma UpperCaseRequestExample(pathname: string)
    ensures MatchRoute(Route("get", pathname, Show), pathname, LowerMethod(Some("GET")))
  {
    var l := ToLower("GET");
    assert l[0] == 'g' && l[1] == 'e' && l[2] == 't';
    assert l == "get";
    RouteMatchesOwnPath(Route("get", pathname, Show), "GET");
  }
}
