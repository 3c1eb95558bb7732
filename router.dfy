/** The router: an append-only table of routes, filled by registering
    controllers and read by each dispatch. */
module Routing {
  import opened RouterTypes
  import opened Paths
  import opened Matching
  import opened Arguments
  import opened Registration

  const NotFoundStatus: int := 404
  const NotFoundText: string := "Not Found"

  class Router {
    var routes: seq<Route>

    constructor ()
      ensures routes == []
    {
      routes := [];
    }

    /** `register`: appends one route per controller method that declares
        both a verb and a path, in the controller's method order; the routes
        already in the table stay as they are. */
    method Register(c: Controller)
      modifies this
      ensures routes == old(routes) + RoutesFor(c.basePath, c.methods)
    {
      var ds := c.methods;
      for i := 0 to |ds|
        invariant routes == old(routes) + RoutesFor(c.basePath, ds[..i])
      {
        assert ds[..i + 1][..i] == ds[..i];
        var d := ds[i];
        if Truthy(d.httpMethod) && Truthy(d.path) {
          var h := Handler(d.action, BindingsOf(d), d.response);
          routes := routes + [Route(d.httpMethod.value, BaseText(c.basePath) + d.path.value, h)];
        }
      }
      assert ds[..|ds|] == ds;
    }

    /** `handle`: dispatches the request to the first route that matches its
        lower-cased method and its pathname, after filling in the request's
        path and query parameters; with no matching route it replies 404. */
    method Handle(req: Request, controller: (string, seq<Arg>) -> Opaque) returns (o: Outcome)
      modifies req
      ensures o.Replied? <==>
        forall j :: 0 <= j < |routes| ==> !MatchRoute(routes[j], req.pathname, LowerMethod(req.verb))
      ensures o.Replied? ==>
        o == Replied(NotFoundStatus, NotFoundText) && req.params == old(req.params) && req.query == old(req.query)
      ensures o.Dispatched? ==>
        && FirstMatch(routes, req.pathname, LowerMethod(req.verb), o.route)
        && req.params == ParamsOf(Segments(routes[o.route].path), Segments(req.pathname))
        && CopiesDefined(req.query, req.rawQuery)
        && SortedByIndex(o.order) && SameRuns(o.order, routes[o.route].handler.bindings)
        && |o.args| == |o.order|
        && (forall i :: 0 <= i < |o.args| ==> o.args[i] == Resolve(o.order[i], req.params, req.query, req.body))
        && o.result == controller(routes[o.route].handler.action, o.args)
        && Responds(routes[o.route].handler.response, o.result, o.write)
    {
      var verb := LowerMethod(req.verb);
      var found := Find(routes, req.pathname, verb);
      if found.Some? {
        var route := routes[found.value];
        var params := ExtractParams(route.path, req.pathname);
        req.params := params;
        var query := ExtractQueryString(req.rawQuery);
        req.query := query;
        var order, args, result, write := RunHandler(route.handler, req, controller);
        o := Dispatched(found.value, order, args, result, write);
      } else {
        o := Replied(NotFoundStatus, NotFoundText);
      }
    }
  }
}
