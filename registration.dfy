/** Registration: which controller methods become routes, and what each
    route holds. */
module Registration {
  import opened RouterTypes

  /** JavaScript truthiness of a metadata string: present and non-empty. */
  predicate Truthy(s: Option<string>): (truthy: bool)
    ensures truthy <==> s != None && s != Some("")
  {
    s.Some? && s.value != ""
  }

  /** A controller method is registered when it declares both a verb and a path. */
  predicate Registrable(d: Descriptor): (registrable: bool)
    ensures registrable ==> d.httpMethod.Some? && d.path.Some?
    ensures !registrable <==> d.httpMethod in {None, Some("")} || d.path in {None, Some("")}
  {
    Truthy(d.httpMethod) && Truthy(d.path)
  }

  /** `${basePath}`: a missing base path is rendered as the text "undefined". */
  function BaseText(base: Option<string>): (text: string)
    ensures base.Some? ==> text == base.value
    ensures base.None? ==> text == "undefined"
  {
    if base.Some? then base.value else "undefined"
  }

  /** The bindings a handler resolves: none when the metadata declares none. */
  function BindingsOf(d: Descriptor): (bindings: seq<Binding>)
    ensures d.bindings.Some? ==> bindings == d.bindings.value
    ensures d.bindings.None? ==> bindings == []
  {
    if d.bindings.Some? then d.bindings.value else []
  }

  /** The route registered for a controller method: its verb as declared,
      the base path and the method's path joined as they are, and the handler. */
  function RouteOf(base: Option<string>, d: Descriptor): (route: Route)
    requires Registrable(d)
    ensures route.verb == d.httpMethod.value && route.verb != ""
    ensures |route.path| > |BaseText(base)|
    ensures route.path[..|BaseText(base)|] == BaseText(base)
    ensures route.path[|BaseText(base)|..] == d.path.value
    ensures route.handler == Handler(d.action, BindingsOf(d), d.response)
  {
    Route(d.httpMethod.value, BaseText(base) + d.path.value, Handler(d.action, BindingsOf(d), d.response))
  }

  /** The routes one registration appends, in the controller's method order. */
  function RoutesFor(base: Option<string>, ds: seq<Descriptor>): (routes: seq<Route>)
    ensures |routes| <= |ds|
    ensures forall i :: 0 <= i < |routes| ==> routes[i].verb != "" && routes[i].path != ""
    decreases |ds|
  {
    if |ds| == 0 then []
    else
      var d := ds[|ds| - 1];
      var before := RoutesFor(base, ds[..|ds| - 1]);
      if Registrable(d) then before + [RouteOf(base, d)] else before
  }

  /** Every appended route comes from a registrable method of the controller,
      and every registrable method yields a route. A route's verb is the
      declared one and its path is the literal text of the base path followed
      by the method's path, with no slash added or removed. */
  lemma {:induction false} RoutesForProvenance(base: Option<string>, ds: seq<Descriptor>)
    ensures forall r :: r in RoutesFor(base, ds) <==>
      exists d :: d in ds && Registrable(d) && r == RouteOf(base, d)
    ensures forall r :: r in RoutesFor(base, ds) ==>
      exists d :: d in ds && Registrable(d) && r.verb == d.httpMethod.value &&
        r.path == BaseText(base) + d.path.value
    decreases |ds|
  {
    if |ds| > 0 {
      var n := |ds| - 1;
      var front := ds[..n];
      RoutesForProvenance(base, front);
      assert ds == front + [ds[n]];
      forall r | r in RoutesFor(base, ds)
        ensures exists d :: d in ds && Registrable(d) && r == RouteOf(base, d)
      {
        if r !in RoutesFor(base, front) {
          assert r == RouteOf(base, ds[n]);
        } else {
          var d :| d in front && Registrable(d) && r == RouteOf(base, d);
          assert d in ds;
        }
      }
      forall r | exists d :: d in ds && Registrable(d) && r == RouteOf(base, d)
        ensures r in RoutesFor(base, ds)
      {
        var d :| d in ds && Registrable(d) && r == RouteOf(base, d);
        if d != ds[n] {
          assert d in front;
        }
      }
    }
  }

  /** Registering methods in two batches appends the routes of the first
      batch and then those of the second: each method contributes its own
      routes, in method order. */
  lemma {:induction false} RoutesForConcat(base: Option<string>, p: seq<Descriptor>, q: seq<Descriptor>)
    ensures RoutesFor(base, p + q) == RoutesFor(base, p) + RoutesFor(base, q)
    decreases |q|
  {
    if |q| == 0 {
      assert p + q == p;
    } else {
      var n := |q| - 1;
      assert (p + q)[..|p + q| - 1] == p + q[..n];
      assert (p + q)[|p + q| - 1] == q[n];
      RoutesForConcat(base, p, q[..n]);
    }
  }

  /** A single method yields exactly one route when it declares both a verb
      and a path, and none otherwise. */
  lemma RoutesForOne(base: Option<string>, d: Descriptor)
    ensures RoutesFor(base, [d]) == if Registrable(d) then [RouteOf(base, d)] else []
  {
    assert [d][..0] == [];
  }

  /** A registration appends at most one route per method, and exactly one
      per method precisely when every method declares both a verb and a path. */
  lemma {:induction false} RoutesForLength(base: Option<string>, ds: seq<Descriptor>)
    ensures |RoutesFor(base, ds)| <= |ds|
    ensures |RoutesFor(base, ds)| == |ds| <==> forall i :: 0 <= i < |ds| ==> Registrable(ds[i])
    decreases |ds|
  {
    if |ds| > 0 {
      var n := |ds| - 1;
      var front := ds[..n];
      RoutesForLength(base, front);
      if forall i :: 0 <= i < |ds| ==> Registrable(ds[i]) {
        assert forall i :: 0 <= i < |front| ==> Registrable(front[i]) by {
          forall i | 0 <= i < |front| ensures Registrable(front[i]) {
            assert front[i] == ds[i];
          }
        }
      } else if Registrable(ds[n]) {
        var i :| 0 <= i < |ds| && !Registrable(ds[i]);
        assert front[i] == ds[i];
      }
    }
  }
}
