/** The router of `src/router.rs`: a table from (method, path, version) to a
    handler, filled by `add_route` (a later registration of the same triple
    replaces the earlier one) and consulted by `route`, which matches the
    triple exactly. Handlers are opaque values of a type parameter. */
module Routing {
  import opened Wrappers
  import opened Http

  /** The key a route is registered under. */
  type RouteKey = (Method, string, Version)

  /** The key a request is routed by: its method, path and version. */
  function KeyOf(req: Request): RouteKey
  {
    (req.httpMethod, req.path, req.version)
  }

  /** The handler registered under a request's key, if any. */
  function Lookup<H>(routes: map<RouteKey, H>, req: Request): (r: Option<H>)
    ensures r.Some? <==> KeyOf(req) in routes
    ensures r.Some? ==> r.value == routes[KeyOf(req)]
  {
    if KeyOf(req) in routes then Some(routes[KeyOf(req)]) else None
  }

  class Router<H> {
    var routes: map<RouteKey, H>

    /** `Router::new`: no routes. */
    constructor ()
      ensures routes == map[]
    {
      routes := map[];
    }

    /** `Router::add_route`: registers `handler` under the triple, replacing
        any handler registered there before; nothing else changes. */
    method AddRoute(m: Method, path: string, v: Version, handler: H)
      modifies this
      ensures routes == old(routes)[(m, path, v) := handler]
      ensures forall req :: KeyOf(req) == (m, path, v) ==> Route(req) == Some(handler)
      ensures forall req :: KeyOf(req) != (m, path, v) ==> Route(req) == old(Route(req))
    {
      routes := routes[(m, path, v) := handler];
    }

    /** `Router::route`: the handler registered under exactly the request's
        method, path and version. */
    function Route(req: Request): (r: Option<H>)
      reads this
      ensures r.Some? <==> (req.httpMethod, req.path, req.version) in routes
      ensures r.Some? ==> r.value == routes[(req.httpMethod, req.path, req.version)]
    {
      Lookup(routes, req)
    }
  }

  /** A new router routes no request. */
  lemma EmptyRoutesNothing<H>(routes: map<RouteKey, H>, req: Request)
    requires routes == map[]
    ensures Lookup(routes, req) == None
  {
  }

  /** After registering a triple, every request with that triple gets the
      new handler. */
  lemma RouteAfterAdd<H>(routes: map<RouteKey, H>, m: Method, path: string, v: Version, h: H, req: Request)
    requires req.httpMethod == m && req.path == path && req.version == v
    ensures Lookup(routes[(m, path, v) := h], req) == Some(h)
  {
  }

  /** Registering a triple leaves the routing of every other request as it was. */
  lemma RouteOthersKept<H>(routes: map<RouteKey, H>, m: Method, path: string, v: Version, h: H, req: Request)
    requires req.httpMethod != m || req.path != path || req.version != v
    ensures Lookup(routes[(m, path, v) := h], req) == Lookup(routes, req)
  {
  }

  /** Registering the same triple twice keeps only the second handler. */
  lemma AddRouteOverwrites<H>(routes: map<RouteKey, H>, k: RouteKey, h1: H, h2: H)
    ensures routes[k := h1][k := h2] == routes[k := h2]
  {
  }

  /** Routing looks only at method, path and version: headers and body play
      no part. */
  lemma RouteIgnoresHeadersAndBody<H>(routes: map<RouteKey, H>, a: Request, b: Request)
    requires a.httpMethod == b.httpMethod && a.path == b.path && a.version == b.version
    ensures Lookup(routes, a) == Lookup(routes, b)
  {
  }

  /** Matching is exact: a request is routed only when its own triple was
      registered, whatever else was. */
  lemma RouteExact<H>(routes: map<RouteKey, H>, req: Request, h: H)
    requires Lookup(routes, req) == Some(h)
    ensures (req.httpMethod, req.path, req.version) in routes
    ensures routes[(req.httpMethod, req.path, req.version)] == h
  {
  }

  /** A router built by registering routes in order routes each request to
      the last handler registered under its triple. */
  function Registered<H>(rs: seq<(RouteKey, H)>): map<RouteKey, H>
  {
    if rs == [] then map[] else Registered(rs[..|rs| - 1])[rs[|rs| - 1].0 := rs[|rs| - 1].1]
  }

  /** Entry `i` is the last one registered under `k`. */
  predicate LastAt<H>(rs: seq<(RouteKey, H)>, i: int, k: RouteKey)
  {
    0 <= i < |rs| && rs[i].0 == k && forall j :: i < j < |rs| ==> rs[j].0 != k
  }

  lemma {:induction false} RegisteredLastWins<H>(rs: seq<(RouteKey, H)>, req: Request)
    ensures Lookup(Registered(rs), req).None? <==> forall i :: 0 <= i < |rs| ==> rs[i].0 != KeyOf(req)
    ensures forall i :: LastAt(rs, i, KeyOf(req)) ==> Lookup(Registered(rs), req) == Some(rs[i].1)
  {
    if rs != [] {
      var n := |rs| - 1;
      RegisteredLastWins(rs[..n], req);
      assert forall i :: 0 <= i < n ==> rs[..n][i] == rs[i];
    }
  }
}
