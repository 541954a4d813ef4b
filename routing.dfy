/** The routing table: a builder that records routes in registration order and indexes
    them by method and path. */
module Routing {
  import opened Prelude
  import opened Methods
  import opened Responses
  import opened Framing

  /** A registered handler, after its reply has been turned into a response. */
  type Handler = Request -> Response

  datatype Route = Route(handler: Handler, path: Bytes)

  /** The handler stored for a user handler: its reply, converted with `IntoResponse`. */
  function Boxed(handler: Request -> Reply): (stored: Handler)
    ensures forall request :: stored(request) == IntoResponse(handler(request))
  {
    request => IntoResponse(handler(request))
  }

  /** Calling a stored handler runs the user handler and converts its reply. */
  lemma BoxedCall(handler: Request -> Reply, request: Request)
    ensures Boxed(handler)(request) == IntoResponse(handler(request))
  {
  }

  class Router {
    var routes: seq<Route>
    var lookup: map<(Method, Bytes), nat>

    /** Every key points at a route with its path, and no two keys share a route. */
    ghost predicate Valid()
      reads this
    {
      && (forall key | key in lookup :: lookup[key] < |routes| && routes[lookup[key]].path == key.1)
      && (forall k1, k2 | k1 in lookup && k2 in lookup && k1 != k2 :: lookup[k1] != lookup[k2])
    }

    /** `Router::new()`: no routes and an empty lookup. */
    constructor ()
      ensures routes == [] && lookup == map[]
      ensures Valid()
    {
      routes, lookup := [], map[];
    }

    /** `_add`: push the route, then map `(m, path)` to its index. Registering a key a
        second time panics; the map insertion has happened by then, as in the code. */
    method AddRoute(m: Method, path: Bytes, handler: Handler) returns (status: Result<(), Panic>)
      modifies this
      ensures routes == old(routes) + [Route(handler, path)]
      ensures lookup == old(lookup)[(m, path) := |old(routes)|]
      ensures status == if (m, path) in old(lookup) then Err(DuplicateRoute) else Ok(())
      ensures status.Ok? ==> forall key | key in old(lookup) :: key in lookup && lookup[key] == old(lookup)[key]
      ensures old(Valid()) && status.Ok? ==> Valid()
    {
      var index := |routes|;
      routes := routes + [Route(handler, path)];
      var key := (m, path);
      var duplicate := key in lookup;
      lookup := lookup[key := index];
      status := if duplicate then Err(DuplicateRoute) else Ok(());
    }

    /** `add(m, path, handler)`. */
    method Add(m: Method, path: Bytes, handler: Request -> Reply) returns (status: Result<(), Panic>)
      modifies this
      ensures routes == old(routes) + [Route(Boxed(handler), path)]
      ensures lookup == old(lookup)[(m, path) := |old(routes)|]
      ensures status == if (m, path) in old(lookup) then Err(DuplicateRoute) else Ok(())
      ensures old(Valid()) && status.Ok? ==> Valid()
    {
      status := AddRoute(m, path, Boxed(handler));
    }

    /** `get(path, handler)` is `add(Get, path, handler)`. */
    method Get(path: Bytes, handler: Request -> Reply) returns (status: Result<(), Panic>)
      modifies this
      ensures routes == old(routes) + [Route(Boxed(handler), path)]
      ensures lookup == old(lookup)[(Method.Get, path) := |old(routes)|]
      ensures status == if (Method.Get, path) in old(lookup) then Err(DuplicateRoute) else Ok(())
      ensures old(Valid()) && status.Ok? ==> Valid()
    {
      status := Add(Method.Get, path, handler);
    }

    /** `lookup_handler(m, path)`: the handler of the route indexed under exactly
        `(m, path)`, or `None`. */
    method LookupHandler(m: Method, path: Bytes) returns (found: Option<Handler>)
      ensures found.Some? <==> (m, path) in lookup && lookup[(m, path)] < |routes|
      ensures found.Some? ==> found.value == routes[lookup[(m, path)]].handler
      ensures Valid() ==> (found.Some? <==> (m, path) in lookup)
    {
      var key := (m, path);
      if key !in lookup {
        return None;
      }
      var index := lookup[key];
      if index >= |routes| {
        return None;
      }
      found := Some(routes[index].handler);
    }
  }

  /** After registering one route on a new router, looking up its key gives its
      handler and looking up any other key gives `None`. */
  method RegisteredRouteResolves(m: Method, path: Bytes, handler: Request -> Reply, m': Method, path': Bytes)
    returns (found: Option<Handler>)
    ensures (m', path') == (m, path) ==> found == Some(Boxed(handler))
    ensures (m', path') != (m, path) ==> found == None
  {
    var router := new Router();
    var status := router.Add(m, path, handler);
    found := router.LookupHandler(m', path');
  }

  /** Registering the same method and path twice panics, whatever the handlers. */
  method DuplicateRoutePanics(m: Method, path: Bytes, first: Request -> Reply, second: Request -> Reply)
    returns (status: Result<(), Panic>)
    ensures status == Err(DuplicateRoute)
  {
    var router := new Router();
    status := router.Add(m, path, first);
    status := router.Add(m, path, second);
  }

  /** The key is the pair: one path under two different methods is accepted, and each
      method finds its own handler. */
  method SamePathTwoMethods(m1: Method, m2: Method, path: Bytes, h1: Request -> Reply, h2: Request -> Reply)
    returns (s1: Result<(), Panic>, s2: Result<(), Panic>, found1: Option<Handler>, found2: Option<Handler>)
    requires m1 != m2
    ensures s1 == Ok(()) && s2 == Ok(())
    ensures found1 == Some(Boxed(h1)) && found2 == Some(Boxed(h2))
  {
    var router := new Router();
    s1 := router.Add(m1, path, h1);
    s2 := router.Add(m2, path, h2);
    found1 := router.LookupHandler(m1, path);
    found2 := router.LookupHandler(m2, path);
  }
}
