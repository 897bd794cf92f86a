/** `initHandlerMapping`: the route table from normalised URL to handler method.

    Only beans whose class carries `@DPController` are visited, and of their
    `getMethods()` only those carrying `@DPRequestMapping`. Registrations are
    plain `put`s, so a later registration of the same key silently replaces an
    earlier one; "later" follows the registry's iteration order and then the
    order of `getMethods()`. */
module HandlerMapping {
  import opened JavaLang
  import opened Paths
  import opened Descriptors

  /** The route table `handlerMapping`. */
  type Table = map<JString, MethodDesc>

  /** One `handlerMapping.put(url, method)`. */
  datatype Route = Route(key: JString, handler: MethodDesc)

  /** The class-level mapping value, `""` when the class has none. */
  function Base(cls: TypeDesc): JString {
    if cls.mapping.Some? then cls.mapping.value else []
  }

  /** `r` is a registration the class makes: it is a controller, and `r` pairs a
      route-marked method of it with that method's key. */
  ghost predicate IsRouteOf(cls: TypeDesc, r: Route) {
    && cls.controller.Some?
    && r.handler in cls.methods
    && r.handler.mapping.Some?
    && r.key == RouteKey(Base(cls), r.handler.mapping.value)
  }

  /** The inner loop over one controller's methods. */
  function MethodRoutes(base: JString, methods: seq<MethodDesc>): (routes: seq<Route>)
    ensures forall r :: r in routes <==>
      r.handler in methods && r.handler.mapping.Some? && r.key == RouteKey(base, r.handler.mapping.value)
    decreases methods
  {
    if methods == [] then []
    else
      var m := methods[0];
      var rest := MethodRoutes(base, methods[1..]);
      if m.mapping.Some? then [Route(RouteKey(base, m.mapping.value), m)] + rest else rest
  }

  /** Every registration the outer loop makes, in the order it makes them. */
  function Registrations(ioc: Registry, order: seq<JString>): (routes: seq<Route>)
    requires forall n :: n in order ==> n in ioc
    ensures forall r :: r in routes <==> exists n :: n in order && IsRouteOf(ioc[n].cls, r)
    decreases order
  {
    if order == [] then []
    else
      var cls := ioc[order[0]].cls;
      var rest := Registrations(ioc, order[1..]);
      assert forall n :: n in order <==> n == order[0] || n in order[1..];
      if cls.controller.Some? then MethodRoutes(Base(cls), cls.methods) + rest else rest
  }

  /** No registration after index `i` uses the same key. */
  ghost predicate LastFor(routes: seq<Route>, i: int) {
    0 <= i < |routes| && forall j :: i < j < |routes| ==> routes[j].key != routes[i].key
  }

  /** The puts, in order, on top of `t`. */
  function PutAll(t: Table, routes: seq<Route>): Table
    decreases |routes|
  {
    if routes == [] then t
    else
      var last := routes[|routes| - 1];
      PutAll(t, routes[..|routes| - 1])[last.key := last.handler]
  }

  /** The last put is the outermost update. */
  lemma PutAllUnfold(t: Table, routes: seq<Route>)
    requires routes != []
    ensures var n := |routes| - 1;
      PutAll(t, routes) == PutAll(t, routes[..n])[routes[n].key := routes[n].handler]
  {
  }

  /** A key is in the table exactly when it was there before or some route puts it. */
  lemma {:induction false} PutAllKeys(t: Table, routes: seq<Route>)
    ensures forall k :: k in PutAll(t, routes) <==>
      k in t || exists i :: 0 <= i < |routes| && routes[i].key == k
    decreases |routes|
  {
    if routes != [] {
      var n := |routes| - 1;
      var init := routes[..n];
      PutAllKeys(t, init);
      PutAllUnfold(t, routes);
      forall k
        ensures k in PutAll(t, routes) <==>
          k in t || exists i :: 0 <= i < |routes| && routes[i].key == k
      {
        if k != routes[n].key && k !in t {
          if k in PutAll(t, init) {
            var i :| 0 <= i < |init| && init[i].key == k;
            assert routes[i].key == k;
          }
          if exists i :: 0 <= i < |routes| && routes[i].key == k {
            var i :| 0 <= i < |routes| && routes[i].key == k;
            assert init[i].key == k;
          }
        }
      }
    }
  }

  /** Last put wins: the key of a route that no later route reuses holds that
      route's method. */
  lemma {:induction false} PutAllLast(t: Table, routes: seq<Route>, i: int)
    requires LastFor(routes, i)
    ensures routes[i].key in PutAll(t, routes)
    ensures PutAll(t, routes)[routes[i].key] == routes[i].handler
    decreases |routes|
  {
    var n := |routes| - 1;
    PutAllUnfold(t, routes);
    if i < n {
      var init := routes[..n];
      assert init[i] == routes[i];
      assert LastFor(init, i);
      PutAllLast(t, init, i);
    }
  }

  /** A key no route puts keeps its value from `t`. */
  lemma {:induction false} PutAllUntouched(t: Table, routes: seq<Route>, k: JString)
    requires k in t
    requires forall i :: 0 <= i < |routes| ==> routes[i].key != k
    ensures k in PutAll(t, routes) && PutAll(t, routes)[k] == t[k]
    decreases |routes|
  {
    if routes != [] {
      var n := |routes| - 1;
      var init := routes[..n];
      PutAllUnfold(t, routes);
      assert forall i :: 0 <= i < |init| ==> init[i] == routes[i];
      PutAllUntouched(t, init, k);
    }
  }

  /** `initHandlerMapping`, with `order` the iteration order of `ioc.entrySet()`. */
  function BuildHandlerMapping(ioc: Registry, order: seq<JString>): (table: Table)
    requires forall n :: n in order ==> n in ioc
    ensures ioc == map[] ==> table == map[]
  {
    if ioc == map[] then map[] else PutAll(map[], Registrations(ioc, order))
  }

  /** The table holds a key exactly when some controller in the registry has a
      route-marked method under it, and its value is such a method: the one
      registered last. Other beans and unmarked methods contribute nothing. */
  lemma HandlerMappingContents(ioc: Registry, order: seq<JString>)
    requires forall n :: n in order ==> n in ioc
    ensures forall k :: k in BuildHandlerMapping(ioc, order) <==>
      exists n, m :: n in order && IsRouteOf(ioc[n].cls, Route(k, m))
    ensures forall k :: k in BuildHandlerMapping(ioc, order) ==>
      exists n :: n in order && IsRouteOf(ioc[n].cls, Route(k, BuildHandlerMapping(ioc, order)[k]))
    ensures var routes := Registrations(ioc, order);
      forall i :: LastFor(routes, i) ==>
        routes[i].key in BuildHandlerMapping(ioc, order)
        && BuildHandlerMapping(ioc, order)[routes[i].key] == routes[i].handler
  {
    var routes := Registrations(ioc, order);
    var table := BuildHandlerMapping(ioc, order);
    if ioc != map[] {
      PutAllKeys(map[], routes);
      forall i | LastFor(routes, i)
        ensures routes[i].key in table && table[routes[i].key] == routes[i].handler
      {
        PutAllLast(map[], routes, i);
      }
      forall k | k in table
        ensures exists n :: n in order && IsRouteOf(ioc[n].cls, Route(k, table[k]))
      {
        var i :| 0 <= i < |routes| && routes[i].key == k;
        var j := LastIndex(routes, i);
        PutAllLast(map[], routes, j);
        assert routes[j] in routes;
      }
      forall k, n, m | n in order && IsRouteOf(ioc[n].cls, Route(k, m))
        ensures k in table
      {
        assert Route(k, m) in routes;
      }
    } else {
      assert order == [];
      assert routes == [];
    }
  }

  /** The last index at or after `i` that registers the same key as `i`. */
  function LastIndex(routes: seq<Route>, i: nat): (j: nat)
    requires i < |routes|
    ensures i <= j && LastFor(routes, j) && routes[j].key == routes[i].key
    decreases |routes| - i
  {
    if exists j :: i < j < |routes| && routes[j].key == routes[i].key then
      var j :| i < j < |routes| && routes[j].key == routes[i].key;
      LastIndex(routes, j)
    else i
  }

  /** Which keys exist does not depend on the iteration order; only which method
      a key registered more than once holds can. */
  lemma HandlerMappingKeysOrderIndependent(ioc: Registry, o1: seq<JString>, o2: seq<JString>)
    requires Enumerates(o1, ioc.Keys) && Enumerates(o2, ioc.Keys)
    ensures BuildHandlerMapping(ioc, o1).Keys == BuildHandlerMapping(ioc, o2).Keys
  {
    HandlerMappingContents(ioc, o1);
    HandlerMappingContents(ioc, o2);
    assert forall n :: n in o1 <==> n in o2;
  }
}
