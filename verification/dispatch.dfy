/** `doDispatch`: from a request to the route table's decision, the argument
    array bound for the handler, and the text written to the response.

    The request's parameter map is given in its `entrySet()` iteration order.
    What a handler itself writes is user code; it is a parameter,
    `handlerOutput`, giving the text a reached handler writes before it returns
    or throws. The servlet adds nothing after an invocation, whether the
    handler returned or threw. */
module Dispatch {
  import opened JavaLang
  import opened Paths
  import opened Naming
  import opened Descriptors
  import opened ParamFormat
  import opened HandlerMapping

  /** One entry of `getParameterMap()`. */
  datatype Param = Param(name: JString, values: seq<JString>)

  /** The parts of `HttpServletRequest` the dispatcher reads. */
  datatype Request = Request(uri: JString, contextPath: JString, parameters: seq<Param>)

  /** One element of the `paramValues` array. */
  datatype Arg = NullArg | RequestArg | ResponseArg | StringArg(text: JString)

  /** A call of `method.invoke(target, args)`. */
  datatype Invocation = Invocation(target: Value, handler: MethodDesc, args: seq<Arg>)

  /** What `doDispatch` does with a request. */
  datatype Decision =
    | Idle                            // the route table is empty
    | NotFound                        // no route for the normalised path
    | NamingFault(handler: MethodDesc) // the declaring class's simple name is empty
    | Invoke(call: Invocation)

  /** What every `String` slot holds once the loop over the parameter map is
      done: the text of the last entry iterated, or `null` for an empty map. */
  function StringSlot(params: seq<Param>): Arg {
    if params == [] then NullArg else StringArg(ParamText(params[|params| - 1].values))
  }

  /** The value one slot receives, by its declared type. */
  function BindSlot(k: ParamKind, params: seq<Param>): Arg {
    match k
    case RequestType => RequestArg
    case ResponseType => ResponseArg
    case StringType => StringSlot(params)
    case OtherType(_) => NullArg
  }

  /** The bound argument array: one slot per parameter; the request and the
      response go to their own types, every `String` slot gets the same text,
      and every other type (`Integer`, `int`, ...) stays `null`. */
  function Bind(kinds: seq<ParamKind>, params: seq<Param>): (args: seq<Arg>)
    ensures |args| == |kinds|
    ensures forall i :: 0 <= i < |kinds| ==> (args[i] == RequestArg <==> kinds[i] == RequestType)
    ensures forall i :: 0 <= i < |kinds| ==> (args[i] == ResponseArg <==> kinds[i] == ResponseType)
    ensures forall i :: 0 <= i < |kinds| && kinds[i] == StringType ==> args[i] == StringSlot(params)
    ensures forall i :: 0 <= i < |kinds| && kinds[i].OtherType? ==> args[i] == NullArg
    ensures forall i :: 0 <= i < |kinds| && args[i].StringArg? ==> kinds[i] == StringType
  {
    seq(|kinds|, i requires 0 <= i < |kinds| => BindSlot(kinds[i], params))
  }

  /** The binding loop as written: a fresh array of `null`s, filled slot by
      slot, and for a `String` slot an inner loop over every parameter entry
      that overwrites the slot each time. */
  method BindArguments(kinds: seq<ParamKind>, params: seq<Param>) returns (args: seq<Arg>)
    ensures args == Bind(kinds, params)
  {
    args := seq(|kinds|, _ => NullArg);
    var i := 0;
    while i < |kinds|
      invariant 0 <= i <= |kinds| && |args| == |kinds|
      invariant forall j :: 0 <= j < i ==> args[j] == BindSlot(kinds[j], params)
      invariant forall j :: i <= j < |kinds| ==> args[j] == NullArg
    {
      var k := kinds[i];
      if k == RequestType {
        args := args[i := RequestArg];
      } else if k == ResponseType {
        args := args[i := ResponseArg];
      } else if k == StringType {
        var e := 0;
        while e < |params|
          invariant 0 <= e <= |params| && |args| == |kinds|
          invariant forall j :: 0 <= j < |kinds| && j != i ==> args[j] == (if j < i then BindSlot(kinds[j], params) else NullArg)
          invariant args[i] == StringSlot(params[..e])
        {
          args := args[i := StringArg(ParamText(params[e].values))];
          e := e + 1;
          assert params[..e][e - 1] == params[e - 1];
        }
        assert params[..e] == params;
      }
      i := i + 1;
    }
  }

  /** `doDispatch` up to the call: the empty-table exit, the normalised path,
      the 404 exit, the argument binding, and the bean named after the
      declaring class. */
  function Decide(table: Table, ioc: Registry, req: Request): (d: Decision)
    ensures d.Idle? <==> table == map[]
    ensures table != map[] ==> (d.NotFound? <==> RequestPath(req.uri, req.contextPath) !in table)
    ensures d.NamingFault? ==>
      var path := RequestPath(req.uri, req.contextPath);
      path in table && d.handler == table[path] && table[path].declaringSimpleName == []
    ensures d.Invoke? ==>
      var path := RequestPath(req.uri, req.contextPath);
      && path in table
      && d.call.handler == table[path]
      && d.call.args == Bind(table[path].params, req.parameters)
      && table[path].declaringSimpleName != []
      && d.call.target == Get(ioc, LowerFirstCase(table[path].declaringSimpleName).value)
  {
    if table == map[] then Idle
    else
      var path := RequestPath(req.uri, req.contextPath);
      if path !in table then NotFound
      else
        var m := table[path];
        var args := Bind(m.params, req.parameters);
        match LowerFirstCase(m.declaringSimpleName)
        case None => NamingFault(m)
        case Some(beanName) => Invoke(Invocation(Get(ioc, beanName), m, args))
  }

  /** `Method.invoke` reaches the handler's body: the target is an object of the
      declaring class and no `null` goes to a primitive parameter. Otherwise it
      throws before the body runs, and the exception is caught. */
  predicate Reaches(call: Invocation) {
    && call.target.Ref?
    && IsInstance(call.target.bean, call.handler.declaringName)
    && |call.args| == |call.handler.params|
    && forall i :: 0 <= i < |call.args| ==> !(call.args[i] == NullArg && IsPrimitive(call.handler.params[i]))
  }

  /** The exact text written on a miss. */
  function NotFoundBody(): JString {
    Chars("404 Not Found!")
  }

  /** Everything written to the response for one request. */
  function Serve(table: Table, ioc: Registry, req: Request, handlerOutput: Invocation -> JString): (body: JString)
    ensures table == map[] ==> body == []
    ensures table != map[] && RequestPath(req.uri, req.contextPath) !in table ==> body == NotFoundBody()
    ensures Decide(table, ioc, req).NamingFault? ==> body == []
    ensures Decide(table, ioc, req).Invoke? ==>
      var call := Decide(table, ioc, req).call;
      body == if Reaches(call) then handlerOutput(call) else []
  {
    match Decide(table, ioc, req)
    case Idle => []
    case NotFound => NotFoundBody()
    case NamingFault(_) => []
    case Invoke(call) => if Reaches(call) then handlerOutput(call) else []
  }

  /** A handler never sees the target it lacks: when no bean is registered
      under the declaring class's lower-cased name, nothing is written. */
  lemma MissingBeanWritesNothing(table: Table, ioc: Registry, req: Request, handlerOutput: Invocation -> JString)
    requires Decide(table, ioc, req).Invoke?
    requires LowerFirstCase(Decide(table, ioc, req).call.handler.declaringSimpleName).value !in ioc
    ensures Serve(table, ioc, req, handlerOutput) == []
  {
  }

  /** A request for a normalised key of the table, with no context path,
      calls that key's handler on the bean named after its declaring class. */
  lemma DecideOnKey(table: Table, ioc: Registry, key: JString, params: seq<Param>)
    requires key in table && NoDoubleSlash(key)
    requires table[key].declaringSimpleName != []
    ensures Decide(table, ioc, Request(key, [], params))
         == Invoke(Invocation(Get(ioc, LowerFirstCase(table[key].declaringSimpleName).value),
                              table[key], Bind(table[key].params, params)))
  {
    CollapseFixpoint(key);
  }

  /** With no context path, a doubled separator anywhere in the URI is
      harmless: inserting one more `/` next to an existing one never changes
      the decision. `ExtraSlashInContextPath` shows why the context path must
      be empty. */
  lemma ExtraSlashSameDecision(table: Table, ioc: Registry, uri: JString, params: seq<Param>, i: nat)
    requires i < |uri| && uri[i] == Slash
    ensures Decide(table, ioc, Request(uri[..i] + [Slash] + uri[i..], [], params))
         == Decide(table, ioc, Request(uri, [], params))
  {
    var s := uri[..i] + [Slash] + uri[i..];
    assert s[i] == Slash && s[i + 1] == Slash;
    assert s[..i] + s[i + 1..] == uri;
    CollapseMergeStep(s, i);
  }

  /** At the root context path, a request for `a` and `b` padded with runs of
      separators of any lengths reaches the route registered for base `/a` and
      value `/b`. */
  lemma PaddedRequestFindsRoute(table: Table, ioc: Registry, a: JString, b: JString,
                                n: nat, m: nat, params: seq<Param>)
    requires IsSegment(a) && IsSegment(b) && n >= 1 && m >= 1
    requires RouteKey([Slash] + a, [Slash] + b) in table
    ensures var d := Decide(table, ioc, Request(Slashes(n) + a + Slashes(m) + b, [], params));
      (d.Invoke? && d.call.handler == table[RouteKey([Slash] + a, [Slash] + b)])
      || (d.NamingFault? && d.handler == table[RouteKey([Slash] + a, [Slash] + b)])
  {
    RouteKeyOfSegments(a, b);
    CollapseTwoSegments(n, a, m, b);
  }

  /** Under a context path that does not recur in the rest of the URI, the
      decision is the one for the rest of the URI alone. */
  lemma ContextPathIgnored(table: Table, ioc: Registry, ctx: JString, p: JString, params: seq<Param>)
    requires ctx != [] && !Occurs(ctx, p)
    ensures Decide(table, ioc, Request(ctx + p, ctx, params)) == Decide(table, ioc, Request(p, [], params))
  {
    RequestPathUnderContext(ctx, p);
  }

  /** The context path is removed before separators are collapsed, so a
      doubled separator inside it defeats the removal: under context path
      `/a/b`, `/a/b/c` is looked up as `/c` but `/a//b/c` as `/a/b/c`. */
  lemma ExtraSlashInContextPath(m: MethodDesc, ioc: Registry, params: seq<Param>)
    ensures var table := map[[Slash, 99] := m];  // "/c"
      && !Decide(table, ioc, Request([Slash, 97, Slash, 98, Slash, 99], [Slash, 97, Slash, 98], params)).NotFound?
      && Decide(table, ioc, Request([Slash, 97, Slash, Slash, 98, Slash, 99], [Slash, 97, Slash, 98], params)).NotFound?
  {
    ContextPathStripped();
    DoubledContextPathKept();
    var path: JString := [Slash, 97, Slash, 98, Slash, 99];
    assert |path| != |[Slash, 99]|;
  }

  /** A URI that repeats the context path loses both copies before lookup,
      provided the rest does not contain the context path again (`replace`
      would remove that occurrence too). */
  lemma ContextPathRepeated(table: Table, ioc: Registry, ctx: JString, q: JString, params: seq<Param>)
    requires ctx != [] && !Occurs(ctx, q)
    ensures Decide(table, ioc, Request(ctx + ctx + q, ctx, params)) == Decide(table, ioc, Request(q, [], params))
  {
    RequestPathRepeatedContext(ctx, q);
  }

  /** Every `String` slot of a call receives the same value, and with one entry
      of plain values that value is the values joined by `,`. */
  lemma StringSlotsOfOneEntry(kinds: seq<ParamKind>, p: Param, i: nat)
    requires i < |kinds| && kinds[i] == StringType
    requires forall j :: 0 <= j < |p.values| ==> Plain(p.values[j])
    ensures Bind(kinds, [p])[i] == StringArg(Join(p.values, [Comma]))
  {
    ParamTextOfPlainValues(p.values);
  }

  /** Each controller is registered under its own lower-cased simple name and
      declares its route-marked methods itself. */
  ghost predicate ControllersUnderOwnNames(ioc: Registry) {
    forall n :: n in ioc && ioc[n].cls.controller.Some? ==>
      && ioc[n].cls.simpleName != []
      && n == LowerFirstCase(ioc[n].cls.simpleName).value
      && forall m :: m in ioc[n].cls.methods && m.mapping.Some? ==>
           m.declaringSimpleName == ioc[n].cls.simpleName && m.declaringName == ioc[n].cls.qualifiedName
  }

  /** Across the phases: with the table built from the registry, a dispatched
      call targets the very controller that registered the route, so the
      declaring-class check of `Method.invoke` passes. */
  lemma HandlerRunsOnItsController(ioc: Registry, order: seq<JString>, req: Request)
    requires forall n :: n in order ==> n in ioc
    requires ControllersUnderOwnNames(ioc)
    ensures var d := Decide(BuildHandlerMapping(ioc, order), ioc, req);
      d.Invoke? ==>
        && d.call.target.Ref?
        && d.call.target.bean.cls.controller.Some?
        && d.call.handler in d.call.target.bean.cls.methods
        && IsInstance(d.call.target.bean, d.call.handler.declaringName)
  {
    var table := BuildHandlerMapping(ioc, order);
    var d := Decide(table, ioc, req);
    if d.Invoke? {
      var path := RequestPath(req.uri, req.contextPath);
      HandlerMappingContents(ioc, order);
      var n :| n in order && IsRouteOf(ioc[n].cls, Route(path, table[path]));
      assert d.call.target == Get(ioc, n);
    }
  }
}
