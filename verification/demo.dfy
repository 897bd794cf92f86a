/** The sample controller `DemoAction` run through every phase: one class,
    registered as `demoAction`, with base `/demo` and three routes
    (`/query.json`, `/add.json`, `/remove.json`), and one marked field of type
    `IDemoService` whose implementation is not on the class list.

    `getMethods()` also returns the methods inherited from `Object`; they carry
    no route marker, so they are left out of the descriptor. */
module DemoFixture {
  import opened JavaLang
  import opened Paths
  import opened Naming
  import opened Descriptors
  import opened Instantiation
  import opened Autowiring
  import opened HandlerMapping
  import opened ParamFormat
  import opened Dispatch

  const ActionClass: JString := Chars("com.dingp.demo.mvc.action.DemoAction")
  const ServiceType: JString := Chars("com.dingp.demo.service.IDemoService")
  const IntegerType: ParamKind := OtherType(Chars("java.lang.Integer"))

  const Demo: JString := Chars("demo")
  const QueryJson: JString := Chars("query.json")
  const AddJson: JString := Chars("add.json")
  const RemoveJson: JString := Chars("remove.json")

  /** `query(request, response, String name)` under `/query.json`. */
  const Query: MethodDesc :=
    MethodDesc(Chars("query"), ActionClass, Chars("DemoAction"), Some([Slash] + QueryJson),
               [RequestType, ResponseType, StringType])

  /** `add(request, response, Integer a, Integer b)` under `/add.json`. */
  const Add: MethodDesc :=
    MethodDesc(Chars("add"), ActionClass, Chars("DemoAction"), Some([Slash] + AddJson),
               [RequestType, ResponseType, IntegerType, IntegerType])

  /** `remove(request, response, Integer id)` under `/remove.json`. */
  const Remove: MethodDesc :=
    MethodDesc(Chars("remove"), ActionClass, Chars("DemoAction"), Some([Slash] + RemoveJson),
               [RequestType, ResponseType, IntegerType])

  /** `@DPController @DPRequestMapping("/demo") class DemoAction`. */
  const DemoAction: TypeDesc :=
    TypeDesc(Chars("DemoAction"), ActionClass, Some([]), None, Some([Slash] + Demo), [], {},
             [FieldDesc(Chars("iDemoService"), ServiceType, Some([]))],
             [Query, Add, Remove], true)

  const BeanName: JString := Chars("demoAction")
  const Classes: map<JString, TypeDesc> := map[ActionClass := DemoAction]

  /** The registry after `doInstance`. */
  const Ioc: Registry := map[BeanName := Bean(0, DemoAction)]

  const QueryKey: JString := [Slash] + Demo + [Slash] + QueryJson
  const AddKey: JString := [Slash] + Demo + [Slash] + AddJson
  const RemoveKey: JString := [Slash] + Demo + [Slash] + RemoveJson

  /** The route table after `initHandlerMapping`. */
  const DemoTable: Table :=
    map[QueryKey := Query, AddKey := Add, RemoveKey := Remove]

  /** The three keys differ (already in length), so each finds its own method. */
  lemma DemoTableLookups()
    ensures QueryKey in DemoTable && DemoTable[QueryKey] == Query
    ensures AddKey in DemoTable && DemoTable[AddKey] == Add
    ensures RemoveKey in DemoTable && DemoTable[RemoveKey] == Remove
  {
    assert |QueryKey| == 16 && |AddKey| == 14 && |RemoveKey| == 17;
  }

  lemma BeanNameIsLowerFirstCase()
    ensures LowerFirstCase(Chars("DemoAction")) == Some(BeanName)
  {
    LowerFirstOfChars("DemoAction", "demoAction");
  }

  /** Registering the one class gives one entry, `demoAction`. */
  lemma DemoRegistry()
    ensures DoInstance([ActionClass], Classes, map[], 0)
            == Outcome(Ioc, 1, None)
  {
    BeanNameIsLowerFirstCase();
  }

  /** `IDemoService` is not registered, so the marked field is set to `null`. */
  lemma DemoWiring()
    ensures Autowire(Ioc, [BeanName]) == map[0 := map[Chars("iDemoService") := Null]]
  {
    var f := DemoAction.fields[0];
    assert Trim(f.autowired.value) == [];
    assert TargetName(f) == ServiceType;
    assert ServiceType !in Ioc;
    var fields := DemoAction.fields;
    assert fields[..0] == [];
    assert InjectFields(fields, Ioc) == map[Chars("iDemoService") := Null];
  }

  lemma SegmentsOfDemo()
    ensures IsSegment(Demo) && IsSegment(QueryJson) && IsSegment(AddJson) && IsSegment(RemoveJson)
  {
  }

  /** A registry holding one controller with three route-marked methods
      yields one route per method, later methods winning shared keys. */
  lemma ThreeRouteController(cls: TypeDesc, n: JString, id: nat)
    requires cls.controller.Some? && |cls.methods| == 3
    requires forall i :: 0 <= i < 3 ==> cls.methods[i].mapping.Some?
    ensures var ms, base := cls.methods, Base(cls);
      BuildHandlerMapping(map[n := Bean(id, cls)], [n])
      == map[RouteKey(base, ms[0].mapping.value) := ms[0],
             RouteKey(base, ms[1].mapping.value) := ms[1],
             RouteKey(base, ms[2].mapping.value) := ms[2]]
  {
    var ms, base := cls.methods, Base(cls);
    var ioc := map[n := Bean(id, cls)];
    var routes := [Route(RouteKey(base, ms[0].mapping.value), ms[0]),
                   Route(RouteKey(base, ms[1].mapping.value), ms[1]),
                   Route(RouteKey(base, ms[2].mapping.value), ms[2])];
    assert ms[2..][1..] == [];
    assert MethodRoutes(base, ms[2..]) == routes[2..];
    assert ms[1..][1..] == ms[2..];
    assert MethodRoutes(base, ms[1..]) == routes[1..];
    assert MethodRoutes(base, ms) == routes;
    assert Registrations(ioc, [n]) == routes;
    assert routes[..2][..1] == [routes[0]];
    assert routes[..2] == [routes[0], routes[1]];
    assert routes[..1][..0] == [];
    assert n in ioc;
    PutAllUnfold(map[], routes);
    PutAllUnfold(map[], routes[..2]);
    PutAllUnfold(map[], routes[..1]);
  }

  /** The three routes, each `/demo/<value>`. */
  lemma DemoRoutes()
    ensures BuildHandlerMapping(Ioc, [BeanName]) == DemoTable
  {
    SegmentsOfDemo();
    ThreeRouteController(DemoAction, BeanName, 0);
    RouteKeyOfSegments(Demo, QueryJson);
    RouteKeyOfSegments(Demo, AddJson);
    RouteKeyOfSegments(Demo, RemoveJson);
  }

  /** The bean every demo route is invoked on. */
  lemma DemoTarget()
    ensures LowerFirstCase(Chars("DemoAction")).Some?
    ensures Get(Ioc, LowerFirstCase(Chars("DemoAction")).value) == Ref(Bean(0, DemoAction))
  {
    BeanNameIsLowerFirstCase();
  }

  /** `add`'s slots: request, response, and two `Integer`s left `null`. */
  lemma AddArgs(params: seq<Param>)
    ensures Bind(Add.params, params) == [RequestArg, ResponseArg, NullArg, NullArg]
  {
    var args := Bind(Add.params, params);
    assert args[2] == NullArg && args[3] == NullArg;
  }

  /** `/demo/add.json` runs `add` on the `demoAction` bean with both `Integer`
      arguments `null`, whatever the request parameters. */
  lemma DemoAddIsCalledWithNulls(params: seq<Param>)
    ensures Decide(DemoTable, Ioc, Request(AddKey, [], params))
         == Invoke(Invocation(Ref(Bean(0, DemoAction)), Add, [RequestArg, ResponseArg, NullArg, NullArg]))
  {
    SegmentsOfDemo();
    RouteKeyOfSegments(Demo, AddJson);
    DemoTableLookups();
    DecideOnKey(DemoTable, Ioc, AddKey, params);
    DemoTarget();
    AddArgs(params);
  }

  /** `//demo///add.json` reaches the same handler. */
  lemma DemoPaddedAdd(params: seq<Param>)
    ensures Decide(DemoTable, Ioc, Request(Slashes(2) + Demo + Slashes(3) + AddJson, [], params))
         == Decide(DemoTable, Ioc, Request(AddKey, [], params))
  {
    SegmentsOfDemo();
    CollapseTwoSegments(2, Demo, 3, AddJson);
    RouteKeyIsNormal([Slash] + Demo, [Slash] + AddJson);
    RouteKeyOfSegments(Demo, AddJson);
  }

  /** `query`'s slots with one plain entry `v`: request, response, `v`. */
  lemma QueryArgs(p: Param, v: JString)
    requires p.values == [v] && Plain(v)
    ensures Bind(Query.params, [p]) == [RequestArg, ResponseArg, StringArg(v)]
  {
    var args := Bind(Query.params, [p]);
    assert Join(p.values, [Comma]) == v;
    StringSlotsOfOneEntry(Query.params, p, 2);
    assert args[2] == StringArg(v);
  }

  /** `/demo/query.json?name=v` passes `v` as the `String` argument when `v`
      holds no bracket and no comma followed by whitespace. */
  lemma DemoQueryGetsName(p: Param, v: JString)
    requires p.values == [v] && Plain(v)
    ensures Decide(DemoTable, Ioc, Request(QueryKey, [], [p]))
         == Invoke(Invocation(Ref(Bean(0, DemoAction)), Query,
                              [RequestArg, ResponseArg, StringArg(v)]))
  {
    SegmentsOfDemo();
    RouteKeyOfSegments(Demo, QueryJson);
    DemoTableLookups();
    DecideOnKey(DemoTable, Ioc, QueryKey, [p]);
    DemoTarget();
    QueryArgs(p, v);
  }

  /** A path that does not start with the segment `demo` is never a key of
      the table. */
  lemma OutsideDemoIsNoKey(seg: JString, c: JString, x: JString)
    requires IsSegment(seg) && seg != Demo && (c == [] || c[0] == Slash)
    ensures [Slash] + seg + c != [Slash] + Demo + [Slash] + x
  {
    if [Slash] + seg + c == [Slash] + Demo + [Slash] + x {
      assert ([Slash] + seg + c)[1..] == seg + c;
      assert ([Slash] + Demo + [Slash] + x)[1..] == Demo + ([Slash] + x);
      SegmentsOfDemo();
      FirstSegmentUnique(seg, c, Demo, [Slash] + x);
    }
  }

  /** At the root context path, a request whose first segment is not `demo`
      (`/dog`, `//nope`, `/x/demo/add.json`), after any run of separators and
      followed by anything that starts a new segment, is answered with
      exactly `404 Not Found!`. */
  lemma DemoNotFound(n: nat, seg: JString, tail: JString, params: seq<Param>,
                     handlerOutput: Invocation -> JString)
    requires n >= 1 && IsSegment(seg) && seg != Demo && (tail == [] || tail[0] == Slash)
    ensures Serve(DemoTable, Ioc, Request(Slashes(n) + seg + tail, [], params), handlerOutput)
         == NotFoundBody()
  {
    var path := RequestPath(Slashes(n) + seg + tail, []);
    CollapseRunThenSegment(n, seg, tail);
    var c := Collapse(tail);
    assert path == [Slash] + seg + c;
    OutsideDemoIsNoKey(seg, c, QueryJson);
    OutsideDemoIsNoKey(seg, c, AddJson);
    OutsideDemoIsNoKey(seg, c, RemoveJson);
    assert path !in DemoTable;
    assert QueryKey in DemoTable;
  }

  /** `/demo/<x>` for a segment `x` that names none of the three routes, with
      any runs of separators, is answered with exactly `404 Not Found!`. */
  lemma DemoUnknownAction(n: nat, m: nat, x: JString, params: seq<Param>,
                          handlerOutput: Invocation -> JString)
    requires n >= 1 && m >= 1 && IsSegment(x)
    requires x != QueryJson && x != AddJson && x != RemoveJson
    ensures Serve(DemoTable, Ioc, Request(Slashes(n) + Demo + Slashes(m) + x, [], params), handlerOutput)
         == NotFoundBody()
  {
    SegmentsOfDemo();
    CollapseTwoSegments(n, Demo, m, x);
    var prefix := [Slash] + Demo + [Slash];
    var path := RequestPath(Slashes(n) + Demo + Slashes(m) + x, []);
    assert path == prefix + x;
    assert (prefix + x)[|prefix|..] == x;
    assert (prefix + QueryJson)[|prefix|..] == QueryJson;
    assert (prefix + AddJson)[|prefix|..] == AddJson;
    assert (prefix + RemoveJson)[|prefix|..] == RemoveJson;
    assert path !in DemoTable;
    assert QueryKey in DemoTable;
  }
}
