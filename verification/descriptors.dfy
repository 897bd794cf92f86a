/** What the servlet learns about application classes by reflection, written
    out as plain data, together with the IoC registry (`ioc`) and the values
    the registry hands out.

    - `Class.forName` becomes a lookup in a map from qualified name to `TypeDesc`;
    - `isAnnotationPresent` / `getAnnotation(...).value()` become `Option` fields
      (`Some(v)` when the annotation is present with value `v`);
    - `getMethods()` and `getDeclaredFields()` become sequences in the order the
      JVM returns them;
    - `newInstance()` becomes the `instantiable` flag plus a fresh object id. */
module Descriptors {
  import opened JavaLang

  /** The declared type of one handler parameter, as `doDispatch` compares it. */
  datatype ParamKind =
    | RequestType              // exactly HttpServletRequest
    | ResponseType             // exactly HttpServletResponse
    | StringType               // exactly String
    | OtherType(name: JString) // anything else: Integer, int, ServletRequest, ...

  /** A primitive parameter type, which `Method.invoke` refuses to pass `null` to. */
  predicate IsPrimitive(k: ParamKind) {
    k.OtherType? &&
    k.name in {Chars("boolean"), Chars("byte"), Chars("char"), Chars("short"),
               Chars("int"), Chars("long"), Chars("float"), Chars("double")}
  }

  /** One entry of `getMethods()`. */
  datatype MethodDesc = MethodDesc(
    name: JString,
    declaringName: JString,        // getDeclaringClass().getName()
    declaringSimpleName: JString,  // getDeclaringClass().getSimpleName()
    mapping: Option<JString>,      // method-level @DPRequestMapping value
    params: seq<ParamKind>)        // getParameterTypes()

  /** One entry of `getDeclaredFields()`. */
  datatype FieldDesc = FieldDesc(
    name: JString,
    typeName: JString,             // getType().getName()
    autowired: Option<JString>)    // @DPAutowried value

  /** One loadable class. */
  datatype TypeDesc = TypeDesc(
    simpleName: JString,           // getSimpleName()
    qualifiedName: JString,        // getName()
    controller: Option<JString>,   // @DPController value
    service: Option<JString>,      // @DPService value
    mapping: Option<JString>,      // class-level @DPRequestMapping value
    interfaces: seq<JString>,      // getInterfaces(), by qualified name
    supertypes: set<JString>,      // every superclass and superinterface, by qualified name
    fields: seq<FieldDesc>,
    methods: seq<MethodDesc>,
    instantiable: bool)            // newInstance() returns rather than throws

  /** An object created by `newInstance()`: `id` is its identity. */
  datatype Bean = Bean(id: nat, cls: TypeDesc)

  /** The IoC container `ioc`: bean name to instance. */
  type Registry = map<JString, Bean>

  /** A reference as stored in a field or passed to `invoke`. */
  datatype Value = Null | Ref(bean: Bean)

  /** `ioc.get(name)`: the bean, or `null` when the name is absent. */
  function Get(ioc: Registry, name: JString): (v: Value)
    ensures v.Ref? <==> name in ioc
    ensures v.Ref? ==> v.bean == ioc[name]
  {
    if name in ioc then Ref(ioc[name]) else Null
  }

  /** The bean is an instance of the named class or interface. */
  predicate IsInstance(b: Bean, typeName: JString) {
    b.cls.qualifiedName == typeName || typeName in b.cls.supertypes
  }

  /** `order` lists every key of a map once: a `HashMap` iteration order. */
  ghost predicate Enumerates(order: seq<JString>, keys: set<JString>) {
    && (forall n :: n in keys <==> n in order)
    && (forall i, j :: 0 <= i < j < |order| ==> order[i] != order[j])
  }

  /** Every bean in the registry is a distinct object, created before `next`. */
  ghost predicate Fresh(ioc: Registry, next: nat) {
    && (forall n :: n in ioc ==> ioc[n].id < next)
    && (forall a, b :: a in ioc && b in ioc && a != b ==> ioc[a].id != ioc[b].id)
  }
}
