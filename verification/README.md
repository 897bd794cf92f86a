# DpDispatcherServlet, modelled in Dafny

A model of the decision logic in `DpDispatcherServlet`, the single-servlet MVC
framework of the `springframework` module. It covers startup and the request path.

At startup the servlet:

- derives class names from a package listing (`doScanner`);
- instantiates the classes marked `@DPController` and `@DPService` into the IoC
  registry `ioc` (`doInstance`, `lowerFirstCase`);
- fills `@DPAutowried` fields from that registry (`doAutowired`);
- builds the route table from normalised URL to handler method
  (`initHandlerMapping`).

For each request, `doDispatch`:

- normalises the URL;
- answers `404 Not Found!` on a miss;
- binds the handler's argument array slot by slot;
- invokes the handler on the bean named after its declaring class.

Java reflection becomes plain data (`Descriptors`):

- A class is a `TypeDesc`. Its annotations are `Option` fields, and its
  `getMethods()` and `getDeclaredFields()` are sequences.
- An object is a `Bean` with an identity drawn from a counter.
- `Class.forName` is a lookup in a map of loadable classes.
- `newInstance()` either succeeds (`instantiable`) or throws.

Java strings are sequences of UTF-16 code units (`JavaLang.JChar`). This makes
`chars[0] += 32` wrap modulo 2^16, exactly as a Java `char` does. The library calls
the servlet relies on are written out:

- `trim`;
- `String.replace`;
- `replaceAll("/+", "/")`;
- `Arrays.toString`;
- the two regular-expression rewrites of parameter values.

Every `HashMap` iteration order is an explicit input sequence. These are
`ioc.entrySet()` and `getParameterMap().entrySet()`. "Last wins" and "last entry"
are stated relative to those sequences. `Descriptors.Enumerates` says when a
sequence is such an order, and the order-independence lemmas say what does not
depend on it.

Modules, in pipeline order:

| module | file | covers |
|---|---|---|
| `JavaLang` | java_lang.dfy | code units, `trim`, `String.replace` |
| `Paths` | paths.dfy | separator collapse, route keys, request paths |
| `Naming` | naming.dfy | `lowerFirstCase` |
| `Descriptors` | descriptors.dfy | reflection data, the registry, `ioc.get` |
| `Scanner` | scanner.dfy | class names from a package listing |
| `Instantiation` | instantiation.dfy | `doInstance` |
| `Autowiring` | autowiring.dfy | `doAutowired` |
| `HandlerMapping` | handler_mapping.dfy | `initHandlerMapping` |
| `ParamFormat` | param_format.dfy | the text a `String` parameter receives |
| `Dispatch` | dispatch.dfy | `doDispatch` and what it writes |
| `DemoFixture` | demo.dfy | `DemoAction` through every phase |

Four behaviours of the code that a reader of its annotations might not expect:

- **Failed instantiation.** It is not fatal. The exception ends the loop, is
  printed, and the entries put before it stay (`DpDispatcherServlet.java:170-172`).
- **Unnamed services.** An unnamed service gets a separate new instance under
  each interface name, not one shared instance (`DpDispatcherServlet.java:163-165`).
- **Other parameters.** Parameters other than the request, the response and
  `String` are never bound. `Integer` slots stay `null`, and nothing is
  coerced (`DpDispatcherServlet.java:247-264`).
- **A throwing handler.** The servlet writes nothing more. The exception is caught
  inside `doDispatch` (`DpDispatcherServlet.java:268-270`), so the `500` branch of
  `doPost` is not reached from it.

## Model

Source paths are relative to the repository root; line numbers are those of the cited file.

| member | source | states |
|---|---|---|
| JavaLang.LeadingBlanks | springframework/src/main/java/com/dingp/mvcframework/servlet/DpDispatcherServlet.java:118 | `trim`'s first scan stops at the first code unit above U+0020, or at the end |
| JavaLang.TrailingEnd | springframework/src/main/java/com/dingp/mvcframework/servlet/DpDispatcherServlet.java:118 | `trim`'s second scan stops after the last code unit above U+0020, never before where the first stopped |
| JavaLang.Trim | springframework/src/main/java/com/dingp/mvcframework/servlet/DpDispatcherServlet.java:118 | the trimmed text is no longer than the input and neither starts nor ends with a code unit at or below U+0020 |
| JavaLang.TrimSpec | springframework/src/main/java/com/dingp/mvcframework/servlet/DpDispatcherServlet.java:118 | `trim` returns the slice of the input between its blank ends; the result is no longer than the input, begins and ends with a non-blank code unit, and is empty exactly when every code unit is blank |
| JavaLang.TrimIdempotent | springframework/src/main/java/com/dingp/mvcframework/servlet/DpDispatcherServlet.java:157 | trimming twice is trimming once |
| JavaLang.RemoveAll | springframework/src/main/java/com/dingp/mvcframework/servlet/DpDispatcherServlet.java:231 | `url.replace(contextPath, "")` never lengthens the URL, and an empty context path (the root) leaves it unchanged; for any other context path its value is fixed by `RemoveAllAbsent` and `RemoveAllSkip` |
| JavaLang.RemoveAllAbsent | springframework/src/main/java/com/dingp/mvcframework/servlet/DpDispatcherServlet.java:231 | a URL in which the context path does not occur is left unchanged |
| JavaLang.RemoveAllLeading | springframework/src/main/java/com/dingp/mvcframework/servlet/DpDispatcherServlet.java:231 | a context path in front of a remainder in which it does not recur is removed, leaving the remainder |
| JavaLang.RemoveAllSkip | springframework/src/main/java/com/dingp/mvcframework/servlet/DpDispatcherServlet.java:231 | everything before the first occurrence of the context path is kept, that occurrence is dropped, and the scan resumes after it, so repeated and non-leading occurrences are removed too |
| Paths.Collapse | springframework/src/main/java/com/dingp/mvcframework/servlet/DpDispatcherServlet.java:96 | `replaceAll("/+", "/")` leaves no two adjacent separators, keeps the first character and never lengthens the text |
| Paths.CollapseFixpoint | springframework/src/main/java/com/dingp/mvcframework/servlet/DpDispatcherServlet.java:96 | collapsing leaves a text unchanged exactly when it has no doubled separator |
| Paths.CollapseIdempotent | springframework/src/main/java/com/dingp/mvcframework/servlet/DpDispatcherServlet.java:96 | collapsing twice is collapsing once |
| Paths.CollapseMergeStep | springframework/src/main/java/com/dingp/mvcframework/servlet/DpDispatcherServlet.java:231 | removing one separator of a doubled pair does not change the collapsed text |
| Paths.CollapseAppend | springframework/src/main/java/com/dingp/mvcframework/servlet/DpDispatcherServlet.java:96 | a normal prefix passes through the collapse untouched unless a separator run spans the boundary |
| Paths.CollapseLeadingRun | springframework/src/main/java/com/dingp/mvcframework/servlet/DpDispatcherServlet.java:96 | any leading run of separators collapses as a single one would |
| Paths.SegmentPassesThrough | springframework/src/main/java/com/dingp/mvcframework/servlet/DpDispatcherServlet.java:96 | a separator followed by a slash-free segment survives the collapse unchanged |
| Paths.CollapseRunThenSegment | springframework/src/main/java/com/dingp/mvcframework/servlet/DpDispatcherServlet.java:96 | a separator run followed by a segment collapses to one separator and the segment |
| Paths.CollapseTwoSegments | springframework/src/main/java/com/dingp/mvcframework/servlet/DpDispatcherServlet.java:96 | two segments with separator runs of any lengths before each collapse to `/a/b` |
| Paths.RouteKey | springframework/src/main/java/com/dingp/mvcframework/servlet/DpDispatcherServlet.java:96 | every route key starts with `/` and contains no `//` |
| Paths.RouteKeyIsNormal | springframework/src/main/java/com/dingp/mvcframework/servlet/DpDispatcherServlet.java:96 | collapsing a route key again leaves it unchanged |
| Paths.RouteKeyOfSegments | springframework/src/main/java/com/dingp/mvcframework/servlet/DpDispatcherServlet.java:81-96 | base `/a` or `a` with value `/b` or `b`, in all four combinations, gives the key `/a/b` |
| Paths.RouteKeyOfEmptyBase | springframework/src/main/java/com/dingp/mvcframework/servlet/DpDispatcherServlet.java:81-96 | a controller without a class-level mapping (base `""`) registers value `/b` as `/b` |
| Paths.RequestPath | springframework/src/main/java/com/dingp/mvcframework/servlet/DpDispatcherServlet.java:229-231 | the normalised request path has no doubled separator, and with an empty context path it is the collapsed URI |
| Paths.RequestPathUnderContext | springframework/src/main/java/com/dingp/mvcframework/servlet/DpDispatcherServlet.java:229-231 | under a context path that does not recur in the rest of the URI, the request path is the collapsed rest |
| Paths.RequestPathRepeatedContext | springframework/src/main/java/com/dingp/mvcframework/servlet/DpDispatcherServlet.java:231 | a URI that repeats the context path loses both copies before the lookup |
| Paths.ApplicationUnderApp | springframework/src/main/java/com/dingp/mvcframework/servlet/DpDispatcherServlet.java:231 | under context path `/app`, the URI `/app/application` is looked up as `lication` |
| Paths.ContextPathStripped | springframework/src/main/java/com/dingp/mvcframework/servlet/DpDispatcherServlet.java:231 | under context path `/a/b`, the URI `/a/b/c` is looked up as `/c` |
| Paths.DoubledContextPathKept | springframework/src/main/java/com/dingp/mvcframework/servlet/DpDispatcherServlet.java:231 | under context path `/a/b`, the URI `/a//b/c` keeps the context path and is looked up as `/a/b/c`, because the removal runs before the collapse |
| Naming.LowerFirstCase | springframework/src/main/java/com/dingp/mvcframework/servlet/DpDispatcherServlet.java:133-137 | defined exactly for non-empty names; same length, first code unit raised by 32 modulo 2^16, rest unchanged |
| Naming.LowerFirstCaseRoundTrip | springframework/src/main/java/com/dingp/mvcframework/servlet/DpDispatcherServlet.java:133-137 | lowering 32 from the first code unit undoes `lowerFirstCase` |
| Naming.LowerFirstCaseInjective | springframework/src/main/java/com/dingp/mvcframework/servlet/DpDispatcherServlet.java:133-137 | distinct simple names give distinct bean names |
| Naming.LowerFirstCaseOfAsciiUpper | springframework/src/main/java/com/dingp/mvcframework/servlet/DpDispatcherServlet.java:133-137 | an ASCII capital first letter becomes the matching small letter |
| Naming.LowerFirstCaseNeverFixes | springframework/src/main/java/com/dingp/mvcframework/servlet/DpDispatcherServlet.java:133-137 | the bean name always differs from the simple name, even when it already starts in lower case |
| Naming.LowerFirstCaseWraps | springframework/src/main/java/com/dingp/mvcframework/servlet/DpDispatcherServlet.java:133-137 | first code units from U+FFE0 upwards wrap round to the bottom of the range |
| Naming.LowerFirstOfChars | springframework/src/main/java/com/dingp/mvcframework/servlet/DpDispatcherServlet.java:133-137 | for ASCII literals, `Xyz` lower-cases to `xyz` when the first letters differ by 32 |
| Descriptors.Get | springframework/src/main/java/com/dingp/mvcframework/servlet/DpDispatcherServlet.java:124 | `ioc.get` yields the registered bean when the name is a key and `null` otherwise |
| Scanner.ClassName | springframework/src/main/java/com/dingp/mvcframework/servlet/DpDispatcherServlet.java:186 | the name of a file is the package name, a dot, and the file name with `.class` removed and trimmed; it never exceeds those pieces in length |
| Scanner.Scan | springframework/src/main/java/com/dingp/mvcframework/servlet/DpDispatcherServlet.java:176-189 | the recursive walk reports exactly one class name per non-directory entry at any depth |
| Scanner.ScanNamesFiles | springframework/src/main/java/com/dingp/mvcframework/servlet/DpDispatcherServlet.java:176-189 | one class name per non-directory entry at any depth, each beginning with the package name and a dot |
| Scanner.ScanAppend | springframework/src/main/java/com/dingp/mvcframework/servlet/DpDispatcherServlet.java:181-188 | scanning two listings in turn is scanning their concatenation |
| Scanner.ScanEmpty | springframework/src/main/java/com/dingp/mvcframework/servlet/DpDispatcherServlet.java:181 | an empty directory yields no class names |
| Scanner.RemoveClassSuffix | springframework/src/main/java/com/dingp/mvcframework/servlet/DpDispatcherServlet.java:186 | removing `.class` from `n.class` gives back a dot-free `n` |
| Scanner.ClassNameOfClassFile | springframework/src/main/java/com/dingp/mvcframework/servlet/DpDispatcherServlet.java:186 | `Foo.class` in package `p` is reported as `p.Foo` |
| Instantiation.PutNew | springframework/src/main/java/com/dingp/mvcframework/servlet/DpDispatcherServlet.java:152 | a put succeeds exactly when the constructor does, storing a new object; otherwise the registry is untouched |
| Instantiation.PutNewFresh | springframework/src/main/java/com/dingp/mvcframework/servlet/DpDispatcherServlet.java:152 | a put of a new object keeps every registry entry a distinct object |
| Instantiation.PutPerInterface | springframework/src/main/java/com/dingp/mvcframework/servlet/DpDispatcherServlet.java:162-165 | an unnamed service is put under each interface name with its own new object; it fails only when it has interfaces and cannot be constructed, leaving the registry as it was |
| Instantiation.PutPerInterfaceFresh | springframework/src/main/java/com/dingp/mvcframework/servlet/DpDispatcherServlet.java:162-165 | the per-interface objects are distinct from each other and from every earlier entry |
| Instantiation.Register | springframework/src/main/java/com/dingp/mvcframework/servlet/DpDispatcherServlet.java:149-168 | a controller goes under its lower-cased simple name, a named service under its untrimmed name, an unnamed service under its interfaces, anything else nowhere; other entries are unchanged and a failure changes nothing |
| Instantiation.ControllerValueIgnored | springframework/src/main/java/com/dingp/mvcframework/servlet/DpDispatcherServlet.java:149-152 | a controller registers under the same names, and fails or succeeds alike, whatever its marker value |
| Instantiation.BareServiceAddsNothing | springframework/src/main/java/com/dingp/mvcframework/servlet/DpDispatcherServlet.java:153-165 | a service with a blank name and no interfaces adds nothing and never fails |
| Instantiation.DoInstance | springframework/src/main/java/com/dingp/mvcframework/servlet/DpDispatcherServlet.java:142-173 | the loop keeps every earlier name, registers only distinct objects, completes exactly when every class loads and registers, and otherwise names the class it stopped at |
| Instantiation.DoInstanceEmpty | springframework/src/main/java/com/dingp/mvcframework/servlet/DpDispatcherServlet.java:143-145 | an empty class list leaves the registry unchanged |
| Instantiation.DoInstanceKeys | springframework/src/main/java/com/dingp/mvcframework/servlet/DpDispatcherServlet.java:146-169 | a completed run registers exactly the union of the classes' bean names |
| Instantiation.DoInstanceStopIsFinal | springframework/src/main/java/com/dingp/mvcframework/servlet/DpDispatcherServlet.java:146-172 | after the class that throws, no later class is looked at |
| Instantiation.DoInstanceSequential | springframework/src/main/java/com/dingp/mvcframework/servlet/DpDispatcherServlet.java:147-169 | a run over `a + b` that gets through `a` continues from `a`'s registry |
| Instantiation.DoInstancePartialRegistry | springframework/src/main/java/com/dingp/mvcframework/servlet/DpDispatcherServlet.java:146-172 | when class `k` is the first to throw, the registry is the one built from the classes before `k` and the failure is swallowed |
| Instantiation.DoInstanceFrame | springframework/src/main/java/com/dingp/mvcframework/servlet/DpDispatcherServlet.java:146-172 | classes that do not claim a name leave the object it holds untouched, whether the run completes or stops |
| Instantiation.LastRegistrationWins | springframework/src/main/java/com/dingp/mvcframework/servlet/DpDispatcherServlet.java:152-164 | when several classes claim a bean name, the last of them to be processed holds it: after `a`, then `c`, then classes none of which claims the name, the name holds an instance of `c` |
| Autowiring.TargetName | springframework/src/main/java/com/dingp/mvcframework/servlet/DpDispatcherServlet.java:117-121 | a marked field reads the trimmed marker value, or its declared type name when that trims to nothing |
| Autowiring.Injected | springframework/src/main/java/com/dingp/mvcframework/servlet/DpDispatcherServlet.java:114-127 | what one field receives: nothing for an unmarked field, `ioc.get(name)` when `field.set` accepts it, nothing when it throws; stated through `InjectFieldsAt` and `InjectFieldsSpec` |
| Autowiring.InjectFields | springframework/src/main/java/com/dingp/mvcframework/servlet/DpDispatcherServlet.java:112-129 | the inner loop over a bean's declared fields; its writes are stated by `InjectFieldsAt`, `InjectFieldsOnlyNamed` and `InjectFieldsSpec` |
| Autowiring.InjectFieldsAt | springframework/src/main/java/com/dingp/mvcframework/servlet/DpDispatcherServlet.java:113-129 | a field receives `ioc.get` of its target name when the value fits its type, and is otherwise untouched |
| Autowiring.InjectFieldsOnlyNamed | springframework/src/main/java/com/dingp/mvcframework/servlet/DpDispatcherServlet.java:113-129 | nothing but a marked field's own name is ever written |
| Autowiring.InjectFieldsSpec | springframework/src/main/java/com/dingp/mvcframework/servlet/DpDispatcherServlet.java:113-129 | the fields written are exactly the marked fields whose value fits, each with `ioc.get` of its target |
| Autowiring.MissingTargetGivesNull | springframework/src/main/java/com/dingp/mvcframework/servlet/DpDispatcherServlet.java:117-124 | a marked field whose target name is not registered is set to `null` |
| Autowiring.FreshIsSameIdSameBean | springframework/src/main/java/com/dingp/mvcframework/servlet/DpDispatcherServlet.java:152-164 | a registry of distinct new objects never shares one object between two different beans |
| Autowiring.Autowire | springframework/src/main/java/com/dingp/mvcframework/servlet/DpDispatcherServlet.java:106-131 | the outer loop over the registry in its iteration order; its effect is stated by `AutowireSpec` and `AutowireOrderIrrelevant` |
| Autowiring.AutowireSpec | springframework/src/main/java/com/dingp/mvcframework/servlet/DpDispatcherServlet.java:106-131 | each registered object receives exactly what its own class's field loop writes, and no other object is touched |
| Autowiring.AutowireOrderIrrelevant | springframework/src/main/java/com/dingp/mvcframework/servlet/DpDispatcherServlet.java:110-130 | injection does not depend on the registry's iteration order |
| HandlerMapping.Base | springframework/src/main/java/com/dingp/mvcframework/servlet/DpDispatcherServlet.java:81-87 | the class-level mapping value, or `""` for a controller without one; used by every route key of the class |
| HandlerMapping.MethodRoutes | springframework/src/main/java/com/dingp/mvcframework/servlet/DpDispatcherServlet.java:90-98 | a controller registers exactly its route-marked methods, each under its route key |
| HandlerMapping.Registrations | springframework/src/main/java/com/dingp/mvcframework/servlet/DpDispatcherServlet.java:76-100 | the registrations are exactly the routes of controller beans; other beans contribute nothing |
| HandlerMapping.PutAll | springframework/src/main/java/com/dingp/mvcframework/servlet/DpDispatcherServlet.java:97 | the successive `handlerMapping.put` calls; stated by `PutAllUnfold`, `PutAllKeys`, `PutAllLast` and `PutAllUntouched` |
| HandlerMapping.PutAllUnfold | springframework/src/main/java/com/dingp/mvcframework/servlet/DpDispatcherServlet.java:97 | the last put is applied on top of all earlier ones |
| HandlerMapping.PutAllKeys | springframework/src/main/java/com/dingp/mvcframework/servlet/DpDispatcherServlet.java:97 | a key is in the table exactly when it was there before or some put uses it |
| HandlerMapping.PutAllLast | springframework/src/main/java/com/dingp/mvcframework/servlet/DpDispatcherServlet.java:97 | a key holds the method of its last put |
| HandlerMapping.PutAllUntouched | springframework/src/main/java/com/dingp/mvcframework/servlet/DpDispatcherServlet.java:97 | a key no put uses keeps its earlier value |
| HandlerMapping.BuildHandlerMapping | springframework/src/main/java/com/dingp/mvcframework/servlet/DpDispatcherServlet.java:72-75 | an empty registry gives an empty table |
| HandlerMapping.HandlerMappingContents | springframework/src/main/java/com/dingp/mvcframework/servlet/DpDispatcherServlet.java:72-100 | the table's keys are exactly the route keys of controller beans, each value is a route-marked method of such a controller under that key, and the last registration of a key wins |
| HandlerMapping.LastIndex | springframework/src/main/java/com/dingp/mvcframework/servlet/DpDispatcherServlet.java:97 | every registration has a last registration of the same key at or after it |
| HandlerMapping.HandlerMappingKeysOrderIndependent | springframework/src/main/java/com/dingp/mvcframework/servlet/DpDispatcherServlet.java:76-100 | which URLs are routed does not depend on the registry's iteration order |
| ParamFormat.ArrayText | springframework/src/main/java/com/dingp/mvcframework/servlet/DpDispatcherServlet.java:258 | `Arrays.toString(values)`: the values joined by `", "` between `[` and `]`; stated through `JoinNoBrackets` and `StripArrayText` |
| ParamFormat.ParamText | springframework/src/main/java/com/dingp/mvcframework/servlet/DpDispatcherServlet.java:258-260 | the three rewrites in order; the result is fixed for plain values by `ParamTextOfPlainValues` and has no bracket by `ParamTextHasNoBrackets` |
| ParamFormat.StripBrackets | springframework/src/main/java/com/dingp/mvcframework/servlet/DpDispatcherServlet.java:259 | the result has no square bracket and only characters of the input |
| ParamFormat.SquashCommaSpace | springframework/src/main/java/com/dingp/mvcframework/servlet/DpDispatcherServlet.java:260 | the rewrite never lengthens the text |
| ParamFormat.SquashKeepsChars | springframework/src/main/java/com/dingp/mvcframework/servlet/DpDispatcherServlet.java:260 | the comma-space rewrite introduces no character that was not in its input |
| ParamFormat.ParamTextHasNoBrackets | springframework/src/main/java/com/dingp/mvcframework/servlet/DpDispatcherServlet.java:258-260 | a bound `String` never contains a bracket, even when a value did |
| ParamFormat.StripBracketsAppend | springframework/src/main/java/com/dingp/mvcframework/servlet/DpDispatcherServlet.java:259 | bracket removal works piece by piece |
| ParamFormat.StripBracketsNone | springframework/src/main/java/com/dingp/mvcframework/servlet/DpDispatcherServlet.java:259 | bracket-free text is left alone |
| ParamFormat.JoinNoBrackets | springframework/src/main/java/com/dingp/mvcframework/servlet/DpDispatcherServlet.java:258 | `Arrays.toString` adds brackets only at the ends |
| ParamFormat.SquashAppend | springframework/src/main/java/com/dingp/mvcframework/servlet/DpDispatcherServlet.java:260 | the comma-space rewrite works piece by piece unless a comma and a space straddle the cut |
| ParamFormat.SquashNone | springframework/src/main/java/com/dingp/mvcframework/servlet/DpDispatcherServlet.java:260 | text with no comma followed by whitespace is left alone |
| ParamFormat.SquashLeadingCommaSpace | springframework/src/main/java/com/dingp/mvcframework/servlet/DpDispatcherServlet.java:260 | a leading `", "` shortens to `","` |
| ParamFormat.SquashJoin | springframework/src/main/java/com/dingp/mvcframework/servlet/DpDispatcherServlet.java:260 | between plain values every `", "` separator becomes `","` |
| ParamFormat.StripArrayText | springframework/src/main/java/com/dingp/mvcframework/servlet/DpDispatcherServlet.java:258-259 | `Arrays.toString` of bracket-free values, with its brackets removed, is the `", "`-join |
| ParamFormat.ParamTextOfPlainValues | springframework/src/main/java/com/dingp/mvcframework/servlet/DpDispatcherServlet.java:258-260 | for plain values the bound text is the values joined by `,`, and `""` for no values |
| ParamFormat.Split | springframework/src/main/java/com/dingp/mvcframework/servlet/DpDispatcherServlet.java:258-260 | cutting at a separator always yields at least one piece |
| ParamFormat.SplitNone | springframework/src/main/java/com/dingp/mvcframework/servlet/DpDispatcherServlet.java:258-260 | a value free of the separator comes back whole |
| ParamFormat.SplitFirst | springframework/src/main/java/com/dingp/mvcframework/servlet/DpDispatcherServlet.java:258-260 | the first separator cuts off the value before it |
| ParamFormat.SplitJoinRoundTrip | springframework/src/main/java/com/dingp/mvcframework/servlet/DpDispatcherServlet.java:258-260 | the `,`-joined values of a non-empty, comma-free entry are recovered by cutting at `,`: binding loses no value |
| Dispatch.StringSlot | springframework/src/main/java/com/dingp/mvcframework/servlet/DpDispatcherServlet.java:256-262 | a `String` slot ends up with the text of the last parameter entry iterated, or `null` when there is none; stated by `Bind` and `BindArguments` |
| Dispatch.BindSlot | springframework/src/main/java/com/dingp/mvcframework/servlet/DpDispatcherServlet.java:247-263 | the value a slot receives by its declared type; stated by `Bind` |
| Dispatch.Bind | springframework/src/main/java/com/dingp/mvcframework/servlet/DpDispatcherServlet.java:245-264 | one argument per parameter; request and response go exactly to their own types; every `String` slot holds the same value; `Integer` and every other type stay `null` |
| Dispatch.BindArguments | springframework/src/main/java/com/dingp/mvcframework/servlet/DpDispatcherServlet.java:245-264 | the nested loops as written, overwriting a `String` slot once per entry, compute that binding |
| Dispatch.Decide | springframework/src/main/java/com/dingp/mvcframework/servlet/DpDispatcherServlet.java:225-267 | nothing happens exactly when the table is empty; otherwise it is a miss exactly when the normalised path is not a key; a hit calls the key's handler with the bound arguments on `ioc.get(lowerFirstCase(declaring simple name))`, and an empty simple name ends the request |
| Dispatch.Reaches | springframework/src/main/java/com/dingp/mvcframework/servlet/DpDispatcherServlet.java:266-267 | `invoke` reaches the handler's body only with a non-null target that is an instance of the declaring class and no `null` in a primitive slot; used by `Serve` and `HandlerRunsOnItsController` |
| Dispatch.Serve | springframework/src/main/java/com/dingp/mvcframework/servlet/DpDispatcherServlet.java:226-270 | an empty table writes nothing, a miss writes exactly `404 Not Found!`, a naming failure writes nothing, and a hit writes only what the handler writes, and nothing when `invoke` cannot reach it |
| Dispatch.MissingBeanWritesNothing | springframework/src/main/java/com/dingp/mvcframework/servlet/DpDispatcherServlet.java:266-270 | a handler whose declaring class has no bean under its lower-cased name fails silently |
| Dispatch.DecideOnKey | springframework/src/main/java/com/dingp/mvcframework/servlet/DpDispatcherServlet.java:229-267 | a request for a normalised key, with no context path, runs that key's handler |
| Dispatch.ExtraSlashSameDecision | springframework/src/main/java/com/dingp/mvcframework/servlet/DpDispatcherServlet.java:231 | with an empty context path, an extra `/` next to an existing one never changes the outcome of a request |
| Dispatch.ExtraSlashInContextPath | springframework/src/main/java/com/dingp/mvcframework/servlet/DpDispatcherServlet.java:231 | with a context path the same insertion can change the outcome: under `/a/b` with only `/c` routed, `/a/b/c` is found and `/a//b/c` is a miss |
| Dispatch.PaddedRequestFindsRoute | springframework/src/main/java/com/dingp/mvcframework/servlet/DpDispatcherServlet.java:231-238 | at the root context path, `//a///b` reaches the handler registered as `/a` + `/b` |
| Dispatch.ContextPathIgnored | springframework/src/main/java/com/dingp/mvcframework/servlet/DpDispatcherServlet.java:229-231 | a request under a context path that does not occur again in the rest of the URI is decided as the rest alone |
| Dispatch.ContextPathRepeated | springframework/src/main/java/com/dingp/mvcframework/servlet/DpDispatcherServlet.java:229-231 | a request that repeats the context path is decided as the rest after both copies, when the rest does not contain the context path again |
| Dispatch.StringSlotsOfOneEntry | springframework/src/main/java/com/dingp/mvcframework/servlet/DpDispatcherServlet.java:256-262 | with one entry of plain values, every `String` slot gets those values joined by `,` |
| Dispatch.HandlerRunsOnItsController | springframework/src/main/java/com/dingp/mvcframework/servlet/DpDispatcherServlet.java:266-267 | when controllers sit under their own names and every route-marked method is declared by the controller class itself (no inherited routes), a dispatched handler runs on the controller that registered it, which is an instance of its declaring class |
| DemoFixture.BeanNameIsLowerFirstCase | springframework/src/main/java/com/dingp/demo/mvc/action/DemoAction.java:13-15 | `DemoAction` is registered as `demoAction` |
| DemoFixture.DemoRegistry | springframework/src/main/java/com/dingp/demo/mvc/action/DemoAction.java:13-15 | loading the one class gives a registry with the single entry `demoAction` |
| DemoFixture.DemoWiring | springframework/src/main/java/com/dingp/demo/mvc/action/DemoAction.java:17-18 | with no `IDemoService` registered, the field `iDemoService` is set to `null` |
| DemoFixture.SegmentsOfDemo | springframework/src/main/java/com/dingp/demo/mvc/action/DemoAction.java:14-39 | the mapping values are separator-free segments behind one `/` |
| DemoFixture.ThreeRouteController | springframework/src/main/java/com/dingp/mvcframework/servlet/DpDispatcherServlet.java:76-100 | a lone controller with three marked methods yields one route per method |
| DemoFixture.DemoRoutes | springframework/src/main/java/com/dingp/demo/mvc/action/DemoAction.java:14-42 | the table is `/demo/query.json`, `/demo/add.json`, `/demo/remove.json` |
| DemoFixture.AddArgs | springframework/src/main/java/com/dingp/demo/mvc/action/DemoAction.java:31 | `add` is bound as request, response, `null`, `null`, whatever the request parameters |
| DemoFixture.QueryArgs | springframework/src/main/java/com/dingp/demo/mvc/action/DemoAction.java:21 | `query` with one plain parameter value `v` is bound as request, response, `v` |
| DemoFixture.DemoAddIsCalledWithNulls | springframework/src/main/java/com/dingp/demo/mvc/action/DemoAction.java:30-31 | `/demo/add.json` calls `add` on `demoAction` with both `Integer` arguments `null`, whatever the parameters |
| DemoFixture.DemoPaddedAdd | springframework/src/main/java/com/dingp/demo/mvc/action/DemoAction.java:30 | `//demo///add.json` is handled as `/demo/add.json` |
| DemoFixture.DemoQueryGetsName | springframework/src/main/java/com/dingp/demo/mvc/action/DemoAction.java:20-21 | `/demo/query.json?name=v` passes `v` as the `String` argument when `v` has no `[`, no `]` and no comma followed by whitespace |
| DemoFixture.DemoNotFound | springframework/src/main/java/com/dingp/mvcframework/servlet/DpDispatcherServlet.java:233-235 | at the root context path, a request whose first segment, after any run of separators, is not `demo` (`/dog`, `//nope`, `/x/demo/add.json`) is answered with exactly `404 Not Found!` |
| DemoFixture.DemoUnknownAction | springframework/src/main/java/com/dingp/mvcframework/servlet/DpDispatcherServlet.java:233-235 | `/demo/x` for any single segment `x` other than `query.json`, `add.json` and `remove.json`, with any runs of separators, is answered with exactly `404 Not Found!` |

## Left out

- Config loading (`doLoadConfig`, `init`): reading a `Properties` resource is I/O. The package name it yields is the `pkg` argument of `Scanner.Scan`.
- Finding and listing the package directory (`getResource`, `File.listFiles`): I/O. The listing is an input tree in `listFiles()` order.
- Reflection mechanics (`Class.forName`, `newInstance`, `getMethods`, `getDeclaredFields`, `setAccessible`, `Method.invoke`): replaced by descriptor data, the `instantiable` flag and the `Dispatch.Reaches` condition.
- Instantiation: a constructor either always or never throws for a class. A constructor that fails only sometimes is not modelled.
- Instantiation: Java `Error`s (for example a failing static initialiser) escape the `catch (Exception e)`. They are not modelled; every failure is caught.
- Autowiring: static fields, primitive fields and `final` fields are not distinguished. Assignability is `null` or an instance of the field's declared type.
- Dispatch.Serve: what a handler writes is a parameter, because handler bodies are user code. This includes the `DemoAction` bodies and `IDemoService`, which is not part of this model.
- Dispatch.Reaches: static handler methods, which `invoke` calls without a target, are not modelled. A primitive-typed handler parameter never receives a value here, because the binding loop leaves it `null`; `Reaches` treats that as the `invoke` failure it is.
- The `500 Exception,Details:\r\n` response of `doPost`: its body is a runtime stack trace. No modelled path reaches it, because every exception of the modelled steps is caught inside `doDispatch`. Only an I/O failure of `getWriter()` could reach it.
- `doGet`/`doPost` delegation, `System.out` logging and `printStackTrace`: plumbing with no effect on the registry, the table or the response.
- Concurrency: request handling across container threads.
- `HashMap` hashing: iteration orders are inputs.
- Annotation declarations: they only supply default `""` values, and the model uses those defaults as `Some([])`. `DPRequestMapping.java` is not part of this model. `DPRequestParam` values are never read by the servlet.
- Unicode beyond UTF-16 code units: literals are built with `JavaLang.Chars`, which assumes the Basic Multilingual Plane.
