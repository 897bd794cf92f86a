/** `doInstance`: loading each scanned class and registering instances of the
    annotated ones in the IoC registry.

    The whole loop sits in one `try`: the first class that cannot be loaded,
    named or instantiated ends the loop, the exception is only printed, and
    every entry put before it stays in the registry. Each `put` calls
    `newInstance()` again, so every registry entry is a distinct object;
    object identities are drawn from the counter `next`. */
module Instantiation {
  import opened JavaLang
  import opened Naming
  import opened Descriptors

  /** The registry and counter after some puts; `ok` is false once one threw. */
  datatype Step = Step(ioc: Registry, next: nat, ok: bool)

  /** The result of the loop; `stoppedAt` names the class whose exception ended it. */
  datatype Outcome = Outcome(ioc: Registry, next: nat, stoppedAt: Option<JString>)

  /** The names a class is registered under when registration succeeds. */
  ghost function BeanNames(cls: TypeDesc): set<JString> {
    if cls.controller.Some? then
      (if cls.simpleName == [] then {} else {LowerFirstCase(cls.simpleName).value})
    else if cls.service.Some? then
      (if Trim(cls.service.value) != [] then {cls.service.value}
       else set i | i in cls.interfaces)
    else {}
  }

  /** Registration of the class throws nothing. */
  ghost predicate Registers(cls: TypeDesc) {
    if cls.controller.Some? then cls.simpleName != [] && cls.instantiable
    else if cls.service.Some? then
      (if Trim(cls.service.value) != [] then cls.instantiable
       else cls.interfaces == [] || cls.instantiable)
    else true
  }

  /** `ioc.put(name, clazz.newInstance())`: nothing is put when the constructor throws. */
  function PutNew(ioc: Registry, next: nat, name: JString, cls: TypeDesc): (s: Step)
    ensures s.ok <==> cls.instantiable
    ensures s.ok ==> s.ioc == ioc[name := Bean(next, cls)] && s.next == next + 1
    ensures !s.ok ==> s.ioc == ioc && s.next == next
  {
    if cls.instantiable then Step(ioc[name := Bean(next, cls)], next + 1, true)
    else Step(ioc, next, false)
  }

  /** A put of a new object keeps every registry entry a distinct object. */
  lemma PutNewFresh(ioc: Registry, next: nat, name: JString, cls: TypeDesc)
    requires Fresh(ioc, next)
    ensures Fresh(ioc[name := Bean(next, cls)], next + 1)
  {
  }

  /** The per-interface loop of an unnamed service: a separate instance under
      each interface's qualified name. */
  function PutPerInterface(ioc: Registry, next: nat, cls: TypeDesc, names: seq<JString>): (s: Step)
    ensures next <= s.next
    ensures s.ok <==> names == [] || cls.instantiable
    ensures !s.ok ==> s.ioc == ioc
    ensures s.ok ==> s.ioc.Keys == ioc.Keys + set i | i in names
    ensures s.ok ==> forall n :: n in names ==> s.ioc[n].cls == cls && next <= s.ioc[n].id
    ensures forall n :: n in ioc && n !in names ==> s.ioc[n] == ioc[n]
    decreases names
  {
    if names == [] then Step(ioc, next, true)
    else
      var s := PutNew(ioc, next, names[0], cls);
      if !s.ok then s
      else
        var r := PutPerInterface(s.ioc, s.next, cls, names[1..]);
        assert forall n :: n in names <==> n == names[0] || n in names[1..];
        r
  }

  /** Each interface gets its own new object: the registry still holds
      distinct objects only. */
  lemma {:induction false} PutPerInterfaceFresh(ioc: Registry, next: nat, cls: TypeDesc, names: seq<JString>)
    requires Fresh(ioc, next)
    ensures Fresh(PutPerInterface(ioc, next, cls, names).ioc, PutPerInterface(ioc, next, cls, names).next)
    decreases names
  {
    if names != [] && cls.instantiable {
      PutNewFresh(ioc, next, names[0], cls);
      PutPerInterfaceFresh(ioc[names[0] := Bean(next, cls)], next + 1, cls, names[1..]);
    }
  }

  /** The body of the loop for one loaded class: controller first, then service,
      otherwise skipped. */
  function Register(ioc: Registry, next: nat, cls: TypeDesc): (s: Step)
    requires Fresh(ioc, next)
    ensures Fresh(s.ioc, s.next) && next <= s.next
    ensures s.ok <==> Registers(cls)
    ensures !s.ok ==> s.ioc == ioc
    ensures s.ok ==> s.ioc.Keys == ioc.Keys + BeanNames(cls)
    ensures s.ok ==> forall n :: n in BeanNames(cls) ==> s.ioc[n].cls == cls && next <= s.ioc[n].id
    ensures forall n :: n in ioc && n !in BeanNames(cls) ==> s.ioc[n] == ioc[n]
  {
    if cls.controller.Some? then
      match LowerFirstCase(cls.simpleName)
      case None => Step(ioc, next, false)
      case Some(name) => PutNew(ioc, next, name, cls)
    else if cls.service.Some? then
      if Trim(cls.service.value) != [] then PutNew(ioc, next, cls.service.value, cls)
      else
        PutPerInterfaceFresh(ioc, next, cls, cls.interfaces);
        PutPerInterface(ioc, next, cls, cls.interfaces)
    else Step(ioc, next, true)
  }

  /** The controller marker's value plays no part: the class registers under
      the same names whatever the value says. */
  lemma ControllerValueIgnored(ioc: Registry, next: nat, cls: TypeDesc, v: JString)
    requires Fresh(ioc, next) && cls.controller.Some?
    ensures var other := cls.(controller := Some(v));
      Register(ioc, next, other).ok == Register(ioc, next, cls).ok
      && Register(ioc, next, other).ioc.Keys == Register(ioc, next, cls).ioc.Keys
  {
  }

  /** A service with neither a name nor an interface registers nothing, and
      does not fail even when it cannot be constructed. */
  lemma BareServiceAddsNothing(ioc: Registry, next: nat, cls: TypeDesc)
    requires Fresh(ioc, next)
    requires cls.controller.None? && cls.service.Some?
    requires Trim(cls.service.value) == [] && cls.interfaces == []
    ensures Register(ioc, next, cls) == Step(ioc, next, true)
  {
  }

  /** `doInstance` over `classNames`, with `Class.forName` a lookup in `classes`. */
  function DoInstance(classNames: seq<JString>, classes: map<JString, TypeDesc>,
                      ioc: Registry, next: nat): (o: Outcome)
    requires Fresh(ioc, next)
    ensures Fresh(o.ioc, o.next) && next <= o.next
    ensures ioc.Keys <= o.ioc.Keys
    ensures o.stoppedAt.None? <==>
      forall i :: 0 <= i < |classNames| ==>
        classNames[i] in classes && Registers(classes[classNames[i]])
    ensures o.stoppedAt.Some? ==> o.stoppedAt.value in classNames
    decreases classNames
  {
    if classNames == [] then Outcome(ioc, next, None)
    else
      var name := classNames[0];
      if name !in classes then Outcome(ioc, next, Some(name))
      else
        var s := Register(ioc, next, classes[name]);
        if !s.ok then Outcome(s.ioc, s.next, Some(name))
        else
          var o := DoInstance(classNames[1..], classes, s.ioc, s.next);
          assert forall i :: 1 <= i < |classNames| ==> classNames[i] == classNames[1..][i - 1];
          o
  }

  /** The names registered by a run that stops at nothing. */
  ghost function AllBeanNames(classNames: seq<JString>, classes: map<JString, TypeDesc>): set<JString>
    decreases classNames
  {
    if classNames == [] then {}
    else
      (if classNames[0] in classes then BeanNames(classes[classNames[0]]) else {})
      + AllBeanNames(classNames[1..], classes)
  }

  /** An empty class list leaves the registry as it was. */
  lemma DoInstanceEmpty(classes: map<JString, TypeDesc>, ioc: Registry, next: nat)
    requires Fresh(ioc, next)
    ensures DoInstance([], classes, ioc, next) == Outcome(ioc, next, None)
  {
  }

  /** A run that completes registers exactly the union of the classes' bean names. */
  lemma {:induction false} DoInstanceKeys(classNames: seq<JString>, classes: map<JString, TypeDesc>,
                                          ioc: Registry, next: nat)
    requires Fresh(ioc, next)
    requires DoInstance(classNames, classes, ioc, next).stoppedAt.None?
    ensures DoInstance(classNames, classes, ioc, next).ioc.Keys
            == ioc.Keys + AllBeanNames(classNames, classes)
    decreases classNames
  {
    if classNames != [] {
      var s := Register(ioc, next, classes[classNames[0]]);
      DoInstanceKeys(classNames[1..], classes, s.ioc, s.next);
    }
  }

  /** Once a class name stops the loop, whatever follows it is never looked at. */
  lemma {:induction false} DoInstanceStopIsFinal(a: seq<JString>, b: seq<JString>,
                                                 classes: map<JString, TypeDesc>,
                                                 ioc: Registry, next: nat)
    requires Fresh(ioc, next)
    requires DoInstance(a, classes, ioc, next).stoppedAt.Some?
    ensures DoInstance(a + b, classes, ioc, next) == DoInstance(a, classes, ioc, next)
    decreases a
  {
    assert (a + b)[0] == a[0];
    assert (a + b)[1..] == a[1..] + b;
    if a[0] in classes {
      var s := Register(ioc, next, classes[a[0]]);
      if s.ok {
        DoInstanceStopIsFinal(a[1..], b, classes, s.ioc, s.next);
      }
    }
  }

  /** A run over `a + b` that gets through `a` continues from `a`'s registry. */
  lemma {:induction false} DoInstanceSequential(a: seq<JString>, b: seq<JString>,
                                                classes: map<JString, TypeDesc>,
                                                ioc: Registry, next: nat)
    requires Fresh(ioc, next)
    requires DoInstance(a, classes, ioc, next).stoppedAt.None?
    ensures var mid := DoInstance(a, classes, ioc, next);
      DoInstance(a + b, classes, ioc, next) == DoInstance(b, classes, mid.ioc, mid.next)
    decreases a
  {
    if a == [] {
      assert a + b == b;
    } else {
      assert (a + b)[0] == a[0];
      assert (a + b)[1..] == a[1..] + b;
      var s := Register(ioc, next, classes[a[0]]);
      DoInstanceSequential(a[1..], b, classes, s.ioc, s.next);
    }
  }

  /** A failure keeps everything registered before it: when the class at index
      `k` is the first that throws, the registry is exactly the one built from
      the classes before `k`, and the classes after `k` add nothing. */
  lemma DoInstancePartialRegistry(classNames: seq<JString>, k: nat,
                                  classes: map<JString, TypeDesc>, ioc: Registry, next: nat)
    requires Fresh(ioc, next)
    requires k < |classNames|
    requires forall i :: 0 <= i < k ==> classNames[i] in classes && Registers(classes[classNames[i]])
    requires !(classNames[k] in classes && Registers(classes[classNames[k]]))
    ensures DoInstance(classNames, classes, ioc, next).ioc
            == DoInstance(classNames[..k], classes, ioc, next).ioc
    ensures DoInstance(classNames, classes, ioc, next).stoppedAt == Some(classNames[k])
  {
    var pre := classNames[..k];
    var post := [classNames[k]] + classNames[k + 1..];
    var mid := DoInstance(pre, classes, ioc, next);
    assert forall i :: 0 <= i < |pre| ==> pre[i] == classNames[i];
    assert mid.stoppedAt.None?;
    assert pre + post == classNames;
    DoInstanceSequential(pre, post, classes, ioc, next);
    assert DoInstance(classNames, classes, ioc, next) == DoInstance(post, classes, mid.ioc, mid.next);
    assert DoInstance([classNames[k]], classes, mid.ioc, mid.next).stoppedAt.Some?;
    DoInstanceStopIsFinal([classNames[k]], classNames[k + 1..], classes, mid.ioc, mid.next);
  }

  /** Classes that do not claim `name` leave its entry alone: whatever the run
      does, `name` still holds the object it held before. */
  lemma {:induction false} DoInstanceFrame(classNames: seq<JString>, classes: map<JString, TypeDesc>,
                                           ioc: Registry, next: nat, name: JString)
    requires Fresh(ioc, next) && name in ioc
    requires forall i :: 0 <= i < |classNames| && classNames[i] in classes ==>
               name !in BeanNames(classes[classNames[i]])
    ensures name in DoInstance(classNames, classes, ioc, next).ioc
    ensures DoInstance(classNames, classes, ioc, next).ioc[name] == ioc[name]
    decreases classNames
  {
    if classNames != [] && classNames[0] in classes {
      var s := Register(ioc, next, classes[classNames[0]]);
      if s.ok {
        assert name !in BeanNames(classes[classNames[0]]);
        assert s.ioc[name] == ioc[name];
        var rest := classNames[1..];
        assert forall i :: 0 <= i < |rest| ==> rest[i] == classNames[i + 1];
        DoInstanceFrame(rest, classes, s.ioc, s.next, name);
      }
    }
  }

  /** When several classes claim the same bean name, the last of them to be
      processed holds it: after a run through `a`, then `c`, then classes `b`
      none of which claims the name, the name holds an instance of `c`. */
  lemma LastRegistrationWins(a: seq<JString>, c: JString, b: seq<JString>,
                             classes: map<JString, TypeDesc>,
                             ioc: Registry, next: nat, name: JString)
    requires Fresh(ioc, next)
    requires DoInstance(a, classes, ioc, next).stoppedAt.None?
    requires c in classes && Registers(classes[c]) && name in BeanNames(classes[c])
    requires forall i :: 0 <= i < |b| && b[i] in classes ==> name !in BeanNames(classes[b[i]])
    ensures var o := DoInstance(a + ([c] + b), classes, ioc, next);
      name in o.ioc && o.ioc[name].cls == classes[c]
  {
    var cb := [c] + b;
    DoInstanceSequential(a, cb, classes, ioc, next);
    var mid := DoInstance(a, classes, ioc, next);
    var s := Register(mid.ioc, mid.next, classes[c]);
    assert cb[0] == c && cb[1..] == b;
    assert DoInstance(cb, classes, mid.ioc, mid.next) == DoInstance(b, classes, s.ioc, s.next);
    DoInstanceFrame(b, classes, s.ioc, s.next, name);
  }
}
