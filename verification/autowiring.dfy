/** `doAutowired`: filling every `@DPAutowried` field of every registered bean
    from the registry.

    The registry itself is only read. The effect is on the beans' fields,
    recorded as a `Wiring`: for each object id, the fields that received a
    value and the value they received. A field missing from the wiring kept
    whatever it held before. */
module Autowiring {
  import opened JavaLang
  import opened Descriptors

  /** Field values written by injection, per object id and field name. */
  type Wiring = map<nat, map<JString, Value>>

  /** The registry name a marked field reads: the trimmed marker value, or the
      field's declared type name when that trims to nothing. */
  function TargetName(f: FieldDesc): (name: JString)
    requires f.autowired.Some?
    ensures Trim(f.autowired.value) != [] ==> name == Trim(f.autowired.value)
    ensures Trim(f.autowired.value) == [] ==> name == f.typeName
  {
    var beanName := Trim(f.autowired.value);
    if beanName == [] then f.typeName else beanName
  }

  /** `field.set` accepts `null` and any instance of the field's type; any other
      value throws `IllegalArgumentException`, which the loop catches. */
  predicate Assignable(v: Value, typeName: JString) {
    v.Null? || IsInstance(v.bean, typeName)
  }

  /** What `field.set(bean, ioc.get(name))` stores into field `f`, if anything. */
  function Injected(f: FieldDesc, ioc: Registry): Option<Value> {
    if f.autowired.None? then None
    else
      var v := Get(ioc, TargetName(f));
      if Assignable(v, f.typeName) then Some(v) else None
  }

  /** The inner loop over one bean's declared fields. */
  function InjectFields(fields: seq<FieldDesc>, ioc: Registry): map<JString, Value>
    decreases |fields|
  {
    if fields == [] then map[]
    else
      var f := fields[|fields| - 1];
      var m := InjectFields(fields[..|fields| - 1], ioc);
      match Injected(f, ioc)
      case None => m
      case Some(v) => m[f.name := v]
  }

  /** A class's declared fields have distinct names. */
  ghost predicate DistinctNames(fields: seq<FieldDesc>) {
    forall i, j :: 0 <= i < j < |fields| ==> fields[i].name != fields[j].name
  }

  /** Field `i` receives `ioc.get(name)` when injection into it succeeds, and
      is left alone otherwise. */
  lemma {:induction false} InjectFieldsAt(fields: seq<FieldDesc>, ioc: Registry, i: nat)
    requires DistinctNames(fields) && i < |fields|
    ensures Injected(fields[i], ioc).Some? ==>
      fields[i].name in InjectFields(fields, ioc)
      && InjectFields(fields, ioc)[fields[i].name] == Get(ioc, TargetName(fields[i]))
    ensures Injected(fields[i], ioc).None? ==> fields[i].name !in InjectFields(fields, ioc)
    decreases |fields|
  {
    var last := |fields| - 1;
    var f := fields[last];
    var init := fields[..last];
    var m := InjectFields(init, ioc);
    var r := InjectFields(fields, ioc);
    assert Injected(f, ioc).None? ==> r == m;
    assert Injected(f, ioc).Some? ==> r == m[f.name := Injected(f, ioc).value];
    if i < last {
      assert DistinctNames(init);
      assert fields[i] == init[i];
      assert fields[i].name != f.name;
      InjectFieldsAt(init, ioc, i);
    } else if Injected(f, ioc).None? {
      InjectFieldsOnlyNamed(init, ioc);
      forall j | 0 <= j < |init|
        ensures init[j].name != f.name
      {
        assert fields[j] == init[j];
      }
    }
  }

  /** Nothing but a field's own name is ever written. */
  lemma {:induction false} InjectFieldsOnlyNamed(fields: seq<FieldDesc>, ioc: Registry)
    ensures forall k :: k in InjectFields(fields, ioc) ==>
      exists i :: 0 <= i < |fields| && fields[i].name == k && Injected(fields[i], ioc).Some?
    decreases |fields|
  {
    if fields != [] {
      var last := |fields| - 1;
      var f := fields[last];
      var init := fields[..last];
      var m := InjectFields(init, ioc);
      var r := InjectFields(fields, ioc);
      InjectFieldsOnlyNamed(init, ioc);
      assert Injected(f, ioc).None? ==> r == m;
      assert Injected(f, ioc).Some? ==> r == m[f.name := Injected(f, ioc).value];
      forall k | k in r
        ensures exists i :: 0 <= i < |fields| && fields[i].name == k && Injected(fields[i], ioc).Some?
      {
        if k != f.name || Injected(f, ioc).None? {
          assert k in m;
          var i :| 0 <= i < |init| && init[i].name == k && Injected(init[i], ioc).Some?;
          assert fields[i] == init[i];
        }
      }
    }
  }

  /** Every marked field whose target value fits receives `ioc.get(name)`, which
      is `null` when the name is not registered; every other field is untouched,
      and nothing but a field's own name is written. */
  lemma InjectFieldsSpec(fields: seq<FieldDesc>, ioc: Registry)
    requires DistinctNames(fields)
    ensures forall i :: 0 <= i < |fields| && Injected(fields[i], ioc).Some? ==>
      fields[i].name in InjectFields(fields, ioc)
      && InjectFields(fields, ioc)[fields[i].name] == Get(ioc, TargetName(fields[i]))
    ensures forall i :: 0 <= i < |fields| && Injected(fields[i], ioc).None? ==>
      fields[i].name !in InjectFields(fields, ioc)
    ensures forall k :: k in InjectFields(fields, ioc) ==>
      exists i :: 0 <= i < |fields| && fields[i].name == k && Injected(fields[i], ioc).Some?
  {
    forall i | 0 <= i < |fields| {
      InjectFieldsAt(fields, ioc, i);
    }
    InjectFieldsOnlyNamed(fields, ioc);
  }

  /** A marked field whose target name is absent from the registry is set to `null`. */
  lemma MissingTargetGivesNull(fields: seq<FieldDesc>, ioc: Registry, i: nat)
    requires DistinctNames(fields) && i < |fields|
    requires fields[i].autowired.Some? && TargetName(fields[i]) !in ioc
    ensures fields[i].name in InjectFields(fields, ioc)
            && InjectFields(fields, ioc)[fields[i].name] == Null
  {
    InjectFieldsSpec(fields, ioc);
  }

  /** The outer loop over `ioc.entrySet()`, in the iteration order `order`. */
  function Autowire(ioc: Registry, order: seq<JString>): Wiring
    requires forall n :: n in order ==> n in ioc
    decreases |order|
  {
    if order == [] then map[]
    else
      var b := ioc[order[|order| - 1]];
      Autowire(ioc, order[..|order| - 1])[b.id := InjectFields(b.cls.fields, ioc)]
  }

  /** Two names that share an object share the whole bean. */
  ghost predicate SameIdSameBean(ioc: Registry) {
    forall a, b :: a in ioc && b in ioc && ioc[a].id == ioc[b].id ==> ioc[a] == ioc[b]
  }

  /** A registry of distinct objects has this property. */
  lemma FreshIsSameIdSameBean(ioc: Registry, next: nat)
    requires Fresh(ioc, next)
    ensures SameIdSameBean(ioc)
  {
  }

  /** Whatever the iteration order, each visited object ends up with exactly the
      fields its own class's loop writes, and no other object is touched. */
  lemma {:induction false} AutowireSpec(ioc: Registry, order: seq<JString>)
    requires forall n :: n in order ==> n in ioc
    requires SameIdSameBean(ioc)
    ensures forall n :: n in order ==>
      ioc[n].id in Autowire(ioc, order)
      && Autowire(ioc, order)[ioc[n].id] == InjectFields(ioc[n].cls.fields, ioc)
    ensures forall id :: id in Autowire(ioc, order) ==>
      exists n :: n in order && ioc[n].id == id
    decreases |order|
  {
    if order != [] {
      var last := |order| - 1;
      var init := order[..last];
      assert forall n :: n in order <==> n in init || n == order[last];
      AutowireSpec(ioc, init);
      var b := ioc[order[last]];
      assert Autowire(ioc, order) == Autowire(ioc, init)[b.id := InjectFields(b.cls.fields, ioc)];
    }
  }

  /** The wiring does not depend on the registry's iteration order. */
  lemma AutowireOrderIrrelevant(ioc: Registry, o1: seq<JString>, o2: seq<JString>)
    requires Enumerates(o1, ioc.Keys) && Enumerates(o2, ioc.Keys)
    requires SameIdSameBean(ioc)
    ensures Autowire(ioc, o1) == Autowire(ioc, o2)
  {
    AutowireSpec(ioc, o1);
    AutowireSpec(ioc, o2);
    var w1, w2 := Autowire(ioc, o1), Autowire(ioc, o2);
    assert forall n :: n in o1 <==> n in o2;
    assert w1.Keys == w2.Keys;
  }
}
