/** What `doInstance` does to the IoC container, one class name at a time. */
module Registry {
  import opened JavaLang
  import opened Reflection
  import opened BeanNaming

  /** The state `doInstance` changes: the `ioc` map from bean names to objects, the runtime class
      of every object `newInstance` has created so far, and the next fresh object identity. */
  datatype Container = Container(
    ioc: map<JString, ObjectId>,
    instances: map<ObjectId, ClassInfo>,
    nextId: ObjectId)

  /** The keys `doInstance` puts a new instance of class `c` under, in the order of the `put`s, or
      `None` when it puts nothing: the class is untagged, or the loop body throws first (an empty
      controller simple name, an empty service value, a failing `newInstance`). The controller
      test comes first, so a class tagged both ways is registered only as a controller. */
  function BeanKeys(c: ClassInfo): (r: Option<seq<JString>>)
    ensures r.Some? ==> r.value != []
    ensures r.Some? ==> !c.instantiationFails && (c.isController || c.service.Some?)
  {
    if c.isController then
      match ToLocalFirstWord(c.simpleName)
      case None => None
      case Some(name) => if c.instantiationFails then None else Some([name])
    else if c.service.Some? then
      match ServiceBeanName(c.service.value)
      case None => None
      case Some(name) => if c.instantiationFails then None else Some([name] + c.interfaces)
    else None
  }

  /** Key `k` is one that class `c` is registered under. */
  predicate Justifies(c: ClassInfo, k: JString) {
    BeanKeys(c).Some? && k in BeanKeys(c).value
  }

  /** The keys that registering the class named `className` writes (none if it is not loadable). */
  function Writes(cp: ClassPath, className: JString): set<JString> {
    if className in cp && BeanKeys(cp[className]).Some? then set k | k in BeanKeys(cp[className]).value
    else {}
  }

  /** `ioc.put(k, v)` for every `k` of `keys` in turn. */
  function PutAll(m: map<JString, ObjectId>, keys: seq<JString>, v: ObjectId): (r: map<JString, ObjectId>)
    ensures r.Keys == m.Keys + set k | k in keys
    ensures forall k :: k in r ==> r[k] == if k in keys then v else m[k]
    decreases |keys|
  {
    if keys == [] then m
    else PutAll(m, keys[..|keys| - 1], v)[keys[|keys| - 1] := v]
  }

  /** `put(k, v)` followed by `put`s of `keys` is the `put`s of `[k] + keys`. */
  lemma PutAllCons(m: map<JString, ObjectId>, k: JString, keys: seq<JString>, v: ObjectId)
    ensures PutAll(m[k := v], keys, v) == PutAll(m, [k] + keys, v)
  {
    var x := PutAll(m[k := v], keys, v);
    var y := PutAll(m, [k] + keys, v);
    assert x.Keys == y.Keys;
    forall j | j in x
      ensures x[j] == y[j]
    {
    }
  }

  /** One pass of the `forEach` body of `doInstance` for `className`: a class that is
      registered gets one fresh instance, stored under every key of `BeanKeys`; any other name
      leaves the container as it was (and creates no object). */
  function Register(cp: ClassPath, st: Container, className: JString): (r: Container)
    ensures st.ioc.Keys <= r.ioc.Keys
    ensures r.nextId == st.nextId || r.nextId == st.nextId + 1
    ensures r.nextId == st.nextId <==> r == st
  {
    if className !in cp then st   // Class.forName throws
    else
      match BeanKeys(cp[className])
      case None => st
      case Some(keys) =>
        Container(PutAll(st.ioc, keys, st.nextId), st.instances[st.nextId := cp[className]], st.nextId + 1)
  }

  /** `doInstance` over `classNames`, in list order. A `put` never removes a key, and each
      class name creates at most one object. */
  function RegisterAll(cp: ClassPath, st: Container, classNames: seq<JString>): (r: Container)
    ensures st.ioc.Keys <= r.ioc.Keys
    ensures st.nextId <= r.nextId <= st.nextId + |classNames|
    decreases |classNames|
  {
    if classNames == [] then st
    else Register(cp, RegisterAll(cp, st, classNames[..|classNames| - 1]), classNames[|classNames| - 1])
  }

  /** Every object identity handed out so far is below `nextId`, so the next one is new. */
  ghost predicate Fresh(st: Container) {
    forall o :: o in st.instances ==> o < st.nextId
  }

  /** The container invariant: every object identity handed out is below `nextId`, and every key
      maps to a created object whose class is registered under that key. So untagged classes and
      classes whose registration throws never appear, controllers appear only under their
      shifted simple name, and services only under their bean name and their interfaces. */
  ghost predicate Valid(st: Container) {
    && Fresh(st)
    && (forall k :: k in st.ioc ==> st.ioc[k] in st.instances && Justifies(st.instances[st.ioc[k]], k))
  }

  /** A name that cannot be loaded, an untagged class, or a class whose body throws before its
      first `put` leaves the container exactly as it was: processing just goes on. */
  lemma RegisterSkips(cp: ClassPath, st: Container, className: JString)
    requires className !in cp || BeanKeys(cp[className]).None?
    ensures Register(cp, st, className) == st
  {
  }

  /** A `@MyController` class with a non-empty simple name that instantiates is stored under
      `toLocalFirstWord(simpleName)` and nothing else, whatever its `@MyService` says. */
  lemma RegisterController(cp: ClassPath, st: Container, className: JString)
    requires className in cp && cp[className].isController
    requires cp[className].simpleName != [] && !cp[className].instantiationFails
    ensures var r := Register(cp, st, className);
      && r.ioc == st.ioc[ToLocalFirstWord(cp[className].simpleName).value := st.nextId]
      && r.instances == st.instances[st.nextId := cp[className]]
      && r.nextId == st.nextId + 1
  {
    var r := Register(cp, st, className);
    var name := ToLocalFirstWord(cp[className].simpleName).value;
    assert r.ioc == PutAll(st.ioc, [name], st.nextId);
    assert [name][..0] == [];
  }

  /** A `@MyService` class (not a controller) whose value is not blank and that instantiates
      is stored under exactly that value and under every interface it implements, all mapping
      to one new instance; every other key keeps its old value. */
  lemma RegisterService(cp: ClassPath, st: Container, className: JString)
    requires className in cp && !cp[className].isController && cp[className].service.Some?
    requires !AllTrimmed(cp[className].service.value) && !cp[className].instantiationFails
    ensures var c := cp[className]; var r := Register(cp, st, className);
      && (forall k :: k in r.ioc <==> k in st.ioc || k == c.service.value || k in c.interfaces)
      && (forall k :: k in r.ioc ==>
            r.ioc[k] == if k == c.service.value || k in c.interfaces then st.nextId else st.ioc[k])
      && r.instances == st.instances[st.nextId := c]
  {
    var c := cp[className];
    assert BeanKeys(c) == Some([c.service.value] + c.interfaces);
  }

  /** A `@MyService` class with the value "" is skipped (its `toLocalFirstWord("")` throws);
      one whose value is non-empty but blank is stored under that value with its first unit
      shifted by 32, not under its simple name. */
  lemma RegisterBlankService(cp: ClassPath, st: Container, className: JString)
    requires className in cp && !cp[className].isController && cp[className].service.Some?
    requires AllTrimmed(cp[className].service.value) && !cp[className].instantiationFails
    ensures var v := cp[className].service.value;
      && (v == [] ==> Register(cp, st, className) == st)
      && (v != [] ==>
            var c := cp[className]; var key := ToLocalFirstWord(v).value;
            var r := Register(cp, st, className);
            && r.ioc == PutAll(st.ioc, [key] + c.interfaces, st.nextId)
            && (forall k :: k in r.ioc <==> k in st.ioc || k == key || k in c.interfaces)
            && (forall k :: k in r.ioc ==>
                  r.ioc[k] == if k == key || k in c.interfaces then st.nextId else st.ioc[k])
            && r.instances == st.instances[st.nextId := c]
            && r.nextId == st.nextId + 1)
  {
    TrimEmptyIffAllTrimmed(cp[className].service.value);
  }

  /** Running `doInstance` over two lists one after the other is running it over their
      concatenation: later classes see the container the earlier ones left. */
  lemma {:induction false} RegisterAllAppend(cp: ClassPath, st: Container, a: seq<JString>, b: seq<JString>)
    ensures RegisterAll(cp, st, a + b) == RegisterAll(cp, RegisterAll(cp, st, a), b)
    decreases |b|
  {
    if b == [] {
      assert a + b == a;
    } else {
      var ab := a + b;
      assert ab[..|ab| - 1] == a + b[..|b| - 1];
      assert ab[|ab| - 1] == b[|b| - 1];
      RegisterAllAppend(cp, st, a, b[..|b| - 1]);
    }
  }

  /** A key that none of `classNames` writes is untouched: present with the same object
      exactly when it was before. */
  lemma {:induction false} UnwrittenKeyStable(cp: ClassPath, st: Container, classNames: seq<JString>, k: JString)
    requires forall i :: 0 <= i < |classNames| ==> k !in Writes(cp, classNames[i])
    ensures var r := RegisterAll(cp, st, classNames);
      && (k in r.ioc <==> k in st.ioc)
      && (k in st.ioc ==> r.ioc[k] == st.ioc[k])
    decreases |classNames|
  {
    if classNames != [] {
      var n := |classNames| - 1;
      UnwrittenKeyStable(cp, st, classNames[..n], k);
      var mid := RegisterAll(cp, st, classNames[..n]);
      assert k !in Writes(cp, classNames[n]);
      if classNames[n] in cp && BeanKeys(cp[classNames[n]]).Some? {
        assert k !in BeanKeys(cp[classNames[n]]).value;
      }
    }
  }

  /** Last write wins: if class `className` is registered under `k` and no later class writes
      `k`, then after all of them `k` maps to the instance created for `className`, a fresh
      object of that class. Earlier holders of `k` (a duplicate bean name, another implementer
      of the same interface) are overwritten. */
  lemma LastWriteWins(cp: ClassPath, st: Container, before: seq<JString>, className: JString,
                      after: seq<JString>, k: JString)
    requires k in Writes(cp, className)
    requires forall i :: 0 <= i < |after| ==> k !in Writes(cp, after[i])
    requires Fresh(st)
    ensures var o := RegisterAll(cp, st, before).nextId;
      var r := RegisterAll(cp, st, before + [className] + after);
      && k in r.ioc && r.ioc[k] == o
      && o in r.instances && r.instances[o] == cp[className]
  {
    var mid := RegisterAll(cp, st, before);
    RegisterAllAppend(cp, st, before + [className], after);
    RegisterAllAppend(cp, st, before, [className]);
    assert [className][..0] == [];
    var withIt := RegisterAll(cp, st, before + [className]);
    assert withIt == Register(cp, mid, className);
    assert k in withIt.ioc && withIt.ioc[k] == mid.nextId;
    UnwrittenKeyStable(cp, withIt, after, k);
    RegisterAllGrows(cp, st, before + [className]);
    RegisterAllGrows(cp, withIt, after);
  }

  /** `doInstance` never forgets a created object nor the identities it has handed out. */
  lemma {:induction false} RegisterAllGrows(cp: ClassPath, st: Container, classNames: seq<JString>)
    requires Fresh(st)
    ensures var r := RegisterAll(cp, st, classNames);
      && Fresh(r) && st.nextId <= r.nextId
      && forall o :: o in st.instances ==> o in r.instances && r.instances[o] == st.instances[o]
    decreases |classNames|
  {
    if classNames != [] {
      RegisterAllGrows(cp, st, classNames[..|classNames| - 1]);
    }
  }

  /** One registration keeps the container invariant. */
  lemma RegisterValid(cp: ClassPath, st: Container, className: JString)
    requires Valid(st)
    ensures Valid(Register(cp, st, className))
  {
    if className in cp && BeanKeys(cp[className]).Some? {
      var r := Register(cp, st, className);
      var c := cp[className];
      forall k | k in r.ioc
        ensures r.ioc[k] in r.instances && Justifies(r.instances[r.ioc[k]], k)
      {
        if k in BeanKeys(c).value {
          assert r.ioc[k] == st.nextId;
        } else {
          assert r.ioc[k] == st.ioc[k];
          assert st.ioc[k] != st.nextId;
        }
      }
    }
  }

  /** `doInstance` keeps the container invariant, for any list of class names. */
  lemma {:induction false} RegisterAllValid(cp: ClassPath, st: Container, classNames: seq<JString>)
    requires Valid(st)
    ensures Valid(RegisterAll(cp, st, classNames))
    decreases |classNames|
  {
    if classNames != [] {
      RegisterAllValid(cp, st, classNames[..|classNames| - 1]);
      RegisterValid(cp, RegisterAll(cp, st, classNames[..|classNames| - 1]), classNames[|classNames| - 1]);
    }
  }

  /** Two implementations of one interface: the alias resolves to the instance of the one
      registered second. */
  lemma SecondImplementationWins(cp: ClassPath, st: Container, first: JString, second: JString, iface: JString)
    requires first in cp && second in cp
    requires BeanKeys(cp[first]).Some? && BeanKeys(cp[second]).Some?
    requires !cp[second].isController && iface in cp[second].interfaces
    requires Fresh(st)
    ensures var r := RegisterAll(cp, st, [first, second]);
      iface in r.ioc && r.ioc[iface] == Register(cp, st, first).nextId
  {
    assert iface in BeanKeys(cp[second]).value;
    assert iface in Writes(cp, second);
    LastWriteWins(cp, st, [first], second, [], iface);
    assert [first] + [second] + [] == [first, second];
    assert [first][..0] == [];
  }
}
