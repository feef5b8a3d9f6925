/** `MyDispatcherServlet`'s bootstrap: scan the package, instantiate the tagged classes into the
    IoC map, then autowire their fields. Each step is proved to compute its specification in
    `Scanner`, `Registry` and `Injector`. */
module Servlet {
  import opened JavaLang
  import opened Reflection
  import opened BeanNaming
  import Scanner
  import Registry
  import Injector

  class DispatcherServlet {
    /** The classes the class loader can load. */
    const classPath: ClassPath
    /** `classNames`: the names `doScanner` has collected. */
    var classNames: seq<JString>
    /** `ioc`: bean name to bean. */
    var ioc: map<JString, ObjectId>
    /** The runtime class of every object created so far. */
    var instances: map<ObjectId, ClassInfo>
    /** The identity the next `newInstance` returns. */
    var nextId: ObjectId
    /** The reference fields of all objects. */
    var heap: Heap

    /** The part of the state that `doInstance` changes. */
    ghost function Container(): Registry.Container
      reads this
    {
      Registry.Container(ioc, instances, nextId)
    }

    ghost predicate Valid()
      reads this
    {
      Registry.Valid(Container())
    }

    /** A servlet before `init`: no class names, an empty container, no objects. */
    constructor (classPath: ClassPath)
      ensures this.classPath == classPath && classNames == []
      ensures ioc == map[] && instances == map[] && nextId == 0 && heap == map[]
      ensures Valid()
    {
      this.classPath := classPath;
      classNames := [];
      ioc := map[];
      instances := map[];
      nextId := 0;
      heap := map[];
    }

    /** `init`, from the scan on: the package named by `scanPackage`, whose directory lists
        `listing`, is scanned; then every collected class is instantiated; then every bean is
        autowired, against the finished container. */
    method Init(scanPackage: JString, listing: seq<Entry>)
      requires Valid()
      modifies this
      ensures Valid()
      ensures classNames == old(classNames) + Scanner.Scan(scanPackage, listing)
      ensures Container() == Registry.RegisterAll(classPath, old(Container()), classNames)
      ensures heap == Injector.Autowired(ioc, instances, old(heap))
    {
      DoScanner(scanPackage, listing);
      DoInstance();
      DoAutowired();
    }

    /** `doScanner(scanPackage)`, with `listing` what `listFiles()` returns for its directory:
        the names found are appended to `classNames`, which keeps what it held. */
    method DoScanner(scanPackage: JString, listing: seq<Entry>)
      modifies this`classNames
      ensures classNames == old(classNames) + Scanner.Scan(scanPackage, listing)
      decreases listing
    {
      for i := 0 to |listing|
        invariant classNames == old(classNames) + Scanner.Scan(scanPackage, listing[..i])
      {
        ScanEntryInto(scanPackage, listing[i]);
        Scanner.ScanSnoc(scanPackage, listing[..i], listing[i]);
        assert listing[..i + 1] == listing[..i] + [listing[i]];
      }
      assert listing[..|listing|] == listing;
    }

    /** The body of the loop over `listFiles()` for one entry: a directory is scanned as the
        sub-package, a file's class name is appended. */
    method ScanEntryInto(scanPackage: JString, e: Entry)
      modifies this`classNames
      ensures classNames == old(classNames) + Scanner.Scan(scanPackage, [e])
      decreases e
    {
      Scanner.ScanEntry(scanPackage, e);
      match e {
        case Dir(name, children) =>
          DoScanner(scanPackage + Dot + name, children);
        case File(name) =>
          var className := scanPackage + Dot + StripClassExt(name);
          classNames := classNames + [className];
      }
    }

    /** `doInstance`: each collected class name in turn is registered, or skipped when it
        cannot be loaded, is untagged, or throws. */
    method DoInstance()
      requires Valid()
      modifies this`ioc, this`instances, this`nextId
      ensures Valid()
      ensures Container() == Registry.RegisterAll(classPath, old(Container()), classNames)
    {
      if |classNames| == 0 {
        return;
      }
      for i := 0 to |classNames|
        invariant Container() == Registry.RegisterAll(classPath, old(Container()), classNames[..i])
      {
        assert classNames[..i + 1][..i] == classNames[..i];
        InstantiateOne(classNames[i]);
      }
      assert classNames[..|classNames|] == classNames;
      Registry.RegisterAllValid(classPath, old(Container()), classNames);
    }

    /** The body of the `forEach` in `doInstance`, for one class name; each `return` is a path on
        which the Java code throws (and the exception is caught) or does nothing. */
    method InstantiateOne(className: JString)
      modifies this`ioc, this`instances, this`nextId
      ensures Container() == Registry.Register(classPath, old(Container()), className)
    {
      if className !in classPath {
        return;  // Class.forName throws
      }
      var c := classPath[className];
      if c.isController {
        var name := ToLocalFirstWord(c.simpleName);
        if name.None? || c.instantiationFails {
          return;
        }
        var o := NewInstance(c);
        ioc := ioc[name.value := o];
        Registry.PutAllCons(old(ioc), name.value, [], o);
      } else if c.service.Some? {
        var beanName := c.service.value;
        if Trim(beanName) == [] {
          var shifted := ToLocalFirstWord(beanName);
          if shifted.None? {
            return;  // chars[0] of ""
          }
          beanName := shifted.value;
        }
        if c.instantiationFails {
          return;
        }
        assert Registry.BeanKeys(c) == Some([beanName] + c.interfaces);
        var o := NewInstance(c);
        ioc := ioc[beanName := o];
        PutInterfaces(c.interfaces, o);
        Registry.PutAllCons(old(ioc), beanName, c.interfaces, o);
      }
    }

    /** The loop over `getInterfaces()`: `ioc.put(i.getName(), instance)` for each in turn. */
    method PutInterfaces(interfaces: seq<JString>, o: ObjectId)
      modifies this`ioc
      ensures ioc == Registry.PutAll(old(ioc), interfaces, o)
    {
      for j := 0 to |interfaces|
        invariant ioc == Registry.PutAll(old(ioc), interfaces[..j], o)
      {
        assert interfaces[..j + 1][..j] == interfaces[..j];
        ioc := ioc[interfaces[j] := o];
      }
      assert interfaces[..|interfaces|] == interfaces;
    }

    /** `clazz.newInstance()` on a class that instantiates: a new object of class `c`. */
    method NewInstance(c: ClassInfo) returns (o: ObjectId)
      modifies this`instances, this`nextId
      ensures o == old(nextId) && nextId == o + 1 && instances == old(instances)[o := c]
    {
      o := nextId;
      instances := instances[o := c];
      nextId := nextId + 1;
    }

    /** `doAutowired`: every entry of `ioc`, in whatever order the map yields them, has its
        autowired fields set from `ioc`, which is not modified. */
    method DoAutowired()
      requires Valid()
      modifies this`heap
      ensures heap == Injector.Autowired(ioc, instances, old(heap))
    {
      if |ioc| == 0 {
        assert ioc.Values == {};
        Injector.WireNothing(ioc, instances, heap);
        return;
      }
      var entries := ioc.Keys;
      ghost var visited: set<ObjectId> := {};
      Injector.WireNothing(ioc, instances, heap);
      while entries != {}
        invariant entries <= ioc.Keys
        invariant visited <= ioc.Values
        invariant forall k :: k in ioc && k !in entries ==> ioc[k] in visited
        invariant heap == Injector.Wire(ioc, instances, old(heap), visited)
        decreases entries
      {
        var key :| key in entries;
        var bean := ioc[key];
        AutowireBean(bean);
        Injector.WireOneMore(ioc, instances, old(heap), visited, bean, heap);
        entries := entries - {key};
        visited := visited + {bean};
      }
      assert visited == ioc.Values;
    }

    /** The inner loop of `doAutowired` for one bean: each declared field, in whatever order
        `getDeclaredFields` yields them; a field with `@MyAutowired` is set to `ioc.get(key)`,
        every other slot keeps its value. */
    method AutowireBean(bean: ObjectId)
      requires bean in instances
      modifies this`heap
      ensures forall p: ObjectId, g: JString :: (p, g) in heap <==>
                (p, g) in old(heap) || (p == bean && Injector.IsAutowired(instances[bean], g))
      ensures forall p: ObjectId, g: JString ::
                Read(heap, p, g) == if p == bean && Injector.IsAutowired(instances[bean], g)
                                    then Injector.Injected(ioc, instances[bean], g) else Read(old(heap), p, g)
    {
      var c := instances[bean];
      var fields := c.fields.Keys;  // getDeclaredFields()
      while fields != {}
        invariant fields <= c.fields.Keys
        invariant forall p: ObjectId, g: JString :: (p, g) in heap <==>
                    (p, g) in old(heap) || (p == bean && g !in fields && Injector.IsAutowired(c, g))
        invariant forall p: ObjectId, g: JString ::
                    Read(heap, p, g) == if p == bean && g !in fields && Injector.IsAutowired(c, g)
                                        then Injector.Injected(ioc, c, g) else Read(old(heap), p, g)
        decreases fields
      {
        var f :| f in fields;
        ghost var prev := heap;
        var field := c.fields[f];
        if field.autowired.Some? {
          var value := field.autowired.value;
          if value == [] {
            value := field.typeName;
          }
          assert value == Injector.InjectionKey(field);
          heap := heap[(bean, f) := Injector.Lookup(ioc, value)];
          forall p: ObjectId, g: JString | (p, g) != (bean, f)
            ensures Read(heap, p, g) == Read(prev, p, g)
          {
          }
        }
        fields := fields - {f};
      }
    }
  }
}
