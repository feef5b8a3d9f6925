/** What `doAutowired` does to the fields of the beans in the container. */
module Injector {
  import opened JavaLang
  import opened Reflection

  /** The `ioc` key a `@MyAutowired` field is looked up under: the annotation's value, or the
      binary name of the field's declared type when the value is exactly "" (no trimming). */
  function InjectionKey(fi: FieldInfo): JString
    requires fi.autowired.Some?
  {
    if fi.autowired.value == [] then fi.typeName else fi.autowired.value
  }

  /** `ioc.get(key)`: the bean, or null when the key is absent. */
  function Lookup(ioc: map<JString, ObjectId>, key: JString): Option<ObjectId>
  {
    if key in ioc then Some(ioc[key]) else None
  }

  /** Class `c` declares a field `f` that carries `@MyAutowired`. */
  predicate IsAutowired(c: ClassInfo, f: JString) {
    f in c.fields && c.fields[f].autowired.Some?
  }

  /** Field `f` of object `o` is set by `doAutowired` when `o` is among `beans` and its class
      declares `f` with `@MyAutowired`. */
  predicate IsSite(instances: map<ObjectId, ClassInfo>, beans: set<ObjectId>, o: ObjectId, f: JString) {
    o in beans && o in instances && IsAutowired(instances[o], f)
  }

  /** The value `doAutowired` stores into field `f` of an object of class `c`. */
  function Injected(ioc: map<JString, ObjectId>, c: ClassInfo, f: JString): Option<ObjectId>
    requires IsAutowired(c, f)
  {
    Lookup(ioc, InjectionKey(c.fields[f]))
  }

  /** The heap after the autowired fields of the objects `beans` have been set from `ioc`. */
  function Wire(ioc: map<JString, ObjectId>, instances: map<ObjectId, ClassInfo>, h: Heap,
                beans: set<ObjectId>): (r: Heap)
    ensures forall o: ObjectId, f: JString :: (o, f) in r <==> (o, f) in h || IsSite(instances, beans, o, f)
    ensures forall o: ObjectId, f: JString ::
              Read(r, o, f) == if IsSite(instances, beans, o, f) then Injected(ioc, instances[o], f) else Read(h, o, f)
  {
    var sites := map o, f | o in beans && o in instances && f in instances[o].fields
                            && instances[o].fields[f].autowired.Some?
                          :: (o, f) := Injected(ioc, instances[o], f);
    var r := h + sites;
    assert forall o: ObjectId, f: JString :: IsSite(instances, beans, o, f) ==> (o, f) in sites;
    r
  }

  /** `doAutowired`: every bean reachable from `ioc`, through any of its keys, gets each of its
      autowired fields set to the bean its key names, or null; no other slot changes. */
  function Autowired(ioc: map<JString, ObjectId>, instances: map<ObjectId, ClassInfo>, h: Heap): (r: Heap)
    ensures forall k, f :: k in ioc && ioc[k] in instances && IsAutowired(instances[ioc[k]], f) ==>
              Read(r, ioc[k], f) == Lookup(ioc, InjectionKey(instances[ioc[k]].fields[f]))
    ensures forall o: ObjectId, f: JString :: !IsSite(instances, ioc.Values, o, f) ==> Read(r, o, f) == Read(h, o, f)
  {
    Wire(ioc, instances, h, ioc.Values)
  }

  /** Wiring one set of beans and then another is wiring both at once; in particular the order
      in which beans are visited does not matter. */
  lemma WireUnion(ioc: map<JString, ObjectId>, instances: map<ObjectId, ClassInfo>, h: Heap,
                  a: set<ObjectId>, b: set<ObjectId>)
    ensures Wire(ioc, instances, Wire(ioc, instances, h, a), b) == Wire(ioc, instances, h, a + b)
    ensures Wire(ioc, instances, Wire(ioc, instances, h, a), b)
         == Wire(ioc, instances, Wire(ioc, instances, h, b), a)
  {
    WireThenWire(ioc, instances, h, a, b);
    WireThenWire(ioc, instances, h, b, a);
    assert b + a == a + b;
  }

  /** Wiring `a` and then `b` is wiring `a + b`: `b`'s sites get the same values either way. */
  lemma WireThenWire(ioc: map<JString, ObjectId>, instances: map<ObjectId, ClassInfo>, h: Heap,
                     a: set<ObjectId>, b: set<ObjectId>)
    ensures Wire(ioc, instances, Wire(ioc, instances, h, a), b) == Wire(ioc, instances, h, a + b)
  {
    var ha := Wire(ioc, instances, h, a);
    var x := Wire(ioc, instances, ha, b);
    var y := Wire(ioc, instances, h, a + b);
    forall o: ObjectId, f: JString
      ensures ((o, f) in x <==> (o, f) in y) && Read(x, o, f) == Read(y, o, f)
    {
      assert IsSite(instances, a + b, o, f) <==> IsSite(instances, a, o, f) || IsSite(instances, b, o, f);
    }
    SameHeap(x, y);
  }

  /** One more bean visited: a heap that differs from the wiring of `visited` exactly at the
      autowired fields of `bean`, which hold their injected values, is the wiring of
      `visited + {bean}`. */
  lemma WireOneMore(ioc: map<JString, ObjectId>, instances: map<ObjectId, ClassInfo>, h: Heap,
                    visited: set<ObjectId>, bean: ObjectId, next: Heap)
    requires bean in instances
    requires forall p: ObjectId, g: JString :: (p, g) in next <==>
               (p, g) in Wire(ioc, instances, h, visited) || (p == bean && IsAutowired(instances[bean], g))
    requires forall p: ObjectId, g: JString ::
               Read(next, p, g) == if p == bean && IsAutowired(instances[bean], g)
                                   then Injected(ioc, instances[bean], g)
                                   else Read(Wire(ioc, instances, h, visited), p, g)
    ensures next == Wire(ioc, instances, h, visited + {bean})
  {
    var w := Wire(ioc, instances, h, visited + {bean});
    forall p: ObjectId, g: JString
      ensures ((p, g) in next <==> (p, g) in w) && Read(next, p, g) == Read(w, p, g)
    {
      assert IsSite(instances, visited + {bean}, p, g) <==>
             IsSite(instances, visited, p, g) || (p == bean && IsAutowired(instances[bean], g));
    }
    SameHeap(next, w);
  }

  /** Two heaps with the same slots holding the same values are equal. */
  lemma SameHeap(x: Heap, y: Heap)
    requires forall o: ObjectId, f: JString :: (o, f) in x <==> (o, f) in y
    requires forall o: ObjectId, f: JString :: Read(x, o, f) == Read(y, o, f)
    ensures x == y
  {
    forall p | p in x
      ensures p in y && x[p] == y[p]
    {
      assert (p.0, p.1) == p;
      assert Read(x, p.0, p.1) == Read(y, p.0, p.1);
    }
    forall p | p in y
      ensures p in x
    {
      assert (p.0, p.1) == p;
    }
    assert x.Keys == y.Keys;
  }

  /** Nothing is wired when there are no beans. */
  lemma WireNothing(ioc: map<JString, ObjectId>, instances: map<ObjectId, ClassInfo>, h: Heap)
    ensures Wire(ioc, instances, h, {}) == h
  {
    SameHeap(Wire(ioc, instances, h, {}), h);
  }

  /** Running `doAutowired` a second time changes nothing: every value it stores depends only on
      `ioc`, which it does not modify. */
  lemma AutowiredIdempotent(ioc: map<JString, ObjectId>, instances: map<ObjectId, ClassInfo>, h: Heap)
    ensures Autowired(ioc, instances, Autowired(ioc, instances, h)) == Autowired(ioc, instances, h)
  {
    WireThenWire(ioc, instances, h, ioc.Values, ioc.Values);
    assert ioc.Values + ioc.Values == ioc.Values;
  }

  /** Two beans that depend on each other are both bound, whichever was created first: `a`'s
      field `fa` looks up a key that holds `b`, and `b`'s field `fb` one that holds `a`. */
  lemma MutualDependencies(ioc: map<JString, ObjectId>, instances: map<ObjectId, ClassInfo>, h: Heap,
                           ka: JString, fa: JString, kb: JString, fb: JString)
    requires ka in ioc && kb in ioc && ioc[ka] in instances && ioc[kb] in instances
    requires fa in instances[ioc[ka]].fields && instances[ioc[ka]].fields[fa].autowired.Some?
    requires fb in instances[ioc[kb]].fields && instances[ioc[kb]].fields[fb].autowired.Some?
    requires InjectionKey(instances[ioc[ka]].fields[fa]) == kb
    requires InjectionKey(instances[ioc[kb]].fields[fb]) == ka
    ensures Read(Autowired(ioc, instances, h), ioc[ka], fa) == Some(ioc[kb])
    ensures Read(Autowired(ioc, instances, h), ioc[kb], fb) == Some(ioc[ka])
  {
    assert IsSite(instances, ioc.Values, ioc[ka], fa);
    assert IsSite(instances, ioc.Values, ioc[kb], fb);
  }

  /** A field whose key is absent from `ioc` is set to null, not left alone; this is not an
      error, and no other slot is affected by it. */
  lemma MissingDependencyIsNull(ioc: map<JString, ObjectId>, instances: map<ObjectId, ClassInfo>, h: Heap,
                                k: JString, f: JString)
    requires k in ioc && ioc[k] in instances
    requires f in instances[ioc[k]].fields && instances[ioc[k]].fields[f].autowired.Some?
    requires InjectionKey(instances[ioc[k]].fields[f]) !in ioc
    ensures Read(Autowired(ioc, instances, h), ioc[k], f) == None
  {
    assert IsSite(instances, ioc.Values, ioc[k], f);
  }

  /** Fields without `@MyAutowired`, and fields of objects no key of `ioc` reaches, keep their
      values. */
  lemma UnannotatedUnchanged(ioc: map<JString, ObjectId>, instances: map<ObjectId, ClassInfo>, h: Heap,
                             o: ObjectId, f: JString)
    requires o !in ioc.Values || o !in instances || f !in instances[o].fields
             || instances[o].fields[f].autowired.None?
    ensures Read(Autowired(ioc, instances, h), o, f) == Read(h, o, f)
  {
  }

  /** `@MyAutowired` with no value injects the bean registered under the binary name of the
      field's declared type. */
  lemma TypeNameFallback(ioc: map<JString, ObjectId>, instances: map<ObjectId, ClassInfo>, h: Heap,
                         k: JString, f: JString)
    requires k in ioc && ioc[k] in instances && f in instances[ioc[k]].fields
    requires instances[ioc[k]].fields[f].autowired == Some([])
    requires instances[ioc[k]].fields[f].typeName in ioc
    ensures Read(Autowired(ioc, instances, h), ioc[k], f) == Some(ioc[instances[ioc[k]].fields[f].typeName])
  {
  }

  /** A blank but non-empty `@MyAutowired` value is not trimmed and does not fall back to the
      type name: `@MyAutowired(" ")` looks up the key " ", and the field is null when no bean is
      registered under " ", even if one is registered under the field's type. */
  lemma BlankKeyNotTrimmed(ioc: map<JString, ObjectId>, instances: map<ObjectId, ClassInfo>, h: Heap,
                           k: JString, f: JString)
    requires k in ioc && ioc[k] in instances && f in instances[ioc[k]].fields
    requires instances[ioc[k]].fields[f].autowired == Some([0x20])
    ensures [0x20] in ioc ==> Read(Autowired(ioc, instances, h), ioc[k], f) == Some(ioc[[0x20]])
    ensures [0x20] !in ioc ==> Read(Autowired(ioc, instances, h), ioc[k], f) == None
  {
  }
}
