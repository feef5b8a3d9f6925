/** The reflective world the servlet reads and writes, reduced to plain data: what the class
    loader can find, what each class declares, the package directory tree, and the reference
    fields of the objects that `newInstance` creates. */
module Reflection {
  import opened JavaLang

  /** A declared field: the binary name of its declared type (`getType().getName()`) and, when
      it carries `@MyAutowired`, that annotation's `value()`. */
  datatype FieldInfo = FieldInfo(typeName: JString, autowired: Option<JString>)

  /** What reflection reports about one loadable class. */
  datatype ClassInfo = ClassInfo(
    simpleName: JString,               // getSimpleName()
    isController: bool,                // @MyController is present
    service: Option<JString>,          // @MyService is present, with its value()
    interfaces: seq<JString>,          // getInterfaces(), by binary name, in declared order
    instantiationFails: bool,          // newInstance() throws
    fields: map<JString, FieldInfo>)   // getDeclaredFields(), by field name

  /** The classes `Class.forName` can load, by binary name; any other name throws. */
  type ClassPath = map<JString, ClassInfo>

  /** An entry of a package directory as `File.listFiles` reports it. */
  datatype Entry = File(name: JString) | Dir(name: JString, entries: seq<Entry>)

  /** The identity of an object created by `newInstance`. */
  type ObjectId = nat

  /** The reference fields of all objects: a slot holds an object or null (`None`); a slot that
      was never written holds null, Java's default. */
  type Heap = map<(ObjectId, JString), Option<ObjectId>>

  /** The value of field `f` of object `o`. */
  function Read(h: Heap, o: ObjectId, f: JString): Option<ObjectId> {
    if (o, f) in h then h[(o, f)] else None
  }
}
