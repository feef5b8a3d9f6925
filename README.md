# mySpringMVC bootstrap, modelled in Dafny

This project models the start-up of `MyDispatcherServlet`, the servlet of a minimal Spring-MVC
look-alike. Its `init` calls five methods in a fixed order. The model covers the middle three,
which run after `doLoadConfig` and before the empty `initHandlerMapping`:

1. `doScanner` walks the directory of the configured package and collects one class name per
   file.
2. `doInstance` instantiates every class tagged `@MyController` or `@MyService` and puts it
   into the IoC map `ioc` under its bean name.
   - A service is also put under the name of every interface it implements.
3. `doAutowired` visits every entry of `ioc` and sets each `@MyAutowired` field to
   `ioc.get(key)`.

Reflection and the file system are replaced by plain data:

- A class is a `ClassInfo` record holding its simple name, tags, interfaces, declared fields
  and an "instantiation fails" flag.
- The class loader is a map from binary names to these records. A name missing from the map is
  a `Class.forName` failure.
- A package directory is an `Entry` tree made of `File(name)` and `Dir(name, entries)` nodes.
- Objects are numeric identities. Their reference fields live in a `Heap` that maps
  `(object, field)` to an object or null.

Java strings are sequences of 16-bit code units (`Char16`). This keeps the `(char)` cast in
`toLocalFirstWord`, which wraps modulo 0x10000.

The modules follow the servlet's structure:

- `JavaLang` holds `String.trim` and `String.replace(".class", "")`.
- `BeanNaming` holds `toLocalFirstWord` and the service bean name.
- `Reflection` holds the data model.
- `Scanner`, `Registry` and `Injector` state what each step computes, as functions with lemmas.
- `Servlet.DispatcherServlet` is a class with the servlet's fields (`classNames`, `ioc`) plus
  the object state (`instances`, `nextId`, `heap`).
  - Its methods follow the Java loops and branches.
  - Each method is proved to compute the step's specification function.

Quirks of the code as written:

- A blank `@MyService` value does not fall back to the simple name. The code passes the blank
  value itself to `toLocalFirstWord`.
  - An empty value therefore throws, and the service is skipped.
  - The value " " becomes the key "@".
- `toLocalFirstWord` adds 32 to the first code unit. It does not lower-case in general.
- A missing dependency stores null into the field. It does not leave the field untouched.
- An explicit `@MyAutowired` key is used whenever it is not exactly "". It is not trimmed.
- No route table is built and there is no dispatch. `initHandlerMapping` is empty.

## Model

| member | source | states |
|---|---|---|
| `JavaLang.Trim` | src/main/java/com/ztg/springMVC/servlet/MyDispatcherServlet.java:124 | `trim` returns the slice of `s` left between a dropped prefix and a dropped suffix of units up to U+0020, and that slice neither starts nor ends with such a unit |
| `JavaLang.TrimEmptyIffAllTrimmed` | src/main/java/com/ztg/springMVC/servlet/MyDispatcherServlet.java:124 | `"".equals(s.trim())` holds exactly when every code unit of `s` is at most U+0020, so "" and " " both count as blank |
| `JavaLang.StripClassExt` | src/main/java/com/ztg/springMVC/servlet/MyDispatcherServlet.java:92 | `replace(".class", "")` removes occurrences left to right and never lengthens the name |
| `JavaLang.StripClassExtAbsent` | src/main/java/com/ztg/springMVC/servlet/MyDispatcherServlet.java:92 | a file name without ".class" in it is kept as it is |
| `JavaLang.StripClassExtSuffix` | src/main/java/com/ztg/springMVC/servlet/MyDispatcherServlet.java:92 | a trailing ".class" is removed on its own: no occurrence straddles it |
| `JavaLang.ClassFileName` | src/main/java/com/ztg/springMVC/servlet/MyDispatcherServlet.java:92 | "X.class" yields "X" when "X" contains no ".class" |
| `BeanNaming.Plus32` | src/main/java/com/ztg/springMVC/servlet/MyDispatcherServlet.java:197 | `(char) (c + 32)` is undone by subtracting 32, so it loses nothing; it is a plain +32 below U+FFE0 and wraps round modulo 0x10000 from U+FFE0 on |
| `BeanNaming.ToLocalFirstWord` | src/main/java/com/ztg/springMVC/servlet/MyDispatcherServlet.java:195-199 | throws (None) exactly on the empty string; otherwise the same length, with every unit after the first unchanged |
| `BeanNaming.FirstWordRoundTrip` | src/main/java/com/ztg/springMVC/servlet/MyDispatcherServlet.java:195-199 | shifting the first unit back by 32 (mod 0x10000) recovers the simple name |
| `BeanNaming.ToLocalFirstWordInjective` | src/main/java/com/ztg/springMVC/servlet/MyDispatcherServlet.java:195-199 | distinct simple names give distinct bean names |
| `BeanNaming.CapitalIsLowered` | src/main/java/com/ztg/springMVC/servlet/MyDispatcherServlet.java:190-199 | on 'A'..'Z' the first unit becomes the matching 'a'..'z' |
| `BeanNaming.ShiftIsNotLowerCasing` | src/main/java/com/ztg/springMVC/servlet/MyDispatcherServlet.java:197 | "us" becomes "\u0095s" and U+FFF0 wraps to U+0010: the shift is not lower-casing |
| `BeanNaming.ServiceBeanName` | src/main/java/com/ztg/springMVC/servlet/MyDispatcherServlet.java:123-126 | the bean name is missing exactly for ""; a non-blank value is kept; a blank value is passed itself to `toLocalFirstWord` (not the simple name), so its first unit is shifted into U+0020..U+0040 |
| `BeanNaming.BlankServiceName` | src/main/java/com/ztg/springMVC/servlet/MyDispatcherServlet.java:124-125 | the service value " " gives the bean name "@" |
| `Scanner.Scan` | src/main/java/com/ztg/springMVC/servlet/MyDispatcherServlet.java:88-95 | exactly one class name per file anywhere in the tree |
| `Scanner.ScanAppend` | src/main/java/com/ztg/springMVC/servlet/MyDispatcherServlet.java:88-95 | scanning a listing is scanning its parts one after the other, in listing order |
| `Scanner.ScanInPackage` | src/main/java/com/ztg/springMVC/servlet/MyDispatcherServlet.java:89-92 | every name found under package `pkg`, at any depth, starts with `pkg + "."` |
| `Scanner.ClassFileFound` | src/main/java/com/ztg/springMVC/servlet/MyDispatcherServlet.java:92-93 | a file "X.class" in package `pkg` is collected as `pkg + "." + X` |
| `Registry.BeanKeys` | src/main/java/com/ztg/springMVC/servlet/MyDispatcherServlet.java:113-137 | a class is registered only if it is tagged and instantiates, and then under at least one key |
| `Registry.PutAll` | src/main/java/com/ztg/springMVC/servlet/MyDispatcherServlet.java:134-137 | after the `put`s every given key maps to the one instance and every other key keeps its value |
| `Registry.Register` | src/main/java/com/ztg/springMVC/servlet/MyDispatcherServlet.java:106-143 | one class never removes a key and creates at most one object; it changes nothing exactly when it creates none |
| `Registry.RegisterAll` | src/main/java/com/ztg/springMVC/servlet/MyDispatcherServlet.java:102-144 | the class names never remove a key and create at most one object each |
| `Registry.RegisterSkips` | src/main/java/com/ztg/springMVC/servlet/MyDispatcherServlet.java:110-142 | an unloadable, untagged or throwing class leaves the container as it was |
| `Registry.RegisterController` | src/main/java/com/ztg/springMVC/servlet/MyDispatcherServlet.java:113-117 | a controller is stored only under `toLocalFirstWord(simpleName)`, even when it is also tagged `@MyService` |
| `Registry.RegisterService` | src/main/java/com/ztg/springMVC/servlet/MyDispatcherServlet.java:118-137 | a non-blank service is stored under its value and all its interfaces, all holding one new instance; other keys are unchanged |
| `Registry.RegisterBlankService` | src/main/java/com/ztg/springMVC/servlet/MyDispatcherServlet.java:123-130 | a service with value "" is skipped; one with another blank value is stored under the shifted value and under all its interfaces, all holding one new instance; other keys are unchanged |
| `Registry.RegisterAllAppend` | src/main/java/com/ztg/springMVC/servlet/MyDispatcherServlet.java:106-143 | processing continues: two lists in turn give the same result as their concatenation |
| `Registry.UnwrittenKeyStable` | src/main/java/com/ztg/springMVC/servlet/MyDispatcherServlet.java:116-137 | a key that no class in the list writes keeps its presence and its value |
| `Registry.LastWriteWins` | src/main/java/com/ztg/springMVC/servlet/MyDispatcherServlet.java:116-137 | a key ends up holding the instance of the last class that writes it |
| `Registry.RegisterAllGrows` | src/main/java/com/ztg/springMVC/servlet/MyDispatcherServlet.java:116-129 | created objects keep their class, and identities stay fresh |
| `Registry.RegisterAllValid` | src/main/java/com/ztg/springMVC/servlet/MyDispatcherServlet.java:102-144 | every key maps to a created object whose class is registered under that key, so untagged or failing classes never appear |
| `Registry.SecondImplementationWins` | src/main/java/com/ztg/springMVC/servlet/MyDispatcherServlet.java:132-137 | with two implementers of one interface, the interface name resolves to the second |
| `Injector.Autowired` | src/main/java/com/ztg/springMVC/servlet/MyDispatcherServlet.java:150-185 | every bean reached through a key of `ioc` has each `@MyAutowired` field set to `ioc.get` of its key; every other slot keeps its value |
| `Injector.TypeNameFallback` | src/main/java/com/ztg/springMVC/servlet/MyDispatcherServlet.java:170-172 | a field whose annotation value is "" receives the bean registered under its type's binary name |
| `Injector.BlankKeyNotTrimmed` | src/main/java/com/ztg/springMVC/servlet/MyDispatcherServlet.java:166-177 | the value " " is looked up untrimmed under " ": the field gets that bean, or null, never the bean under the type name |
| `Injector.Wire` | src/main/java/com/ztg/springMVC/servlet/MyDispatcherServlet.java:156-183 | each autowired field of a visited bean is set to `ioc.get(key)`; every other slot is unchanged |
| `Injector.WireUnion` | src/main/java/com/ztg/springMVC/servlet/MyDispatcherServlet.java:156 | visiting beans in two batches, in either order, gives the same heap as one pass |
| `Injector.AutowiredIdempotent` | src/main/java/com/ztg/springMVC/servlet/MyDispatcherServlet.java:150-185 | running `doAutowired` twice gives the same heap as running it once |
| `Injector.MutualDependencies` | src/main/java/com/ztg/springMVC/servlet/MyDispatcherServlet.java:45-48 | two beans that inject each other are both bound |
| `Injector.MissingDependencyIsNull` | src/main/java/com/ztg/springMVC/servlet/MyDispatcherServlet.java:177 | a field whose key is absent is set to null, without error |
| `Injector.UnannotatedUnchanged` | src/main/java/com/ztg/springMVC/servlet/MyDispatcherServlet.java:160-163 | fields without `@MyAutowired`, and objects outside `ioc`, keep their values |
| `Servlet.DispatcherServlet.constructor` | src/main/java/com/ztg/springMVC/servlet/MyDispatcherServlet.java:25-27 | a new servlet has no class names and an empty `ioc` |
| `Servlet.DispatcherServlet.Init` | src/main/java/com/ztg/springMVC/servlet/MyDispatcherServlet.java:34-52 | scan, then instantiate every collected name, then autowire against the finished `ioc`; the container invariant is kept |
| `Servlet.DispatcherServlet.DoScanner` | src/main/java/com/ztg/springMVC/servlet/MyDispatcherServlet.java:84-96 | `classNames` becomes its old contents followed by the scan of the listing |
| `Servlet.DispatcherServlet.ScanEntryInto` | src/main/java/com/ztg/springMVC/servlet/MyDispatcherServlet.java:89-94 | one entry of the listing: a directory's names, or a file's class name, are appended to `classNames` |
| `Servlet.DispatcherServlet.DoInstance` | src/main/java/com/ztg/springMVC/servlet/MyDispatcherServlet.java:102-144 | the container becomes the result of registering every class name in order; the invariant is kept |
| `Servlet.DispatcherServlet.InstantiateOne` | src/main/java/com/ztg/springMVC/servlet/MyDispatcherServlet.java:107-142 | one pass of the `forEach` body performs exactly one registration step |
| `Servlet.DispatcherServlet.PutInterfaces` | src/main/java/com/ztg/springMVC/servlet/MyDispatcherServlet.java:134-137 | the interface loop puts the instance under every interface name |
| `Servlet.DispatcherServlet.NewInstance` | src/main/java/com/ztg/springMVC/servlet/MyDispatcherServlet.java:129 | `newInstance` yields a fresh object of the class |
| `Servlet.DispatcherServlet.DoAutowired` | src/main/java/com/ztg/springMVC/servlet/MyDispatcherServlet.java:150-185 | for any iteration order of `ioc`, the heap becomes `Autowired` of the old heap; `ioc` is not modified |
| `Servlet.DispatcherServlet.AutowireBean` | src/main/java/com/ztg/springMVC/servlet/MyDispatcherServlet.java:158-183 | for any field order, exactly the bean's autowired fields are set to their lookups |

Three lemmas also require `Registry.Fresh` of the starting container: `LastWriteWins`,
`RegisterAllGrows` and `SecondImplementationWins`. Fresh means that every identity handed out
so far is below `nextId`. The JVM gives this guarantee for `newInstance`, and a newly
constructed servlet satisfies it.

## Left out

- `doLoadConfig` and the `Properties` file are left out because they are I/O. `Init` takes the
  value of `scanPackage` as a parameter. A missing key or an unreadable file is not modelled.
- Resolving the package directory through the class loader (`getResource`, `new File`,
  `listFiles`) is left out because it is file-system access. `DoScanner` takes the listing of
  the package's directory.
  - A null URL or listing, which throws and aborts `init`, is therefore not modelled.
  - The source re-resolves `pkg + "." + dir` through the class loader on every recursive call.
    The model assumes this finds the same sub-directory. It may not when a directory name
    contains a '.' or when several class-path roots hold the package.
- Reflection is left out because it is runtime introspection. `ClassInfo` records stand for
  `Class.forName`, `getAnnotation`, `getInterfaces`, `getDeclaredFields` and `newInstance`.
  Static initialisers and other class-loading side effects are not modelled.
- Constructor side effects and field initialisers are left out because constructors are opaque
  code. A new object's slots read as null unless the given heap already holds a value.
- `field.set` type checks are left out because the model has no class hierarchy. An
  incompatible bean, or null stored into a primitive field, throws `IllegalArgumentException`.
  That exception is not caught and would abort `init`.
- `Error`s are left out because the model has no notion of them. The `catch (Exception e)` of
  `doInstance` (line 140) does not catch an `Error`, such as an `ExceptionInInitializerError`
  from a static initialiser run by `Class.forName` or an `Error` thrown by a constructor. Such an
  `Error` escapes and aborts `init`. `instantiationFails` stands only for a caught `Exception`.
- Static fields and the `IllegalAccessException` branch are left out. After `setAccessible(true)`
  that branch is only reachable for static final fields, and static fields are shared state
  the model does not have.
- Logging, `printStackTrace` and the servlet lifecycle (`super.init`, `ServletConfig`,
  `HttpServlet`) are plumbing with no effect on the state.
- `initHandlerMapping` is empty, and `handleMapper`/`controllerMap` are never written. So there
  is no route table or request dispatch to model.
- `MyRequestMapping` declares only `value() default ""`, and the servlet never reads it.
- `HashMap` iteration order is unspecified. `DoAutowired` and `AutowireBean` pick entries and
  fields by arbitrary choice, so their proofs cover every order. The order of `listFiles` is
  the order of the listing sequence.
