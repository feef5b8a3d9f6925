/** The class names `doScanner` collects from a package directory tree. */
module Scanner {
  import opened JavaLang
  import opened Reflection

  /** The names `doScanner(pkg)` appends, in order, for the listing `entries` of the directory of
      package `pkg`: a file `n` gives `pkg + "." + n.replace(".class", "")`; a directory `d`
      is scanned as package `pkg + "." + d`. Exactly one name per file: directories contribute
      only through the files under them. */
  function Scan(pkg: JString, entries: seq<Entry>): (r: seq<JString>)
    ensures |r| == FileCount(entries)
    decreases entries
  {
    if entries == [] then []
    else
      var here := match entries[0]
        case File(name) => [pkg + Dot + StripClassExt(name)]
        case Dir(name, children) => Scan(pkg + Dot + name, children);
      here + Scan(pkg, entries[1..])
  }

  /** The number of files (not directories) anywhere under `entries`. */
  function FileCount(entries: seq<Entry>): nat
    decreases entries
  {
    if entries == [] then 0
    else
      var here := match entries[0]
        case File(_) => 1
        case Dir(_, children) => FileCount(children);
      here + FileCount(entries[1..])
  }

  /** The files of two listings put one after the other are scanned one after the other. */
  lemma {:induction false} ScanAppend(pkg: JString, a: seq<Entry>, b: seq<Entry>)
    ensures Scan(pkg, a + b) == Scan(pkg, a) + Scan(pkg, b)
    decreases a
  {
    if a == [] {
      assert a + b == b;
    } else {
      assert (a + b)[0] == a[0];
      assert (a + b)[1..] == a[1..] + b;
      ScanAppend(pkg, a[1..], b);
    }
  }

  /** One step of the scanning loop: the names of a listing extended by one entry. */
  lemma ScanSnoc(pkg: JString, entries: seq<Entry>, e: Entry)
    ensures Scan(pkg, entries + [e]) == Scan(pkg, entries) + Scan(pkg, [e])
  {
    ScanAppend(pkg, entries, [e]);
  }

  /** The names one entry contributes: a file its class name, a directory the names under it. */
  lemma ScanEntry(pkg: JString, e: Entry)
    ensures e.File? ==> Scan(pkg, [e]) == [pkg + Dot + StripClassExt(e.name)]
    ensures e.Dir? ==> Scan(pkg, [e]) == Scan(pkg + Dot + e.name, e.entries)
  {
    assert [e][1..] == [];
  }

  /** Every name found under package `pkg` lies in that package: it starts with `pkg + "."`. */
  lemma {:induction false} ScanInPackage(pkg: JString, entries: seq<Entry>)
    ensures forall i :: 0 <= i < |Scan(pkg, entries)| ==> pkg + Dot <= Scan(pkg, entries)[i]
    decreases entries
  {
    if entries != [] {
      var rest := Scan(pkg, entries[1..]);
      ScanInPackage(pkg, entries[1..]);
      match entries[0]
      case File(name) =>
        assert pkg + Dot <= pkg + Dot + StripClassExt(name);
      case Dir(name, children) =>
        var sub := Scan(pkg + Dot + name, children);
        ScanInPackage(pkg + Dot + name, children);
        forall i | 0 <= i < |sub|
          ensures pkg + Dot <= sub[i]
        {
          assert pkg + Dot <= pkg + Dot + name + Dot;
        }
    }
  }

  /** A compiled class file "X.class" directly in package `pkg` is found as `pkg + "." + X`,
      provided "X" itself contains no ".class". */
  lemma ClassFileFound(pkg: JString, base: JString)
    requires !HasClassExt(base)
    ensures Scan(pkg, [File(base + ClassExt)]) == [pkg + Dot + base]
  {
    ClassFileName(base);
  }
}
