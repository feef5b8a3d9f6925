/** The little of java.lang that the servlet's bootstrap relies on: 16-bit `char`s,
    `String.trim` and `String.replace(".class", "")`. */
module JavaLang {

  /** A UTF-16 code unit: Java's `char`. */
  newtype Char16 = c: int | 0 <= c < 0x1_0000

  /** A Java `String`, as the sequence of its UTF-16 code units (`toCharArray`). */
  type JString = seq<Char16>

  /** A value or nothing; `None` stands for Java's `null` or for a call that threw. */
  datatype Option<T> = None | Some(value: T)

  /** "." */
  const Dot: JString := [0x2E]

  /** ".class", the file-name extension of a compiled class. */
  const ClassExt: JString := [0x2E, 0x63, 0x6C, 0x61, 0x73, 0x73]

  /** A code unit that `String.trim` removes: anything up to and including U+0020. */
  predicate IsTrimmed(c: Char16) {
    c <= 0x20
  }

  /** Every code unit of `s` is one that `trim` removes. */
  predicate AllTrimmed(s: JString) {
    forall i :: 0 <= i < |s| ==> IsTrimmed(s[i])
  }

  /** The leading loop of `String.trim`: `s` without its longest prefix of trimmed units. */
  function TrimStart(s: JString): (r: JString)
    ensures |r| <= |s|
    ensures r != [] ==> !IsTrimmed(r[0])
  {
    if s != [] && IsTrimmed(s[0]) then TrimStart(s[1..]) else s
  }

  /** The trailing loop of `String.trim`: `s` without its longest suffix of trimmed units. */
  function TrimEnd(s: JString): (r: JString)
    ensures |r| <= |s|
    ensures r != [] ==> !IsTrimmed(r[|r| - 1])
  {
    if s != [] && IsTrimmed(s[|s| - 1]) then TrimEnd(s[..|s| - 1]) else s
  }

  /** `String.trim`: drop leading, then trailing, code units up to U+0020. What is left is the
      part of `s` between a trimmed prefix and a trimmed suffix, and neither starts nor ends with
      such a unit. */
  function Trim(s: JString): (r: JString)
    ensures |r| <= |s|
    ensures exists i, j :: 0 <= i <= j <= |s| && r == s[i..j] && AllTrimmed(s[..i]) && AllTrimmed(s[j..])
    ensures r != [] ==> !IsTrimmed(r[0]) && !IsTrimmed(r[|r| - 1])
  {
    var t := TrimStart(s);
    TrimSlice(s);
    if t == [] then TrimEnd(t)
    else
      TrimEndKeepsHead(t);
      TrimEnd(t)
  }

  /** The result of `trim` sits between the prefix the leading loop drops and the suffix the
      trailing loop drops. */
  lemma TrimSlice(s: JString)
    ensures var t := TrimStart(s); var i := |s| - |t|; var j := i + |TrimEnd(t)|;
      TrimEnd(t) == s[i..j] && AllTrimmed(s[..i]) && AllTrimmed(s[j..])
  {
    var t := TrimStart(s);
    var r := TrimEnd(t);
    var i := |s| - |t|;
    TrimStartSuffix(s);
    TrimEndPrefix(t);
    assert r == t[..|r|] == s[i..i + |r|];
    assert s[i + |r|..] == t[|r|..];
  }

  /** The leading loop leaves a suffix of `s`, and drops only trimmed units. */
  lemma {:induction false} TrimStartSuffix(s: JString)
    ensures var r := TrimStart(s); r == s[|s| - |r|..] && AllTrimmed(s[..|s| - |r|])
  {
    if s != [] && IsTrimmed(s[0]) {
      TrimStartSuffix(s[1..]);
      var r := TrimStart(s[1..]);
      assert s[1..][|s| - 1 - |r|..] == s[|s| - |r|..];
      var pre, rest := s[..|s| - |r|], s[1..][..|s| - 1 - |r|];
      assert forall k :: 1 <= k < |pre| ==> pre[k] == rest[k - 1];
    }
  }

  /** The trailing loop leaves a prefix of `s`, and drops only trimmed units. */
  lemma {:induction false} TrimEndPrefix(s: JString)
    ensures var r := TrimEnd(s); r == s[..|r|] && AllTrimmed(s[|r|..])
  {
    if s != [] && IsTrimmed(s[|s| - 1]) {
      var p := s[..|s| - 1];
      TrimEndPrefix(p);
      var r := TrimEnd(p);
      assert p[..|r|] == s[..|r|];
      assert forall k :: |r| <= k < |s| - 1 ==> s[k] == p[|r|..][k - |r|];
    }
  }

  lemma {:induction false} TrimStartEmpty(s: JString)
    ensures TrimStart(s) == [] <==> AllTrimmed(s)
  {
    if s != [] && IsTrimmed(s[0]) {
      TrimStartEmpty(s[1..]);
      if AllTrimmed(s[1..]) {
        assert forall i :: 1 <= i < |s| ==> s[i] == s[1..][i - 1];
      }
    }
  }

  lemma {:induction false} TrimEndKeepsHead(s: JString)
    requires s != [] && !IsTrimmed(s[0])
    ensures TrimEnd(s) != [] && TrimEnd(s)[0] == s[0]
  {
    if IsTrimmed(s[|s| - 1]) {
      TrimEndKeepsHead(s[..|s| - 1]);
    }
  }

  /** `"".equals(s.trim())` holds exactly when every code unit of `s` is at most U+0020;
      in particular the empty string and " " both trim to "". */
  lemma TrimEmptyIffAllTrimmed(s: JString)
    ensures Trim(s) == [] <==> AllTrimmed(s)
  {
    TrimStartEmpty(s);
    if TrimStart(s) != [] {
      TrimEndKeepsHead(TrimStart(s));
    }
  }

  /** `s.replace(".class", "")`: scanning left to right, every non-overlapping occurrence of
      ".class" is removed; text produced by a removal is not scanned again. */
  function StripClassExt(s: JString): (r: JString)
    ensures |r| <= |s|
    decreases |s|
  {
    if |s| < |ClassExt| then s
    else if s[..|ClassExt|] == ClassExt then StripClassExt(s[|ClassExt|..])
    else [s[0]] + StripClassExt(s[1..])
  }

  /** ".class" occurs in `s` starting at index `i`. */
  predicate ClassExtAt(s: JString, i: int) {
    0 <= i && i + |ClassExt| <= |s| && s[i..i + |ClassExt|] == ClassExt
  }

  /** ".class" occurs somewhere in `s`. */
  ghost predicate HasClassExt(s: JString) {
    exists i :: ClassExtAt(s, i)
  }

  /** A string without ".class" in it is left as it is. */
  lemma {:induction false} StripClassExtAbsent(s: JString)
    ensures HasClassExt(s) || StripClassExt(s) == s
    decreases |s|
  {
    if |s| >= |ClassExt| {
      if s[..|ClassExt|] == ClassExt {
        assert s[0..|ClassExt|] == s[..|ClassExt|];
        assert ClassExtAt(s, 0);
      } else {
        StripClassExtAbsent(s[1..]);
        if HasClassExt(s[1..]) {
          var i :| ClassExtAt(s[1..], i);
          assert s[i + 1..i + 1 + |ClassExt|] == s[1..][i..i + |ClassExt|];
          assert ClassExtAt(s, i + 1);
        }
      }
    }
  }

  /** A trailing ".class" is removed on its own: no occurrence can straddle the end of `base`,
      because no proper prefix of ".class" is also a suffix of it. */
  lemma {:induction false} StripClassExtSuffix(base: JString)
    ensures StripClassExt(base + ClassExt) == StripClassExt(base)
    decreases |base|
  {
    var s := base + ClassExt;
    if 0 < |base| < |ClassExt| {
      NoStraddle(base);
    }
    if base == [] {
      assert s[|ClassExt|..] == [];
    } else if s[..|ClassExt|] == ClassExt {
      assert base[..|ClassExt|] == ClassExt;
      assert s[|ClassExt|..] == base[|ClassExt|..] + ClassExt;
      StripClassExtSuffix(base[|ClassExt|..]);
    } else {
      assert s[1..] == base[1..] + ClassExt;
      StripClassExtSuffix(base[1..]);
      if |base| >= |ClassExt| {
        assert base[..|ClassExt|] == s[..|ClassExt|];
      } else {
        StripShort(base[1..]);
      }
    }
  }

  /** A short non-empty `base` followed by ".class" does not start with ".class": the '.' of
      the suffix would have to be a later unit of ".class". */
  lemma NoStraddle(base: JString)
    requires 0 < |base| < |ClassExt|
    ensures (base + ClassExt)[..|ClassExt|] != ClassExt
  {
    assert (base + ClassExt)[..|ClassExt|][|base|] == 0x2E != ClassExt[|base|];
  }

  /** A string shorter than ".class" cannot contain it and is left as it is. */
  lemma StripShort(s: JString)
    requires |s| < |ClassExt|
    ensures StripClassExt(s) == s
  {
  }

  /** The class name a compiled-class file name yields: "UserController.class" gives
      "UserController". */
  lemma ClassFileName(base: JString)
    requires !HasClassExt(base)
    ensures StripClassExt(base + ClassExt) == base
  {
    StripClassExtSuffix(base);
    StripClassExtAbsent(base);
  }
}
