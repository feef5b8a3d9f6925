/** How `MyDispatcherServlet` turns a class or an annotation value into a bean name. */
module BeanNaming {
  import opened JavaLang

  /** The first-unit step of `toLocalFirstWord`: `(char) (c + 32)`, where the cast keeps the
      low 16 bits. It loses nothing (`Minus32` undoes it); below U+FFE0 it is a plain +32, and
      from U+FFE0 on it wraps round to the bottom of the range. */
  function Plus32(c: Char16): (r: Char16)
    ensures Minus32(r) == c
    ensures c < 0xFFE0 ==> r as int == c as int + 32
    ensures c >= 0xFFE0 ==> r as int == c as int + 32 - 0x1_0000
  {
    ((c as int + 32) % 0x1_0000) as Char16
  }

  /** The inverse step, `(char) (c - 32)`. */
  function Minus32(c: Char16): Char16 {
    ((c as int - 32) % 0x1_0000) as Char16
  }

  /** `toLocalFirstWord(simpleName)`: the first code unit shifted up by 32, everything after it
      as it was. It is meant to lower-case the initial, and does so for 'A'..'Z'; on any other
      first unit it does not lower-case (see `ShiftIsNotLowerCasing`). On the empty string the
      Java code reads `chars[0]` and throws; that outcome is `None`. */
  function ToLocalFirstWord(name: JString): (r: Option<JString>)
    ensures r.None? <==> name == []
    ensures r.Some? ==> |r.value| == |name| && r.value[1..] == name[1..]
  {
    if name == [] then None else Some([Plus32(name[0])] + name[1..])
  }

  /** Shifting the initial back down recovers the name, so the shift loses nothing. */
  lemma FirstWordRoundTrip(name: JString)
    requires name != []
    ensures var r := ToLocalFirstWord(name).value; [Minus32(r[0])] + r[1..] == name
  {
    var r := ToLocalFirstWord(name).value;
    assert Minus32(Plus32(name[0])) == name[0];
    assert [name[0]] + name[1..] == name;
  }

  /** Distinct simple names give distinct bean names: two controllers collide in the
      container only when their simple names are equal. */
  lemma ToLocalFirstWordInjective(a: JString, b: JString)
    requires ToLocalFirstWord(a) == ToLocalFirstWord(b)
    ensures a == b
  {
    if a != [] {
      FirstWordRoundTrip(a);
      FirstWordRoundTrip(b);
    }
  }

  /** On an ASCII capital the shift is lower-casing: "UserController" becomes "userController". */
  lemma CapitalIsLowered(name: JString)
    requires name != [] && 0x41 <= name[0] <= 0x5A
    ensures var r := ToLocalFirstWord(name).value;
      0x61 <= r[0] <= 0x7A && r[0] as int == name[0] as int + 32
  {
  }

  /** A name that already starts in lower case is not left alone: 'u' (0x75) becomes U+0095, a
      control character, and a first unit of 0xFFE0 or above wraps round to the bottom of the
      16-bit range. */
  lemma ShiftIsNotLowerCasing()
    ensures ToLocalFirstWord([0x75, 0x73]) == Some([0x95, 0x73])
    ensures ToLocalFirstWord([0xFFF0]) == Some([0x10])
  {
    var us: JString := [0x75, 0x73];
    assert [Plus32(0x75)] + us[1..] == [0x95, 0x73];
    assert Plus32(0x75) == 0x95 && Plus32(0xFFF0) == 0x10;
    var hi: JString := [0xFFF0];
    assert [Plus32(0xFFF0)] + hi[1..] == [0x10];
  }

  /** The bean name of a `@MyService` class as the Java code computes it from the annotation's
      `value()`: kept as it is when it does not trim to "", otherwise passed through
      `toLocalFirstWord` (the blank value itself, not the simple name), which throws on "". */
  function ServiceBeanName(value: JString): (r: Option<JString>)
    ensures r.None? <==> value == []
    ensures !AllTrimmed(value) ==> r == Some(value)
    ensures AllTrimmed(value) ==> r == ToLocalFirstWord(value)
    ensures r.Some? && AllTrimmed(value) ==>
      |r.value| == |value| && 0x20 <= r.value[0] <= 0x40 && r.value[1..] == value[1..]
  {
    TrimEmptyIffAllTrimmed(value);
    if Trim(value) == [] then ToLocalFirstWord(value) else Some(value)
  }

  /** The blank value " " names the bean "@" (U+0020 + 32 = U+0040). */
  lemma BlankServiceName()
    ensures ServiceBeanName([0x20]) == Some([0x40])
  {
    var blank: JString := [0x20];
    assert AllTrimmed(blank);
    TrimEmptyIffAllTrimmed(blank);
    assert [Plus32(0x20)] + blank[1..] == [0x40];
  }
}
