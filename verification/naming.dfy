/** The servlet's `lowerFirstCase`, which derives controller bean names both
    when beans are registered and when a dispatched method's bean is looked up.
    It does not lower-case: it adds 32 to the first code unit, and Java's
    compound assignment to a `char` wraps the sum modulo 2^16. */
module Naming {
  import opened JavaLang

  /** Java's `(char)(c + d)`. */
  function ShiftChar(c: JChar, d: int): JChar {
    ((c as int + d) % 0x1_0000) as JChar
  }

  /** `lowerFirstCase(str)`; `None` when `chars[0]` throws on an empty name. */
  function LowerFirstCase(s: JString): (r: Option<JString>)
    ensures r.Some? <==> s != []
    ensures r.Some? ==> |r.value| == |s| && r.value[1..] == s[1..]
    ensures r.Some? ==> r.value[0] as int == (s[0] as int + 32) % 0x1_0000
  {
    if s == [] then None else Some([ShiftChar(s[0], 32)] + s[1..])
  }

  /** Subtracts 32 from the first code unit: the inverse of `LowerFirstCase`. */
  function RaiseFirst(s: JString): JString {
    if s == [] then [] else [ShiftChar(s[0], -32)] + s[1..]
  }

  /** `RaiseFirst` undoes `LowerFirstCase`: no information is lost. */
  lemma LowerFirstCaseRoundTrip(s: JString)
    requires s != []
    ensures RaiseFirst(LowerFirstCase(s).value) == s
  {
    var r := LowerFirstCase(s).value;
    assert RaiseFirst(r)[0] == s[0];
    assert RaiseFirst(r)[1..] == s[1..];
  }

  /** Two names give the same bean name only if they are the same name, so two
      controllers collide in the registry exactly when their simple names agree. */
  lemma LowerFirstCaseInjective(a: JString, b: JString)
    requires LowerFirstCase(a) == LowerFirstCase(b)
    ensures a == b
  {
    if a != [] {
      LowerFirstCaseRoundTrip(a);
      LowerFirstCaseRoundTrip(b);
    }
  }

  /** An ASCII upper-case initial becomes the same letter in lower case. */
  lemma LowerFirstCaseOfAsciiUpper(s: JString)
    requires s != [] && 'A' as int <= s[0] as int <= 'Z' as int
    ensures var r := LowerFirstCase(s).value;
      'a' as int <= r[0] as int <= 'z' as int
      && r[0] as int - 'a' as int == s[0] as int - 'A' as int
      && r[1..] == s[1..]
  {
  }

  /** The result is never the name itself: an initial that is already lower
      case is shifted as well (`demo` becomes U+0084 followed by `emo`). */
  lemma LowerFirstCaseNeverFixes(s: JString)
    requires s != []
    ensures LowerFirstCase(s).value != s
  {
    assert LowerFirstCase(s).value[0] != s[0];
  }

  /** The shift wraps: code units from U+FFE0 upwards land at the bottom of the range. */
  lemma LowerFirstCaseWraps(s: JString)
    requires s != [] && s[0] as int >= 0xFFE0
    ensures LowerFirstCase(s).value[0] as int == s[0] as int - 0xFFE0
  {
  }

  /** For names written as Java literals: lower-casing `"Xyz"` gives `"xyz"`
      when the first characters differ by 32 and the rest agree. */
  lemma LowerFirstOfChars(s: string, t: string)
    requires |s| == |t| >= 1 && s[1..] == t[1..]
    requires s[0] as int + 32 == t[0] as int < 0x1_0000
    ensures LowerFirstCase(Chars(s)) == Some(Chars(t))
  {
    var r := LowerFirstCase(Chars(s)).value;
    forall i | 0 <= i < |r|
      ensures r[i] == Chars(t)[i]
    {
      if i > 0 {
        assert s[i] == s[1..][i - 1] == t[1..][i - 1] == t[i];
      } else {
        assert Chars(s)[0] as int == s[0] as int;
        assert Chars(t)[0] as int == t[0] as int;
      }
    }
    assert r == Chars(t);
  }
}
