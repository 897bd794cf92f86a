/** The text a `String` handler parameter receives for one request-parameter
    entry: `Arrays.toString(values)`, then every `[` and `]` removed, then
    every comma followed by one whitespace character shortened to the comma.

    For ordinary values (no brackets, no comma followed by whitespace) this is
    the values joined by `,`; brackets inside a value are lost, and a value
    holding `", "` comes out changed. */
module ParamFormat {
  import opened JavaLang

  /** `vs[0] + sep + vs[1] + ... + vs[n-1]`; empty for no values. */
  function Join(vs: seq<JString>, sep: JString): JString
    decreases |vs|
  {
    if vs == [] then []
    else if |vs| == 1 then vs[0]
    else vs[0] + sep + Join(vs[1..], sep)
  }

  /** Cutting `s` at every `c`: the inverse of `Join(_, [c])` on `c`-free values. */
  function Split(s: JString, c: JChar): (parts: seq<JString>)
    ensures |parts| >= 1
    decreases |s|
  {
    if s == [] then [[]]
    else
      var rest := Split(s[1..], c);
      if s[0] == c then [[]] + rest else [[s[0]] + rest[0]] + rest[1..]
  }

  /** `Arrays.toString(String[])`: `[a, b, c]`, and `[]` for no values. */
  function ArrayText(vs: seq<JString>): JString {
    [OpenBracket] + Join(vs, [Comma, Space]) + [CloseBracket]
  }

  /** No square bracket occurs in `s`. */
  predicate NoBrackets(s: JString) {
    OpenBracket !in s && CloseBracket !in s
  }

  /** `replaceAll("\\[|\\]", "")`: every square bracket removed, the rest kept in order. */
  function StripBrackets(s: JString): (r: JString)
    ensures NoBrackets(r)
    ensures |r| <= |s|
    ensures forall c :: c in r ==> c in s
    decreases |s|
  {
    if s == [] then []
    else
      var rest := StripBrackets(s[1..]);
      if s[0] == OpenBracket || s[0] == CloseBracket then rest else [s[0]] + rest
  }

  /** A code unit matched by the regular-expression class `\s`:
      space, tab, line feed, vertical tab, form feed, carriage return. */
  predicate IsRegexSpace(c: JChar) {
    c == Space || 9 <= c <= 13
  }

  /** A comma at `i` followed by a `\s` character. */
  predicate CommaSpaceAt(s: JString, i: int) {
    0 <= i < |s| - 1 && s[i] == Comma && IsRegexSpace(s[i + 1])
  }

  /** `s` contains a comma followed by a `\s` character. */
  ghost predicate HasCommaSpace(s: JString) {
    exists i :: CommaSpaceAt(s, i)
  }

  /** `replaceAll(",\\s", ",")`: matches are found left to right without overlap,
      each a comma and exactly one whitespace character. */
  function SquashCommaSpace(s: JString): (r: JString)
    ensures |r| <= |s|
    decreases |s|
  {
    if s == [] then []
    else if CommaSpaceAt(s, 0) then [Comma] + SquashCommaSpace(s[2..])
    else [s[0]] + SquashCommaSpace(s[1..])
  }

  /** The text bound to a `String` slot for one entry's values. */
  function ParamText(vs: seq<JString>): JString {
    SquashCommaSpace(StripBrackets(ArrayText(vs)))
  }

  /** Squashing introduces no character that was not there. */
  lemma {:induction false} SquashKeepsChars(s: JString)
    ensures forall c :: c in SquashCommaSpace(s) ==> c in s
    decreases |s|
  {
    if s != [] {
      if CommaSpaceAt(s, 0) {
        SquashKeepsChars(s[2..]);
        assert forall c :: c in s[2..] ==> c in s;
      } else {
        SquashKeepsChars(s[1..]);
        assert forall c :: c in s[1..] ==> c in s;
      }
    }
  }

  /** Whatever the values hold, the bound text never contains a bracket. */
  lemma ParamTextHasNoBrackets(vs: seq<JString>)
    ensures NoBrackets(ParamText(vs))
  {
    SquashKeepsChars(StripBrackets(ArrayText(vs)));
  }

  /** Removing brackets works piece by piece. */
  lemma {:induction false} StripBracketsAppend(a: JString, b: JString)
    ensures StripBrackets(a + b) == StripBrackets(a) + StripBrackets(b)
    decreases |a|
  {
    if a == [] {
      assert a + b == b;
    } else {
      assert (a + b)[0] == a[0];
      assert (a + b)[1..] == a[1..] + b;
      StripBracketsAppend(a[1..], b);
    }
  }

  /** Text without brackets is left alone. */
  lemma {:induction false} StripBracketsNone(s: JString)
    requires NoBrackets(s)
    ensures StripBrackets(s) == s
    decreases |s|
  {
    if s != [] {
      assert NoBrackets(s[1..]) by {
        assert forall c :: c in s[1..] ==> c in s;
      }
      StripBracketsNone(s[1..]);
      assert s == [s[0]] + s[1..];
    }
  }

  /** Joining bracket-free values with a bracket-free separator gives bracket-free text. */
  lemma {:induction false} JoinNoBrackets(vs: seq<JString>, sep: JString)
    requires NoBrackets(sep)
    requires forall i :: 0 <= i < |vs| ==> NoBrackets(vs[i])
    ensures NoBrackets(Join(vs, sep))
    decreases |vs|
  {
    if |vs| > 1 {
      JoinNoBrackets(vs[1..], sep);
      assert NoBrackets(vs[0]);
      var j := Join(vs[1..], sep);
      assert forall c :: c in vs[0] + sep + j ==> c in vs[0] || c in sep || c in j;
    }
  }

  /** A leading comma and whitespace shorten to the comma. */
  lemma SquashStepPair(s: JString)
    requires CommaSpaceAt(s, 0)
    ensures SquashCommaSpace(s) == [Comma] + SquashCommaSpace(s[2..])
  {
  }

  /** Any other first character is kept. */
  lemma SquashStepOne(s: JString)
    requires s != [] && !CommaSpaceAt(s, 0)
    ensures SquashCommaSpace(s) == [s[0]] + SquashCommaSpace(s[1..])
  {
  }

  /** No match can straddle the join of `a` and `b`: `a` does not end with a
      comma where `b` starts with whitespace. */
  predicate Joinable(a: JString, b: JString) {
    !(a != [] && a[|a| - 1] == Comma && b != [] && IsRegexSpace(b[0]))
  }

  /** Squashing works piece by piece, unless a comma ends the first piece and
      whitespace starts the second. */
  lemma {:induction false} SquashAppend(a: JString, b: JString)
    requires Joinable(a, b)
    ensures SquashCommaSpace(a + b) == SquashCommaSpace(a) + SquashCommaSpace(b)
    decreases |a|, 1
  {
    if a == [] {
      assert a + b == b;
    } else if CommaSpaceAt(a, 0) {
      SquashAppendPair(a, b);
    } else {
      SquashAppendOne(a, b);
    }
  }

  /** The step of `SquashAppend` when the first piece starts with a match. */
  lemma {:induction false} SquashAppendPair(a: JString, b: JString)
    requires Joinable(a, b) && CommaSpaceAt(a, 0)
    ensures SquashCommaSpace(a + b) == SquashCommaSpace(a) + SquashCommaSpace(b)
    decreases |a|, 0
  {
    PairAfterAppend(a, b);
    SquashAppend(a[2..], b);
    SquashStepPair(a + b);
    SquashStepPair(a);
    var x, y := SquashCommaSpace(a[2..]), SquashCommaSpace(b);
    assert [Comma] + (x + y) == [Comma] + x + y;
  }

  /** The step of `SquashAppend` when the first character of the first piece is kept. */
  lemma {:induction false} SquashAppendOne(a: JString, b: JString)
    requires Joinable(a, b) && a != [] && !CommaSpaceAt(a, 0)
    ensures SquashCommaSpace(a + b) == SquashCommaSpace(a) + SquashCommaSpace(b)
    decreases |a|, 0
  {
    var s, c := a + b, a[0];
    NotPairAfterAppend(a, b);
    SquashAppend(a[1..], b);
    var x, y := SquashCommaSpace(a[1..]), SquashCommaSpace(b);
    assert SquashCommaSpace(s[1..]) == x + y;
    SquashStepOne(s);
    assert SquashCommaSpace(s) == [c] + (x + y);
    SquashStepOne(a);
    assert SquashCommaSpace(a) == [c] + x;
    assert [c] + (x + y) == [c] + x + y;
  }

  /** A match at the front of the first piece stays a match after appending,
      and what follows it is the rest of the first piece and the second. */
  lemma PairAfterAppend(a: JString, b: JString)
    requires Joinable(a, b) && CommaSpaceAt(a, 0)
    ensures CommaSpaceAt(a + b, 0)
    ensures (a + b)[2..] == a[2..] + b
    ensures Joinable(a[2..], b)
  {
    var s, tail := a + b, a[2..];
    assert s[0] == a[0] && s[1] == a[1];
    assert tail != [] ==> tail[|tail| - 1] == a[|a| - 1];
  }

  /** Appending cannot turn a kept first character into the start of a match,
      unless the first piece is a lone comma and whitespace follows. */
  lemma NotPairAfterAppend(a: JString, b: JString)
    requires Joinable(a, b) && a != [] && !CommaSpaceAt(a, 0)
    ensures (a + b)[0] == a[0] && !CommaSpaceAt(a + b, 0)
    ensures (a + b)[1..] == a[1..] + b
    ensures Joinable(a[1..], b)
  {
    var s, tail := a + b, a[1..];
    if |a| >= 2 {
      assert s[1] == a[1];
    } else if b != [] {
      assert s[1] == b[0];
    }
    assert tail != [] ==> tail[|tail| - 1] == a[|a| - 1];
  }

  /** Text without a comma followed by whitespace is left alone. */
  lemma {:induction false} SquashNone(s: JString)
    requires !HasCommaSpace(s)
    ensures SquashCommaSpace(s) == s
    decreases |s|
  {
    if s != [] {
      assert !CommaSpaceAt(s, 0);
      assert !HasCommaSpace(s[1..]) by {
        forall i | CommaSpaceAt(s[1..], i)
          ensures false
        {
          assert CommaSpaceAt(s, i + 1);
        }
      }
      SquashNone(s[1..]);
    }
  }

  /** A value the servlet passes through unchanged. */
  ghost predicate Plain(v: JString) {
    NoBrackets(v) && !HasCommaSpace(v)
  }

  /** A leading `", "` shortens to `","`. */
  lemma SquashLeadingCommaSpace(j: JString)
    ensures SquashCommaSpace([Comma, Space] + j) == [Comma] + SquashCommaSpace(j)
  {
    assert CommaSpaceAt([Comma, Space] + j, 0);
    assert ([Comma, Space] + j)[2..] == j;
  }

  /** Shortening `", "` to `","` between plain values gives the `,`-join. */
  lemma {:induction false} SquashJoin(vs: seq<JString>)
    requires forall i :: 0 <= i < |vs| ==> Plain(vs[i])
    ensures SquashCommaSpace(Join(vs, [Comma, Space])) == Join(vs, [Comma])
    decreases |vs|
  {
    if |vs| == 1 {
      SquashNone(vs[0]);
    } else if |vs| > 1 {
      var v := vs[0];
      var j := Join(vs[1..], [Comma, Space]);
      var j1 := Join(vs[1..], [Comma]);
      SquashJoin(vs[1..]);
      assert Join(vs, [Comma, Space]) == v + ([Comma, Space] + j);
      SquashAppend(v, [Comma, Space] + j);
      SquashNone(v);
      SquashLeadingCommaSpace(j);
      assert Join(vs, [Comma]) == v + ([Comma] + j1);
    }
  }

  /** Removing brackets from `Arrays.toString` of bracket-free values leaves
      the `", "`-join. */
  lemma StripArrayText(vs: seq<JString>)
    requires forall i :: 0 <= i < |vs| ==> NoBrackets(vs[i])
    ensures StripBrackets(ArrayText(vs)) == Join(vs, [Comma, Space])
  {
    var j := Join(vs, [Comma, Space]);
    var open, close := [OpenBracket], [CloseBracket];
    JoinNoBrackets(vs, [Comma, Space]);
    StripBracketsNone(j);
    assert StripBrackets(open) == [];
    assert StripBrackets(close) == [];
    StripBracketsAppend(open, j);
    assert StripBrackets(open + j) == j;
    StripBracketsAppend(open + j, close);
    assert ArrayText(vs) == open + j + close;
  }

  /** For plain values the bound text is exactly the values joined by `,`,
      and `""` for an entry with no values. */
  lemma ParamTextOfPlainValues(vs: seq<JString>)
    requires forall i :: 0 <= i < |vs| ==> Plain(vs[i])
    ensures ParamText(vs) == Join(vs, [Comma])
  {
    StripArrayText(vs);
    SquashJoin(vs);
  }

  /** Splitting a value free of `c` gives the value itself. */
  lemma {:induction false} SplitNone(v: JString, c: JChar)
    requires c !in v
    ensures Split(v, c) == [v]
    decreases |v|
  {
    if v != [] {
      SplitNone(v[1..], c);
      assert v == [v[0]] + v[1..];
    }
  }

  /** Splitting at the first `c` peels off the text before it. */
  lemma {:induction false} SplitFirst(v: JString, c: JChar, t: JString)
    requires c !in v
    ensures Split(v + [c] + t, c) == [v] + Split(t, c)
    decreases |v|
  {
    if v == [] {
      assert v + [c] + t == [c] + t;
      assert ([c] + t)[1..] == t;
    } else {
      var s := v + [c] + t;
      assert s[0] == v[0];
      assert s[1..] == v[1..] + [c] + t;
      SplitFirst(v[1..], c, t);
      assert v == [v[0]] + v[1..];
    }
  }

  /** No information is lost for at least one value free of the separator:
      cutting the join at the separator gives the values back. */
  lemma {:induction false} SplitJoinRoundTrip(vs: seq<JString>, c: JChar)
    requires vs != []
    requires forall i :: 0 <= i < |vs| ==> c !in vs[i]
    ensures Split(Join(vs, [c]), c) == vs
    decreases |vs|
  {
    if |vs| == 1 {
      SplitNone(vs[0], c);
    } else {
      SplitJoinRoundTrip(vs[1..], c);
      SplitFirst(vs[0], c, Join(vs[1..], [c]));
      assert vs == [vs[0]] + vs[1..];
    }
  }
}
