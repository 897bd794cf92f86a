/** Java-level building blocks shared by every phase of the dispatcher model.

    A Java `String` is a sequence of UTF-16 code units, so it is modelled as a
    sequence of 16-bit `JChar`s rather than as a Dafny `string` (whose characters
    are Unicode scalar values and cannot hold a lone surrogate). Char arithmetic
    wraps modulo 2^16, as Java's narrowing conversion back to `char` does.
 */
module JavaLang {

  /** A Java `char`: one UTF-16 code unit. */
  newtype JChar = c: int | 0 <= c < 0x1_0000

  /** A Java `String`. */
  type JString = seq<JChar>

  /** A value that may be Java's `null`. */
  datatype Option<+T> = None | Some(value: T)

  const Slash: JChar := 47        // '/'
  const Dot: JChar := 46          // '.'
  const Comma: JChar := 44        // ','
  const Space: JChar := 32        // ' '
  const OpenBracket: JChar := 91  // '['
  const CloseBracket: JChar := 93 // ']'

  /** The code units of a Dafny string literal. Every constant of this model is
      ASCII, for which the code unit is the character's own code. */
  function Chars(s: string): (r: JString)
    ensures |r| == |s|
  {
    seq(|s|, i requires 0 <= i < |s| => (s[i] as int % 0x1_0000) as JChar)
  }

  // ---------------------------------------------------------------------------
  // String.trim(): strips every leading and trailing code unit <= ' '.

  /** `String.trim` treats every code unit at or below U+0020 as blank. */
  predicate IsBlank(c: JChar) {
    c <= Space
  }

  ghost predicate AllBlank(s: JString) {
    forall k :: 0 <= k < |s| ==> IsBlank(s[k])
  }

  /** Where trim's first loop stops: the number of leading blanks. */
  function LeadingBlanks(s: JString): (n: nat)
    ensures n <= |s|
    ensures forall k :: 0 <= k < n ==> IsBlank(s[k])
    ensures n < |s| ==> !IsBlank(s[n])
  {
    if |s| > 0 && IsBlank(s[0]) then 1 + LeadingBlanks(s[1..]) else 0
  }

  /** Where trim's second loop stops: the end of the kept part, never below `lo`. */
  function TrailingEnd(s: JString, lo: nat): (n: nat)
    requires lo <= |s|
    ensures lo <= n <= |s|
    ensures forall k :: n <= k < |s| ==> IsBlank(s[k])
    ensures n > lo ==> !IsBlank(s[n - 1])
    decreases |s|
  {
    if |s| > lo && IsBlank(s[|s| - 1]) then TrailingEnd(s[..|s| - 1], lo) else |s|
  }

  /** Java's `String.trim()`. */
  function Trim(s: JString): (r: JString)
    ensures |r| <= |s|
    ensures r == [] || (!IsBlank(r[0]) && !IsBlank(r[|r| - 1]))
  {
    var st := LeadingBlanks(s);
    s[st..TrailingEnd(s, st)]
  }

  /** `Trim(s)` is the slice of `s` left once the blank code units at both ends
      are gone: it neither starts nor ends with a blank, and it is empty exactly
      when `s` is all blanks. */
  lemma TrimSpec(s: JString)
    ensures |Trim(s)| <= |s|
    ensures Trim(s) == [] || (!IsBlank(Trim(s)[0]) && !IsBlank(Trim(s)[|Trim(s)| - 1]))
    ensures Trim(s) == [] <==> AllBlank(s)
    ensures exists i :: 0 <= i <= |s| - |Trim(s)| && Trim(s) == s[i..i + |Trim(s)|]
                        && AllBlank(s[..i]) && AllBlank(s[i + |Trim(s)|..])
  {
    var st := LeadingBlanks(s);
    var en := TrailingEnd(s, st);
    assert AllBlank(s[..st]) && AllBlank(s[en..]);
  }

  /** Trimming is idempotent. */
  lemma TrimIdempotent(s: JString)
    ensures Trim(Trim(s)) == Trim(s)
  {
    TrimSpec(s);
  }

  // ---------------------------------------------------------------------------
  // String.replace(target, ""): removes every non-overlapping occurrence of
  // `target`, scanning left to right. An empty target leaves the string as is.

  /** `t` occurs in `s` starting at index `i`. */
  predicate OccursAt(t: JString, s: JString, i: nat) {
    i + |t| <= |s| && s[i..i + |t|] == t
  }

  /** `t` occurs somewhere inside `s`. */
  ghost predicate Occurs(t: JString, s: JString) {
    exists i: nat :: i <= |s| && OccursAt(t, s, i)
  }

  /** `s.replace(t, "")`. An empty target (a context path at the root) leaves
      `s` as it is; for any other target the value is fixed by two lemmas:
      `RemoveAllAbsent` (no occurrence left) and `RemoveAllSkip` (the first
      occurrence is cut out and the scan resumes after it). */
  function RemoveAll(s: JString, t: JString): (r: JString)
    ensures |r| <= |s|
    ensures t == [] ==> r == s
    decreases |s|
  {
    if t == [] || |s| < |t| then s
    else if s[..|t|] == t then RemoveAll(s[|t|..], t)
    else [s[0]] + RemoveAll(s[1..], t)
  }

  /** A string in which the target never occurs comes back unchanged. */
  lemma {:induction false} RemoveAllAbsent(s: JString, t: JString)
    requires !Occurs(t, s)
    ensures RemoveAll(s, t) == s
    decreases |s|
  {
    if t == [] || |s| < |t| {
    } else {
      assert !OccursAt(t, s, 0);
      assert s[0..0 + |t|] == s[..|t|];
      forall i: nat | OccursAt(t, s[1..], i)
        ensures OccursAt(t, s, i + 1)
      {
        assert s[1..][i..i + |t|] == s[i + 1..i + 1 + |t|];
      }
      RemoveAllAbsent(s[1..], t);
    }
  }

  /** Removing a non-empty target from `t + p`, where `p` does not contain it,
      gives back exactly `p`: how a context path is stripped from a request URI. */
  lemma RemoveAllLeading(t: JString, p: JString)
    requires t != [] && !Occurs(t, p)
    ensures RemoveAll(t + p, t) == p
  {
    assert (t + p)[..|t|] == t;
    assert (t + p)[|t|..] == p;
    RemoveAllAbsent(p, t);
  }

  /** The scan keeps everything before the first occurrence of `t`, drops that
      occurrence and carries on after it: with `RemoveAllAbsent` this fixes
      the value of `String.replace(t, "")` for every input, including repeated
      and non-leading occurrences. */
  lemma {:induction false} RemoveAllSkip(p: JString, t: JString, q: JString)
    requires t != []
    requires forall i :: 0 <= i < |p| ==> !OccursAt(t, p + t + q, i)
    ensures RemoveAll(p + t + q, t) == p + RemoveAll(q, t)
    decreases |p|
  {
    if p == [] {
      assert p + t + q == t + q;
      RemoveAllAtMatch(t + q, t);
      assert (t + q)[|t|..] == q;
    } else {
      var s, rest := p + t + q, p[1..] + t + q;
      ShiftPastFirst(p, t, q);
      RemoveAllKeepFirst(s, t);
      RemoveAllSkip(p[1..], t, q);
      var r := RemoveAll(q, t);
      assert RemoveAll(s, t) == [p[0]] + (p[1..] + r);
      assert [p[0]] + (p[1..] + r) == p + r;
    }
  }

  /** An occurrence at the front is dropped and the scan resumes after it. */
  lemma RemoveAllAtMatch(s: JString, t: JString)
    requires t != [] && OccursAt(t, s, 0)
    ensures RemoveAll(s, t) == RemoveAll(s[|t|..], t)
  {
    assert s[0..0 + |t|] == s[..|t|];
  }

  /** A first code unit that does not start an occurrence is kept. */
  lemma RemoveAllKeepFirst(s: JString, t: JString)
    requires t != [] && |s| >= |t| && !OccursAt(t, s, 0)
    ensures RemoveAll(s, t) == [s[0]] + RemoveAll(s[1..], t)
  {
    assert s[0..0 + |t|] == s[..|t|];
  }

  /** Dropping the first code unit of `p` keeps `RemoveAllSkip`'s hypothesis. */
  lemma ShiftPastFirst(p: JString, t: JString, q: JString)
    requires t != [] && p != []
    requires forall i :: 0 <= i < |p| ==> !OccursAt(t, p + t + q, i)
    ensures |p + t + q| >= |t| && !OccursAt(t, p + t + q, 0)
    ensures (p + t + q)[0] == p[0] && (p + t + q)[1..] == p[1..] + t + q
    ensures forall i :: 0 <= i < |p[1..]| ==> !OccursAt(t, p[1..] + t + q, i)
  {
    var s, rest := p + t + q, p[1..] + t + q;
    assert s[1..] == rest;
    forall i | 0 <= i < |p[1..]|
      ensures !OccursAt(t, rest, i)
    {
      assert !OccursAt(t, s, i + 1);
      assert rest[i..i + |t|] == s[i + 1..i + 1 + |t|];
    }
  }

  /** A target whose first code unit never appears in `s` does not occur in it. */
  lemma AbsentWithoutFirst(t: JString, s: JString)
    requires t != [] && t[0] !in s
    ensures !Occurs(t, s)
  {
  }
}
