/** URL path normalisation: Java's `replaceAll("/+", "/")`, applied to route keys
    when the handler mapping is built and to request URIs when a request is
    dispatched, so that both sides meet on the same key. */
module Paths {
  import opened JavaLang

  /** No two separators are adjacent. */
  ghost predicate NoDoubleSlash(s: JString) {
    forall i :: 0 <= i < |s| - 1 ==> !(s[i] == Slash && s[i + 1] == Slash)
  }

  /** A non-empty path segment: text with no separator in it. */
  predicate IsSegment(s: JString) {
    s != [] && Slash !in s
  }

  /** `n` separators in a row. */
  function Slashes(n: nat): (r: JString)
    ensures |r| == n
  {
    if n == 0 then [] else [Slash] + Slashes(n - 1)
  }

  /** `replaceAll("/+", "/")`: every maximal run of separators becomes one. */
  function Collapse(s: JString): (r: JString)
    ensures |r| <= |s|
    ensures NoDoubleSlash(r)
    ensures |s| > 0 ==> |r| > 0 && r[0] == s[0]
  {
    if |s| == 0 then []
    else if |s| >= 2 && s[0] == Slash && s[1] == Slash then Collapse(s[1..])
    else [s[0]] + Collapse(s[1..])
  }

  /** Collapsing changes a path exactly when it has a doubled separator. */
  lemma {:induction false} CollapseFixpoint(s: JString)
    ensures Collapse(s) == s <==> NoDoubleSlash(s)
  {
    if NoDoubleSlash(s) && |s| > 0 {
      assert NoDoubleSlash(s[1..]) by {
        forall i | 0 <= i < |s[1..]| - 1
          ensures !(s[1..][i] == Slash && s[1..][i + 1] == Slash)
        {
          assert s[1..][i] == s[i + 1] && s[1..][i + 1] == s[i + 2];
        }
      }
      CollapseFixpoint(s[1..]);
      assert !(|s| >= 2 && s[0] == Slash && s[1] == Slash);
    }
  }

  /** Collapsing twice is collapsing once. */
  lemma CollapseIdempotent(s: JString)
    ensures Collapse(Collapse(s)) == Collapse(s)
  {
    CollapseFixpoint(Collapse(s));
  }

  /** Deleting one separator of a doubled pair never changes the collapsed form:
      together with `CollapseFixpoint`, `Collapse(s)` is the normal form reached
      by repeatedly merging adjacent separators. */
  lemma {:induction false} CollapseMergeStep(s: JString, i: nat)
    requires i + 1 < |s| && s[i] == Slash && s[i + 1] == Slash
    ensures Collapse(s[..i] + s[i + 1..]) == Collapse(s)
    decreases i
  {
    var t := s[..i] + s[i + 1..];
    if i == 0 {
      assert t == s[1..];
    } else {
      assert t[0] == s[0];
      assert t[1..] == s[1..][..i - 1] + s[1..][i..];
      CollapseMergeStep(s[1..], i - 1);
      if i == 1 {
        assert t[1] == Slash;
      } else {
        assert t[1] == s[1];
      }
    }
  }

  /** The tail of a text without doubled separators has none either. */
  lemma NoDoubleSlashTail(a: JString)
    requires a != [] && NoDoubleSlash(a)
    ensures NoDoubleSlash(a[1..])
  {
    forall i | 0 <= i < |a[1..]| - 1
      ensures !(a[1..][i] == Slash && a[1..][i + 1] == Slash)
    {
      assert a[1..][i] == a[i + 1] && a[1..][i + 1] == a[i + 2];
    }
  }

  /** A first character that does not start a doubled separator is kept. */
  lemma CollapseKeepsFirst(s: JString)
    requires s != [] && !(|s| >= 2 && s[0] == Slash && s[1] == Slash)
    ensures Collapse(s) == [s[0]] + Collapse(s[1..])
  {
  }

  /** A prefix free of doubled separators passes through unchanged, provided it
      does not end in a separator that meets one at the start of the rest. */
  lemma {:induction false} CollapseAppend(a: JString, b: JString)
    requires NoDoubleSlash(a)
    requires !(|a| > 0 && a[|a| - 1] == Slash && |b| > 0 && b[0] == Slash)
    ensures Collapse(a + b) == a + Collapse(b)
  {
    if a != [] {
      var s := a + b;
      assert s[1..] == a[1..] + b;
      NoDoubleSlashTail(a);
      CollapseAppend(a[1..], b);
      if |a| >= 2 {
        assert s[1] == a[1];
      } else if |b| > 0 {
        assert s[1] == b[0];
      }
      CollapseKeepsFirst(s);
      assert [a[0]] + (a[1..] + Collapse(b)) == a + Collapse(b);
    } else {
      assert a + b == b;
    }
  }

  /** A leading run of separators of any length collapses to one. */
  lemma {:induction false} CollapseLeadingRun(n: nat, x: JString)
    requires n >= 1
    ensures Collapse(Slashes(n) + x) == Collapse([Slash] + x)
  {
    if n > 1 {
      assert (Slashes(n) + x)[1..] == Slashes(n - 1) + x;
      CollapseLeadingRun(n - 1, x);
    }
  }

  /** A separator followed by a segment and anything not starting with a
      separator keeps the segment verbatim. */
  lemma SegmentPassesThrough(seg: JString, rest: JString)
    requires IsSegment(seg)
    ensures Collapse([Slash] + seg + rest) == [Slash] + seg + Collapse(rest)
  {
    assert NoDoubleSlash([Slash] + seg) by {
      forall i | 0 <= i < |[Slash] + seg| - 1
        ensures !(([Slash] + seg)[i] == Slash && ([Slash] + seg)[i + 1] == Slash)
      {
        assert ([Slash] + seg)[i + 1] == seg[i];
      }
    }
    assert ([Slash] + seg)[|seg|] == seg[|seg| - 1];
    CollapseAppend([Slash] + seg, rest);
  }

  /** A run of separators followed by a segment becomes `/` and the segment. */
  lemma CollapseRunThenSegment(n: nat, seg: JString, rest: JString)
    requires n >= 1 && IsSegment(seg)
    ensures Collapse(Slashes(n) + seg + rest) == [Slash] + seg + Collapse(rest)
  {
    assert Slashes(n) + seg + rest == Slashes(n) + (seg + rest);
    CollapseLeadingRun(n, seg + rest);
    assert [Slash] + (seg + rest) == [Slash] + seg + rest;
    SegmentPassesThrough(seg, rest);
  }

  /** A run of separators followed by a final segment becomes `/` and the segment. */
  lemma CollapseRunThenLastSegment(n: nat, seg: JString)
    requires n >= 1 && IsSegment(seg)
    ensures Collapse(Slashes(n) + seg) == [Slash] + seg
  {
    CollapseRunThenSegment(n, seg, []);
    assert Slashes(n) + seg + [] == Slashes(n) + seg;
    assert [Slash] + seg + Collapse([]) == [Slash] + seg;
  }

  /** Four pieces concatenated in turn equal the first two followed by the
      last two joined. */
  lemma RegroupTail(w: JString, x: JString, y: JString, z: JString)
    ensures w + x + y + z == w + x + (y + z)
  {
  }

  /** Two segments separated by runs of separators of any lengths collapse to
      `/a/b`: `//demo///add.json` becomes `/demo/add.json`. */
  lemma CollapseTwoSegments(n: nat, a: JString, m: nat, b: JString)
    requires n >= 1 && m >= 1 && IsSegment(a) && IsSegment(b)
    ensures Collapse(Slashes(n) + a + Slashes(m) + b) == [Slash] + a + [Slash] + b
  {
    var t := Slashes(m) + b;
    CollapseRunThenLastSegment(m, b);
    CollapseRunThenSegment(n, a, t);
    RegroupTail(Slashes(n), a, Slashes(m), b);
  }

  /** The handler-mapping key of a method: `"/" + base + "/" + value` collapsed. */
  function RouteKey(base: JString, value: JString): (r: JString)
    ensures |r| > 0 && r[0] == Slash
    ensures NoDoubleSlash(r)
  {
    Collapse([Slash] + base + [Slash] + value)
  }

  /** Collapsing a route key again leaves it unchanged. */
  lemma RouteKeyIsNormal(base: JString, value: JString)
    ensures Collapse(RouteKey(base, value)) == RouteKey(base, value)
  {
    CollapseFixpoint(RouteKey(base, value));
  }

  /** With a base `/a` or `a` and a value `/b` or `b`, in any of the four
      combinations, the key is `/a/b`. */
  lemma RouteKeyOfSegments(a: JString, b: JString)
    requires IsSegment(a) && IsSegment(b)
    ensures RouteKey([Slash] + a, [Slash] + b) == [Slash] + a + [Slash] + b
    ensures RouteKey([Slash] + a, b) == [Slash] + a + [Slash] + b
    ensures RouteKey(a, [Slash] + b) == [Slash] + a + [Slash] + b
    ensures RouteKey(a, b) == [Slash] + a + [Slash] + b
  {
    assert [Slash] + ([Slash] + a) + [Slash] + ([Slash] + b) == Slashes(2) + a + Slashes(2) + b;
    CollapseTwoSegments(2, a, 2, b);
    assert [Slash] + ([Slash] + a) + [Slash] + b == Slashes(2) + a + Slashes(1) + b;
    CollapseTwoSegments(2, a, 1, b);
    assert [Slash] + a + [Slash] + ([Slash] + b) == Slashes(1) + a + Slashes(2) + b;
    CollapseTwoSegments(1, a, 2, b);
    assert [Slash] + a + [Slash] + b == Slashes(1) + a + Slashes(1) + b;
    CollapseTwoSegments(1, a, 1, b);
  }

  /** A controller without a class-level mapping (base `""`) maps value `/b` to `/b`. */
  lemma RouteKeyOfEmptyBase(b: JString)
    requires IsSegment(b)
    ensures RouteKey([], [Slash] + b) == [Slash] + b
  {
    assert [Slash] + [] + [Slash] + ([Slash] + b) == Slashes(3) + b;
    CollapseLeadingRun(3, b);
    assert [Slash] + b == [Slash] + b + [];
    SegmentPassesThrough(b, []);
  }

  /** The dispatcher's lookup key for a request: the context path is removed
      wherever it occurs in the URI, then separators are collapsed. */
  function RequestPath(uri: JString, contextPath: JString): (r: JString)
    ensures NoDoubleSlash(r)
    ensures contextPath == [] ==> r == Collapse(uri)
  {
    Collapse(RemoveAll(uri, contextPath))
  }

  /** A URI made of the context path followed by a path that does not repeat it
      is looked up under that path, collapsed. */
  lemma RequestPathUnderContext(contextPath: JString, p: JString)
    requires contextPath != [] && !Occurs(contextPath, p)
    ensures RequestPath(contextPath + p, contextPath) == Collapse(p)
  {
    RemoveAllLeading(contextPath, p);
  }

  /** `String.replace` removes the context path wherever it occurs, not only in
      front: a URI that repeats the context path loses both copies. */
  lemma RequestPathRepeatedContext(contextPath: JString, q: JString)
    requires contextPath != [] && !Occurs(contextPath, q)
    ensures RequestPath(contextPath + contextPath + q, contextPath) == Collapse(q)
  {
    RemoveAllSkip([], contextPath, contextPath + q);
    assert [] + contextPath + (contextPath + q) == contextPath + contextPath + q;
    RemoveAllLeading(contextPath, q);
  }

  /** Under context path `/app`, the URI `/app/application` is looked up as
      `lication`: the second `/app` is removed too. */
  lemma ApplicationUnderApp()
    ensures var ctx := Chars("/app");
      RequestPath(ctx + ctx + Chars("lication"), ctx) == Chars("lication")
  {
    var ctx, q := Chars("/app"), Chars("lication");
    assert ctx[0] == Slash;
    assert Slash !in q;
    AbsentWithoutFirst(ctx, q);
    RequestPathRepeatedContext(ctx, q);
    assert NoDoubleSlash(q);
    CollapseFixpoint(q);
  }

  /** Two ways of splitting one text into a first segment and a remainder that
      is empty or starts with a separator agree on the segment. */
  lemma FirstSegmentUnique(a: JString, x: JString, b: JString, y: JString)
    requires IsSegment(a) && IsSegment(b)
    requires (x == [] || x[0] == Slash) && (y == [] || y[0] == Slash)
    requires a + x == b + y
    ensures a == b
  {
    assert a == (a + x)[..|a|];
    assert b == (b + y)[..|b|];
  }

  /** Under context path `/a/b`, the URI `/a/b/c` is looked up as `/c`. */
  lemma ContextPathStripped()
    ensures RequestPath([Slash, 97, Slash, 98, Slash, 99], [Slash, 97, Slash, 98]) == [Slash, 99]
  {
    var ctx, rest: JString := [Slash, 97, Slash, 98], [Slash, 99];
    assert [Slash, 97, Slash, 98, Slash, 99] == ctx + rest;
    RequestPathUnderContext(ctx, rest);
    CollapseFixpoint(rest);
  }

  /** Under context path `/a/b`, the URI `/a//b/c` does not contain the context
      path, so it is looked up as `/a/b/c`. */
  lemma DoubledContextPathKept()
    ensures RequestPath([Slash, 97, Slash, Slash, 98, Slash, 99], [Slash, 97, Slash, 98])
         == [Slash, 97, Slash, 98, Slash, 99]
  {
    var ctx, padded: JString := [Slash, 97, Slash, 98], [Slash, 97, Slash, Slash, 98, Slash, 99];
    assert !OccursAt(ctx, padded, 0) by { assert padded[0..4][3] == padded[3]; }
    assert !OccursAt(ctx, padded, 1) by { assert padded[1..5][0] == padded[1]; }
    assert !OccursAt(ctx, padded, 2) by { assert padded[2..6][1] == padded[3]; }
    assert !OccursAt(ctx, padded, 3) by { assert padded[3..7][1] == padded[4]; }
    RemoveAllAbsent(padded, ctx);
    var a, b, c: JString := [97], [98], [99];
    assert padded == [Slash] + a + (Slashes(2) + b + ([Slash] + c));
    SegmentPassesThrough(a, Slashes(2) + b + ([Slash] + c));
    CollapseRunThenSegment(2, b, [Slash] + c);
    assert [Slash] + c == [Slash] + c + [];
    SegmentPassesThrough(c, []);
  }
}
