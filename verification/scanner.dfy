/** The name-derivation half of `doScanner`: walking a package directory and
    turning each file into the class name later passed to `Class.forName`.
    Locating the directory on the class path and listing it is I/O; the
    listing is an input tree here, in `listFiles()` order. */
module Scanner {
  import opened JavaLang

  /** One entry of `File.listFiles()`. */
  datatype Entry = File(name: JString) | Directory(name: JString, entries: seq<Entry>)

  /** `packageName + "." + file.getName().replace(".class", "").trim()`. */
  function ClassName(pkg: JString, fileName: JString): (name: JString)
    ensures |name| > |pkg| && name[..|pkg|] == pkg && name[|pkg|] == Dot
    ensures |name| <= |pkg| + 1 + |fileName|
  {
    pkg + [Dot] + Trim(RemoveAll(fileName, Chars(".class")))
  }

  /** `doScanner(pkg)`: class names in listing order, recursing into directories
      with `pkg + "." + dirName`. Every non-directory counts, `.class` or not. */
  function Scan(pkg: JString, entries: seq<Entry>): (names: seq<JString>)
    ensures |names| == FileCount(entries)
    decreases entries
  {
    if entries == [] then []
    else match entries[0]
      case File(n) => [ClassName(pkg, n)] + Scan(pkg, entries[1..])
      case Directory(d, children) => Scan(pkg + [Dot] + d, children) + Scan(pkg, entries[1..])
  }

  /** The number of non-directory entries in a listing, at any depth. */
  function FileCount(entries: seq<Entry>): nat
    decreases entries
  {
    if entries == [] then 0
    else match entries[0]
      case File(_) => 1 + FileCount(entries[1..])
      case Directory(_, children) => FileCount(children) + FileCount(entries[1..])
  }

  /** `s` begins with `p`. */
  predicate HasPrefix(s: JString, p: JString) {
    |p| <= |s| && s[..|p|] == p
  }

  /** One class name per file, each inside the scanned package. */
  lemma {:induction false} ScanNamesFiles(pkg: JString, entries: seq<Entry>)
    ensures |Scan(pkg, entries)| == FileCount(entries)
    ensures forall i :: 0 <= i < |Scan(pkg, entries)| ==> HasPrefix(Scan(pkg, entries)[i], pkg + [Dot])
    decreases entries
  {
    if entries != [] {
      ScanNamesFiles(pkg, entries[1..]);
      var rest := Scan(pkg, entries[1..]);
      match entries[0]
      case File(n) =>
        var head := ClassName(pkg, n);
        assert head[..|pkg + [Dot]|] == pkg + [Dot];
        assert Scan(pkg, entries) == [head] + rest;
      case Directory(d, children) =>
        ScanNamesFiles(pkg + [Dot] + d, children);
        var sub := Scan(pkg + [Dot] + d, children);
        forall i | 0 <= i < |sub|
          ensures HasPrefix(sub[i], pkg + [Dot])
        {
          assert HasPrefix(sub[i], pkg + [Dot] + d + [Dot]);
          assert sub[i][..|pkg + [Dot]|] == (pkg + [Dot] + d + [Dot])[..|pkg + [Dot]|];
        }
        assert Scan(pkg, entries) == sub + rest;
    }
  }

  /** Scanning two listings one after the other is scanning their concatenation. */
  lemma {:induction false} ScanAppend(pkg: JString, a: seq<Entry>, b: seq<Entry>)
    ensures Scan(pkg, a + b) == Scan(pkg, a) + Scan(pkg, b)
    decreases a
  {
    if a == [] {
      assert a + b == b;
    } else {
      assert (a + b)[0] == a[0];
      assert (a + b)[1..] == a[1..] + b;
      ScanAppend(pkg, a[1..], b);
    }
  }

  /** An empty package directory yields no class names. */
  lemma ScanEmpty(pkg: JString)
    ensures Scan(pkg, []) == []
  {
  }

  /** Removing ".class" from `n + ".class"` leaves `n` when `n` has no dot:
      every occurrence of ".class" starts with the only dot there is. */
  lemma {:induction false} RemoveClassSuffix(n: JString)
    requires Dot !in n
    ensures RemoveAll(n + Chars(".class"), Chars(".class")) == n
  {
    var ext := Chars(".class");
    assert ext[0] == Dot;
    if n == [] {
      assert n + ext == ext;
      assert ext[..|ext|] == ext;
      assert ext[|ext|..] == [];
    } else {
      assert (n + ext)[..|ext|][0] == n[0];
      assert (n + ext)[1..] == n[1..] + ext;
      RemoveClassSuffix(n[1..]);
    }
  }

  /** A file `Foo.class` for a class `Foo` with a dot-free, unpadded name is
      reported as `pkg.Foo`. */
  lemma ClassNameOfClassFile(pkg: JString, n: JString)
    requires Dot !in n && n != [] && !IsBlank(n[0]) && !IsBlank(n[|n| - 1])
    ensures ClassName(pkg, n + Chars(".class")) == pkg + [Dot] + n
  {
    RemoveClassSuffix(n);
  }
}
