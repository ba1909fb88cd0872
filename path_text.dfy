/**
 * The POSIX path text the extension sorter relies on: joining a directory
 * and a name, splitting off an extension as os.path.splitext does,
 * lower-casing, and the numbered variants `name_k.ext` tried on a clash.
 */
module PathText {
  type Path = string

  const Sep: char := '/'
  const Dot: char := '.'

  // ---------------------------------------------------------------------
  // os.path.join for two components
  // ---------------------------------------------------------------------

  /** What precedes a relative component when it is joined under d. */
  function JoinPrefix(d: Path): (r: Path)
    ensures d <= r
    ensures r == d || r == d + [Sep]
  {
    if d == [] || d[|d| - 1] == Sep then d else d + [Sep]
  }

  predicate Absolute(p: Path)
  {
    |p| > 0 && p[0] == Sep
  }

  /** os.path.join(d, x): an absolute x replaces d; otherwise one separator goes between. */
  function Join(d: Path, x: Path): Path
  {
    if Absolute(x) then x else JoinPrefix(d) + x
  }

  /** Joining under one directory loses nothing: names of the same kind give equal paths only when equal. */
  lemma JoinInjective(d: Path, x: Path, y: Path)
    requires Absolute(x) == Absolute(y)
    ensures Join(d, x) == Join(d, y) <==> x == y
  {
    if !Absolute(x) && Join(d, x) == Join(d, y) {
      var n := |JoinPrefix(d)|;
      assert x == Join(d, x)[n..];
    }
  }

  // ---------------------------------------------------------------------
  // os.path.splitext
  // ---------------------------------------------------------------------

  /** Index of the last c in s, or -1. */
  function LastIndex(s: string, c: char): (k: int)
    ensures -1 <= k < |s|
    ensures k >= 0 ==> s[k] == c
  {
    if s == [] then -1
    else if s[|s| - 1] == c then |s| - 1
    else LastIndex(s[..|s| - 1], c)
  }

  /** Nothing after the index found is c. */
  lemma {:induction false} LastIndexLast(s: string, c: char)
    ensures forall i :: LastIndex(s, c) < i < |s| ==> s[i] != c
  {
    if s != [] && s[|s| - 1] != c {
      LastIndexLast(s[..|s| - 1], c);
    }
  }

  /** s[lo..hi] consists of dots only. */
  predicate AllDots(s: string, lo: nat, hi: nat)
    requires lo <= hi <= |s|
  {
    forall k :: lo <= k < hi ==> s[k] == Dot
  }

  /**
   * The extension starts at the last dot, provided that dot lies in the
   * final component and some character before it in that component is
   * not a dot (leading dots do not separate an extension).
   */
  function SplitExt(p: Path): (r: (Path, string))
    ensures r.0 + r.1 == p
  {
    var sep := LastIndex(p, Sep);
    var dot := LastIndex(p, Dot);
    if dot > sep && !AllDots(p, sep + 1, dot) then (p[..dot], p[dot..]) else (p, [])
  }

  /** The extension part is empty, or a dot followed by text without dots or separators. */
  lemma SplitExtShape(p: Path)
    ensures var e := SplitExt(p).1;
      e == [] || (e[0] == Dot && Dot !in e[1..] && Sep !in e[1..])
    ensures SplitExt(p).1 != [] ==> SplitExt(p).0 != [] && SplitExt(p).0[0] == p[0]
  {
    var sep := LastIndex(p, Sep);
    var dot := LastIndex(p, Dot);
    LastIndexLast(p, Sep);
    LastIndexLast(p, Dot);
    if dot > sep && !AllDots(p, sep + 1, dot) {
      var e := p[dot..];
      forall i | 1 <= i < |e| ensures e[i] != Dot && e[i] != Sep {
        assert e[i] == p[dot + i];
      }
    }
  }

  /**
   * Both directions of the rule: there is an extension exactly when the
   * final component has a dot with some non-dot character before it.
   */
  lemma SplitExtIff(p: Path)
    ensures SplitExt(p).1 != [] <==>
      exists i, d :: LastIndex(p, Sep) < i < d < |p| && p[d] == Dot && p[i] != Dot
  {
    var sep := LastIndex(p, Sep);
    var dot := LastIndex(p, Dot);
    LastIndexLast(p, Dot);
    if SplitExt(p).1 != [] {
      var i :| sep + 1 <= i < dot && p[i] != Dot;
      assert sep < i < dot < |p| && p[dot] == Dot && p[i] != Dot;
    }
    if exists i, d :: sep < i < d < |p| && p[d] == Dot && p[i] != Dot {
      var i, d :| sep < i < d < |p| && p[d] == Dot && p[i] != Dot;
      assert d <= dot;
      assert !AllDots(p, sep + 1, dot);
    }
  }

  // ---------------------------------------------------------------------
  // str.lower on ASCII letters, and the extension a file is sorted by
  // ---------------------------------------------------------------------

  function LowerChar(c: char): char
  {
    if 'A' <= c <= 'Z' then (c as int + 32) as char else c
  }

  function Lower(s: string): (r: string)
    ensures |r| == |s|
  {
    if s == [] then [] else [LowerChar(s[0])] + Lower(s[1..])
  }

  lemma {:induction false} LowerAt(s: string)
    ensures forall i :: 0 <= i < |s| ==> Lower(s)[i] == LowerChar(s[i])
  {
    if s != [] {
      LowerAt(s[1..]);
    }
  }

  /** Lower-casing twice is lower-casing once; characters other than A-Z are kept. */
  lemma LowerIdempotent(s: string)
    ensures Lower(Lower(s)) == Lower(s)
    ensures forall i :: 0 <= i < |s| && !('A' <= s[i] <= 'Z') ==> Lower(s)[i] == s[i]
    ensures forall i :: 0 <= i < |s| ==> !('A' <= Lower(s)[i] <= 'Z')
  {
    LowerAt(s);
    LowerAt(Lower(s));
  }

  /** splitext(name)[1][1:].lower(): the extension without its dot, lower-cased. */
  function Extension(name: string): string
  {
    var x := SplitExt(name).1;
    Lower(if x == [] then [] else x[1..])
  }

  /** The extension is a single path component: it has neither dots nor separators. */
  lemma ExtensionPlain(name: string)
    ensures Dot !in Extension(name) && Sep !in Extension(name)
  {
    SplitExtShape(name);
    var x := SplitExt(name).1;
    var raw := if x == [] then [] else x[1..];
    LowerAt(raw);
    assert forall i :: 0 <= i < |raw| ==> raw[i] != Dot && raw[i] != Sep;
  }

  lemma {:induction false} LastIndexAt(s: string, c: char, k: int)
    requires -1 <= k < |s|
    requires k >= 0 ==> s[k] == c
    requires forall i :: k < i < |s| ==> s[i] != c
    ensures LastIndex(s, c) == k
  {
    if s != [] && s[|s| - 1] != c {
      LastIndexAt(s[..|s| - 1], c, k);
    }
  }

  /** A name with a separator-free stem not starting with a dot splits at its last dot. */
  lemma SplitExtOf(stem: string, ext: string)
    requires |stem| > 0 && stem[0] != Dot && Sep !in stem
    requires Dot !in ext && Sep !in ext
    ensures SplitExt(stem + [Dot] + ext) == (stem, [Dot] + ext)
  {
    var p := stem + [Dot] + ext;
    var n := |stem|;
    assert p[n] == Dot;
    forall i | n < i < |p| ensures p[i] != Dot && p[i] != Sep {
      assert p[i] == ext[i - n - 1];
    }
    forall i | 0 <= i < n ensures p[i] != Sep {
      assert p[i] == stem[i];
    }
    LastIndexAt(p, Dot, n);
    LastIndexAt(p, Sep, -1);
    assert p[0] == stem[0];
    assert !AllDots(p, 0, n);
    assert p[..n] == stem;
    assert p[n..] == [Dot] + ext;
  }

  /** The extension a sorted file gets: its text after the last dot, lower-cased. */
  lemma ExtensionOf(stem: string, ext: string)
    requires |stem| > 0 && stem[0] != Dot && Sep !in stem
    requires Dot !in ext && Sep !in ext
    ensures Extension(stem + [Dot] + ext) == Lower(ext)
  {
    SplitExtOf(stem, ext);
    assert ([Dot] + ext)[1..] == ext;
  }

  /** A dot file has no extension: its leading dot does not separate one. */
  lemma DotFileHasNoExtension()
    ensures Extension(".bashrc") == ""
  {
    var p := ".bashrc";
    forall i | 0 < i < |p| ensures p[i] != Dot {
    }
    LastIndexAt(p, Dot, 0);
  }

  /** Leading dots before the last dot still leave no extension. */
  lemma DotsOnlyStemHasNoExtension()
    ensures Extension("..x") == ""
  {
    LastIndexAt("..x", Dot, 1);
    assert AllDots("..x", 0, 1);
  }

  /** The extension is lower-cased, and only the part after the last dot counts. */
  lemma ExtensionExamples()
    ensures Extension("Photo.JPG") == "jpg"
    ensures Extension("archive.tar.gz") == "gz"
  {
    ExtensionOf("Photo", "JPG");
    assert "Photo" + [Dot] + "JPG" == "Photo.JPG";
    assert Lower("JPG") == "jpg";
    ExtensionOf("archive.tar", "gz");
    assert "archive.tar" + [Dot] + "gz" == "archive.tar.gz";
    assert Lower("gz") == "gz";
  }

  // ---------------------------------------------------------------------
  // f"{name}_{counter}{ext}"
  // ---------------------------------------------------------------------

  function Digit(d: nat): char
    requires d < 10
  {
    ('0' as int + d) as char
  }

  /** Decimal text of n without leading zeros, as str(n). */
  function Decimal(n: nat): (s: string)
    ensures |s| >= 1
    ensures n < 10 <==> |s| == 1
    decreases n
  {
    if n < 10 then [Digit(n)] else Decimal(n / 10) + [Digit(n % 10)]
  }

  /** Different counters print differently. */
  lemma {:induction false} DecimalInjective(m: nat, n: nat)
    ensures Decimal(m) == Decimal(n) <==> m == n
    decreases m
  {
    if Decimal(m) == Decimal(n) && m >= 10 && n >= 10 {
      var a, b := Decimal(m), Decimal(n);
      assert a[..|a| - 1] == Decimal(m / 10);
      assert b[..|b| - 1] == Decimal(n / 10);
      DecimalInjective(m / 10, n / 10);
      assert Digit(m % 10) == Digit(n % 10);
    }
  }

  /** The k-th variant of a file name: stem, underscore, counter, original extension. */
  function Numbered(name: string, k: nat): (r: string)
    ensures |r| == |name| + 1 + |Decimal(k)|
  {
    var parts := SplitExt(name);
    parts.0 + "_" + Decimal(k) + parts.1
  }

  /** Variants with different counters differ, and no variant is the name itself. */
  lemma NumberedInjective(name: string, j: nat, k: nat)
    ensures Numbered(name, j) == Numbered(name, k) <==> j == k
    ensures Numbered(name, k) != name
  {
    var parts := SplitExt(name);
    if Numbered(name, j) == Numbered(name, k) {
      var a, b := Numbered(name, j), Numbered(name, k);
      var lo := |parts.0| + 1;
      assert a[lo..|a| - |parts.1|] == Decimal(j);
      assert b[lo..|b| - |parts.1|] == Decimal(k);
      DecimalInjective(j, k);
    }
  }

  /** A variant is absolute exactly when the name is, so both join under a directory alike. */
  lemma NumberedAbsolute(name: string, k: nat)
    ensures Absolute(Numbered(name, k)) <==> Absolute(name)
  {
    SplitExtShape(name);
    var parts := SplitExt(name);
    if parts.1 == [] {
      assert parts.0 == name;
    }
    if parts.0 != [] {
      assert Numbered(name, k)[0] == parts.0[0];
    }
  }
}
