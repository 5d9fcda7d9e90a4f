/**
 The POSIX path helpers of Python's `os.path` that the image helpers use:
 `basename`, `splitext` and `join`.
 */
module PyPath {

  /** Index of the last `c` in `s`, or -1 (`str.rfind`). */
  function LastIndexOf(s: string, c: char): (r: int)
    ensures -1 <= r < |s|
    ensures r >= 0 ==> s[r] == c
    ensures forall k :: r < k < |s| ==> s[k] != c
    decreases |s|
  {
    if |s| == 0 then -1
    else if s[|s| - 1] == c then |s| - 1
    else LastIndexOf(s[..|s| - 1], c)
  }

  /** `os.path.basename`: everything after the last "/". */
  function Basename(p: string): (r: string)
    ensures '/' !in r
    ensures |r| <= |p| && p[|p| - |r|..] == r
    ensures |r| < |p| ==> p[|p| - |r| - 1] == '/'
  {
    p[LastIndexOf(p, '/') + 1..]
  }

  /** The final component of a path is its basename, whatever the directory part. */
  lemma BasenameOfChild(dir: string, name: string)
    requires '/' !in name
    ensures Basename(dir + "/" + name) == name
  {
    var p := dir + "/" + name;
    assert p[|dir|] == '/';
    assert p[|dir| + 1..] == name;
  }

  predicate AllDots(s: string) {
    forall k :: 0 <= k < |s| ==> s[k] == '.'
  }

  /**
   Where `os.path.splitext` cuts: at the last "." of the last component,
   unless everything before that "." in the component is dots (so ".bashrc"
   and "..jpg" have no extension); `|p|` when there is no extension.
   */
  function ExtensionStart(p: string): (i: nat)
    ensures i <= |p|
  {
    var sep := LastIndexOf(p, '/');
    var dot := LastIndexOf(p, '.');
    if dot > sep && !AllDots(p[sep + 1..dot]) then dot else |p|
  }

  /** An extension starts with its only "." and holds no "/". */
  lemma ExtensionStartShape(p: string)
    ensures var i := ExtensionStart(p);
      i < |p| ==> p[i] == '.' && forall k :: i < k < |p| ==> p[k] != '.' && p[k] != '/'
  {
  }

  /**
   A path component has an extension when it holds a "." with some
   character other than "." before it in the component.
   */
  ghost predicate HasExtension(name: string) {
    exists j, k :: 0 <= j < k < |name| && name[j] != '.' && name[k] == '.'
  }

  /**
   `os.path.splitext`: the root and the extension. The extension is empty or
   a dotted, "/"-free suffix; `SplitExtFindsExtension` says when it is non-empty.
   */
  function SplitExt(p: string): (r: (string, string))
    ensures r.0 + r.1 == p
    ensures r.1 == "" || (r.1[0] == '.' && '.' !in r.1[1..] && '/' !in r.1)
    ensures r.1 == "" <==> ExtensionStart(p) == |p|
  {
    var i := ExtensionStart(p);
    ExtensionStartShape(p);
    SuffixShape(p, i);
    (p[..i], p[i..])
  }

  /** The extension is non-empty exactly when the last component has an extension. */
  lemma SplitExtFindsExtension(p: string)
    ensures SplitExt(p).1 != "" <==> HasExtension(Basename(p))
  {
    ExtensionIffHasExtension(p);
  }

  /** `ExtensionStart` finds an extension exactly when the last component has one. */
  lemma ExtensionIffHasExtension(p: string)
    ensures ExtensionStart(p) < |p| <==> HasExtension(Basename(p))
  {
    var sep := LastIndexOf(p, '/');
    var dot := LastIndexOf(p, '.');
    var b := Basename(p);
    assert b == p[sep + 1..];
    if ExtensionStart(p) < |p| {
      var seg := p[sep + 1..dot];
      var j :| 0 <= j < |seg| && seg[j] != '.';
      assert b[j] == p[sep + 1 + j] == seg[j];
      assert b[dot - sep - 1] == p[dot];
    }
    if HasExtension(b) {
      var j, k :| 0 <= j < k < |b| && b[j] != '.' && b[k] == '.';
      assert p[sep + 1 + k] == '.';
      assert dot >= sep + 1 + k;
      assert p[sep + 1..dot][j] == b[j];
    }
  }

  /** A component whose only "." is its first character has no extension. */
  lemma LeadingDotOnly(name: string)
    requires forall k :: 0 < k < |name| ==> name[k] != '.'
    ensures !HasExtension(name)
  {
  }

  /** A path whose last component has no extension splits into itself and "". */
  lemma SplitExtWithout(p: string)
    requires !HasExtension(Basename(p))
    ensures SplitExt(p) == (p, "")
  {
    SplitExtFindsExtension(p);
    var r := SplitExt(p);
    assert r.0 == r.0 + r.1;
  }

  /** A dot file such as ".bashrc" has no extension: its only "." has nothing but dots before it. */
  lemma SplitExtDotFile()
    ensures '/' !in DotFile
    ensures SplitExt(DotFile) == (DotFile, "")
  {
    assert forall k :: 0 < k < |DotFile| ==> DotFile[k] != '.';
    LeadingDotOnly(DotFile);
    BasenameOfSlashFree(DotFile);
    SplitExtWithout(DotFile);
  }

  const DotFile := ".bashrc"

  /** The same dot file under any directory still has no extension. */
  lemma SplitExtDotFileUnder(dir: string)
    ensures SplitExt(dir + "/" + DotFile) == (dir + "/" + DotFile, "")
  {
    SplitExtDotFile();
    LeadingDotOnly(DotFile);
    BasenameOfChild(dir, DotFile);
    SplitExtWithout(dir + "/" + DotFile);
  }

  /** A path without "/" is its own basename. */
  lemma BasenameOfSlashFree(p: string)
    requires '/' !in p
    ensures Basename(p) == p
  {
    assert LastIndexOf(p, '/') == -1;
  }

  lemma SuffixShape(p: string, i: nat)
    requires i <= |p|
    requires i < |p| ==> p[i] == '.' && forall k :: i < k < |p| ==> p[k] != '.' && p[k] != '/'
    ensures p[..i] + p[i..] == p
    ensures p[i..] == "" || (p[i..][0] == '.' && '.' !in p[i..][1..] && '/' !in p[i..])
  {
    var e := p[i..];
    forall k | 0 <= k < |e|
      ensures e[k] == p[i + k]
    {
    }
    assert forall k :: 0 <= k < |e| - 1 ==> e[1..][k] == e[k + 1];
  }

  /** A name with no "/" and no leading dots splits at its last "." exactly as written. */
  lemma SplitExtOfName(stem: string, ext: string)
    requires '/' !in stem && '/' !in ext && '.' !in ext
    requires |stem| > 0 && stem[0] != '.'
    ensures SplitExt(stem + "." + ext) == (stem, "." + ext)
  {
    var p := stem + "." + ext;
    forall k | |stem| < k < |p|
      ensures p[k] != '.' && p[k] != '/'
    {
      assert p[k] == ext[k - |stem| - 1];
    }
    forall k | 0 <= k < |stem|
      ensures p[k] != '/'
    {
      assert p[k] == stem[k];
    }
    assert p[|stem|] == '.';
    var dot := LastIndexOf(p, '.');
    assert dot == |stem|;
    assert LastIndexOf(p, '/') == -1;
    assert p[0..dot][0] == stem[0];
    assert p[..dot] == stem && p[dot..] == "." + ext;
  }

  /** Under a directory, the split happens in the last component alone. */
  lemma SplitExtOfPath(dir: string, stem: string, ext: string)
    requires '/' !in stem && '/' !in ext && '.' !in ext
    requires |stem| > 0 && stem[0] != '.'
    ensures SplitExt(dir + "/" + stem + "." + ext) == (dir + "/" + stem, "." + ext)
  {
    var p := dir + "/" + stem + "." + ext;
    var q := |dir| + 1;
    var d := q + |stem|;
    forall k | d < k < |p|
      ensures p[k] != '.' && p[k] != '/'
    {
      assert p[k] == ext[k - d - 1];
    }
    forall k | q <= k < d
      ensures p[k] != '/'
    {
      assert p[k] == stem[k - q];
    }
    assert p[d] == '.' && p[|dir|] == '/';
    var dot := LastIndexOf(p, '.');
    var sep := LastIndexOf(p, '/');
    assert dot == d;
    assert sep == |dir|;
    assert p[sep + 1..dot][0] == stem[0];
    assert p[..dot] == dir + "/" + stem && p[dot..] == "." + ext;
  }

  /** A part of a "/"-free string is "/"-free. */
  lemma PrefixHasNoSlash(a: string, b: string)
    requires '/' !in a + b
    ensures '/' !in a
  {
    forall k | 0 <= k < |a|
      ensures a[k] != '/'
    {
      assert a[k] == (a + b)[k];
    }
  }

  /** A name without any "." has no extension. */
  lemma SplitExtNoDot(name: string)
    requires '.' !in name
    ensures SplitExt(name) == (name, "")
  {
    assert LastIndexOf(name, '.') == -1;
    assert name[..|name|] == name;
  }

  /** `os.path.join(a, b)` for two components: an absolute `b` replaces `a`, otherwise one "/" separates them. */
  function Join(a: string, b: string): (r: string)
    ensures |b| > 0 && b[0] == '/' ==> r == b
    ensures !(|b| > 0 && b[0] == '/') ==> r == a + b || r == a + "/" + b
  {
    if |b| > 0 && b[0] == '/' then b
    else if a == "" || a[|a| - 1] == '/' then a + b
    else a + "/" + b
  }

  /** Joining a plain name onto a directory gives a path whose basename is that name. */
  lemma JoinBasename(dir: string, name: string)
    requires '/' !in name && |name| > 0
    ensures Basename(Join(dir, name)) == name
  {
    var r := Join(dir, name);
    if dir == "" {
      assert r == name;
      assert LastIndexOf(r, '/') == -1;
    } else if dir[|dir| - 1] == '/' {
      var d := dir[..|dir| - 1];
      assert dir == d + "/";
      BasenameOfChild(d, name);
    } else {
      BasenameOfChild(dir, name);
    }
  }
}
