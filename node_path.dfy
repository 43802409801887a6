/** The parts of Node's POSIX `path` module that the converter calls:
    `dirname`, `basename` (with and without a suffix), `extname` and `join`.
    Trailing separators are trimmed first, as Node does. `join` is modelled as
    gluing with one separator; Node's normalisation of `.`, `..` and repeated
    separators inside the directory part is not modelled. */
module NodePath {
  import opened Strings

  /** Drops trailing '/' characters, keeping a lone root "/". */
  function TrimTrailing(p: string): (r: string)
    ensures |r| <= |p| && r == p[..|r|]
    ensures |r| > 1 ==> r[|r| - 1] != '/'
    decreases |p|
  {
    if |p| > 1 && p[|p| - 1] == '/' then TrimTrailing(p[..|p| - 1]) else p
  }

  /** Index of the last occurrence of `c` in `s`, or -1. */
  function LastIndexOf(s: string, c: char): (i: int)
    ensures -1 <= i < |s|
    ensures i >= 0 ==> s[i] == c
    ensures forall j :: i < j < |s| ==> s[j] != c
    decreases |s|
  {
    if s == [] then -1
    else if s[|s| - 1] == c then |s| - 1
    else LastIndexOf(s[..|s| - 1], c)
  }

  /** An occurrence of `c` with none after it is the last one. */
  lemma LastIndexOfAt(s: string, c: char, i: nat)
    requires i < |s| && s[i] == c
    requires forall j :: i < j < |s| ==> s[j] != c
    ensures LastIndexOf(s, c) == i
  {
  }

  /** Nothing after the last occurrence of `c` is `c`. */
  lemma AfterLastIndexOf(s: string, c: char)
    requires LastIndexOf(s, c) >= 0
    ensures c !in s[LastIndexOf(s, c) + 1..]
  {
    var i := LastIndexOf(s, c);
    var t := s[i + 1..];
    assert forall k :: 0 <= k < |t| ==> t[k] == s[i + 1 + k];
  }

  /** What follows the last '.' of a name holds no further '.'. */
  lemma ExtensionShape(s: string)
    requires LastIndexOf(s, '.') >= 0
    ensures var e := s[LastIndexOf(s, '.')..]; e[0] == '.' && '.' !in e[1..]
  {
    AfterLastIndexOf(s, '.');
    var i := LastIndexOf(s, '.');
    assert s[i..][1..] == s[i + 1..];
  }

  /** `path.dirname(p)`, except that Node keeps the two leading separators of
      a path such as `//a.mp4` (giving `//`), where this gives `/`. */
  function Dirname(p: string): string {
    var q := TrimTrailing(p);
    var i := LastIndexOf(q, '/');
    if i < 0 then "." else if i == 0 then "/" else q[..i]
  }

  /** `path.basename(p)`: the last component, which never holds a separator. */
  function Basename(p: string): (b: string)
    ensures '/' !in b
  {
    var q := TrimTrailing(p);
    var i := LastIndexOf(q, '/');
    if i < 0 then q
    else
      AfterLastIndexOf(q, '/');
      q[i + 1..]
  }

  /** `path.basename(p, suffix)`: the suffix is stripped when the last component
      ends with it and is not equal to it. */
  function BasenameWithout(p: string, suffix: string): (b: string)
    ensures '/' !in b
  {
    var base := Basename(p);
    if suffix != [] && |suffix| < |base| && base[|base| - |suffix|..] == suffix
    then
      var b := base[..|base| - |suffix|];
      assert forall k :: 0 <= k < |b| ==> b[k] == base[k];
      b
    else base
  }

  /** `path.extname(p)`: from the last '.' of the last component to its end,
      or "" when that component has no '.', starts with its only relevant '.'
      (a dot file), or is "..". */
  function Extname(p: string): (e: string)
    ensures e == [] || (e[0] == '.' && '.' !in e[1..])
  {
    var base := Basename(p);
    var d := LastIndexOf(base, '.');
    if d <= 0 || base == ".." then ""
    else
      ExtensionShape(base);
      base[d..]
  }

  /** `path.join(dir, name)` for a directory produced by Dirname and a plain
      file name. */
  function Join(dir: string, name: string): string {
    JoinPrefix(dir) + name
  }

  /** What `join` puts in front of the file name. */
  function JoinPrefix(dir: string): (r: string)
    ensures r == [] || r[|r| - 1] == '/'
  {
    if dir == "." then ""
    else if |dir| > 0 && dir[|dir| - 1] == '/' then dir
    else dir + "/"
  }

  lemma JoinInjective(dir: string, x: string, y: string)
    requires Join(dir, x) == Join(dir, y)
    ensures x == y
  {
    var pre := JoinPrefix(dir);
    assert x == Join(dir, x)[|pre|..];
  }

  /** LastIndexOf is pinned down by its contract; appending text without `c`
      leaves it alone. */
  lemma LastIndexOfAppend(a: string, b: string, c: char)
    requires c !in b
    ensures LastIndexOf(a + b, c) == LastIndexOf(a, c)
  {
    assert forall j :: |a| <= j < |a + b| ==> (a + b)[j] == b[j - |a|];
    assert forall j :: 0 <= j < |a| ==> (a + b)[j] == a[j];
  }

  /** A plain file name joined onto a directory has that directory, when the
      directory does not end in a separator (or is the root). */
  lemma DirnameJoin(dir: string, name: string)
    requires dir == "." || dir == "/" || (dir != [] && dir[|dir| - 1] != '/')
    requires name != [] && '/' !in name
    ensures Dirname(Join(dir, name)) == dir
  {
    var prefix := JoinPrefix(dir);
    var p := prefix + name;
    assert p[|p| - 1] == name[|name| - 1];
    assert TrimTrailing(p) == p;
    LastIndexOfAppend(prefix, name, '/');
    if dir != "." && dir != "/" {
      assert prefix == dir + "/";
      LastIndexOfAt(prefix, '/', |dir|);
      assert p[..|dir|] == dir;
    }
  }

  /** The last component of `prefix + name`, where `prefix` is empty or ends in
      a separator, is `name`. */
  lemma BasenameAppend(prefix: string, name: string)
    requires prefix == [] || prefix[|prefix| - 1] == '/'
    requires name != [] && '/' !in name
    ensures Basename(prefix + name) == name
  {
    var p := prefix + name;
    assert p[|p| - 1] == name[|name| - 1];
    assert TrimTrailing(p) == p;
    LastIndexOfAppend(prefix, name, '/');
    if prefix != [] {
      assert LastIndexOf(prefix, '/') == |prefix| - 1;
      assert p[|prefix|..] == name;
    }
  }

  /** A well-formed extension glued to a non-empty stem comes back from
      extname. */
  lemma ExtnameAppend(prefix: string, stem: string, ext: string)
    requires prefix == [] || prefix[|prefix| - 1] == '/'
    requires stem != [] && '/' !in stem
    requires |ext| > 1 && ext[0] == '.' && '.' !in ext[1..] && '/' !in ext
    ensures Extname(prefix + stem + ext) == ext
  {
    BasenameOfJoined(prefix, stem, ext);
    LastDotBeginsExtension(stem, ext);
    ExtnameOf(prefix + stem + ext, stem + ext, |stem|);
    assert |stem + ext| > 2;
    assert (stem + ext)[|stem|..] == ext;
  }

  lemma BasenameOfJoined(prefix: string, stem: string, ext: string)
    requires prefix == [] || prefix[|prefix| - 1] == '/'
    requires stem != [] && '/' !in stem && '/' !in ext
    ensures Basename(prefix + stem + ext) == stem + ext
  {
    NotInAppend(stem, ext, '/');
    AppendAssoc(prefix, stem, ext);
    BasenameAppend(prefix, stem + ext);
  }

  lemma LastDotBeginsExtension(stem: string, ext: string)
    requires |ext| > 0 && ext[0] == '.' && '.' !in ext[1..]
    ensures LastIndexOf(stem + ext, '.') == |stem|
  {
    var s := stem + ext;
    forall j | |stem| < j < |s|
      ensures s[j] != '.'
    {
      assert s[j] == ext[1..][j - |stem| - 1];
    }
    LastIndexOfAt(s, '.', |stem|);
  }

  /** Lower-casing commutes with the path functions: it never makes or
      removes a '/' or a '.'. */
  lemma {:induction false} TrimTrailingLower(p: string)
    ensures TrimTrailing(Lower(p)) == Lower(TrimTrailing(p))
    decreases |p|
  {
    if |p| > 1 {
      assert Lower(p)[|p| - 1] == '/' <==> p[|p| - 1] == '/';
      if p[|p| - 1] == '/' {
        LowerSlice(p, 0, |p| - 1);
        TrimTrailingLower(p[..|p| - 1]);
      }
    }
  }

  lemma LastIndexOfLower(s: string, c: char)
    requires !('A' <= c <= 'Z') && !('a' <= c <= 'z')
    ensures LastIndexOf(Lower(s), c) == LastIndexOf(s, c)
  {
    assert forall j :: 0 <= j < |s| ==> (Lower(s)[j] == c <==> s[j] == c);
  }

  lemma BasenameOf(p: string, q: string, i: int)
    requires q == TrimTrailing(p) && i == LastIndexOf(q, '/')
    ensures Basename(p) == if i < 0 then q else q[i + 1..]
  {
  }

  lemma BasenameLower(p: string)
    ensures Basename(Lower(p)) == Lower(Basename(p))
  {
    var q := TrimTrailing(p);
    var i := LastIndexOf(q, '/');
    TrimTrailingLower(p);
    LastIndexOfLower(q, '/');
    BasenameOf(p, q, i);
    BasenameOf(Lower(p), Lower(q), i);
    if i >= 0 {
      LowerSlice(q, i + 1, |q|);
    }
  }

  lemma LowerDots(s: string)
    ensures Lower(s) == ".." <==> s == ".."
  {
    if |s| == 2 {
      assert Lower(s)[0] == '.' <==> s[0] == '.';
      assert Lower(s)[1] == '.' <==> s[1] == '.';
    }
  }

  lemma ExtnameOf(p: string, base: string, d: int)
    requires base == Basename(p) && d == LastIndexOf(base, '.')
    ensures Extname(p) == if d <= 0 || base == ".." then "" else base[d..]
  {
  }

  lemma ExtnameLower(p: string)
    ensures Extname(Lower(p)) == Lower(Extname(p))
  {
    var base := Basename(p);
    var d := LastIndexOf(base, '.');
    assert Extname(Lower(p)) == if d <= 0 || base == ".." then "" else Lower(base)[d..] by {
      BasenameLower(p);
      LastIndexOfLower(base, '.');
      LowerDots(base);
      ExtnameOf(Lower(p), Lower(base), d);
    }
    ExtnameOf(p, base, d);
    if d <= 0 || base == ".." {
      assert Lower([]) == [];
    } else {
      LowerSlice(base, d, |base|);
    }
  }

  /** The last component is its stem followed by its extension. */
  lemma BasenameSplitsAtExtname(p: string)
    ensures BasenameWithout(p, Extname(p)) + Extname(p) == Basename(p)
  {
    var base := Basename(p);
    var d := LastIndexOf(base, '.');
    ExtnameOf(p, base, d);
    if d > 0 && base != ".." {
      var e := base[d..];
      assert base[|base| - |e|..] == e;
      assert BasenameWithout(p, e) == base[..d];
      assert base[..d] + e == base;
    } else {
      assert BasenameWithout(p, []) + [] == base;
    }
  }
}
