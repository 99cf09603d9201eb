/**
  The part of `java.io.File` on a Unix file system that decides which path a `File(parent, child)`
  names. The child is normalized (runs of separators collapse to one, a trailing separator is
  dropped) and then joined to the parent with exactly one separator. Neither "." nor ".." is
  resolved, and `absolutePath` of a file under an absolute directory is its path unchanged.
 */
module JavaFile {
  const Separator: char := '/'

  /** `s` begins with `prefix`. */
  predicate StartsWith(s: string, prefix: string) {
    |prefix| <= |s| && s[..|prefix|] == prefix
  }

  /** `s` ends with `suffix`. */
  predicate EndsWith(s: string, suffix: string) {
    |suffix| <= |s| && s[|s| - |suffix|..] == suffix
  }

  /** No two separators in a row. */
  predicate Collapsed(s: string) {
    forall i :: 0 <= i < |s| - 1 ==> !(s[i] == Separator && s[i + 1] == Separator)
  }

  /** A normal pathname: collapsed, and no trailing separator unless it is the root itself. */
  predicate Normal(s: string) {
    Collapsed(s) && (|s| > 1 ==> s[|s| - 1] != Separator)
  }

  /** Each run of separators becomes one separator; every other character stays where it is. */
  function CollapseSlashes(s: string): (r: string)
    ensures Collapsed(r)
    ensures |r| <= |s|
    ensures Collapsed(s) ==> r == s
    ensures |s| > 0 ==> |r| > 0 && r[0] == s[0] && r[|r| - 1] == s[|s| - 1]
    decreases |s|
  {
    if |s| < 2 then s
    else if s[0] == Separator && s[1] == Separator then CollapseSlashes(s[1..])
    else
      var rest := CollapseSlashes(s[1..]);
      assert Collapsed(s) ==> Collapsed(s[1..]) by {
        if Collapsed(s) {
          forall i | 0 <= i < |s[1..]| - 1 ensures !(s[1..][i] == Separator && s[1..][i + 1] == Separator) {
            assert s[1..][i] == s[i + 1] && s[1..][i + 1] == s[i + 2];
          }
        }
      }
      CollapsedCons(s[0], rest);
      [s[0]] + rest
  }

  /**
    The loop of `UnixFileSystem.normalize` that copies the pathname character by character,
    skipping a separator whenever the character copied before it was a separator too. `prev` is
    that previously seen character.
   */
  function CollapseLoop(prev: char, s: string): string
    decreases |s|
  {
    if s == [] then []
    else if s[0] == Separator && prev == Separator then CollapseLoop(prev, s[1..])
    else [s[0]] + CollapseLoop(s[0], s[1..])
  }

  /**
    `CollapseSlashes` agrees with the character loop of `UnixFileSystem.normalize`, started with
    no separator before the first character: every non-separator character is kept, in order, and
    each run of separators leaves exactly one.
   */
  lemma CollapseIsLoop(s: string, prev: char)
    requires prev != Separator
    ensures CollapseSlashes(s) == CollapseLoop(prev, s)
  {
    LoopCollapses(s, prev);
  }

  /** The loop after a separator is the collapsed rest without its leading separator. */
  lemma {:induction false} LoopCollapses(s: string, prev: char)
    ensures CollapseLoop(prev, s) ==
      var c := CollapseSlashes(s);
      if prev == Separator && c != [] && c[0] == Separator then c[1..] else c
    decreases |s|
  {
    if s == [] {
    } else if s[0] == Separator && prev == Separator {
      LoopCollapses(s[1..], prev);
      if |s| > 1 && s[1] != Separator {
        assert CollapseSlashes(s) == [s[0]] + CollapseSlashes(s[1..]);
      }
    } else {
      LoopCollapses(s[1..], s[0]);
      if |s| > 1 && !(s[0] == Separator && s[1] == Separator) {
        assert CollapseSlashes(s) == [s[0]] + CollapseSlashes(s[1..]);
      }
    }
  }

  /** Putting a character in front of a collapsed string keeps it collapsed unless two separators meet. */
  lemma CollapsedCons(c: char, s: string)
    requires Collapsed(s)
    requires s != [] && c == Separator ==> s[0] != Separator
    ensures Collapsed([c] + s)
  {
    var t := [c] + s;
    forall i | 0 <= i < |t| - 1 ensures !(t[i] == Separator && t[i + 1] == Separator) {
      if i > 0 {
        assert t[i] == s[i - 1] && t[i + 1] == s[i];
      }
    }
  }

  /** `UnixFileSystem.normalize`. */
  function Normalize(s: string): (r: string)
    ensures Normal(r)
    ensures Normal(s) ==> r == s
    ensures |s| > 0 && s[|s| - 1] != Separator ==> r == CollapseSlashes(s)
  {
    var c := CollapseSlashes(s);
    if |c| > 1 && c[|c| - 1] == Separator then
      var d := c[..|c| - 1];
      assert Collapsed(d) by {
        forall i | 0 <= i < |d| - 1 ensures !(d[i] == Separator && d[i + 1] == Separator) {
          assert d[i] == c[i] && d[i + 1] == c[i + 1];
        }
      }
      assert c[|c| - 2] != Separator;
      d
    else c
  }

  /**
    `UnixFileSystem.resolve`: join a parent and a child pathname. The parent stays in front, the child
    ends the result, and exactly one separator stands between them, so two normal pathnames join
    into a normal one. An empty or root child leaves the parent as it is.
   */
  function Resolve(parent: string, child: string): (r: string)
    ensures parent != [] ==> StartsWith(r, parent)
    ensures child != [] && child != [Separator] ==> EndsWith(r, child)
    ensures Normal(parent) && Normal(child) ==> Normal(r)
    ensures parent != [] && parent != [Separator] && child != [] && child != [Separator] ==>
      r[|parent|..] == (if child[0] == Separator then child else [Separator] + child)
  {
    if child == [] || child == [Separator] then parent
    else if child[0] == Separator then
      if parent == [Separator] then
        assert child[..1] == parent;
        child
      else
        Joined(parent, child);
        assert (parent + child)[|parent|..] == child;
        parent + child
    else if parent == [Separator] then
      Joined(parent, child);
      parent + child
    else
      Joined(parent, [Separator]);
      Joined(parent + [Separator], child);
      assert (parent + [Separator] + child)[..|parent|] == parent;
      assert (parent + [Separator] + child)[|parent|..] == [Separator] + child;
      parent + [Separator] + child
  }

  /** `a + b` starts with `a`, ends with `b`, and is collapsed when both are and the seam has one separator at most. */
  lemma Joined(a: string, b: string)
    ensures StartsWith(a + b, a) && EndsWith(a + b, b)
    ensures Collapsed(a) && Collapsed(b) && (a != [] && b != [] ==> !(a[|a| - 1] == Separator && b[0] == Separator)) ==>
      Collapsed(a + b)
  {
    assert (a + b)[..|a|] == a;
    assert (a + b)[|a + b| - |b|..] == b;
    if Collapsed(a) && Collapsed(b) && (a != [] && b != [] ==> !(a[|a| - 1] == Separator && b[0] == Separator)) {
      CollapsedAppend(a, b);
    }
  }

  /**
    The path of `File(parent, child)`. An empty parent stands for the root. The result starts with
    the parent, is normal when the parent is, and a child without separators is joined with one.
   */
  function Child(parent: string, child: string): (p: string)
    ensures parent != [] ==> StartsWith(p, parent)
    ensures Normal(parent) ==> Normal(p)
    ensures parent != [] && parent != [Separator] && child != [] && Separator !in child ==>
      p == parent + [Separator] + child
    ensures Normalize(child) != [] && Normalize(child) != [Separator] ==> EndsWith(p, Normalize(child))
  {
    var c := Normalize(child);
    PlainNameNormal(child);
    var base := if parent == [] then [Separator] else parent;
    Resolve(base, c)
  }

  /** `File(parent, child)` sees the child only through its normal form. */
  lemma ChildSameNormalForm(parent: string, x: string, y: string)
    requires Normalize(x) == Normalize(y)
    ensures Child(parent, x) == Child(parent, y)
  {
  }

  /** A child that starts with a separator names the same file as the child without it. */
  lemma ChildLeadingSeparator(parent: string, name: string)
    requires name != [] && name[0] != Separator
    ensures Child(parent, [Separator] + name) == Child(parent, name)
  {
    NormalizeLeadingSeparator(name);
    var base := if parent == [] then [Separator] else parent;
    ResolveLeadingSeparator(base, Normalize(name));
  }

  lemma NormalizeLeadingSeparator(name: string)
    requires name != [] && name[0] != Separator
    ensures Normalize([Separator] + name) == [Separator] + Normalize(name)
    ensures Normalize(name) != [] && Normalize(name)[0] != Separator
  {
    var s := [Separator] + name;
    assert s[1..] == name;
    var c := CollapseSlashes(name);
    assert CollapseSlashes(s) == [Separator] + c;
    if |c| > 1 && c[|c| - 1] == Separator {
      assert ([Separator] + c)[..|c|] == [Separator] + c[..|c| - 1];
    }
  }

  lemma ResolveLeadingSeparator(base: string, n: string)
    requires base != [] && n != [] && n[0] != Separator
    ensures Resolve(base, [Separator] + n) == Resolve(base, n)
  {
    if base != [Separator] {
      assert base + ([Separator] + n) == base + [Separator] + n;
    }
  }

  /** A child named `name + ext`, for a separator-free extension, yields a path ending in `ext`. */
  lemma ChildEndsWith(parent: string, name: string, ext: string)
    requires Separator !in ext && ext != []
    ensures EndsWith(Child(parent, name + ext), ext)
  {
    var c := Normalize(name + ext);
    NormalizeKeepsExtension(name, ext);
    EndsWithTransitive(Child(parent, name + ext), c, ext);
  }

  /** Normalizing `name + ext` keeps `ext` at the end, and the result is neither empty nor the root. */
  lemma NormalizeKeepsExtension(name: string, ext: string)
    requires Separator !in ext && ext != []
    ensures var c := Normalize(name + ext);
      c != [] && c != [Separator] && EndsWith(c, ext)
  {
    CollapseAppend(name, ext);
    var child := name + ext;
    assert child[|child| - 1] == ext[|ext| - 1];
    assert ext[|ext| - 1] in ext;
    var c := Normalize(child);
    assert c == CollapseSlashes(name) + ext;
    assert c[|c| - |ext|..] == ext;
  }

  lemma EndsWithTransitive(a: string, b: string, c: string)
    requires EndsWith(a, b) && EndsWith(b, c)
    ensures EndsWith(a, c)
  {
    assert a[|a| - |c|..] == b[|b| - |c|..];
  }

  /** A name without separators is already normal. */
  lemma PlainNameNormal(s: string)
    ensures Separator !in s ==> Normal(s)
  {
    if Separator !in s {
      forall i | 0 <= i < |s| - 1 ensures !(s[i] == Separator && s[i + 1] == Separator) {
        assert s[i] in s;
      }
      if |s| > 1 {
        assert s[|s| - 1] in s;
      }
    }
  }

  /** Two collapsed strings stay collapsed when joined, unless two separators meet at the seam. */
  lemma CollapsedAppend(a: string, b: string)
    requires Collapsed(a) && Collapsed(b)
    requires a != [] && b != [] ==> !(a[|a| - 1] == Separator && b[0] == Separator)
    ensures Collapsed(a + b)
  {
    var t := a + b;
    forall i | 0 <= i < |t| - 1 ensures !(t[i] == Separator && t[i + 1] == Separator) {
      if i < |a| - 1 {
        assert t[i] == a[i] && t[i + 1] == a[i + 1];
      } else if i >= |a| {
        assert t[i] == b[i - |a|] && t[i + 1] == b[i + 1 - |a|];
      }
    }
  }

  /** Collapsing `s + t` for a separator-free `t` collapses `s` alone. */
  lemma {:induction false} CollapseAppend(s: string, t: string)
    requires Separator !in t
    ensures CollapseSlashes(s + t) == CollapseSlashes(s) + t
    decreases |s|
  {
    if |s| == 0 {
      assert s + t == t;
      PlainNameNormal(t);
    } else if t == [] {
      assert s + t == s;
    } else if |s| == 1 {
      CollapseOneThenPlain(s[0], t);
      assert s + t == [s[0]] + t;
    } else {
      var u := s + t;
      assert u[0] == s[0] && u[1] == s[1];
      assert u[1..] == s[1..] + t;
      CollapseAppend(s[1..], t);
    }
  }

  /** One character followed by a non-empty separator-free name collapses to itself. */
  lemma CollapseOneThenPlain(c: char, t: string)
    requires Separator !in t && t != []
    ensures CollapseSlashes([c] + t) == [c] + t
  {
    var u := [c] + t;
    assert t[0] in t;
    PlainNameNormal(t);
    CollapsedCons(c, t);
  }
}
