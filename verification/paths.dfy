/**
 Slash-separated relative paths as plain strings, with the three path
 operations the scripts rely on: the parent directory (used by `mkdir` and by
 every write), the last segment (`path.basename`) and `path.join` of a
 directory and a flat file name. Paths are compared as strings: no `.`/`..`
 or duplicate-slash normalisation.
 */
module Paths {

  type Path = string

  /** The directory part of `p`: everything before its last '/', or "" (the
      working directory) when `p` has no '/'. */
  function Parent(p: Path): (d: Path)
    ensures d <= p
    ensures p != "" ==> |d| < |p|
    ensures d != "" ==> p[|d|] == '/'
    ensures '/' !in p ==> d == ""
  {
    if p == "" then ""
    else if p[|p| - 1] == '/' then p[..|p| - 1]
    else Parent(p[..|p| - 1])
  }

  /** The last segment of `p`: everything after its last '/'. */
  function Name(p: Path): (n: Path)
    ensures '/' !in n
    ensures |n| <= |p|
  {
    if p == "" then ""
    else if p[|p| - 1] == '/' then ""
    else Name(p[..|p| - 1]) + [p[|p| - 1]]
  }

  /** The last segment is a suffix of the path, and all of it when the path
      has no '/'. */
  lemma {:induction false} NameIsSuffix(p: Path)
    ensures Name(p) == p[|p| - |Name(p)|..]
    ensures '/' !in p ==> Name(p) == p
    decreases |p|
  {
    if p != "" && p[|p| - 1] != '/' {
      var q := p[..|p| - 1];
      NameIsSuffix(q);
      assert p == q + [p[|p| - 1]];
      assert q[|q| - |Name(q)|..] + [p[|p| - 1]] == p[|p| - |Name(q)| - 1..];
      if '/' !in p {
        assert '/' !in q;
      }
    }
  }

  /** `p` is its parent, a '/', and its last segment, whenever it has a '/'. */
  lemma {:induction false} ParentSlashName(p: Path)
    requires '/' in p
    ensures p == Parent(p) + "/" + Name(p)
    decreases |p|
  {
    var n := |p|;
    if p[n - 1] == '/' {
      assert p == p[..n - 1] + "/";
    } else {
      var q := p[..n - 1];
      assert p == q + [p[n - 1]];
      assert '/' in q by {
        var i :| 0 <= i < n && p[i] == '/';
        assert i != n - 1;
        assert q[i] == '/';
      }
      ParentSlashName(q);
      assert Parent(p) == Parent(q);
      assert Name(p) == Name(q) + [p[n - 1]];
    }
  }

  /** `p` with every trailing '/' removed. */
  function StripTrailingSlashes(p: Path): (s: Path)
    ensures |s| <= |p|
  {
    if p != "" && p[|p| - 1] == '/' then StripTrailingSlashes(p[..|p| - 1]) else p
  }

  /** Node's `path.basename` on a POSIX path: trailing slashes are ignored and
      the last remaining segment is returned. */
  function Basename(p: Path): (b: Path)
    ensures '/' !in b
    ensures |b| <= |p|
  {
    Name(StripTrailingSlashes(p))
  }

  /** A path with no trailing slash is its parent, a '/', and its basename,
      or just its basename when it has no '/' at all. */
  lemma BasenameIsLastSegment(p: Path)
    requires p == "" || p[|p| - 1] != '/'
    ensures '/' in p ==> p == Parent(p) + "/" + Basename(p)
    ensures '/' !in p ==> Basename(p) == p
  {
    assert StripTrailingSlashes(p) == p;
    if '/' in p {
      ParentSlashName(p);
    } else {
      NameIsSuffix(p);
    }
  }

  /** Node's `path.join` of a directory and a single file name. */
  function Join(dir: Path, name: Path): (j: Path)
    ensures |j| == |dir| + 1 + |name|
    ensures dir <= j && j[|dir|] == '/' && j[|dir| + 1..] == name
  {
    dir + "/" + name
  }

  /** Joining a flat name onto a directory gives a path whose parent is that
      directory and whose last segment is that name. */
  lemma {:induction false} JoinSplits(dir: Path, name: Path)
    requires '/' !in name
    ensures Parent(Join(dir, name)) == dir
    ensures Name(Join(dir, name)) == name
    decreases |name|
  {
    if name == "" {
      assert Join(dir, name)[..|dir| + 1 - 1] == dir;
    } else {
      var shorter := name[..|name| - 1];
      assert Join(dir, name) == Join(dir, shorter) + [name[|name| - 1]];
      assert Join(dir, name)[..|Join(dir, name)| - 1] == Join(dir, shorter);
      JoinSplits(dir, shorter);
      assert name == shorter + [name[|name| - 1]];
    }
  }

  /** `Join` is injective in the file name. */
  lemma JoinInjective(dir: Path, a: Path, b: Path)
    requires Join(dir, a) == Join(dir, b)
    ensures a == b
  {
    assert a == Join(dir, a)[|dir| + 1..];
    assert b == Join(dir, b)[|dir| + 1..];
  }

  /** The directories a recursive `mkdir` of `d` makes sure of: `d` and each of
      its proper ancestors, the working directory "" excluded. */
  function Chain(d: Path): (c: set<Path>)
    ensures d != "" ==> d in c
    ensures "" !in c
    ensures forall x :: x in c ==> x <= d
    decreases |d|
  {
    if d == "" then {} else {d} + Chain(Parent(d))
  }

  /** A chain is closed under taking parents: creating all of it never
      leaves a directory whose parent is missing. */
  /** Every member of `Chain(d)` other than `d` is a real ancestor: a prefix of
      `d` that stops just before one of its '/'s, never a mere string prefix
      such as "src/con" of "src/config". */
  lemma {:induction false} ChainAncestors(d: Path)
    ensures forall x :: x in Chain(d) ==> x == d || (|x| < |d| && d[|x|] == '/')
    decreases |d|
  {
    if d != "" {
      ChainAncestors(Parent(d));
    }
  }

  lemma {:induction false} ChainClosed(d: Path)
    ensures forall x :: x in Chain(d) ==> Parent(x) == "" || Parent(x) in Chain(d)
    decreases |d|
  {
    if d != "" {
      ChainClosed(Parent(d));
    }
  }
}
