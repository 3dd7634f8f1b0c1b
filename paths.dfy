/** Go's `filepath.Split` on Unix paths, where the only separator is '/'. */
module Paths {

  predicate NoSlash(s: string) {
    forall i :: 0 <= i < |s| ==> s[i] != '/'
  }

  /** A directory part as `filepath.Split` returns it: empty, or ending in a separator. */
  predicate IsDirPart(d: string) {
    d == [] || d[|d| - 1] == '/'
  }

  /** `filepath.Split`: the path cut just after its last '/', into a directory part and a file name. */
  function Split(p: string): (r: (string, string))
    ensures r.0 + r.1 == p
    ensures NoSlash(r.1)
    ensures IsDirPart(r.0)
  {
    if p == [] then ([], [])
    else if p[|p| - 1] == '/' then (p, [])
    else
      var (dir, file) := Split(p[..|p| - 1]);
      (dir, file + [p[|p| - 1]])
  }

  /** The three properties of `Split` determine its result: the file name is the longest '/'-free suffix. */
  lemma SplitUnique(p: string, dir: string, file: string)
    requires dir + file == p && NoSlash(file) && IsDirPart(dir)
    ensures Split(p) == (dir, file)
  {
    var (d, f) := Split(p);
    assert forall j :: |p| - |file| <= j < |p| ==> p[j] != '/';
    assert forall j :: |p| - |f| <= j < |p| ==> p[j] != '/';
    assert d != [] ==> p[|d| - 1] == '/';
    assert dir != [] ==> p[|dir| - 1] == '/';
    assert f == p[|p| - |f|..] && file == p[|p| - |file|..];
    assert d == p[..|p| - |f|] && dir == p[..|p| - |file|];
  }

  /** The file name `filepath.Split` returns. */
  function Base(p: string): (name: string)
    ensures NoSlash(name) && |name| <= |p| && p[|p| - |name|..] == name
    ensures '/' in p ==> p[|p| - |name| - 1] == '/'
    ensures '/' !in p ==> name == p
  {
    var r := Split(p);
    assert '/' in p ==> r.0 != [];
    assert r.0 != [] ==> r.0[|r.0| - 1] == p[|r.0| - 1];
    r.1
  }
}
