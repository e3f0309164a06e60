/**
 * File names under the ticket directory. A ticket is reduced to its last
 * path element before use, so it cannot name a file in a subdirectory or
 * through a '/'-separated path; "." and ".." are still names of their own.
 */
module Paths {

  /** The part of `p` after its last '/' (all of `p` when it has none). */
  function BaseName(p: string): (b: string)
    ensures '/' !in b
    ensures |b| <= |p|
  {
    if p == [] then []
    else if p[|p| - 1] == '/' then []
    else BaseName(p[..|p| - 1]) + [p[|p| - 1]]
  }

  /** The base name is the longest suffix of `p` without '/'. */
  lemma {:induction false} BaseNameIsLastElement(p: string)
    ensures p[|p| - |BaseName(p)|..] == BaseName(p)
    ensures |BaseName(p)| < |p| ==> p[|p| - |BaseName(p)| - 1] == '/'
  {
    if p != [] && p[|p| - 1] != '/' {
      var init, c := p[..|p| - 1], p[|p| - 1];
      BaseNameIsLastElement(init);
      var bi := BaseName(init);
      assert BaseName(p) == bi + [c];
      var k := |init| - |bi|;
      assert p == init + [c];
      assert p[k..] == init[k..] + [c];
      if |bi| < |init| {
        assert p[k - 1] == init[k - 1];
      }
    }
  }

  /** A path under directory `dir`; the empty directory leaves `name` as is. */
  function JoinPath(dir: string, name: string): (r: string)
    ensures |r| >= |name| && r[|r| - |name|..] == name
    ensures dir != [] ==> |r| == |dir| + 1 + |name| && r[..|dir|] == dir && r[|dir|] == '/'
  {
    if dir == [] then name else dir + "/" + name
  }

  /** A name without '/' is its own base name. */
  lemma {:induction false} BaseNameOfName(name: string)
    requires '/' !in name
    ensures BaseName(name) == name
  {
    if name != [] {
      BaseNameOfName(name[..|name| - 1]);
      assert name[..|name| - 1] + [name[|name| - 1]] == name;
    }
  }

  /** Joining a directory and a name without '/' and taking the base name gives the name back. */
  lemma {:induction false} BaseNameOfJoin(dir: string, name: string)
    requires '/' !in name
    ensures BaseName(JoinPath(dir, name)) == name
  {
    if dir == [] {
      BaseNameOfName(name);
    } else if name == [] {
      var p := dir + "/";
      assert p[|p| - 1] == '/';
    } else {
      var init := name[..|name| - 1];
      var c := name[|name| - 1];
      BaseNameOfJoin(dir, init);
      var p := JoinPath(dir, name);
      assert p == JoinPath(dir, init) + [c];
      assert p[..|p| - 1] == JoinPath(dir, init);
      assert p[|p| - 1] == c && c != '/';
      assert BaseName(p) == BaseName(JoinPath(dir, init)) + [c];
      assert init + [c] == name;
    }
  }
}
