/** The two `os.path` operations (POSIX flavour) the image synchroniser uses. */
module PyPath {

  /** `os.path.basename(p)`: the part of `p` after its last `/`. */
  function Basename(p: string): (r: string)
    ensures '/' !in r
    ensures |r| <= |p| && r == p[|p| - |r|..]
    ensures |r| == |p| || p[|p| - |r| - 1] == '/'
  {
    if p == [] || p[|p| - 1] == '/' then
      []
    else
      var r := Basename(p[..|p| - 1]);
      assert p[..|p| - 1][|p| - 1 - |r|..] == p[|p| - 1 - |r|..|p| - 1];
      r + [p[|p| - 1]]
  }

  /** `os.path.join(a, b)` for two components. */
  function JoinPath(a: string, b: string): string {
    if |b| > 0 && b[0] == '/' then b
    else if a == [] || a[|a| - 1] == '/' then a + b
    else a + "/" + b
  }

  lemma {:induction false} BasenameAfterSlash(dir: string, name: string)
    requires dir == [] || dir[|dir| - 1] == '/'
    requires '/' !in name
    ensures Basename(dir + name) == name
    decreases |name|
  {
    if name == [] {
      assert dir + name == dir;
    } else {
      var init := name[..|name| - 1];
      var last := name[|name| - 1];
      assert name == init + [last];
      assert last != '/' && '/' !in init;
      BasenameAfterSlash(dir, init);
      assert dir + name == (dir + init) + [last];
    }
  }

  /** Putting text in front of a path that already holds a `/` does not change its base name. */
  lemma {:induction false} BasenameOfSuffix(a: string, b: string)
    requires '/' in b
    ensures Basename(a + b) == Basename(b)
    decreases |b|
  {
    var last := b[|b| - 1];
    if last != '/' {
      var init := b[..|b| - 1];
      assert b == init + [last];
      assert '/' in init;
      assert (a + b)[..|a + b| - 1] == a + init;
      BasenameOfSuffix(a, init);
    }
  }

  /** A file name joined under a directory is that path's base name again. */
  lemma BasenameOfJoin(root: string, name: string)
    requires '/' !in name
    ensures Basename(JoinPath(root, name)) == name
  {
    assert |name| == 0 || name[0] != '/' by {
      if |name| > 0 {
        assert name[0] in name;
      }
    }
    if root == [] || root[|root| - 1] == '/' {
      BasenameAfterSlash(root, name);
    } else {
      assert root + "/" + name == (root + "/") + name;
      BasenameAfterSlash(root + "/", name);
    }
  }
}
