/** The two path helpers of Go's path/filepath package that the sync uses,
    for slash-separated (Unix) paths. */
module Paths {

  /** The part of `s` after its last slash (all of `s` when it has none). */
  function AfterLastSlash(s: string): (r: string)
    ensures '/' !in r
    ensures |r| <= |s|
    ensures s != [] && s[|s| - 1] != '/' ==> r != []
    decreases |s|
  {
    if s == [] then []
    else if s[|s| - 1] == '/' then []
    else
      var init := AfterLastSlash(s[..|s| - 1]);
      assert forall i | 0 <= i < |init| :: (init + [s[|s| - 1]])[i] == init[i];
      init + [s[|s| - 1]]
  }

  /** `s` without the slashes it ends with. */
  function TrimTrailingSlashes(s: string): (r: string)
    ensures |r| <= |s| && r == s[..|r|]
    ensures r == [] || r[|r| - 1] != '/'
    ensures forall i | |r| <= i < |s| :: s[i] == '/'
    decreases |s|
  {
    if s != [] && s[|s| - 1] == '/' then TrimTrailingSlashes(s[..|s| - 1]) else s
  }

  /** filepath.Base: the last element of a path. Trailing slashes are dropped
      first; the empty path gives "." and a path of slashes only gives "/". */
  function Base(path: string): (r: string)
    ensures r != []
    ensures r == "/" || '/' !in r
  {
    if path == [] then "."
    else
      var t := TrimTrailingSlashes(path);
      if t == [] then "/" else AfterLastSlash(t)
  }

  /** filepath.Join of a directory and one file name. */
  function Join(dir: string, name: string): string
  {
    if dir == [] then name else dir + "/" + name
  }

  lemma {:induction false} AfterLastSlashOfSuffix(prefix: string, name: string)
    requires '/' !in name
    ensures AfterLastSlash(prefix + "/" + name) == name
    decreases |name|
  {
    var s := prefix + "/" + name;
    if name == [] {
      assert s[|s| - 1] == '/';
    } else {
      var init := name[..|name| - 1];
      assert s[..|s| - 1] == prefix + "/" + init;
      assert '/' !in init by {
        forall i | 0 <= i < |init| ensures init[i] != '/' {
          assert init[i] == name[i];
        }
      }
      AfterLastSlashOfSuffix(prefix, init);
      assert s[|s| - 1] == name[|name| - 1];
      assert init + [name[|name| - 1]] == name;
    }
  }

  lemma {:induction false} AfterLastSlashOfPlainName(name: string)
    requires '/' !in name
    ensures AfterLastSlash(name) == name
    decreases |name|
  {
    if name != [] {
      var init := name[..|name| - 1];
      assert '/' !in init by {
        forall i | 0 <= i < |init| ensures init[i] != '/' {
          assert init[i] == name[i];
        }
      }
      AfterLastSlashOfPlainName(init);
      assert init + [name[|name| - 1]] == name;
    }
  }

  /** The destination a package is written to has the package's file name as its base:
      Base(Join(dir, name)) == name for every plain file name. */
  lemma BaseOfJoin(dir: string, name: string)
    requires name != [] && '/' !in name
    ensures Base(Join(dir, name)) == name
  {
    if dir != [] {
      var s := dir + "/" + name;
      assert s[|s| - 1] == name[|name| - 1];
      assert TrimTrailingSlashes(s) == s;
      AfterLastSlashOfSuffix(dir, name);
    } else {
      assert name[|name| - 1] in name;
      assert TrimTrailingSlashes(name) == name;
      AfterLastSlashOfPlainName(name);
    }
  }
}
