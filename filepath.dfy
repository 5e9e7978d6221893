/** Go's path/filepath on slash-separated paths. `Join`, `Dir` and `Base`
    are total and agree with Go's functions on clean paths (no empty, "."
    or ".." components and no trailing slash); Go's lexical cleaning of
    other paths is not modelled. */
module FilePath {
  import opened GoTypes
  import Strings

  /** One name inside a directory, as a directory listing reports it. */
  predicate IsComponent(n: GoString) {
    n != [] && (forall k | 0 <= k < |n| :: n[k] != '/') && n != "." && n != ".."
  }

  type Component = n: GoString | IsComponent(n) witness "a"

  /** A clean absolute path: "/" or "/c1/.../ck" with every ci a component. */
  predicate IsCleanAbs(p: GoString)
    decreases |p|
  {
    p == "/" ||
    (|p| > 1 && p[0] == '/' &&
     var i := Strings.LastIndex(p, '/');
     IsComponent(p[i + 1..]) && (i == 0 || (i > 1 && IsCleanAbs(p[..i]))))
  }

  /** `filepath.Join(dir, name)`. */
  function Join(dir: GoString, name: GoString): GoString {
    if dir == [] then name
    else if name == [] then dir
    else if dir[|dir| - 1] == '/' then dir + name
    else dir + "/" + name
  }

  /** `filepath.Dir(p)`: everything before the last separator. */
  function Dir(p: GoString): GoString {
    var i := Strings.LastIndex(p, '/');
    if i < 0 then "." else if i == 0 then "/" else p[..i]
  }

  /** `filepath.Base(p)`: the last element. */
  function Base(p: GoString): GoString {
    if p == [] then "."
    else if p == "/" then "/"
    else p[Strings.LastIndex(p, '/') + 1..]
  }

  lemma LastSlashOfJoin(dir: GoString, name: GoString)
    requires IsCleanAbs(dir) && IsComponent(name)
    ensures var p := Join(dir, name);
      && Strings.LastIndex(p, '/') == (if dir == "/" then 0 else |dir|)
      && p[..Strings.LastIndex(p, '/')] == (if dir == "/" then [] else dir)
      && p[Strings.LastIndex(p, '/') + 1..] == name
  {
    var p := Join(dir, name);
    var j := if dir == "/" then 0 else |dir|;
    if dir == "/" {
      assert p == "/" + name;
    } else {
      NoTrailingSlash(dir);
      assert p == dir + "/" + name;
    }
    assert p[..j] == (if dir == "/" then [] else dir) && p[j] == '/' && p[j + 1..] == name;
    forall k | j < k < |p| ensures p[k] != '/' {
      assert p[k] == p[j + 1..][k - j - 1];
    }
    LastIndexAt(p, j);
  }

  /** Joining any directory with a component gives a path whose Base is
      that component. */
  lemma BaseOfJoin(dir: GoString, name: GoString)
    requires IsComponent(name)
    ensures var p := Join(dir, name);
      p != [] && p != "/" && |p| > |dir| && Base(p) == name
  {
    var p := Join(dir, name);
    assert name[0] != '/';
    if dir == [] {
      assert forall k | 0 <= k < |p| :: p[k] != '/';
      assert p[0..] == name;
    } else {
      var j := if dir[|dir| - 1] == '/' then |dir| - 1 else |dir|;
      assert p[j] == '/';
      assert p[j + 1..] == name;
      forall k | j < k < |p| ensures p[k] != '/' {
        assert p[k] == name[k - j - 1];
      }
      LastIndexAt(p, j);
    }
  }

  /** The last separator of `p` is at `j` when `p[j]` is one and none
      follows it. */
  lemma {:induction false} LastIndexAt(p: GoString, j: nat)
    requires j < |p| && p[j] == '/'
    requires forall k | j < k < |p| :: p[k] != '/'
    ensures Strings.LastIndex(p, '/') == j
    decreases |p|
  {
    if j < |p| - 1 {
      LastIndexAt(p[..|p| - 1], j);
    }
  }

  /** Joining a clean absolute directory with a component gives a clean
      absolute path whose Dir is that directory and whose Base is that
      component: filepath.Join and filepath.Dir undo each other. */
  lemma JoinDirBase(dir: GoString, name: GoString)
    requires IsCleanAbs(dir) && IsComponent(name)
    ensures IsCleanAbs(Join(dir, name))
    ensures Dir(Join(dir, name)) == dir
    ensures Base(Join(dir, name)) == name
  {
    LastSlashOfJoin(dir, name);
  }

  /** Every clean absolute path other than "/" is its Dir joined with its
      Base, and the Dir is a shorter clean absolute path. */
  lemma DirOfCleanAbs(p: GoString)
    requires IsCleanAbs(p) && p != "/"
    ensures IsCleanAbs(Dir(p)) && IsComponent(Base(p)) && |Dir(p)| < |p|
    ensures Join(Dir(p), Base(p)) == p
  {
    var i := Strings.LastIndex(p, '/');
    if i == 0 {
      assert p == "/" + p[1..];
    } else {
      assert p == p[..i] + "/" + p[i + 1..];
      NoTrailingSlash(p[..i]);
    }
  }

  /** A clean absolute path other than "/" does not end with "/". */
  lemma NoTrailingSlash(q: GoString)
    requires IsCleanAbs(q) && q != "/"
    ensures q[|q| - 1] != '/'
  {
    var h := Strings.LastIndex(q, '/');
    assert q[|q| - 1] == q[h + 1..][|q| - h - 2];
  }

  /** Dir of a path that starts with "/" starts with "/" and, unless the
      path is "/", is shorter: climbing with Dir reaches "/". */
  lemma DirClimbs(p: GoString)
    requires |p| > 0 && p[0] == '/'
    ensures |Dir(p)| > 0 && Dir(p)[0] == '/'
    ensures p != "/" ==> |Dir(p)| < |p|
  {
  }
}
