/** The operating system's file system as the local volume uses it
    (`os.Stat`, `ioutil.ReadDir`, `os.OpenFile`, `os.Create`, `os.Open`
    with `io.Copy`, `os.Mkdir`, `os.Rename`, `os.RemoveAll`): a map from
    absolute paths to nodes. A directory node lists the names of its
    entries; the file system is changed in place through a `Disk`. */
module OsFs {
  import opened GoTypes
  import Strings
  import FilePath

  datatype Node =
    | File(data: GoString, mode: bv32, mtime: int)
    | Dir(entries: seq<GoString>, mode: bv32, mtime: int, size: int)

  type Nodes = map<GoString, Node>

  /** What `os.Stat` reports: the base name of the path it was given. */
  datatype FileInfo = FileInfo(name: GoString, isDir: bool, size: int, mode: bv32, modTime: int)

  /** 0666, the mode `os.OpenFile(.., 0666)` and `os.Create` ask for. */
  const CreateMode: bv32 := 0x1B6
  /** 0777, `os.ModePerm`. */
  const ModePerm: bv32 := 0x1FF

  function StatNode(p: GoString, n: Node): (fi: FileInfo)
    ensures fi.name == FilePath.Base(p) && fi.isDir == n.Dir?
    ensures n.File? ==> fi.size == |n.data|
  {
    match n
    case File(data, mode, mtime) => FileInfo(FilePath.Base(p), false, |data|, mode, mtime)
    case Dir(_, mode, mtime, size) => FileInfo(FilePath.Base(p), true, size, mode, mtime)
  }

  // ---- the order of ioutil.ReadDir ----

  /** Byte-wise `a < b`, the order of Go string comparison. */
  predicate Below(a: GoString, b: GoString)
    decreases |a|
  {
    b != [] && (a == [] || a[0] < b[0] || (a[0] == b[0] && Below(a[1..], b[1..])))
  }

  lemma {:induction false} BelowTotal(a: GoString, b: GoString)
    ensures Below(a, b) || a == b || Below(b, a)
    decreases |a|
  {
    if a != [] && b != [] && a[0] == b[0] {
      BelowTotal(a[1..], b[1..]);
      if a[1..] == b[1..] {
        assert a == [a[0]] + a[1..] && b == [b[0]] + b[1..];
      }
    }
  }

  lemma {:induction false} BelowTransitive(a: GoString, b: GoString, c: GoString)
    requires Below(a, b) && Below(b, c)
    ensures Below(a, c)
    decreases |a|
  {
    if a != [] && a[0] == b[0] && b[0] == c[0] {
      BelowTransitive(a[1..], b[1..], c[1..]);
    }
  }

  lemma BelowAsymmetric(a: GoString, b: GoString)
    requires Below(a, b)
    ensures !Below(b, a) && a != b
    decreases |a|
  {
    if a != [] && a[0] == b[0] {
      BelowAsymmetric(a[1..], b[1..]);
    }
  }

  predicate SortedNames(s: seq<GoString>) {
    forall i, j | 0 <= i < j < |s| :: !Below(s[j], s[i])
  }

  function InsertName(x: GoString, s: seq<GoString>): seq<GoString> {
    if s == [] then [x]
    else if Below(s[0], x) then [s[0]] + InsertName(x, s[1..])
    else [x] + s
  }

  /** The names sorted, as `ioutil.ReadDir` returns them. */
  function SortNames(s: seq<GoString>): seq<GoString> {
    if s == [] then [] else InsertName(s[0], SortNames(s[1..]))
  }

  lemma {:induction false} InsertNameSorted(x: GoString, s: seq<GoString>)
    requires SortedNames(s)
    ensures SortedNames(InsertName(x, s)) && multiset(InsertName(x, s)) == multiset(s) + multiset{x}
  {
    if s == [] {
    } else if Below(s[0], x) {
      InsertNameSorted(x, s[1..]);
      assert s == [s[0]] + s[1..];
      HeadStaysFirst(x, s, InsertName(x, s[1..]));
    } else {
      NoneBelowNew(x, s);
    }
  }

  /** Inserting a name after the head keeps the head first. */
  lemma HeadStaysFirst(x: GoString, s: seq<GoString>, t: seq<GoString>)
    requires s != [] && SortedNames(s) && Below(s[0], x)
    requires multiset(t) == multiset(s[1..]) + multiset{x}
    ensures forall k | 0 <= k < |t| :: !Below(t[k], s[0])
  {
    forall k | 0 <= k < |t| ensures !Below(t[k], s[0]) {
      assert t[k] in multiset(s[1..]) + multiset{x};
      if t[k] == x {
        BelowAsymmetric(s[0], x);
      } else {
        assert t[k] in s[1..];
        var m :| 0 <= m < |s[1..]| && s[1..][m] == t[k];
        assert s[1 + m] == t[k];
      }
    }
  }

  /** A name the head of a sorted list is not below is below none of it. */
  lemma NoneBelowNew(x: GoString, s: seq<GoString>)
    requires s != [] && SortedNames(s) && !Below(s[0], x)
    ensures forall k | 0 <= k < |s| :: !Below(s[k], x)
  {
    BelowTotal(s[0], x);
    forall k | 0 <= k < |s| ensures !Below(s[k], x) {
      if Below(s[k], x) && Below(x, s[0]) {
        BelowTransitive(s[k], x, s[0]);
      }
    }
  }

  /** ReadDir's order is a sorted permutation of the directory's names. */
  lemma {:induction false} SortNamesSorted(s: seq<GoString>)
    ensures SortedNames(SortNames(s)) && multiset(SortNames(s)) == multiset(s)
  {
    if s != [] {
      SortNamesSorted(s[1..]);
      InsertNameSorted(s[0], SortNames(s[1..]));
      assert s == [s[0]] + s[1..];
    }
  }

  // ---- paths and entries ----

  /** `p` with one trailing separator. */
  function Sep(p: GoString): GoString {
    if p != [] && p[|p| - 1] == '/' then p else p + "/"
  }

  /** `k` is `p` or lies inside the tree rooted at `p`. */
  predicate Under(k: GoString, p: GoString) {
    k == p || Strings.HasPrefix(k, Sep(p))
  }

  function WithEntry(entries: seq<GoString>, name: GoString): (r: seq<GoString>)
    ensures name in r && forall e | e in entries :: e in r
  {
    if name in entries then entries else entries + [name]
  }

  function Without(entries: seq<GoString>, name: GoString): (r: seq<GoString>)
    ensures name !in r && forall e | e in entries && e != name :: e in r
    ensures forall e | e in r :: e in entries
  {
    if entries == [] then []
    else if entries[0] == name then Without(entries[1..], name)
    else [entries[0]] + Without(entries[1..], name)
  }

  /** Why no new entry can be made at `p`: its directory is missing or is
      a file. */
  function CreateError(m: Nodes, p: GoString): Option<Error> {
    var d := FilePath.Dir(p);
    if p == [] || d !in m then Some(ErrNotExist)
    else if m[d].File? then Some(ErrNotDir)
    else None
  }

  /** `m` with the new node `n` at `p`, listed in its directory. */
  function Link(m: Nodes, p: GoString, n: Node): (r: Nodes)
    requires CreateError(m, p).None?
    ensures r.Keys == m.Keys + {p} && r[p] == n
    ensures forall k | k in m && k != p && k != FilePath.Dir(p) :: r[k] == m[k]
    ensures forall k | k in m && k != p :: r[k].Dir? == m[k].Dir?
  {
    var d := FilePath.Dir(p);
    m[d := m[d].(entries := WithEntry(m[d].entries, FilePath.Base(p)))][p := n]
  }

  /** `m` with the name of `p` dropped from the listing of its directory. */
  function Unlisted(m: Nodes, p: GoString): (r: Nodes)
    ensures r.Keys == m.Keys
    ensures forall k | k in m && k != FilePath.Dir(p) :: r[k] == m[k]
  {
    var d := FilePath.Dir(p);
    if d in m && m[d].Dir? then m[d := m[d].(entries := Without(m[d].entries, FilePath.Base(p)))] else m
  }

  /** `m` with the name of `p` added to the listing of its directory. */
  function Listed(m: Nodes, p: GoString): (r: Nodes)
    ensures r.Keys == m.Keys
    ensures forall k | k in m && k != FilePath.Dir(p) :: r[k] == m[k]
  {
    var d := FilePath.Dir(p);
    if d in m && m[d].Dir? then m[d := m[d].(entries := WithEntry(m[d].entries, FilePath.Base(p)))] else m
  }

  /** `m` without the node of `p`, its subtree, and its name in its
      directory (`os.RemoveAll`). The empty path names nothing, and
      removing it leaves everything in place. */
  function Removed(m: Nodes, p: GoString): (r: Nodes)
    ensures p == [] ==> r == m
    ensures r.Keys <= m.Keys
    ensures p != [] ==> forall k | k in r :: !Under(k, p)
    ensures forall k | k in m && !Under(k, p) :: k in r
    ensures forall k | k in m && !Under(k, p) && k != FilePath.Dir(p) :: r[k] == m[k]
    ensures forall k | k in m && !Under(k, p) && m[k].File? :: r[k] == m[k]
    ensures forall k | k in m && !Under(k, p) :: r[k].Dir? == m[k].Dir?
  {
    if p == [] then m else Unlisted(map k | k in m && !Under(k, p) :: m[k], p)
  }

  /** Where `k`, inside the tree at `from`, lands when that tree moves to
      `to`. */
  function Rebase(k: GoString, from: GoString, to: GoString): GoString {
    if |from| <= |k| then to + k[|from|..] else k
  }

  lemma UnderPrefix(k: GoString, p: GoString)
    requires Under(k, p)
    ensures |p| <= |k| && k[..|p|] == p
  {
    if k != p {
      assert k[..|Sep(p)|] == Sep(p);
      assert Sep(p)[..|p|] == p;
    }
  }

  lemma RebaseInjective(from: GoString, to: GoString)
    ensures forall k1, k2 | Under(k1, from) && Under(k2, from) && Rebase(k1, from, to) == Rebase(k2, from, to) :: k1 == k2
  {
    forall k1, k2 | Under(k1, from) && Under(k2, from) && Rebase(k1, from, to) == Rebase(k2, from, to)
      ensures k1 == k2
    {
      UnderPrefix(k1, from);
      UnderPrefix(k2, from);
      assert k1[|from|..] == Rebase(k1, from, to)[|to|..];
      assert k2[|from|..] == Rebase(k2, from, to)[|to|..];
      assert k1 == k1[..|from|] + k1[|from|..] && k2 == k2[..|from|] + k2[|from|..];
    }
  }

  /** `m` with the tree at `from` moved to `to`, and the listings of both
      directories updated. */
  function Renamed(m: Nodes, from: GoString, to: GoString): Nodes {
    var rest := map k | k in m && !Under(k, from) :: m[k];
    Listed(Unlisted(rest + Moved(m, from, to), from), to)
  }

  /** The nodes of the tree at `from`, each at its place under `to`. */
  function Moved(m: Nodes, from: GoString, to: GoString): Nodes {
    RebaseInjective(from, to);
    map k | k in m && Under(k, from) :: Rebase(k, from, to) := m[k]
  }

  /** The new file system and the error of a call. */
  datatype Outcome = Outcome(nodes: Nodes, err: Option<Error>)

  /** `os.OpenFile(p, os.O_WRONLY|os.O_CREATE, 0666)`: an existing file is
      opened as it is, a missing one is created empty. */
  function OpenOutcome(m: Nodes, p: GoString, now: int): (o: Outcome)
    ensures o.err.None? ==> p in o.nodes && o.nodes[p].File?
    ensures o.err.None? && p in m ==> o.nodes == m
    ensures o.err.None? && p !in m ==> o.nodes[p].data == []
    ensures o.err.Some? ==> o.nodes == m
    ensures o.nodes.Keys <= m.Keys + {p}
    ensures forall k | k in m && m[k].File? :: k in o.nodes && o.nodes[k] == m[k]
  {
    if p in m then Outcome(m, if m[p].Dir? then Some(ErrIsDir) else None)
    else match CreateError(m, p)
      case Some(e) => Outcome(m, Some(e))
      case None => Outcome(Link(m, p, File([], CreateMode, now)), None)
  }

  /** `os.Create(p)`: as OpenOutcome, and an existing file is truncated. */
  function CreateOutcome(m: Nodes, p: GoString, now: int): Outcome {
    if p in m && m[p].File? then Outcome(m[p := File([], m[p].mode, now)], None)
    else OpenOutcome(m, p, now)
  }

  /** What a real file system guarantees of its listings: every entry of
      a directory is a single path component. */
  predicate Wf(m: Nodes) {
    forall p | p in m && m[p].Dir? :: forall e | e in m[p].entries :: FilePath.IsComponent(e)
  }

  /** Creating a file whose name is a component keeps the listings well
      formed. */
  lemma CreateKeepsWf(m: Nodes, p: GoString, now: int)
    requires Wf(m) && FilePath.IsComponent(FilePath.Base(p))
    ensures Wf(CreateOutcome(m, p, now).nodes)
  {
    if !(p in m) && CreateError(m, p).None? {
      var d := FilePath.Dir(p);
      var r := Link(m, p, File([], CreateMode, now));
      forall q | q in r && r[q].Dir? ensures forall e | e in r[q].entries :: FilePath.IsComponent(e) {
        if q == d {
          assert r[q].entries == WithEntry(m[d].entries, FilePath.Base(p));
        }
      }
    }
  }

  /** `os.Mkdir(p, perm)`. */
  function MkdirOutcome(m: Nodes, p: GoString, perm: bv32, now: int, dirSize: int): Outcome {
    if p in m then Outcome(m, Some(ErrExist))
    else match CreateError(m, p)
      case Some(e) => Outcome(m, Some(e))
      case None => Outcome(Link(m, p, Dir([], perm, now, dirSize)), None)
  }

  /** `os.Rename(from, to)`: a file replaces a file and a directory an
      empty directory; moving a directory into itself is invalid. */
  function RenameOutcome(m: Nodes, from: GoString, to: GoString): Outcome {
    if from !in m then Outcome(m, Some(ErrNotExist))
    else if from == to then Outcome(m, None)
    else if Under(to, from) then Outcome(m, Some(ErrInvalid))
    else if CreateError(m, to).Some? then Outcome(m, CreateError(m, to))
    else if to in m && m[to].Dir? && m[from].File? then Outcome(m, Some(ErrIsDir))
    else if to in m && m[to].File? && m[from].Dir? then Outcome(m, Some(ErrNotDir))
    else if to in m && m[to].Dir? && m[to].entries != [] then Outcome(m, Some(ErrNotEmpty))
    else Outcome(Renamed(if to in m then Removed(m, to) else m, from, to), None)
  }

  /** A path other than "/" lies inside its directory. */
  lemma UnderDir(p: GoString)
    requires |p| > 0 && p[0] == '/' && p != "/"
    ensures Under(p, FilePath.Dir(p)) && FilePath.Dir(p) != p
  {
    var i := Strings.LastIndex(p, '/');
    if i > 0 {
      var d := p[..i];
      if d[|d| - 1] == '/' {
        assert p[..|Sep(d)|] == Sep(d);
      } else {
        assert Sep(d) == p[..i + 1];
      }
    }
  }

  /** The moved tree holds the old node at the new path, and not the old
      path unless the old path lies inside the new one. */
  lemma MovedTree(m: Nodes, from: GoString, to: GoString)
    requires from in m && !Under(from, to) && from != [] && from[|from| - 1] != '/'
    ensures to in Moved(m, from, to) && Moved(m, from, to)[to] == m[from] && from !in Moved(m, from, to)
  {
    var moved := Moved(m, from, to);
    assert Rebase(from, from, to) == to;
    assert Rebase(from, from, to) in moved;
    forall k | k in m && Under(k, from) ensures Rebase(k, from, to) != from {
      RebaseLeaves(k, from, to);
    }
  }

  /** Moving a tree to a path outside it never lands a node on the old
      root path. */
  lemma RebaseLeaves(k: GoString, from: GoString, to: GoString)
    requires Under(k, from) && !Under(from, to) && from != [] && from[|from| - 1] != '/'
    ensures Rebase(k, from, to) != from
  {
    UnderPrefix(k, from);
    if k != from {
      assert k[..|Sep(from)|] == Sep(from);
    }
  }

  /** A rename to a free name in an existing directory moves the node:
      it is found at the new path and no longer at the old one. */
  lemma RenameMoves(m: Nodes, from: GoString, to: GoString)
    requires |from| > 0 && from[0] == '/' && from[|from| - 1] != '/'
    requires from in m && to !in m
    requires !Under(to, from) && !Under(from, to)
    requires CreateError(m, to).None?
    ensures var o := RenameOutcome(m, from, to);
      o.err.None? && to in o.nodes && o.nodes[to] == m[from] && from !in o.nodes
  {
    MovedTree(m, from, to);
    UnderDir(from);
    var rest := map k | k in m && !Under(k, from) :: m[k];
    assert from !in rest;
    assert FilePath.Dir(from) != to;
  }

  // ---- writing through an open file ----

  /** The bytes of a file after writing `d` at `off`. */
  function WriteAt(data: GoString, off: nat, d: GoString): (r: GoString)
    requires off <= |data|
    ensures |r| == if off + |d| < |data| then |data| else off + |d|
    ensures r[..off] == data[..off] && r[off..off + |d|] == d
    ensures forall k | off + |d| <= k < |data| :: r[k] == data[k]
  {
    data[..off] + d + (if off + |d| < |data| then data[off + |d|..] else [])
  }

  /** The bytes of a file opened without truncation after `d` is copied
      into it from its start. */
  function Overwrite(data: GoString, d: GoString): GoString {
    WriteAt(data, 0, d)
  }

  /** `m` after `d` is written at `off` into the file at `p`; writing
      nothing leaves the modification time alone. */
  function Written(m: Nodes, p: GoString, off: nat, d: GoString, now: int): (r: Nodes)
    requires p in m && m[p].File? && off <= |m[p].data|
    ensures r.Keys == m.Keys && r[p].File? && r[p].data == WriteAt(m[p].data, off, d)
    ensures forall k | k in m && k != p :: r[k] == m[k]
  {
    var f := m[p];
    m[p := File(WriteAt(f.data, off, d), f.mode, if d == [] then f.mtime else now)]
  }

  /** Copying `a` and then `d` through one open file writes `a + d`. */
  lemma WriteAfter(data: GoString, a: GoString, d: GoString)
    ensures |a| <= |Overwrite(data, a)|
    ensures WriteAt(Overwrite(data, a), |a|, d) == Overwrite(data, a + d)
  {
  }

  /** Copying the same bytes again from the start changes nothing. */
  lemma OverwriteIdempotent(data: GoString, d: GoString)
    ensures Overwrite(Overwrite(data, d), d) == Overwrite(data, d)
  {
  }

  // ---- reading ----

  /** `os.Stat(p)`. */
  function StatOf(m: Nodes, p: GoString): (r: Result<FileInfo>)
    ensures r.Ok? <==> p in m
    ensures r.Ok? ==> r.value == StatNode(p, m[p])
    ensures r.Fail? ==> r.error == ErrNotExist
  {
    if p in m then Ok(StatNode(p, m[p])) else Fail(ErrNotExist)
  }

  /** `ioutil.ReadDir(p)`: the entries sorted by name. */
  function ReadDirOf(m: Nodes, p: GoString): (r: Result<seq<GoString>>)
    ensures r.Ok? <==> p in m && m[p].Dir?
    ensures r.Ok? ==> SortedNames(r.value) && multiset(r.value) == multiset(m[p].entries)
  {
    if p !in m then Fail(ErrNotExist)
    else if m[p].File? then Fail(ErrNotDir)
    else
      SortNamesSorted(m[p].entries);
      Ok(SortNames(m[p].entries))
  }

  /** `os.Open(p)` followed by `io.Copy` out of it: the file's bytes;
      reading from a directory fails. */
  function ReadFileOf(m: Nodes, p: GoString): (r: Result<GoString>)
    ensures r.Ok? <==> p in m && m[p].File?
    ensures r.Ok? ==> r.value == m[p].data
  {
    if p !in m then Fail(ErrNotExist)
    else if m[p].Dir? then Fail(ErrIsDir)
    else Ok(m[p].data)
  }

  /** The operating system's file system, changed in place. `now` is the
      clock that stamps modification times; `dirSize` is the size the file
      system reports for a new directory. */
  class Disk {
    var nodes: Nodes
    var now: int
    const dirSize: int

    constructor (nodes: Nodes, now: int, dirSize: int)
      ensures this.nodes == nodes && this.now == now && this.dirSize == dirSize
    {
      this.nodes := nodes;
      this.now := now;
      this.dirSize := dirSize;
    }

    /** `os.Stat(p)`. */
    function Stat(p: GoString): Result<FileInfo>
      reads this
    {
      StatOf(nodes, p)
    }

    /** `ioutil.ReadDir(p)`, of which the callers use the names only. */
    function ReadDir(p: GoString): Result<seq<GoString>>
      reads this
    {
      ReadDirOf(nodes, p)
    }

    /** `os.Open(p)` followed by `io.Copy` out of it. */
    function ReadFile(p: GoString): Result<GoString>
      reads this
    {
      ReadFileOf(nodes, p)
    }

    method OpenFile(p: GoString) returns (err: Option<Error>)
      modifies this
      ensures Outcome(nodes, err) == OpenOutcome(old(nodes), p, old(now)) && now == old(now)
      ensures err.None? ==> p in nodes && nodes[p].File?
    {
      var o := OpenOutcome(nodes, p, now);
      nodes, err := o.nodes, o.err;
    }

    method Create(p: GoString) returns (err: Option<Error>)
      modifies this
      ensures Outcome(nodes, err) == CreateOutcome(old(nodes), p, old(now)) && now == old(now)
      ensures err.None? ==> p in nodes && nodes[p].File? && nodes[p].data == []
    {
      var o := CreateOutcome(nodes, p, now);
      nodes, err := o.nodes, o.err;
    }

    /** One `Write` of `d` at offset `off` of the open file `p`. */
    method Write(p: GoString, off: nat, d: GoString)
      requires p in nodes && nodes[p].File? && off <= |nodes[p].data|
      modifies this
      ensures nodes == Written(old(nodes), p, off, d, old(now)) && now == old(now)
    {
      nodes := Written(nodes, p, off, d, now);
    }

    method RemoveAll(p: GoString)
      modifies this
      ensures nodes == Removed(old(nodes), p) && now == old(now)
    {
      nodes := Removed(nodes, p);
    }

    method Mkdir(p: GoString, perm: bv32) returns (err: Option<Error>)
      modifies this
      ensures Outcome(nodes, err) == MkdirOutcome(old(nodes), p, perm, old(now), dirSize) && now == old(now)
    {
      var o := MkdirOutcome(nodes, p, perm, now, dirSize);
      nodes, err := o.nodes, o.err;
    }

    method Rename(from: GoString, to: GoString) returns (err: Option<Error>)
      modifies this
      ensures Outcome(nodes, err) == RenameOutcome(old(nodes), from, to) && now == old(now)
    {
      var o := RenameOutcome(nodes, from, to);
      nodes, err := o.nodes, o.err;
    }
  }
}
