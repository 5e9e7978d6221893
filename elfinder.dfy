/** elfinder.go: the connector of the original API. It keeps the volumes
    by id with a default volume, addresses files by targets
    "<volume id>_<base64url of the path>", sums the sizes of targets and
    folders, plans zip archives of targets under a size ceiling, and hands a
    finished archive out once by its key.

    Every volume, the temporary archives and the archive registry live on
    one operating-system file system, the connector's `disk`. The bytes of
    the zip container are not modelled: an archive is the ordered list of
    its entries, each a name and the bytes copied into it. */
module ElFinder {
  import opened GoTypes
  import Strings
  import Strconv
  import FilePath
  import Util
  import Base64Url
  import OsFs
  import VolumeIndex
  import ZipFiles
  import LocalVolume

  type Volume = LocalVolume.LocalFileVolume
  type FileDir = LocalVolume.FileDir

  /** `defaultZipMaxSize`, 1 GiB. */
  const DefaultZipMaxSize: int := 1073741824
  /** `defaultTmpPath`. */
  const DefaultTmpPath: GoString := "/tmp"

  // ---- targets ----

  /** `parseTarget(target)`: "" and "/" stand for the root and are not
      decoded; anything else is base64url-decoded as it is, giving "" and
      the decoder's error when it is not valid. */
  function ParseTarget(target: GoString): (r: Returned<GoString>)
    ensures (target == [] || target == "/") ==> r == Returned("/", None)
    ensures r.err.None? <==> target == [] || target == "/" || Base64Url.Decode(target).Some?
    ensures r.err.Some? ==> r.value == [] && r.err == Some(ErrCorruptInput)
  {
    if target == [] || target == "/" then Returned("/", None)
    else Util.Decode64(target)
  }

  /** The encoding of a path is parsed back to that path; the empty path
      comes back as the root. */
  lemma ParseEncoded(p: GoString)
    ensures ParseTarget(Util.Encode64(p)) == Returned(if p == [] then "/" else p, None)
  {
    var e := Util.Encode64(p);
    if p != [] {
      assert |e| >= 2;
      Util.Decode64Encode64(p);
    }
  }

  /** A target taken apart as the commands do it: the volume id, and what
      the rest parses to. */
  datatype Located = Located(vid: GoString, path: GoString, err: Option<Error>)

  /** `strings.Split(target, "_")`, its first piece as the volume id and
      `parseTarget(strings.Join(pieces[1:], "_"))` as the path: the id is
      everything before the first "_", the path is parsed from everything
      after it, and a target without "_" is the root. */
  function Locate(target: GoString): (r: Located)
    ensures var i := Strings.Index(target, '_');
      && (i < 0 ==> r == Located(target, "/", None))
      && (i >= 0 ==> r.vid == target[..i] && Returned(r.path, r.err) == ParseTarget(target[i + 1..]))
  {
    var parts := Strings.Split(target, '_');
    SplitTarget(target);
    var r := ParseTarget(Strings.Join(parts[1..], '_'));
    Located(parts[0], r.value, r.err)
  }

  /** The pieces of a target: the id before the first "_", and the rest
      joined back, which is empty when there is no "_". */
  lemma SplitTarget(target: GoString)
    ensures var parts := Strings.Split(target, '_'); var i := Strings.Index(target, '_');
      && (i < 0 ==> parts[0] == target && Strings.Join(parts[1..], '_') == [])
      && (i >= 0 ==> parts[0] == target[..i] && Strings.Join(parts[1..], '_') == target[i + 1..])
  {
    Strings.SplitHeadTail(target, '_');
    var parts := Strings.Split(target, '_');
    if Strings.Index(target, '_') < 0 {
      assert parts[1..] == [];
    }
  }

  /** The target a volume hashes a path to is located at that volume's id
      and that path. */
  lemma LocateHash(v: Volume, p: GoString)
    requires forall k | 0 <= k < |v.id| :: v.id[k] != '_'
    ensures Locate(v.Hash(p)) == Located(v.id, if p == [] then "/" else p, None)
  {
    var h := v.Hash(p);
    assert h == v.id + "_" + Util.Encode64(p);
    assert h[|v.id| + 1..] == Util.Encode64(p);
    ParseEncoded(p);
  }

  // ---- walking a folder ----

  /** One entry met below a folder: the path the walk builds for it and its
      record. */
  datatype Visit = Visit(path: GoString, info: FileDir)

  /** A bound on the length of every path of the file system. */
  ghost function Longest(keys: set<GoString>): (n: nat)
    ensures forall k | k in keys :: |k| <= n
    decreases keys
  {
    if keys == {} then 0
    else
      var k :| k in keys;
      var r := Longest(keys - {k});
      if |k| > r then |k| else r
  }

  /** A listing that is not empty is of a folder the file system holds, so
      its path is bounded; on a well-formed file system every listed record
      is named by a component. */
  lemma ListFacts(m: OsFs.Nodes, v: Volume, p: GoString)
    requires OsFs.Wf(m)
    ensures var items := v.ListAt(m, p);
      && (items != [] ==> |p| <= Longest(m.Keys) + 1)
      && forall x | x in items :: FilePath.IsComponent(x.name)
  {
    var rp := v.RealPath(p);
    match OsFs.ReadDirOf(m, rp)
    case Fail(_) =>
    case Ok(names) =>
      v.InfosMembers(m, rp, names);
      forall x | x in v.ListAt(m, p) ensures FilePath.IsComponent(x.name) {
        var n :| n in names && v.InfoAt(m, FilePath.Join(rp, n)) == Returned(x, None);
        assert n in multiset(names);
        assert n in m[rp].entries;
        FilePath.BaseOfJoin(rp, n);
        v.InfoAtRecord(m, FilePath.Join(rp, n));
      }
  }

  /** Every entry below the folder `p`, in the order calculateFolderSize and
      zipFolder meet them: each record of the listing, followed by the walk
      of its folder when it is one. The path of an entry is the folder's
      path joined with the entry's name. */
  function Walk(m: OsFs.Nodes, v: Volume, p: GoString): seq<Visit>
    requires OsFs.Wf(m)
    decreases Longest(m.Keys) + 2 - |p|, 1, 0
  {
    ListFacts(m, v, p);
    WalkItems(m, v, p, v.ListAt(m, p))
  }

  function WalkItems(m: OsFs.Nodes, v: Volume, p: GoString, items: seq<FileDir>): seq<Visit>
    requires OsFs.Wf(m)
    requires items != [] ==> |p| <= Longest(m.Keys) + 1
    requires forall x | x in items :: FilePath.IsComponent(x.name)
    decreases Longest(m.Keys) + 2 - |p|, 0, |items|
  {
    if items == [] then []
    else WalkItems(m, v, p, items[..|items| - 1]) + WalkItem(m, v, p, items[|items| - 1])
  }

  function WalkItem(m: OsFs.Nodes, v: Volume, p: GoString, x: FileDir): seq<Visit>
    requires OsFs.Wf(m)
    requires |p| <= Longest(m.Keys) + 1 && FilePath.IsComponent(x.name)
    decreases Longest(m.Keys) + 2 - |p|, 0, 0
  {
    var c := FilePath.Join(p, x.name);
    FilePath.BaseOfJoin(p, x.name);
    [Visit(c, x)] + if x.dirs == 1 then Walk(m, v, c) else []
  }

  /** The sum of the reported sizes of the visited entries. */
  function Total(ws: seq<Visit>): int {
    if ws == [] then 0 else Total(ws[..|ws| - 1]) + ws[|ws| - 1].info.size
  }

  /** The visited entries that are not folders. */
  function FileVisits(ws: seq<Visit>): (fs: seq<Visit>)
    ensures forall w | w in fs :: w in ws && w.info.dirs != 1
  {
    if ws == [] then []
    else FileVisits(ws[..|ws| - 1]) + if ws[|ws| - 1].info.dirs != 1 then [ws[|ws| - 1]] else []
  }

  lemma {:induction false} TotalAppend(a: seq<Visit>, b: seq<Visit>)
    ensures Total(a + b) == Total(a) + Total(b)
    decreases |b|
  {
    if b != [] {
      assert (a + b)[..|a + b| - 1] == a + b[..|b| - 1];
      TotalAppend(a, b[..|b| - 1]);
    } else {
      assert a + b == a;
    }
  }

  lemma {:induction false} FileVisitsAppend(a: seq<Visit>, b: seq<Visit>)
    ensures FileVisits(a + b) == FileVisits(a) + FileVisits(b)
    decreases |b|
  {
    if b != [] {
      assert (a + b)[..|a + b| - 1] == a + b[..|b| - 1];
      FileVisitsAppend(a, b[..|b| - 1]);
    } else {
      assert a + b == a;
    }
  }

  /** The walk of the first `k` records of the listing of `p`. */
  function WalkPrefix(m: OsFs.Nodes, v: Volume, p: GoString, k: nat): seq<Visit>
    requires OsFs.Wf(m) && k <= |v.ListAt(m, p)|
  {
    var items := v.ListAt(m, p);
    ListFacts(m, v, p);
    WalkItems(m, v, p, items[..k])
  }

  /** The walk of the whole listing is the walk of the folder. */
  lemma WalkPrefixAll(m: OsFs.Nodes, v: Volume, p: GoString)
    requires OsFs.Wf(m)
    ensures WalkPrefix(m, v, p, |v.ListAt(m, p)|) == Walk(m, v, p)
  {
    var items := v.ListAt(m, p);
    assert items[..|items|] == items;
  }

  /** Walking one more record of a list of records. */
  lemma WalkItemsStep(m: OsFs.Nodes, v: Volume, p: GoString, items: seq<FileDir>, i: nat)
    requires OsFs.Wf(m) && i < |items| && |p| <= Longest(m.Keys) + 1
    requires forall x | x in items :: FilePath.IsComponent(x.name)
    ensures WalkItems(m, v, p, items[..i + 1]) == WalkItems(m, v, p, items[..i]) + WalkItem(m, v, p, items[i])
  {
    assert items[..i + 1][..i] == items[..i];
  }

  /** The visit of one record, then the walk of its folder when it is one;
      the path of the record is longer than its folder's. */
  lemma WalkItemIs(m: OsFs.Nodes, v: Volume, p: GoString, x: FileDir)
    requires OsFs.Wf(m)
    requires |p| <= Longest(m.Keys) + 1 && FilePath.IsComponent(x.name)
    ensures var c := FilePath.Join(p, x.name);
      && |c| > |p|
      && WalkItem(m, v, p, x) == [Visit(c, x)] + (if x.dirs == 1 then Walk(m, v, c) else [])
  {
    FilePath.BaseOfJoin(p, x.name);
  }

  /** What record `i` of the listing adds to the walk. */
  lemma WalkPrefixStep(m: OsFs.Nodes, v: Volume, p: GoString, i: nat)
    requires OsFs.Wf(m) && i < |v.ListAt(m, p)|
    ensures |p| <= Longest(m.Keys) + 1 && FilePath.IsComponent(v.ListAt(m, p)[i].name)
    ensures WalkPrefix(m, v, p, i + 1) == WalkPrefix(m, v, p, i) + WalkItem(m, v, p, v.ListAt(m, p)[i])
  {
    ListFacts(m, v, p);
    WalkItemsStep(m, v, p, v.ListAt(m, p), i);
  }

  /** The sizes record `i` adds: its own, and its folder's walk when it is
      a folder. */
  lemma TotalStep(m: OsFs.Nodes, v: Volume, p: GoString, i: nat)
    requires OsFs.Wf(m) && i < |v.ListAt(m, p)|
    ensures var x := v.ListAt(m, p)[i];
      var c := FilePath.Join(p, x.name);
      && |p| <= Longest(m.Keys) + 1 && |c| > |p|
      && Total(WalkPrefix(m, v, p, i + 1))
         == Total(WalkPrefix(m, v, p, i)) + (if x.dirs == 1 then Total(Walk(m, v, c)) else 0) + x.size
  {
    var x := v.ListAt(m, p)[i];
    var c := FilePath.Join(p, x.name);
    WalkPrefixStep(m, v, p, i);
    WalkItemIs(m, v, p, x);
    var sub := if x.dirs == 1 then Walk(m, v, c) else [];
    var item := WalkItem(m, v, p, x);
    assert item == [Visit(c, x)] + sub;
    TotalSplit(WalkPrefix(m, v, p, i + 1), WalkPrefix(m, v, p, i), item, Visit(c, x), sub);
    assert Total(sub) == (if x.dirs == 1 then Total(Walk(m, v, c)) else 0);
  }

  lemma TotalSplit(all: seq<Visit>, a: seq<Visit>, item: seq<Visit>, w: Visit, sub: seq<Visit>)
    requires all == a + item && item == [w] + sub
    ensures Total(all) == Total(a) + Total(sub) + w.info.size
  {
    assert all == a + [w] + sub;
    TotalOf(a, w, sub);
  }

  /** The size of a walk that grows by one visit and what lies below it. */
  lemma TotalOf(a: seq<Visit>, w: Visit, sub: seq<Visit>)
    ensures Total(a + [w] + sub) == Total(a) + Total(sub) + w.info.size
  {
    TotalAppend(a + [w], sub);
    assert (a + [w])[..|a|] == a;
  }

  /** `calculateFolderSize(v, folderPath)`: the sum of the reported sizes
      of every entry below the folder, folders included, over int64
      without overflow. */
  method CalculateFolderSize(v: Volume, p: GoString) returns (total: int)
    requires OsFs.Wf(v.disk.nodes)
    ensures total == Total(Walk(v.disk.nodes, v, p))
    decreases Longest(v.disk.nodes.Keys) + 2 - |p|
  {
    var items := v.List(p);
    total := 0;
    var i := 0;
    while i < |items|
      invariant 0 <= i <= |items| && items == v.ListAt(v.disk.nodes, p)
      invariant total == Total(WalkPrefix(v.disk.nodes, v, p, i))
    {
      TotalStep(v.disk.nodes, v, p, i);
      ghost var before := total;
      var c := FilePath.Join(p, items[i].name);
      if items[i].dirs == 1 {
        var sub := CalculateFolderSize(v, c);
        total := total + sub;
      }
      total := total + items[i].size;
      assert total == before + (if items[i].dirs == 1 then Total(Walk(v.disk.nodes, v, c)) else 0) + items[i].size;
      i := i + 1;
    }
    WalkPrefixAll(v.disk.nodes, v, p);
  }

  // ---- what a walk visits ----

  /** Each name of `s` occurs in it once. */
  predicate Once(s: seq<GoString>) {
    forall n | n in s :: multiset(s)[n] == 1
  }

  /** A file system laid out as a tree of clean absolute paths: every name
      a folder lists is a node at the joined path, listed once, and every
      node but "/" is listed by the folder filepath.Dir names. */
  ghost predicate Tree(m: OsFs.Nodes) {
    && (forall q | q in m :: FilePath.IsCleanAbs(q))
    && (forall d | d in m && m[d].Dir? :: Once(m[d].entries))
    && (forall d, e | d in m && m[d].Dir? && e in m[d].entries :: FilePath.IsComponent(e))
    && (forall d, e {:trigger FilePath.Join(d, e)} | d in m && m[d].Dir? && e in m[d].entries ::
          FilePath.Join(d, e) in m)
    && (forall q {:trigger FilePath.Dir(q)} | q in m && q != "/" ::
          FilePath.Dir(q) in m && m[FilePath.Dir(q)].Dir? && FilePath.Base(q) in m[FilePath.Dir(q)].entries)
  }

  /** `q` lies below the folder `p`: climbing from `q` with filepath.Dir
      meets `p`. */
  ghost predicate Under(p: GoString, q: GoString)
    decreases |q|
  {
    |q| > 1 && q[0] == '/' &&
    var d := FilePath.Dir(q);
    d == p || (FilePath.DirClimbs(q); Under(p, d))
  }

  /** What lies below a child of `p` lies below `p`. */
  lemma {:induction false} UnderTrans(p: GoString, c: GoString, q: GoString)
    requires |c| > 1 && c[0] == '/' && FilePath.Dir(c) == p && Under(c, q)
    ensures Under(p, q)
    decreases |q|
  {
    FilePath.DirClimbs(q);
    if FilePath.Dir(q) != c {
      UnderTrans(p, c, FilePath.Dir(q));
    }
  }

  /** In a tree, only a folder has nodes below it. */
  lemma {:induction false} UnderIsFolder(m: OsFs.Nodes, p: GoString, q: GoString)
    requires Tree(m) && q in m && Under(p, q)
    ensures p in m && m[p].Dir?
    decreases |q|
  {
    FilePath.DirClimbs(q);
    if FilePath.Dir(q) != p {
      UnderIsFolder(m, p, FilePath.Dir(q));
    }
  }

  /** In a tree, a node below `p` is a child `a` of `p` or lies below one. */
  lemma {:induction false} ChildToward(m: OsFs.Nodes, p: GoString, q: GoString) returns (a: GoString)
    requires Tree(m) && q in m && Under(p, q)
    ensures a in m && FilePath.Dir(a) == p && |a| > 1 && a[0] == '/' && |a| > |p|
    ensures a == q || Under(a, q)
    decreases |q|
  {
    FilePath.DirClimbs(q);
    if FilePath.Dir(q) == p {
      a := q;
    } else {
      a := ChildToward(m, p, FilePath.Dir(q));
    }
    FilePath.DirClimbs(a);
  }

  /** A record of the listing of a folder `p` other than "/" is the Info of
      the node at `p` joined with its name, a child of `p`. */
  lemma ListedChild(m: OsFs.Nodes, v: Volume, p: GoString, x: FileDir) returns (c: GoString)
    requires Tree(m) && p in m && m[p].Dir? && p != "/" && x in v.ListAt(m, p)
    ensures c == FilePath.Join(p, x.name) && c in m && FilePath.Dir(c) == p && c != "/"
    ensures Under(p, c) && FilePath.IsCleanAbs(c) && FilePath.IsComponent(x.name)
    ensures v.InfoAt(m, c) == Returned(x, None) && (x.dirs == 1 <==> m[c].Dir?)
  {
    var names := OsFs.ReadDirOf(m, p).value;
    assert v.RealPath(p) == p;
    v.InfosMembers(m, p, names);
    var n :| n in names && v.InfoAt(m, FilePath.Join(p, n)) == Returned(x, None);
    assert n in multiset(names);
    assert n in m[p].entries;
    c := FilePath.Join(p, n);
    FilePath.JoinDirBase(p, n);
    FilePath.BaseOfJoin(p, n);
    v.InfoAtRecord(m, c);
  }

  /** A child `a` of a folder `p` other than "/" has a record in the
      listing of `p`. */
  lemma ChildListed(m: OsFs.Nodes, v: Volume, p: GoString, a: GoString) returns (x: FileDir)
    requires Tree(m) && p in m && m[p].Dir? && p != "/"
    requires a in m && FilePath.Dir(a) == p && a != "/"
    ensures x in v.ListAt(m, p) && FilePath.Join(p, x.name) == a
  {
    var n := FilePath.Base(a);
    FilePath.DirOfCleanAbs(a);
    var names := OsFs.ReadDirOf(m, p).value;
    assert n in multiset(m[p].entries);
    assert n in names;
    assert v.RealPath(p) == p;
    v.InfosMembers(m, p, names);
    x := v.InfoAt(m, a).value;
    v.InfoAtRecord(m, a);
  }

  /** A visit of a walk over records comes from one of the records. */
  lemma {:induction false} WalkItemsSplit(m: OsFs.Nodes, v: Volume, p: GoString, items: seq<FileDir>, w: Visit)
    returns (x: FileDir)
    requires OsFs.Wf(m)
    requires items != [] ==> |p| <= Longest(m.Keys) + 1
    requires forall y | y in items :: FilePath.IsComponent(y.name)
    requires w in WalkItems(m, v, p, items)
    ensures x in items && |p| <= Longest(m.Keys) + 1 && w in WalkItem(m, v, p, x)
  {
    var last := items[|items| - 1];
    if w in WalkItem(m, v, p, last) {
      x := last;
    } else {
      x := WalkItemsSplit(m, v, p, items[..|items| - 1], w);
    }
  }

  /** Every visit of the walk of one record is in the walk of the records. */
  lemma {:induction false} WalkItemsHas(m: OsFs.Nodes, v: Volume, p: GoString, items: seq<FileDir>,
                                        x: FileDir, w: Visit)
    requires OsFs.Wf(m)
    requires |p| <= Longest(m.Keys) + 1
    requires forall y | y in items :: FilePath.IsComponent(y.name)
    requires x in items && w in WalkItem(m, v, p, x)
    ensures w in WalkItems(m, v, p, items)
  {
    if x != items[|items| - 1] {
      WalkItemsHas(m, v, p, items[..|items| - 1], x, w);
    }
  }

  /** On a tree, the walk of a folder other than "/" visits exactly the
      nodes below it, each once, under its own path and with its own Info. */
  lemma WalkVisitsBelow(m: OsFs.Nodes, v: Volume, p: GoString)
    requires Tree(m) && p in m && m[p].Dir? && p != "/"
    ensures OsFs.Wf(m)
    ensures forall w | w in Walk(m, v, p) ::
      w.path in m && Under(p, w.path) && v.InfoAt(m, w.path) == Returned(w.info, None)
    ensures forall q | q in m && Under(p, q) :: exists w | w in Walk(m, v, p) :: w.path == q
    ensures Distinct(Walk(m, v, p))
  {
    WalkSound(m, v, p);
    WalkComplete(m, v, p);
    WalkDistinct(m, v, p);
  }

  /** Every visit of the walk is a node below the folder, with its Info. */
  lemma {:induction false} WalkSound(m: OsFs.Nodes, v: Volume, p: GoString)
    requires Tree(m) && p in m && m[p].Dir? && p != "/"
    ensures OsFs.Wf(m)
    ensures forall w | w in Walk(m, v, p) ::
      w.path in m && Under(p, w.path) && v.InfoAt(m, w.path) == Returned(w.info, None)
    decreases Longest(m.Keys) - |p|
  {
    ListFacts(m, v, p);
    var items := v.ListAt(m, p);
    assert Walk(m, v, p) == WalkItems(m, v, p, items);
    forall w | w in Walk(m, v, p)
      ensures w.path in m && Under(p, w.path) && v.InfoAt(m, w.path) == Returned(w.info, None)
    {
      var x := WalkItemsSplit(m, v, p, items, w);
      var c := ListedChild(m, v, p, x);
      WalkItemIs(m, v, p, x);
      if w != Visit(c, x) {
        var sub := if x.dirs == 1 then Walk(m, v, c) else [];
        assert w in [Visit(c, x)] + sub;
        assert w in sub && x.dirs == 1 && m[c].Dir?;
        assert |p| < |c| <= Longest(m.Keys);
        WalkSound(m, v, c);
        UnderTrans(p, c, w.path);
      }
    }
  }

  /** Every node below the folder is visited by the walk. */
  lemma {:induction false} WalkComplete(m: OsFs.Nodes, v: Volume, p: GoString)
    requires Tree(m) && p in m && m[p].Dir? && p != "/"
    ensures OsFs.Wf(m)
    ensures forall q | q in m && Under(p, q) :: exists w | w in Walk(m, v, p) :: w.path == q
    decreases Longest(m.Keys) - |p|
  {
    ListFacts(m, v, p);
    var items := v.ListAt(m, p);
    assert Walk(m, v, p) == WalkItems(m, v, p, items);
    forall q | q in m && Under(p, q) ensures exists w | w in Walk(m, v, p) :: w.path == q {
      var a := ChildToward(m, p, q);
      var x := ChildListed(m, v, p, a);
      var c := ListedChild(m, v, p, x);
      WalkItemIs(m, v, p, x);
      if a == q {
        WalkItemsHas(m, v, p, items, x, Visit(a, x));
      } else {
        UnderIsFolder(m, a, q);
        WalkComplete(m, v, a);
        var w :| w in Walk(m, v, a) && w.path == q;
        WalkItemsHas(m, v, p, items, x, w);
      }
    }
  }

  /** The visits of `ws` are at pairwise different paths. */
  predicate Distinct(ws: seq<Visit>) {
    forall i, j | 0 <= i < j < |ws| :: ws[i].path != ws[j].path
  }

  lemma DistinctAppend(a: seq<Visit>, b: seq<Visit>)
    requires Distinct(a) && Distinct(b)
    requires forall w, u | w in a && u in b :: w.path != u.path
    ensures Distinct(a + b)
  {
    forall i, j | 0 <= i < j < |a + b| ensures (a + b)[i].path != (a + b)[j].path {
      if j < |a| {
        assert (a + b)[i] == a[i] && (a + b)[j] == a[j];
      } else if i < |a| {
        assert (a + b)[i] in a && (a + b)[j] in b;
      } else {
        assert (a + b)[i] == b[i - |a|] && (a + b)[j] == b[j - |a|];
      }
    }
  }

  /** A node below `p` has a longer path than `p`. */
  lemma {:induction false} UnderLonger(p: GoString, q: GoString)
    requires Under(p, q)
    ensures |p| < |q|
    decreases |q|
  {
    FilePath.DirClimbs(q);
    if FilePath.Dir(q) != p {
      UnderLonger(p, FilePath.Dir(q));
    }
  }

  /** Two children of one folder whose trees share a node are the same
      child. */
  lemma {:induction false} ChildUnique(p: GoString, a: GoString, b: GoString, q: GoString)
    requires |a| > 1 && a[0] == '/' && FilePath.Dir(a) == p
    requires |b| > 1 && b[0] == '/' && FilePath.Dir(b) == p
    requires a == q || Under(a, q)
    requires b == q || Under(b, q)
    ensures a == b
    decreases |q|
  {
    FilePath.DirClimbs(a);
    FilePath.DirClimbs(b);
    if a != q && b != q {
      FilePath.DirClimbs(q);
      var d := FilePath.Dir(q);
      if d != a && d != b {
        ChildUnique(p, a, b, d);
      } else if d == a && d != b {
        NotUnderChild(p, a, b);
      } else if d == b && d != a {
        NotUnderChild(p, b, a);
      }
    } else if a == q && b != q {
      NotUnderChild(p, a, b);
    } else if b == q && a != q {
      NotUnderChild(p, b, a);
    }
  }

  /** A child of `p` does not lie below another child of `p`. */
  lemma NotUnderChild(p: GoString, a: GoString, b: GoString)
    requires |a| > 1 && a[0] == '/' && FilePath.Dir(a) == p
    requires |b| > 1 && b[0] == '/' && FilePath.Dir(b) == p
    ensures !Under(b, a)
  {
    FilePath.DirClimbs(a);
    FilePath.DirClimbs(b);
    if Under(b, a) && b != p {
      FilePath.DirClimbs(a);
      UnderLonger(b, p);
    }
  }

  /** The records of `xs` carry pairwise different names. */
  predicate NamesOnce(xs: seq<FileDir>) {
    forall i, j | 0 <= i < j < |xs| :: xs[i].name != xs[j].name
  }

  /** A name listed once at the head of `names` is not among the rest,
      each of which is listed once there too. */
  lemma OnceTail(names: seq<GoString>)
    requires Once(names) && names != []
    ensures Once(names[1..]) && names[0] !in names[1..]
  {
    var n := names[0];
    var rest := names[1..];
    assert names == [n] + rest;
    assert multiset(names) == multiset{n} + multiset(rest);
    assert multiset(names)[n] == 1 && multiset(rest)[n] == 0;
    forall k | k in rest ensures multiset(rest)[k] == 1 {
      assert k in names;
    }
  }

  /** Info of a component joined to a folder names the record after it. */
  lemma InfoName(m: OsFs.Nodes, v: Volume, dir: GoString, n: GoString)
    requires FilePath.IsComponent(n)
    ensures v.InfoAt(m, FilePath.Join(dir, n)).err.None? ==> v.InfoAt(m, FilePath.Join(dir, n)).value.name == n
  {
    var c := FilePath.Join(dir, n);
    FilePath.BaseOfJoin(dir, n);
    assert v.RealPath(c) == c;
    v.InfoAtRecord(m, c);
  }

  /** A record named `n` before records named by other names `rest` keeps
      the names apart. */
  lemma NamesOnceCons(head: seq<FileDir>, tail: seq<FileDir>, n: GoString, rest: seq<GoString>)
    requires |head| <= 1 && (forall x | x in head :: x.name == n) && n !in rest
    requires NamesOnce(tail) && forall x | x in tail :: x.name in rest
    ensures NamesOnce(head + tail)
  {
    forall i, j | 0 <= i < j < |head + tail| ensures (head + tail)[i].name != (head + tail)[j].name {
      if i < |head| {
        assert (head + tail)[i] in head && (head + tail)[j] in tail;
      } else {
        assert (head + tail)[i] == tail[i - |head|] && (head + tail)[j] == tail[j - |head|];
      }
    }
  }

  /** The records Infos keeps carry distinct names when the names are
      listed once. */
  lemma {:induction false} InfosOnce(m: OsFs.Nodes, v: Volume, dir: GoString, names: seq<GoString>)
    requires Once(names) && forall n | n in names :: FilePath.IsComponent(n)
    ensures forall x | x in v.Infos(m, dir, names) :: x.name in names
    ensures NamesOnce(v.Infos(m, dir, names))
    decreases |names|
  {
    if names != [] {
      var n := names[0];
      var rest := names[1..];
      OnceTail(names);
      InfosOnce(m, v, dir, rest);
      InfoName(m, v, dir, n);
      var info := v.InfoAt(m, FilePath.Join(dir, n));
      var head := if info.err.None? then [info.value] else [];
      var tail := v.Infos(m, dir, rest);
      assert v.Infos(m, dir, names) == head + tail;
      NamesOnceCons(head, tail, n, rest);
      assert forall x | x in tail :: x.name in names;
    }
  }

  /** On a tree, the records of the listing of a folder other than "/"
      carry distinct names. */
  lemma ListOnce(m: OsFs.Nodes, v: Volume, p: GoString)
    requires Tree(m) && p in m && m[p].Dir? && p != "/"
    ensures NamesOnce(v.ListAt(m, p))
  {
    var names := OsFs.ReadDirOf(m, p).value;
    assert v.RealPath(p) == p;
    forall n | n in names ensures FilePath.IsComponent(n) && multiset(names)[n] == 1 {
      assert n in multiset(m[p].entries);
    }
    InfosOnce(m, v, p, names);
  }

  /** The child a record of the listing of `p` names. */
  lemma ChildOf(m: OsFs.Nodes, v: Volume, p: GoString, x: FileDir)
    requires Tree(m) && p in m && m[p].Dir? && p != "/" && x in v.ListAt(m, p)
    ensures var c := FilePath.Join(p, x.name);
      && |c| > 1 && c[0] == '/' && FilePath.Dir(c) == p && c in m && c != "/"
      && |p| < |c| <= Longest(m.Keys) && (x.dirs == 1 <==> m[c].Dir?)
  {
    var c := ListedChild(m, v, p, x);
    UnderLonger(p, c);
  }

  /** What the walk of a folder visits lies below it. */
  lemma SubReach(m: OsFs.Nodes, v: Volume, c: GoString, w: Visit)
    requires Tree(m) && c in m && m[c].Dir? && c != "/" && OsFs.Wf(m) && w in Walk(m, v, c)
    ensures Under(c, w.path)
  {
    WalkSound(m, v, c);
  }

  /** A visit of the walk of record `x` is its child or lies below it. */
  lemma ItemReach(m: OsFs.Nodes, v: Volume, p: GoString, x: FileDir, w: Visit)
    requires Tree(m) && OsFs.Wf(m) && p in m && m[p].Dir? && p != "/" && x in v.ListAt(m, p)
    requires |p| <= Longest(m.Keys) + 1 && FilePath.IsComponent(x.name) && w in WalkItem(m, v, p, x)
    ensures InChild(p, x.name, w.path)
  {
    var c := FilePath.Join(p, x.name);
    ChildOf(m, v, p, x);
    WalkItemIs(m, v, p, x);
    if w != Visit(c, x) {
      assert w in Walk(m, v, c);
      SubReach(m, v, c, w);
    }
  }

  /** `q` is the child of `p` named `n`, or lies below it. */
  ghost predicate InChild(p: GoString, n: GoString, q: GoString) {
    var a := FilePath.Join(p, n);
    |a| > 1 && a[0] == '/' && FilePath.Dir(a) == p && (q == a || Under(a, q))
  }

  /** A tree's folders list components. */
  lemma TreeWf(m: OsFs.Nodes)
    requires Tree(m)
    ensures OsFs.Wf(m)
  {
  }

  /** On a tree, the walk of a folder other than "/" visits no path twice. */
  lemma {:induction false} WalkDistinct(m: OsFs.Nodes, v: Volume, p: GoString)
    requires Tree(m) && p in m && m[p].Dir? && p != "/"
    ensures OsFs.Wf(m) && Distinct(Walk(m, v, p))
    decreases Longest(m.Keys) - |p|
  {
    TreeWf(m);
    ListFacts(m, v, p);
    ListOnce(m, v, p);
    var items := v.ListAt(m, p);
    forall x | x in items && x.dirs == 1 ensures Distinct(Walk(m, v, FilePath.Join(p, x.name))) {
      ChildOf(m, v, p, x);
      WalkDistinct(m, v, FilePath.Join(p, x.name));
    }
    assert Walk(m, v, p) == WalkItems(m, v, p, items);
    ItemsDistinct(m, v, p, items, |items|);
    assert items[..|items|] == items;
  }

  /** The walks of the subfolders the records of `items` name visit no
      path twice. */
  ghost predicate SubsDistinct(m: OsFs.Nodes, v: Volume, p: GoString, items: seq<FileDir>)
    requires OsFs.Wf(m)
  {
    forall x | x in items && x.dirs == 1 :: Distinct(Walk(m, v, FilePath.Join(p, x.name)))
  }

  /** The walk of the first `k` records of the listing visits no path
      twice. */
  lemma {:induction false} ItemsDistinct(m: OsFs.Nodes, v: Volume, p: GoString, items: seq<FileDir>, k: nat)
    requires Tree(m) && p in m && m[p].Dir? && p != "/" && OsFs.Wf(m)
    requires items == v.ListAt(m, p) && k <= |items|
    requires |p| <= Longest(m.Keys) + 1 && forall x | x in items :: FilePath.IsComponent(x.name)
    requires NamesOnce(items) && SubsDistinct(m, v, p, items)
    ensures Distinct(WalkItems(m, v, p, items[..k]))
    decreases k
  {
    if k > 0 {
      var init := items[..k - 1];
      var x := items[k - 1];
      assert items[..k][..k - 1] == init && items[..k][k - 1] == x;
      assert forall y | y in items[..k] :: y in items;
      var all := WalkItems(m, v, p, items[..k]);
      assert all == WalkItems(m, v, p, init) + WalkItem(m, v, p, x);
      ItemsDistinct(m, v, p, items, k - 1);
      ItemDistinct(m, v, p, x);
      ItemsApart(m, v, p, items, k);
      DistinctAppend(WalkItems(m, v, p, init), WalkItem(m, v, p, x));
    }
  }

  /** The walk of the first `k - 1` records and that of record `k - 1`
      visit no path in common. */
  lemma ItemsApart(m: OsFs.Nodes, v: Volume, p: GoString, items: seq<FileDir>, k: nat)
    requires Tree(m) && p in m && m[p].Dir? && p != "/" && OsFs.Wf(m)
    requires items == v.ListAt(m, p) && 0 < k <= |items|
    requires |p| <= Longest(m.Keys) + 1 && forall x | x in items :: FilePath.IsComponent(x.name)
    requires NamesOnce(items)
    ensures forall w, u | w in WalkItems(m, v, p, items[..k - 1]) && u in WalkItem(m, v, p, items[k - 1]) ::
      w.path != u.path
  {
    var init := items[..k - 1];
    var x := items[k - 1];
    forall w, u | w in WalkItems(m, v, p, init) && u in WalkItem(m, v, p, x) ensures w.path != u.path {
      var y := WalkItemsSplit(m, v, p, init, w);
      NameBefore(items, k, y);
      ItemReach(m, v, p, y, w);
      ItemReach(m, v, p, x, u);
      ChildrenApart(p, y.name, x.name, w.path, u.path);
    }
  }

  /** A record before record `k - 1` of records with distinct names is one
      of them, with another name. */
  lemma NameBefore(items: seq<FileDir>, k: nat, y: FileDir)
    requires NamesOnce(items) && 0 < k <= |items| && y in items[..k - 1]
    ensures y in items && y.name != items[k - 1].name
  {
    var i :| 0 <= i < k - 1 && items[..k - 1][i] == y;
    assert items[i] == y;
  }

  /** The trees of two children of `p` with different names share no
      node. */
  lemma ChildrenApart(p: GoString, n: GoString, o: GoString, q: GoString, r: GoString)
    requires FilePath.IsComponent(n) && FilePath.IsComponent(o) && n != o
    requires InChild(p, n, q) && InChild(p, o, r)
    ensures q != r
  {
    var a := FilePath.Join(p, n);
    var b := FilePath.Join(p, o);
    FilePath.BaseOfJoin(p, n);
    FilePath.BaseOfJoin(p, o);
    assert a != b;
    if q == r {
      ChildUnique(p, a, b, q);
      assert false;
    }
  }

  /** The walk of one record visits no path twice: its child first, then
      the nodes below it, which the walk of the child visits once each. */
  lemma ItemDistinct(m: OsFs.Nodes, v: Volume, p: GoString, x: FileDir)
    requires Tree(m) && p in m && m[p].Dir? && p != "/" && OsFs.Wf(m) && x in v.ListAt(m, p)
    requires |p| <= Longest(m.Keys) + 1 && FilePath.IsComponent(x.name)
    requires x.dirs == 1 ==> Distinct(Walk(m, v, FilePath.Join(p, x.name)))
    ensures Distinct(WalkItem(m, v, p, x))
  {
    ChildOf(m, v, p, x);
    WalkItemIs(m, v, p, x);
    var c := FilePath.Join(p, x.name);
    var sub := if x.dirs == 1 then Walk(m, v, c) else [];
    if x.dirs == 1 {
      WalkAvoids(m, v, c);
    }
    HeadApart(c, x, sub);
  }

  /** A visit at a path the visits of `sub` avoid, before them. */
  lemma HeadApart(c: GoString, x: FileDir, sub: seq<Visit>)
    requires Distinct(sub) && forall u | u in sub :: u.path != c
    ensures Distinct([Visit(c, x)] + sub)
  {
    DistinctAppend([Visit(c, x)], sub);
  }

  /** The walk of a folder does not visit the folder itself. */
  lemma WalkAvoids(m: OsFs.Nodes, v: Volume, c: GoString)
    requires Tree(m) && c in m && m[c].Dir? && c != "/" && OsFs.Wf(m)
    ensures forall u | u in Walk(m, v, c) :: u.path != c
  {
    forall u | u in Walk(m, v, c) ensures u.path != c {
      SubReach(m, v, c, u);
      UnderLonger(c, u.path);
    }
  }

  /** The folder "/" stands for the volume's base path when it is listed,
      but the walk joins the listed names to "/" itself. With the base path
      "/vol" holding the empty folder "sub" and in it the file "f", the
      walk of "/" visits "/sub", which is not below the base path and here
      does not exist, never reaches "/vol/sub/f", and sums 0 bytes. */
  lemma RootWalkLeavesVolume(m: OsFs.Nodes, v: Volume)
    requires v.basePath == "/vol" && OsFs.Wf(m)
    requires "/vol" in m && m["/vol"] == OsFs.Dir(["sub"], 0x1ED, 0, 0)
    requires "/vol/sub" in m && m["/vol/sub"] == OsFs.Dir(["f"], 0x1ED, 0, 0)
    requires "/vol/sub/f" in m && "/sub" !in m
    ensures Walk(m, v, "/") == [Visit("/sub", v.InfoAt(m, "/vol/sub").value)]
    ensures !Under("/vol", "/sub") && Under("/vol", "/vol/sub/f")
    ensures Total(Walk(m, v, "/")) == 0
  {
    var x := v.InfoAt(m, "/vol/sub").value;
    SampleUnder();
    ListOfRoot(m, v);
    SubWalkEmpty(m, v);
    WalkOfOne(m, v, "/", x);
    WalkItemIs(m, v, "/", x);
    SampleJoins();
  }

  /** The walk of a folder listed as one record is the walk of that record. */
  lemma WalkOfOne(m: OsFs.Nodes, v: Volume, p: GoString, x: FileDir)
    requires OsFs.Wf(m) && v.ListAt(m, p) == [x]
    ensures |p| <= Longest(m.Keys) + 1 && FilePath.IsComponent(x.name)
    ensures Walk(m, v, p) == WalkItem(m, v, p, x)
  {
    ListFacts(m, v, p);
    assert [x][..0] == [];
    assert WalkItems(m, v, p, [x]) == WalkItems(m, v, p, []) + WalkItem(m, v, p, x);
  }

  /** Which paths of the example lie below the base path. */
  lemma SampleUnder()
    ensures !Under("/vol", "/sub") && Under("/vol", "/vol/sub/f")
  {
    SampleJoins();
  }

  /** "/sub" does not exist in the example, so its walk is empty. */
  lemma SubWalkEmpty(m: OsFs.Nodes, v: Volume)
    requires OsFs.Wf(m) && "/sub" !in m
    ensures Walk(m, v, "/sub") == []
  {
    assert v.RealPath("/sub") == "/sub";
    assert v.ListAt(m, "/sub") == [];
  }

  /** The walk as evidently intended: the folder is read as the real path
      it stands for, so that "" and "/" walk the volume's base path. */
  function IntendedWalk(m: OsFs.Nodes, v: Volume, p: GoString): (ws: seq<Visit>)
    requires OsFs.Wf(m)
    ensures p != [] && p != "/" ==> ws == Walk(m, v, p)
  {
    Walk(m, v, v.RealPath(p))
  }

  /** On a tree whose base path is a folder other than "/", the intended
      walk of any folder target, "/" included, visits exactly the nodes
      below the real path it stands for, each once. */
  lemma IntendedWalkCovers(m: OsFs.Nodes, v: Volume, p: GoString)
    requires Tree(m) && v.RealPath(p) in m && m[v.RealPath(p)].Dir? && v.RealPath(p) != "/"
    ensures OsFs.Wf(m)
    ensures forall w | w in IntendedWalk(m, v, p) :: w.path in m && Under(v.RealPath(p), w.path)
    ensures forall q | q in m && Under(v.RealPath(p), q) :: exists w | w in IntendedWalk(m, v, p) :: w.path == q
    ensures Distinct(IntendedWalk(m, v, p))
  {
    WalkVisitsBelow(m, v, v.RealPath(p));
  }

  /** The paths of the example. */
  lemma SampleJoins()
    ensures FilePath.Join("/vol", "sub") == "/vol/sub" && FilePath.Join("/", "sub") == "/sub"
    ensures FilePath.IsComponent("sub") && FilePath.Base("/vol/sub") == "sub"
    ensures FilePath.Dir("/sub") == "/" && FilePath.Dir("/vol/sub/f") == "/vol/sub"
    ensures FilePath.Dir("/vol/sub") == "/vol"
  {
    FilePath.BaseOfJoin("/vol", "sub");
    SampleDirOfFile();
    SampleDirOfSub();
    SampleDirOfTop();
  }

  lemma SampleDirOfFile()
    ensures FilePath.Dir("/vol/sub/f") == "/vol/sub"
  {
    var p := "/vol/sub/f";
    assert p[8] == '/' && p[9] != '/';
    FilePath.LastIndexAt(p, 8);
    assert p[..8] == "/vol/sub";
  }

  lemma SampleDirOfSub()
    ensures FilePath.Dir("/vol/sub") == "/vol"
  {
    var p := "/vol/sub";
    assert p[4] == '/' && p[5] != '/' && p[6] != '/' && p[7] != '/';
    FilePath.LastIndexAt(p, 4);
    assert p[..4] == "/vol";
  }

  lemma SampleDirOfTop()
    ensures FilePath.Dir("/sub") == "/"
  {
    var p := "/sub";
    assert p[0] == '/' && p[1] != '/' && p[2] != '/' && p[3] != '/';
    FilePath.LastIndexAt(p, 0);
  }

  /** The listing of "/" in the example is the record of "/vol/sub". */
  lemma ListOfRoot(m: OsFs.Nodes, v: Volume)
    requires v.basePath == "/vol"
    requires "/vol" in m && m["/vol"] == OsFs.Dir(["sub"], 0x1ED, 0, 0)
    requires "/vol/sub" in m && m["/vol/sub"] == OsFs.Dir(["f"], 0x1ED, 0, 0)
    ensures var x := v.InfoAt(m, "/vol/sub").value;
      v.ListAt(m, "/") == [x] && x.name == "sub" && x.dirs == 1 && x.size == 0
  {
    SampleJoins();
    OneName(OsFs.ReadDirOf(m, "/vol").value, "sub");
    v.InfoAtRecord(m, "/vol/sub");
    assert v.Infos(m, "/vol", ["sub"]) == [v.InfoAt(m, "/vol/sub").value] + v.Infos(m, "/vol", []);
  }

  /** A listing whose entries are one name is that name. */
  lemma OneName(names: seq<GoString>, n: GoString)
    requires multiset(names) == multiset([n])
    ensures names == [n]
  {
    assert |names| == |multiset(names)| == 1;
    assert names[0] in multiset(names);
  }

  // ---- archive entries ----

  /** One entry of a zip archive: its name and the bytes copied into it. */
  datatype Entry = Entry(name: GoString, data: GoString)

  /** Entries written so far and the error that stopped the writing, if
      any. */
  type Written = Returned<seq<Entry>>

  /** Writing `b` after `a`: nothing more is written once `a` failed. */
  function Then(a: Written, b: Written): (r: Written)
    ensures a.err.Some? ==> r == a
    ensures a.err.None? ==> r.value == a.value + b.value && r.err == b.err
  {
    if a.err.Some? then a else Returned(a.value + b.value, b.err)
  }

  lemma ThenAssoc(a: Written, b: Written, c: Written)
    ensures Then(Then(a, b), c) == Then(a, Then(b, c))
  {
    if a.err.None? && b.err.None? {
      assert a.value + b.value + c.value == a.value + (b.value + c.value);
    }
  }

  /** The entry zipFolder writes for a file met at `w.path`: its name is
      the path without the leading `base`, its bytes those of the file. */
  function FileEntry(m: OsFs.Nodes, base: GoString, w: Visit): (r: Written)
    ensures r.err.None? <==> OsFs.ReadFileOf(m, w.path).Ok?
    ensures r.err.None? ==> r.value == [Entry(Strings.TrimPrefix(w.path, base), m[w.path].data)]
    ensures r.err.Some? ==> r.value == []
  {
    match OsFs.ReadFileOf(m, w.path)
    case Fail(e) => Returned([], Some(e))
    case Ok(d) => Returned([Entry(Strings.TrimPrefix(w.path, base), d)], None)
  }

  /** The entries of the files `fs`, in order, up to the first file that
      cannot be read. */
  function Pack(m: OsFs.Nodes, base: GoString, fs: seq<Visit>): Written {
    if fs == [] then Returned([], None)
    else Then(Pack(m, base, fs[..|fs| - 1]), FileEntry(m, base, fs[|fs| - 1]))
  }

  lemma {:induction false} PackAppend(m: OsFs.Nodes, base: GoString, a: seq<Visit>, b: seq<Visit>)
    ensures Pack(m, base, a + b) == Then(Pack(m, base, a), Pack(m, base, b))
    decreases |b|
  {
    if b == [] {
      assert a + b == a;
      assert Pack(m, base, a).value + [] == Pack(m, base, a).value;
    } else {
      var n := |b| - 1;
      assert (a + b)[..|a + b| - 1] == a + b[..n];
      PackAppend(m, base, a, b[..n]);
      ThenAssoc(Pack(m, base, a), Pack(m, base, b[..n]), FileEntry(m, base, b[n]));
    }
  }

  /** Every file packed without error gives one entry, named by its path
      without `base` and holding that file's bytes; an error is that of the
      first file that cannot be read, and the entries before it are
      those of the files before it. */
  lemma {:induction false} PackEntries(m: OsFs.Nodes, base: GoString, fs: seq<Visit>)
    ensures var r := Pack(m, base, fs);
      && (r.err.None? <==> forall k | 0 <= k < |fs| :: OsFs.ReadFileOf(m, fs[k].path).Ok?)
      && (r.err.None? ==> (|r.value| == |fs| &&
           forall k | 0 <= k < |fs| :: r.value[k] == Entry(Strings.TrimPrefix(fs[k].path, base), m[fs[k].path].data)))
    decreases |fs|
  {
    if fs != [] {
      var n := |fs| - 1;
      PackEntries(m, base, fs[..n]);
      var r := Pack(m, base, fs);
      if r.err.None? {
        forall k | 0 <= k < |fs| ensures r.value[k] == Entry(Strings.TrimPrefix(fs[k].path, base), m[fs[k].path].data) {
          if k < n {
            assert fs[..n][k] == fs[k];
          }
        }
      } else if Pack(m, base, fs[..n]).err.Some? {
        var k :| 0 <= k < n && !OsFs.ReadFileOf(m, fs[..n][k].path).Ok?;
        assert fs[..n][k] == fs[k];
      }
    }
  }

  /** `baseFolder` with the "/" zipFolder appends when it does not end in
      one. */
  function Slash(base: GoString): (b: GoString)
    ensures |b| > 0 && b[|b| - 1] == '/'
    ensures Strings.HasPrefix(b, base) && |b| <= |base| + 1
  {
    if base != [] && base[|base| - 1] == '/' then base else base + "/"
  }

  /** What `zipFolder(v, baseFolder, folderPath, w)` writes: an entry for
      every file below the folder, in walk order, named relative to
      `baseFolder`. */
  function FolderEntries(m: OsFs.Nodes, v: Volume, base: GoString, p: GoString): Written
    requires OsFs.Wf(m)
  {
    Pack(m, Slash(base), FileVisits(Walk(m, v, p)))
  }

  /** The files record `i` adds: itself when it is a file, the files of
      its folder's walk when it is a folder. */
  lemma FilesStep(m: OsFs.Nodes, v: Volume, p: GoString, i: nat)
    requires OsFs.Wf(m) && i < |v.ListAt(m, p)|
    ensures var x := v.ListAt(m, p)[i];
      var c := FilePath.Join(p, x.name);
      && |p| <= Longest(m.Keys) + 1 && |c| > |p|
      && FileVisits(WalkPrefix(m, v, p, i + 1))
         == FileVisits(WalkPrefix(m, v, p, i)) + (if x.dirs == 1 then FileVisits(Walk(m, v, c)) else [Visit(c, x)])
  {
    var x := v.ListAt(m, p)[i];
    var c := FilePath.Join(p, x.name);
    WalkPrefixStep(m, v, p, i);
    WalkItemIs(m, v, p, x);
    var sub := if x.dirs == 1 then Walk(m, v, c) else [];
    var item := WalkItem(m, v, p, x);
    assert item == [Visit(c, x)] + sub;
    FilesSplit(WalkPrefix(m, v, p, i + 1), WalkPrefix(m, v, p, i), item, Visit(c, x), sub);
  }

  lemma FilesSplit(all: seq<Visit>, a: seq<Visit>, item: seq<Visit>, w: Visit, sub: seq<Visit>)
    requires all == a + item && item == [w] + sub && (w.info.dirs == 1 || sub == [])
    ensures FileVisits(all) == FileVisits(a) + (if w.info.dirs == 1 then FileVisits(sub) else [w])
  {
    assert all == a + [w] + sub;
    FilesOf(a, w, sub);
  }

  /** The files of a walk that grows by one visit and what lies below it:
      the files below a folder, or the visit itself when it is a file. */
  lemma FilesOf(a: seq<Visit>, w: Visit, sub: seq<Visit>)
    requires w.info.dirs == 1 || sub == []
    ensures FileVisits(a + [w] + sub) == FileVisits(a) + (if w.info.dirs == 1 then FileVisits(sub) else [w])
  {
    var aw := a + [w];
    assert aw[..|aw| - 1] == a && aw[|aw| - 1] == w;
    var fa := FileVisits(a);
    assert FileVisits(aw) == fa + (if w.info.dirs != 1 then [w] else []);
    if w.info.dirs == 1 {
      FileVisitsAppend(aw, sub);
      assert fa + [] == fa;
    } else {
      assert aw + sub == aw;
    }
  }

  /** Once packing the files of the first `j` records fails, packing those
      of the whole listing fails the same way. */
  lemma {:induction false} PackStops(m: OsFs.Nodes, b: GoString, v: Volume, p: GoString, j: nat)
    requires OsFs.Wf(m) && j <= |v.ListAt(m, p)|
    requires Pack(m, b, FileVisits(WalkPrefix(m, v, p, j))).err.Some?
    ensures Pack(m, b, FileVisits(Walk(m, v, p))) == Pack(m, b, FileVisits(WalkPrefix(m, v, p, j)))
    decreases |v.ListAt(m, p)| - j
  {
    if j < |v.ListAt(m, p)| {
      var x := v.ListAt(m, p)[j];
      var c := FilePath.Join(p, x.name);
      FilesStep(m, v, p, j);
      PackAppend(m, b, FileVisits(WalkPrefix(m, v, p, j)), if x.dirs == 1 then FileVisits(Walk(m, v, c)) else [Visit(c, x)]);
      PackStops(m, b, v, p, j + 1);
    } else {
      WalkPrefixAll(m, v, p);
    }
  }

  lemma PackOne(m: OsFs.Nodes, base: GoString, w: Visit)
    ensures Pack(m, base, [w]) == FileEntry(m, base, w)
  {
    assert [w][..0] == [];
    assert [] + FileEntry(m, base, w).value == FileEntry(m, base, w).value;
  }

  /** The writing of one more file of a folder: the file's entry follows
      the entries so far. */
  lemma PackFile(m: OsFs.Nodes, base: GoString, before: seq<Visit>, w: Visit, entries: seq<Entry>)
    requires Pack(m, base, before) == Returned(entries, None)
    ensures var d := OsFs.ReadFileOf(m, w.path);
      && (d.Fail? ==> Pack(m, base, before + [w]) == Returned(entries, Some(d.error)))
      && (d.Ok? ==> Pack(m, base, before + [w]) == Returned(entries + [Entry(Strings.TrimPrefix(w.path, base), d.value)], None))
  {
    PackAppend(m, base, before, [w]);
    PackOne(m, base, w);
    assert entries + [] == entries;
  }

  /** `zipFolder(v, baseFolder, folderPath, w)`: the entries written, and
      the error that stopped it. */
  method ZipFolder(v: Volume, base: GoString, p: GoString) returns (entries: seq<Entry>, err: Option<Error>)
    requires OsFs.Wf(v.disk.nodes)
    ensures Returned(entries, err) == FolderEntries(v.disk.nodes, v, base, p)
    decreases Longest(v.disk.nodes.Keys) + 2 - |p|, 1
  {
    var b := base;
    if !(b != [] && b[|b| - 1] == '/') {
      b := b + "/";
    }
    assert b == Slash(base) && Slash(b) == b;
    ghost var m := v.disk.nodes;
    var items := v.List(p);
    entries := [];
    var i := 0;
    while i < |items|
      invariant 0 <= i <= |items| && items == v.ListAt(m, p) && v.disk.nodes == m
      invariant Packed(m, b, v, p, i, entries)
    {
      var e;
      entries, e := ZipRecord(v, b, p, items, i, entries);
      if e.Some? {
        assert Returned(entries, e) == Pack(m, b, FileVisits(Walk(m, v, p)));
        return entries, e;
      }
      i := i + 1;
    }
    PackStopsNot(m, b, v, p, entries);
    return entries, None;
  }

  /** One record of the loop of zipFolder over the listing of `p`: a folder
      is zipped in turn, a file is read and written after the entries so
      far; an error ends the whole folder. */
  method ZipRecord(v: Volume, b: GoString, p: GoString, items: seq<FileDir>, i: nat, entries: seq<Entry>)
    returns (next: seq<Entry>, err: Option<Error>)
    requires OsFs.Wf(v.disk.nodes) && Slash(b) == b
    requires items == v.ListAt(v.disk.nodes, p) && i < |items|
    requires Packed(v.disk.nodes, b, v, p, i, entries)
    ensures err.None? ==> Packed(v.disk.nodes, b, v, p, i + 1, next)
    ensures err.Some? ==> Returned(next, err) == Pack(v.disk.nodes, b, FileVisits(Walk(v.disk.nodes, v, p)))
    decreases Longest(v.disk.nodes.Keys) + 2 - |p|, 0
  {
    ghost var m := v.disk.nodes;
    ChildLonger(m, v, p, i);
    var c := FilePath.Join(p, items[i].name);
    if items[i].dirs == 1 {
      var sub, e := ZipFolder(v, b, c);
      FolderStep(m, b, v, p, i, entries, sub, e);
      return entries + sub, e;
    } else {
      var data := v.GetFile(c);
      FileStep(m, b, v, p, i, entries);
      if data.Fail? {
        return entries, Some(data.error);
      }
      return entries + [Entry(Strings.TrimPrefix(c, b), data.value)], None;
    }
  }

  /** A record of the listing of `p` names a longer path than `p`, which
      is no longer than the longest existing path and a separator. */
  lemma ChildLonger(m: OsFs.Nodes, v: Volume, p: GoString, i: nat)
    requires OsFs.Wf(m) && i < |v.ListAt(m, p)|
    ensures |p| <= Longest(m.Keys) + 1 && |FilePath.Join(p, v.ListAt(m, p)[i].name)| > |p|
  {
    ListFacts(m, v, p);
    assert v.ListAt(m, p)[i] in v.ListAt(m, p);
    WalkItemIs(m, v, p, v.ListAt(m, p)[i]);
  }

  /** `entries` are what packing the files of the first `i` records of the
      listing of `p` writes, without an error. */
  predicate Packed(m: OsFs.Nodes, b: GoString, v: Volume, p: GoString, i: nat, entries: seq<Entry>)
    requires OsFs.Wf(m) && i <= |v.ListAt(m, p)|
  {
    Returned(entries, None) == Pack(m, b, FileVisits(WalkPrefix(m, v, p, i)))
  }

  /** A folder record of the listing: its entries follow those so far, and
      an error in it ends the packing of the whole folder. */
  lemma FolderStep(m: OsFs.Nodes, b: GoString, v: Volume, p: GoString, i: nat,
                   entries: seq<Entry>, sub: seq<Entry>, e: Option<Error>)
    requires OsFs.Wf(m) && i < |v.ListAt(m, p)| && v.ListAt(m, p)[i].dirs == 1
    requires Packed(m, b, v, p, i, entries)
    requires Returned(sub, e) == Pack(m, b, FileVisits(Walk(m, v, FilePath.Join(p, v.ListAt(m, p)[i].name))))
    ensures e.None? ==> Packed(m, b, v, p, i + 1, entries + sub)
    ensures e.Some? ==> Returned(entries + sub, e) == Pack(m, b, FileVisits(Walk(m, v, p)))
  {
    var c := FilePath.Join(p, v.ListAt(m, p)[i].name);
    FilesStep(m, v, p, i);
    PackAppend(m, b, FileVisits(WalkPrefix(m, v, p, i)), FileVisits(Walk(m, v, c)));
    if e.Some? {
      PackStops(m, b, v, p, i + 1);
    }
  }

  /** A file record of the listing: its entry follows those so far, and a
      file that cannot be read ends the packing of the whole folder. */
  lemma FileStep(m: OsFs.Nodes, b: GoString, v: Volume, p: GoString, i: nat, entries: seq<Entry>)
    requires OsFs.Wf(m) && i < |v.ListAt(m, p)| && v.ListAt(m, p)[i].dirs != 1
    requires Packed(m, b, v, p, i, entries)
    ensures var c := FilePath.Join(p, v.ListAt(m, p)[i].name);
      var d := OsFs.ReadFileOf(m, c);
      && (d.Fail? ==> Returned(entries, Some(d.error)) == Pack(m, b, FileVisits(Walk(m, v, p))))
      && (d.Ok? ==> Packed(m, b, v, p, i + 1, entries + [Entry(Strings.TrimPrefix(c, b), d.value)]))
  {
    var x := v.ListAt(m, p)[i];
    var c := FilePath.Join(p, x.name);
    FilesStep(m, v, p, i);
    PackFile(m, b, FileVisits(WalkPrefix(m, v, p, i)), Visit(c, x), entries);
    if OsFs.ReadFileOf(m, c).Fail? {
      PackStops(m, b, v, p, i + 1);
    }
  }

  lemma PackStopsNot(m: OsFs.Nodes, b: GoString, v: Volume, p: GoString, entries: seq<Entry>)
    requires OsFs.Wf(m) && Packed(m, b, v, p, |v.ListAt(m, p)|, entries)
    ensures Returned(entries, None) == Pack(m, b, FileVisits(Walk(m, v, p)))
  {
    WalkPrefixAll(m, v, p);
  }

  /** zipFolder names an entry by its path with the base folder and the
      "/" after it taken off: the base folder, a "/" and the name give the
      path back. */
  lemma EntryNameRebuildsPath(base: GoString, path: GoString)
    requires Strings.HasPrefix(path, Slash(base))
    ensures Slash(base) + Strings.TrimPrefix(path, Slash(base)) == path
  {
  }

  /** A folder target `p` is zipped relative to its parent, so the entry of
      a file `n` directly inside it is named "<folder name>/n". */
  lemma FolderEntryName(p: GoString, n: GoString)
    requires FilePath.IsCleanAbs(p) && p != "/" && FilePath.IsComponent(n)
    ensures Strings.TrimPrefix(FilePath.Join(p, n), Slash(FilePath.Dir(p))) == FilePath.Base(p) + "/" + n
  {
    FilePath.DirOfCleanAbs(p);
    FilePath.NoTrailingSlash(p);
    var d, bp := FilePath.Dir(p), FilePath.Base(p);
    var sd := Slash(d);
    JoinIsSlash(d, bp);
    JoinIsSlash(p, n);
    assert Slash(p) == p + "/";
    var c := FilePath.Join(p, n);
    LocalVolume.AppendAssoc(sd, bp, "/");
    LocalVolume.AppendAssoc(sd, bp + "/", n);
    assert c == sd + (bp + "/" + n);
    SplitPrefix(c, sd, bp + "/" + n);
  }

  /** Joining a name to a directory puts the name after the directory and
      a "/", unless the directory already ends in one. */
  lemma JoinIsSlash(d: GoString, name: GoString)
    requires d != [] && name != []
    ensures FilePath.Join(d, name) == Slash(d) + name
  {
  }

  /** A string that is `a` followed by `b` loses exactly `a` to TrimPrefix. */
  lemma SplitPrefix(c: GoString, a: GoString, b: GoString)
    requires c == a + b
    ensures Strings.TrimPrefix(c, a) == b
  {
    assert c[..|a|] == a;
  }
}
