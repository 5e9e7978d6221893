/** volume.go: `LocalFileVolume`, a volume over a directory `basePath` of
    the operating system's file system. Paths handed to it are real paths
    on that file system; the volume's records hash them with its id.
    Readers of uploaded content are given as the bytes they yield. */
module LocalVolume {
  import opened GoTypes
  import Strconv
  import Strings
  import FilePath
  import Util
  import OsFs

  /** The fields of `FileDir` (response.go) the volume fills in. */
  datatype FileDir = FileDir(
    name: GoString, hash: GoString, phash: GoString, mime: GoString,
    ts: int, size: int, dirs: nat, read: nat, write: nat,
    locked: nat, volumeid: GoString)

  /** `FileDir{}`. */
  const Empty: FileDir := FileDir([], [], [], [], 0, 0, 0, 0, 0, 0, [])

  /** `fmt.Sprintf("%s.%d_%d.part_%d", realPath, i, total, cid)`: the file
      that holds part `i` of upload `cid` of the file at `realPath`. */
  function PartPath(realPath: GoString, i: int, total: int, cid: int): GoString {
    realPath + "." + Strconv.Itoa(i) + "_" + Strconv.Itoa(total) + ".part_" + Strconv.Itoa(cid)
  }

  /** `fmt.Sprintf("%s_%d", filepath.Join(dirPath, chunkName), cid)`. */
  function ChunkPath(dirPath: GoString, chunkName: GoString, cid: int): GoString {
    FilePath.Join(dirPath, chunkName) + "_" + Strconv.Itoa(cid)
  }

  /** Joining a longer name only lengthens the joined path. */
  lemma JoinAppend(dir: GoString, name: GoString, tail: GoString)
    requires name != []
    ensures FilePath.Join(dir, name + tail) == FilePath.Join(dir, name) + tail
  {
    if dir != [] && dir[|dir| - 1] != '/' {
      assert dir + "/" + (name + tail) == dir + "/" + name + tail;
    }
  }

  /** A chunk uploaded under the name "<filename>.<i>_<total>.part" lands
      exactly where MergeChunk looks for part `i` of that file. */
  lemma UploadedChunkIsPart(dirPath: GoString, filename: GoString, i: int, total: int, cid: int)
    requires filename != []
    ensures ChunkPath(dirPath, filename + "." + Strconv.Itoa(i) + "_" + Strconv.Itoa(total) + ".part", cid)
         == PartPath(FilePath.Join(dirPath, filename), i, total, cid)
  {
    var a, b, c := Strconv.Itoa(i), Strconv.Itoa(total), Strconv.Itoa(cid);
    var tail := "." + a + "_" + b + ".part";
    assert filename + "." + a + "_" + b + ".part" == filename + tail;
    JoinAppend(dirPath, filename, tail);
    var r := FilePath.Join(dirPath, filename);
    assert r + tail + "_" + c == r + "." + a + "_" + b + ".part_" + c;
  }

  /** The record Info fills in from a stat. */
  function Record(fi: OsFs.FileInfo, hash: GoString, phash: GoString): FileDir {
    var rw := Util.ReadWritePem(fi.mode);
    FileDir(fi.name, hash, phash, if fi.isDir then "directory" else "file",
            fi.modTime, fi.size, if fi.isDir then 1 else 0, rw.0, rw.1, 0, [])
  }

  // ---- part paths ----

  /** Nothing after the real path in a part path is a separator. */
  lemma PartPathNoSlash(realPath: GoString, i: int, total: int, cid: int)
    ensures var q := PartPath(realPath, i, total, cid);
      |q| > |realPath| + 6 && q[..|realPath|] == realPath &&
      forall k | |realPath| <= k < |q| :: q[k] != '/'
  {
    var q := PartPath(realPath, i, total, cid);
    var a, b, c := Strconv.Itoa(i), Strconv.Itoa(total), Strconv.Itoa(cid);
    Strconv.ItoaChars(i);
    Strconv.ItoaChars(total);
    Strconv.ItoaChars(cid);
    var n := |realPath|;
    forall k | n <= k < |q| ensures q[k] != '/' {
      if k == n {
      } else if k < n + 1 + |a| {
        assert q[k] == a[k - n - 1];
      } else if k == n + 1 + |a| {
      } else if k < n + 2 + |a| + |b| {
        assert q[k] == b[k - n - 2 - |a|];
      } else if k < n + 8 + |a| + |b| {
        assert q[k] == ".part_"[k - n - 2 - |a| - |b|];
      } else {
        assert q[k] == c[k - n - 8 - |a| - |b|];
      }
    }
  }

  /** A part path is neither "" nor "/". */
  lemma PartPathLong(realPath: GoString, i: int, total: int, cid: int)
    ensures |PartPath(realPath, i, total, cid)| > 6
  {
  }

  /** Whether parts 0 to n-1 of an upload are all present. */
  predicate PartsPresent(m: OsFs.Nodes, realPath: GoString, cid: int, total: int, n: int) {
    forall j | 0 <= j < n :: PartPath(realPath, j, total, cid) in m
  }

  lemma PartsPresentStep(m: OsFs.Nodes, realPath: GoString, cid: int, total: int, n: nat)
    requires PartsPresent(m, realPath, cid, total, n) && PartPath(realPath, n, total, cid) in m
    ensures PartsPresent(m, realPath, cid, total, n + 1)
  {
  }

  /** Two digit runs each followed by "_" start two equal strings only if
      they are equal. */
  lemma DigitsThenUnderscore(a: GoString, b: GoString, x: GoString, y: GoString)
    requires Strconv.AllDigits(a) && Strconv.AllDigits(b) && a + "_" + x == b + "_" + y
    ensures a == b
  {
    var u := a + "_" + x;
    assert u[|a|] == '_' && u[|b|] == '_';
    assert forall k | 0 <= k < |a| :: u[k] == a[k];
    assert forall k | 0 <= k < |b| :: u[k] == b[k];
    assert |a| == |b|;
    assert a == u[..|a|] == b;
  }

  /** What follows the real path and the dot in a part path. */
  lemma PartPathTail(realPath: GoString, i: int, total: int, cid: int)
    ensures PartPath(realPath, i, total, cid)[|realPath| + 1..]
         == Strconv.Itoa(i) + "_" + (Strconv.Itoa(total) + ".part_" + Strconv.Itoa(cid))
  {
    var a := Strconv.Itoa(i);
    var rest := Strconv.Itoa(total) + ".part_" + Strconv.Itoa(cid);
    assert PartPath(realPath, i, total, cid) == realPath + "." + (a + "_" + rest);
  }

  /** The part index can be read back from a part path. */
  lemma PartPathInjective(realPath: GoString, i: nat, j: nat, total: int, cid: int)
    ensures PartPath(realPath, i, total, cid) == PartPath(realPath, j, total, cid) ==> i == j
  {
    if PartPath(realPath, i, total, cid) == PartPath(realPath, j, total, cid) {
      var rest := Strconv.Itoa(total) + ".part_" + Strconv.Itoa(cid);
      PartPathTail(realPath, i, total, cid);
      PartPathTail(realPath, j, total, cid);
      Strconv.ItoaShape(i);
      Strconv.ItoaShape(j);
      DigitsThenUnderscore(Strconv.Itoa(i), Strconv.Itoa(j), rest, rest);
      Strconv.ItoaInjective(i, j);
    }
  }

  /** A path with no separator past position `n` is not inside a longer
      path `p` of length at least `n` that does not end in one. */
  lemma NoSlashNotInside(q: GoString, p: GoString, n: nat)
    requires n <= |p| && p != [] && p[|p| - 1] != '/'
    requires forall k | n <= k < |q| :: q[k] != '/'
    ensures !Strings.HasPrefix(q, OsFs.Sep(p))
  {
    assert OsFs.Sep(p) == p + "/";
    if |p| < |q| {
      assert q[..|p| + 1][|p|] == q[|p|] != '/';
    }
  }

  /** Distinct parts of one upload live in distinct files, none inside
      another, and none is the merged file itself. */
  lemma PartPathsApart(realPath: GoString, i: nat, j: nat, total: int, cid: int)
    requires i != j
    ensures PartPath(realPath, j, total, cid) != realPath
    ensures !OsFs.Under(PartPath(realPath, j, total, cid), PartPath(realPath, i, total, cid))
  {
    var qi, qj := PartPath(realPath, i, total, cid), PartPath(realPath, j, total, cid);
    PartPathNoSlash(realPath, i, total, cid);
    PartPathNoSlash(realPath, j, total, cid);
    PartPathInjective(realPath, i, j, total, cid);
    NoSlashNotInside(qj, qi, |realPath|);
  }

  /** A part path is neither the merged file nor a directory above it. */
  lemma PartPathOutside(realPath: GoString, i: int, total: int, cid: int)
    ensures PartPath(realPath, i, total, cid) != realPath
    ensures !OsFs.Under(realPath, PartPath(realPath, i, total, cid))
  {
    var q := PartPath(realPath, i, total, cid);
    PartPathNoSlash(realPath, i, total, cid);
    assert |OsFs.Sep(q)| >= |q| > |realPath|;
  }

  /** The last separator of a path is not moved by appending bytes that
      hold none. */
  lemma {:induction false} LastSlashPastPrefix(p: GoString, q: GoString)
    requires |p| <= |q| && q[..|p|] == p
    requires forall k | |p| <= k < |q| :: q[k] != '/'
    ensures Strings.LastIndex(q, '/') == Strings.LastIndex(p, '/')
    decreases |q|
  {
    if |q| > |p| {
      var q' := q[..|q| - 1];
      assert q'[..|p|] == p;
      LastSlashPastPrefix(p, q');
    } else {
      assert q == p;
    }
  }

  /** A part lies in the directory of the merged file. */
  lemma DirOfPart(realPath: GoString, i: int, total: int, cid: int)
    ensures FilePath.Dir(PartPath(realPath, i, total, cid)) == FilePath.Dir(realPath)
  {
    var q := PartPath(realPath, i, total, cid);
    PartPathNoSlash(realPath, i, total, cid);
    LastSlashPastPrefix(realPath, q);
    var h := Strings.LastIndex(realPath, '/');
    if h > 0 {
      assert q[..h] == q[..|realPath|][..h];
    }
  }

  // ---- merging parts ----

  /** The part paths of upload `cid` of the file at `realPath`: parts 0
      to total. */
  function Parts(realPath: GoString, total: int, cid: int): (parts: seq<GoString>)
    ensures |parts| == if total >= 0 then total + 1 else 0
    ensures forall j | 0 <= j < |parts| :: parts[j] == PartPath(realPath, j, total, cid)
  {
    seq(if total >= 0 then total + 1 else 0, j => PartPath(realPath, j, total, cid))
  }

  /** The files a merge reads and removes are named, and apart from the
      file it writes and from each other. */
  predicate Apart(realPath: GoString, parts: seq<GoString>) {
    forall j | 0 <= j < |parts| ::
      && parts[j] != [] && parts[j] != realPath && !OsFs.Under(realPath, parts[j])
      && FilePath.Dir(parts[j]) == FilePath.Dir(realPath)
      && forall l | 0 <= l < |parts| && l != j :: !OsFs.Under(parts[l], parts[j])
  }

  lemma PartsAreApart(realPath: GoString, total: int, cid: int)
    ensures Apart(realPath, Parts(realPath, total, cid))
  {
    var parts := Parts(realPath, total, cid);
    forall j | 0 <= j < |parts|
      ensures parts[j] != [] && parts[j] != realPath && !OsFs.Under(realPath, parts[j])
      ensures FilePath.Dir(parts[j]) == FilePath.Dir(realPath)
      ensures forall l | 0 <= l < |parts| && l != j :: !OsFs.Under(parts[l], parts[j])
    {
      assert parts[j][|realPath|] == '.';
      PartPathOutside(realPath, j, total, cid);
      DirOfPart(realPath, j, total, cid);
      forall l | 0 <= l < |parts| && l != j ensures !OsFs.Under(parts[l], parts[j]) {
        PartPathsApart(realPath, j, l, total, cid);
      }
    }
  }

  /** The bytes of `parts[lo..hi]`, as read from `m`; a part that cannot
      be read contributes nothing. */
  function PartsData(m: OsFs.Nodes, parts: seq<GoString>, lo: nat, hi: nat): GoString
    requires lo <= hi <= |parts|
    decreases hi - lo
  {
    if lo == hi then []
    else
      (match OsFs.ReadFileOf(m, parts[lo])
       case Ok(d) => d
       case Fail(_) => []) + PartsData(m, parts, lo + 1, hi)
  }

  /** PartsData grows at its end by the bytes of the next part. */
  lemma {:induction false} PartsDataSnoc(m: OsFs.Nodes, parts: seq<GoString>, lo: nat, hi: nat)
    requires lo <= hi < |parts| && OsFs.ReadFileOf(m, parts[hi]).Ok?
    ensures PartsData(m, parts, lo, hi + 1) == PartsData(m, parts, lo, hi) + OsFs.ReadFileOf(m, parts[hi]).value
    decreases hi - lo
  {
    if lo < hi {
      PartsDataSnoc(m, parts, lo + 1, hi);
      var x := match OsFs.ReadFileOf(m, parts[lo]) case Ok(d) => d case Fail(_) => [];
      AppendAssoc(x, PartsData(m, parts, lo + 1, hi), OsFs.ReadFileOf(m, parts[hi]).value);
    }
  }

  lemma AppendAssoc<T>(a: seq<T>, b: seq<T>, c: seq<T>)
    ensures a + b + c == a + (b + c)
  {
  }

  /** The first part from `i` on that cannot be read, or |parts|. */
  function FirstUnreadable(m: OsFs.Nodes, parts: seq<GoString>, i: nat): (k: nat)
    requires i <= |parts|
    ensures i <= k <= |parts|
    ensures forall j | i <= j < k :: OsFs.ReadFileOf(m, parts[j]).Ok?
    ensures k < |parts| ==> OsFs.ReadFileOf(m, parts[k]).Fail?
    decreases |parts| - i
  {
    if i == |parts| || OsFs.ReadFileOf(m, parts[i]).Fail? then i
    else FirstUnreadable(m, parts, i + 1)
  }

  /** FirstUnreadable finds exactly the part that cannot be read after
      parts that can. */
  lemma {:induction false} FirstUnreadableIs(m: OsFs.Nodes, parts: seq<GoString>, i: nat, k: nat)
    requires i <= k <= |parts|
    requires forall j | i <= j < k :: OsFs.ReadFileOf(m, parts[j]).Ok?
    requires k < |parts| ==> OsFs.ReadFileOf(m, parts[k]).Fail?
    ensures FirstUnreadable(m, parts, i) == k
    decreases k - i
  {
    if i < k {
      FirstUnreadableIs(m, parts, i + 1, k);
    }
  }

  /** The file system `n` after the first `k` rounds of merging `parts`
      into the file at `realPath`, starting from `m`: the file holds those
      parts' bytes from its start, they are removed, the later parts read
      as before, and nothing else changed but the listing of the
      directory. */
  predicate Merged(m: OsFs.Nodes, realPath: GoString, parts: seq<GoString>, k: nat, n: OsFs.Nodes)
    requires k <= |parts| && realPath in m && m[realPath].File?
  {
    && realPath in n && n[realPath].File?
    && n[realPath].data == OsFs.Overwrite(m[realPath].data, PartsData(m, parts, 0, k))
    && (forall j | 0 <= j < k :: parts[j] !in n)
    && (forall j | k <= j < |parts| :: OsFs.ReadFileOf(n, parts[j]) == OsFs.ReadFileOf(m, parts[j]))
    && n.Keys <= m.Keys
    && (forall x | x in m && x != realPath && x != FilePath.Dir(realPath) && RemovedBy(x, parts, k) == false ::
          x in n && n[x] == m[x])
  }

  /** Whether `x` lies in the tree of one of the first `k` parts. */
  predicate RemovedBy(x: GoString, parts: seq<GoString>, k: nat)
    requires k <= |parts|
  {
    exists j | 0 <= j < k :: OsFs.Under(x, parts[j])
  }

  /** Nothing is merged before the first round. */
  lemma MergedStart(m: OsFs.Nodes, realPath: GoString, parts: seq<GoString>)
    requires realPath in m && m[realPath].File?
    ensures Merged(m, realPath, parts, 0, m)
  {
    assert OsFs.Overwrite(m[realPath].data, []) == m[realPath].data;
  }

  /** A round that copies part `i` at the end of what was merged and
      removes it reaches the state after `i + 1` rounds. */
  lemma MergedStep(m: OsFs.Nodes, realPath: GoString, parts: seq<GoString>, i: nat, n: OsFs.Nodes, now: int)
    requires Apart(realPath, parts) && i < |parts| && realPath in m && m[realPath].File?
    requires Merged(m, realPath, parts, i, n) && OsFs.ReadFileOf(m, parts[i]).Ok?
    ensures |PartsData(m, parts, 0, i)| <= |n[realPath].data|
    ensures |PartsData(m, parts, 0, i + 1)| == |PartsData(m, parts, 0, i)| + |OsFs.ReadFileOf(m, parts[i]).value|
    ensures var d := OsFs.ReadFileOf(m, parts[i]).value;
      Merged(m, realPath, parts, i + 1,
             OsFs.Removed(OsFs.Written(n, realPath, |PartsData(m, parts, 0, i)|, d, now), parts[i]))
  {
    var d := OsFs.ReadFileOf(m, parts[i]).value;
    var before := PartsData(m, parts, 0, i);
    OsFs.WriteAfter(m[realPath].data, before, d);
    PartsDataSnoc(m, parts, 0, i);
    var w := OsFs.Written(n, realPath, |before|, d, now);
    var n2 := OsFs.Removed(w, parts[i]);
    assert !OsFs.Under(realPath, parts[i]);
    assert n2[realPath] == w[realPath];
    forall j | i + 1 <= j < |parts|
      ensures OsFs.ReadFileOf(n2, parts[j]) == OsFs.ReadFileOf(m, parts[j])
    {
      assert parts[j] != realPath && !OsFs.Under(parts[j], parts[i]);
    }
    forall x | x in m && x != realPath && x != FilePath.Dir(realPath) && RemovedBy(x, parts, i + 1) == false
      ensures x in n2 && n2[x] == m[x]
    {
      assert RemovedBy(x, parts, i) == false && !OsFs.Under(x, parts[i]);
      assert FilePath.Dir(parts[i]) == FilePath.Dir(realPath);
    }
  }

  /** The whole of UploadChunk and UploadFile on the file system: open
      without truncating, then copy the bytes from the start. */
  function UploadOutcome(m: OsFs.Nodes, p: GoString, data: GoString, now: int): OsFs.Outcome {
    var o := OsFs.OpenOutcome(m, p, now);
    if o.err.Some? then o else OsFs.Outcome(OsFs.Written(o.nodes, p, 0, data, now), None)
  }

  /** Delivering the same chunk twice leaves the file system as delivering
      it once: the part file is neither truncated nor appended to. */
  lemma UploadIdempotent(m: OsFs.Nodes, p: GoString, data: GoString, now: int)
    requires UploadOutcome(m, p, data, now).err.None?
    ensures var once := UploadOutcome(m, p, data, now);
      UploadOutcome(once.nodes, p, data, now) == once
  {
    var once := UploadOutcome(m, p, data, now);
    OsFs.OverwriteIdempotent(OsFs.OpenOutcome(m, p, now).nodes[p].data, data);
  }

  /** Uploading fewer bytes than the file at `p` already holds keeps the
      old bytes past them: the file is not truncated. */
  lemma UploadKeepsTail(m: OsFs.Nodes, p: GoString, data: GoString, now: int)
    requires p in m && m[p].File? && |data| < |m[p].data|
    ensures var o := UploadOutcome(m, p, data, now);
      o.err.None? && o.nodes[p].data == data + m[p].data[|data|..]
  {
  }

  class LocalFileVolume {
    const id: GoString
    const basePath: GoString
    const disk: OsFs.Disk

    /** `NewLocalVolume(path)`: the id is GenerateID of the base path. */
    constructor (md5: GoString -> Util.Digest, path: GoString, disk: OsFs.Disk)
      ensures id == Util.GenerateID(md5, path) && basePath == path && this.disk == disk
    {
      id := Util.GenerateID(md5, path);
      basePath := path;
      this.disk := disk;
    }

    /** `f.hash(path)`. */
    function Hash(path: GoString): GoString
    {
      Util.CreateHash(id, path)
    }

    /** "" and "/" stand for the volume's base path. */
    function RealPath(path: GoString): GoString {
      if path == [] || path == "/" then basePath else path
    }

    /** `Info(path)` on the file system `m`: it succeeds exactly when the
        stat of the real path does. */
    function InfoAt(m: OsFs.Nodes, path: GoString): (r: Returned<FileDir>)
      ensures r.err.None? <==> RealPath(path) in m
    {
      var p := RealPath(path);
      var phash := if p != basePath then Hash(FilePath.Dir(p)) else [];
      match OsFs.StatOf(m, p)
      case Fail(e) => Returned(Empty.(phash := phash), Some(e))
      case Ok(fi) => Returned(Record(fi, Hash(p), phash), None)
    }

    /** The record Info builds. The parent hash is set, before the stat,
        unless the path is the base path; when the stat fails the record
        holds only it; otherwise the record describes the node. */
    lemma InfoAtRecord(m: OsFs.Nodes, path: GoString)
      ensures var r := InfoAt(m, path);
        && (r.value.phash == [] <==> RealPath(path) == basePath)
        && (RealPath(path) != basePath ==> r.value.phash == Hash(FilePath.Dir(RealPath(path))))
        && (r.err.Some? ==> r.value == Empty.(phash := r.value.phash) && r.err == Some(ErrNotExist))
        && (r.err.None? ==> var n := m[RealPath(path)];
             && r.value.name == FilePath.Base(RealPath(path))
             && r.value.hash == Hash(RealPath(path))
             && (r.value.mime == "directory" <==> n.Dir?) && (r.value.mime == "file" <==> n.File?)
             && (r.value.dirs == 1 <==> n.Dir?) && r.value.dirs <= 1
             && (r.value.read, r.value.write) == Util.ReadWritePem(n.mode)
             && r.value.ts == n.mtime && r.value.size == OsFs.StatNode(RealPath(path), n).size
             && r.value.locked == 0 && r.value.volumeid == [])
    {
    }

    /** `Info(path)`. */
    function Info(path: GoString): Returned<FileDir>
      reads disk
    {
      InfoAt(disk.nodes, path)
    }

    /** The records of the entries `names` of the directory `dir` whose
        Info succeeds, in order. */
    function Infos(m: OsFs.Nodes, dir: GoString, names: seq<GoString>): seq<FileDir>
    {
      if names == [] then []
      else
        var info := InfoAt(m, FilePath.Join(dir, names[0]));
        (if info.err.None? then [info.value] else []) + Infos(m, dir, names[1..])
    }

    /** What `List(path)` returns on the file system `m`. */
    function ListAt(m: OsFs.Nodes, path: GoString): seq<FileDir>
    {
      match OsFs.ReadDirOf(m, RealPath(path))
      case Fail(_) => []
      case Ok(names) => Infos(m, RealPath(path), names)
    }

    /** Infos keeps exactly the records of the entries whose Info
        succeeds, none of them twice unless the names repeat. */
    lemma {:induction false} InfosMembers(m: OsFs.Nodes, dir: GoString, names: seq<GoString>)
      ensures |Infos(m, dir, names)| <= |names|
      ensures forall x | x in Infos(m, dir, names) ::
        exists n | n in names :: InfoAt(m, FilePath.Join(dir, n)) == Returned(x, None)
      ensures forall n | n in names && InfoAt(m, FilePath.Join(dir, n)).err.None? ::
        InfoAt(m, FilePath.Join(dir, n)).value in Infos(m, dir, names)
    {
      if names != [] {
        InfosMembers(m, dir, names[1..]);
        assert forall n | n in names :: n == names[0] || n in names[1..];
      }
    }

    /** One step of Infos, from entry `i` on: the records gathered so far
        grow by the record of entry `i` when its Info succeeds. */
    lemma InfosStep(m: OsFs.Nodes, dir: GoString, names: seq<GoString>, i: nat, r: seq<FileDir>)
      requires i < |names| && r + Infos(m, dir, names[i..]) == Infos(m, dir, names)
      ensures var info := InfoAt(m, FilePath.Join(dir, names[i]));
        (r + if info.err.None? then [info.value] else []) + Infos(m, dir, names[i + 1..]) == Infos(m, dir, names)
    {
      assert names[i..][1..] == names[i + 1..];
      var info := InfoAt(m, FilePath.Join(dir, names[i]));
      var d := if info.err.None? then [info.value] else [];
      assert Infos(m, dir, names[i..]) == d + Infos(m, dir, names[i + 1..]);
      AppendAssoc(r, d, Infos(m, dir, names[i + 1..]));
    }

    /** `List(path)`: the records of the directory's entries in name
        order, skipping those whose Info fails; nothing when the directory
        cannot be read. */
    method List(path: GoString) returns (r: seq<FileDir>)
      ensures r == ListAt(disk.nodes, path)
    {
      var p := RealPath(path);
      var files := disk.ReadDir(p);
      if files.Fail? {
        return [];
      }
      var names := files.value;
      r := [];
      var i := 0;
      assert names[i..] == names;
      assert r + Infos(disk.nodes, p, names) == Infos(disk.nodes, p, names);
      while i < |names|
        invariant 0 <= i <= |names|
        invariant r + Infos(disk.nodes, p, names[i..]) == Infos(disk.nodes, p, names)
      {
        InfosStep(disk.nodes, p, names, i, r);
        var info := Info(FilePath.Join(p, names[i]));
        r := r + if info.err.None? then [info.value] else [];
        i := i + 1;
      }
      assert names[|names|..] == [];
      assert r + [] == r;
    }

    /** `UploadChunk(cid, dirPath, chunkName, reader)`: the chunk's bytes
        are written over the start of the part file, which is created when
        missing and never truncated. */
    method UploadChunk(cid: int, dirPath: GoString, chunkName: GoString, data: GoString) returns (err: Option<Error>)
      modifies disk
      ensures var o := UploadOutcome(old(disk.nodes), ChunkPath(dirPath, chunkName, cid), data, old(disk.now));
        disk.nodes == o.nodes && err == o.err
      ensures disk.now == old(disk.now)
    {
      var chunkRealPath := ChunkPath(dirPath, chunkName, cid);
      err := disk.OpenFile(chunkRealPath);
      if err.Some? {
        return;
      }
      disk.Write(chunkRealPath, 0, data);
    }

    /** `MergeChunk(cid, total, dirPath, filename)`: after opening the
        file without truncating it, parts 0 to total are copied into it in
        order, each removed once copied; the first part that cannot be
        read ends it with that error, otherwise the result is the Info of
        the merged file. */
    method MergeChunk(cid: int, total: int, dirPath: GoString, filename: GoString) returns (r: Returned<FileDir>)
      modifies disk
      ensures var o := OsFs.OpenOutcome(old(disk.nodes), FilePath.Join(dirPath, filename), old(disk.now));
        o.err.Some? ==> disk.nodes == old(disk.nodes) && r == Returned(Empty, o.err)
      ensures var realPath := FilePath.Join(dirPath, filename);
        var o := OsFs.OpenOutcome(old(disk.nodes), realPath, old(disk.now));
        var parts := Parts(realPath, total, cid);
        o.err.None? ==>
          var k := FirstUnreadable(o.nodes, parts, 0);
          && Merged(o.nodes, realPath, parts, k, disk.nodes)
          && (k < |parts| ==> r == Returned(Empty, Some(OsFs.ReadFileOf(o.nodes, parts[k]).error)))
          && (k == |parts| ==> r == InfoAt(disk.nodes, realPath))
      ensures disk.now == old(disk.now)
    {
      var realPath := FilePath.Join(dirPath, filename);
      var err := disk.OpenFile(realPath);
      if err.Some? {
        return Returned(Empty, err);
      }
      ghost var parts := Parts(realPath, total, cid);
      PartsAreApart(realPath, total, cid);
      ghost var start := disk.nodes;
      MergedStart(start, realPath, parts);
      var off: nat := 0;
      var i: nat := 0;
      while i <= total
        invariant i <= |parts|
        invariant forall j | 0 <= j < i :: OsFs.ReadFileOf(start, parts[j]).Ok?
        invariant Merged(start, realPath, parts, i, disk.nodes)
        invariant off == |PartsData(start, parts, 0, i)|
        invariant disk.now == old(disk.now)
        decreases total + 1 - i
      {
        var partPath := PartPath(realPath, i, total, cid);
        assert partPath == parts[i];
        var part := disk.ReadFile(partPath);
        if part.Fail? {
          FirstUnreadableIs(start, parts, 0, i);
          return Returned(Empty, Some(part.error));
        }
        MergedStep(start, realPath, parts, i, disk.nodes, disk.now);
        disk.Write(realPath, off, part.value);
        off := off + |part.value|;
        disk.RemoveAll(partPath);
        i := i + 1;
      }
      assert i == |parts|;
      FirstUnreadableIs(start, parts, 0, i);
      r := Info(realPath);
    }

    /** Info of a part path looks at that very path. */
    lemma InfoOfPart(m: OsFs.Nodes, realPath: GoString, i: int, total: int, cid: int)
      ensures InfoAt(m, PartPath(realPath, i, total, cid)).err.None? <==> PartPath(realPath, i, total, cid) in m
    {
      PartPathLong(realPath, i, total, cid);
    }

    /** `CompleteChunk(cid, total, dirPath, filename)`: whether every part
        0 to total is present. */
    method CompleteChunk(cid: int, total: int, dirPath: GoString, filename: GoString) returns (b: bool)
      ensures b <==> PartsPresent(disk.nodes, FilePath.Join(dirPath, filename), cid, total, total + 1)
    {
      var realPath := FilePath.Join(dirPath, filename);
      var i := 0;
      while i <= total
        invariant 0 <= i && (total >= 0 ==> i <= total + 1)
        invariant PartsPresent(disk.nodes, realPath, cid, total, i)
        decreases total + 1 - i
      {
        var partPath := PartPath(realPath, i, total, cid);
        var info := Info(partPath);
        InfoOfPart(disk.nodes, realPath, i, total, cid);
        if info.err.Some? {
          return false;
        }
        PartsPresentStep(disk.nodes, realPath, cid, total, i);
        i := i + 1;
      }
      return true;
    }

    /** `MakeDir(dir, newDirname)`: a new empty directory with every
        permission bit, then its Info. */
    method MakeDir(dir: GoString, newDirname: GoString) returns (r: Returned<FileDir>)
      modifies disk
      ensures var realPath := FilePath.Join(dir, newDirname);
        var o := OsFs.MkdirOutcome(old(disk.nodes), realPath, OsFs.ModePerm, old(disk.now), disk.dirSize);
        && disk.nodes == o.nodes
        && (o.err.Some? ==> r == Returned(Empty, o.err))
        && (o.err.None? ==> r == InfoAt(disk.nodes, realPath) && r.err.None? && r.value.mime == "directory")
      ensures disk.now == old(disk.now)
    {
      var realPath := FilePath.Join(dir, newDirname);
      var err := disk.Mkdir(realPath, OsFs.ModePerm);
      if err.Some? {
        return Returned(Empty, err);
      }
      r := Info(realPath);
    }

    /** `MakeFile(dir, newFilename)`: os.Create, so an existing file of
        that name is emptied; the parent hash is the hash of `dir`. */
    method MakeFile(dir: GoString, newFilename: GoString) returns (r: Returned<FileDir>)
      modifies disk
      ensures var realPath := FilePath.Join(dir, newFilename);
        var o := OsFs.CreateOutcome(old(disk.nodes), realPath, old(disk.now));
        && disk.nodes == o.nodes
        && (o.err.Some? ==> r == Returned(Empty, o.err))
        && (o.err.None? ==>
              && r.err.None? && realPath in disk.nodes && disk.nodes[realPath].data == []
              && r.value.name == FilePath.Base(realPath) && r.value.hash == Hash(realPath)
              && r.value.phash == Hash(dir) && r.value.size == 0 && r.value.mime == "file" && r.value.dirs == 0)
      ensures disk.now == old(disk.now)
    {
      var realPath := FilePath.Join(dir, newFilename);
      var err := disk.Create(realPath);
      if err.Some? {
        return Returned(Empty, err);
      }
      var f := disk.nodes[realPath];
      var rw := Util.ReadWritePem(f.mode);
      r := Returned(FileDir(FilePath.Base(realPath), Hash(realPath), Hash(dir), "file", f.mtime, 0, 0, rw.0, rw.1, 0, []), None);
    }

    /** `UploadFile(dir, filename, reader)`: like an uploaded chunk, the
        bytes are written over the start of the file without truncating
        it; then its Info. */
    method UploadFile(dir: GoString, filename: GoString, data: GoString) returns (r: Returned<FileDir>)
      modifies disk
      ensures var o := UploadOutcome(old(disk.nodes), FilePath.Join(dir, filename), data, old(disk.now));
        && disk.nodes == o.nodes
        && (o.err.Some? ==> r == Returned(Empty, o.err))
        && (o.err.None? ==> r == InfoAt(disk.nodes, FilePath.Join(dir, filename)))
      ensures disk.now == old(disk.now)
    {
      var realPath := FilePath.Join(dir, filename);
      var err := disk.OpenFile(realPath);
      if err.Some? {
        return Returned(Empty, err);
      }
      disk.Write(realPath, 0, data);
      r := Info(realPath);
    }

    /** `Rename(oldNamePath, newName)`: the entry moves within its
        directory; then the Info of the new path. */
    method Rename(oldNamePath: GoString, newName: GoString) returns (r: Returned<FileDir>)
      modifies disk
      ensures var newPath := FilePath.Join(FilePath.Dir(oldNamePath), newName);
        var o := OsFs.RenameOutcome(old(disk.nodes), oldNamePath, newPath);
        && disk.nodes == o.nodes
        && (o.err.Some? ==> r == Returned(Empty, o.err))
        && (o.err.None? ==> r == InfoAt(disk.nodes, newPath))
      ensures disk.now == old(disk.now)
    {
      var newPath := FilePath.Join(FilePath.Dir(oldNamePath), newName);
      var err := disk.Rename(oldNamePath, newPath);
      if err.Some? {
        return Returned(Empty, err);
      }
      r := Info(newPath);
    }

    /** `Remove(path)`: os.RemoveAll, which reports no error for a missing
        path. */
    method Remove(path: GoString) returns (err: Option<Error>)
      modifies disk
      ensures disk.nodes == OsFs.Removed(old(disk.nodes), path) && err == None
      ensures disk.now == old(disk.now)
    {
      disk.RemoveAll(path);
      err := None;
    }

    /** `GetFile(path)`: the bytes a reader of the file yields. */
    function GetFile(path: GoString): Result<GoString>
      reads disk
    {
      disk.ReadFile(path)
    }

    /** Where Paste writes: the joined path, with `suffix` appended when
        something by that name already exists. */
    function PasteTarget(m: OsFs.Nodes, dir: GoString, filename: GoString, suffix: GoString): (p: GoString)
      ensures RealPath(FilePath.Join(dir, filename)) in m ==> p == FilePath.Join(dir, filename) + suffix
      ensures RealPath(FilePath.Join(dir, filename)) !in m ==> p == FilePath.Join(dir, filename)
    {
      var realPath := FilePath.Join(dir, filename);
      if InfoAt(m, realPath).err.None? then realPath + suffix else realPath
    }

    /** `Paste(dir, filename, suffix, reader)`: the bytes are written to a
        new or emptied file at PasteTarget; then its Info. */
    method Paste(dir: GoString, filename: GoString, suffix: GoString, data: GoString) returns (r: Returned<FileDir>)
      modifies disk
      ensures var target := PasteTarget(old(disk.nodes), dir, filename, suffix);
        var o := OsFs.CreateOutcome(old(disk.nodes), target, old(disk.now));
        && (o.err.Some? ==> disk.nodes == o.nodes && r == Returned(Empty, o.err))
        && (o.err.None? ==> disk.nodes == OsFs.Written(o.nodes, target, 0, data, old(disk.now))
                            && disk.nodes[target].data == data
                            && r == InfoAt(disk.nodes, target))
      ensures disk.now == old(disk.now)
    {
      var realPath := FilePath.Join(dir, filename);
      var existing := Info(realPath);
      if existing.err.None? {
        realPath := realPath + suffix;
      }
      var err := disk.Create(realPath);
      if err.Some? {
        return Returned(Empty, err);
      }
      disk.Write(realPath, 0, data);
      r := Info(realPath);
    }

    /** `RootFileDir()`: the record of the base path as a locked root
        directory of this volume. The source dereferences the stat result
        without checking it, so the base path must exist. */
    function RootFileDir(): (r: FileDir)
      reads disk
      requires basePath in disk.nodes
      ensures r.mime == "directory" && r.dirs == 1 && r.locked == 1 && r.volumeid == id
      ensures r.phash == [] && r.hash == Hash(basePath) && r.name == FilePath.Base(basePath)
    {
      var fi := OsFs.StatNode(basePath, disk.nodes[basePath]);
      var rw := Util.ReadWritePem(fi.mode);
      FileDir(fi.name, Hash(basePath), [], "directory", 0, fi.size, 1, rw.0, rw.1, 1, id)
    }

    /** The root record is Info of the base path with the volume id, the
        lock, no time stamp, and the directory marks even when the base
        path is a file. */
    lemma RootFileDirIsInfo()
      requires basePath in disk.nodes && disk.nodes[basePath].Dir?
      ensures var info := InfoAt(disk.nodes, "/");
        info.err.None? && RootFileDir() == info.value.(ts := 0, locked := 1, volumeid := id)
    {
    }
  }
}
