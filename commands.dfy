/** commands.go: the newer target convention (a volume id, "_" and the
    base64url encoding of the path without its leading "/"), the command
    parser, the error response, the connector over `NewVolume`s, the
    FileInfo records built from `fs.Stat`/`fs.ReadDir`, and the walk of
    ParentsCommand. HTTP parsing and JSON output are not modelled: requests
    arrive as parameters and responses are returned. */
module Commands {
  import opened GoTypes
  import Strings
  import FilePath
  import Base64Url
  import Util
  import FsView
  import VolumeIndex

  // ---- target codec ----

  /** `EncodePath(path)`: base64url without padding. */
  function EncodePath(path: GoString): GoString {
    Base64Url.Encode(path)
  }

  /** `DecodePath(hashPath)`: "/" followed by the decoded bytes, or "" and
      the decoder's error. */
  function DecodePath(hashPath: GoString): (r: Returned<GoString>)
    ensures r.err.None? ==> |r.value| > 0 && r.value[0] == '/'
    ensures r.err.Some? ==> r == Returned([], Some(ErrCorruptInput))
    ensures r.err.None? <==> Base64Url.Decode(hashPath).Some?
  {
    match Base64Url.Decode(hashPath)
    case None => Returned([], Some(ErrCorruptInput))
    case Some(p) => Returned("/" + p, None)
  }

  /** DecodePath undoes EncodePath and puts a "/" in front. */
  lemma DecodeEncodePath(p: GoString)
    ensures DecodePath(EncodePath(p)) == Returned("/" + p, None)
  {
    Base64Url.DecodeEncode(p);
  }

  /** `hashPath(id, path)`: one leading "/" is dropped before encoding. */
  function HashPath(id: GoString, path: GoString): GoString {
    id + "_" + EncodePath(Strings.TrimPrefix(path, "/"))
  }

  /** A parsed target: `(id, path, err)`. */
  datatype Target = Target(id: GoString, path: GoString, err: Option<Error>)

  /** `parseTarget(target)`: `strings.SplitN(target, "_", 2)`; without a
      "_" the target is invalid; otherwise the id is what precedes the
      first "_" and the path is DecodePath of the rest (the id is returned
      even when decoding fails). */
  function ParseTarget(target: GoString): (r: Target)
    ensures Strings.Index(target, '_') < 0 <==> r == Target([], [], Some(ErrValidTarget))
    ensures Strings.Index(target, '_') >= 0 ==>
      var i := Strings.Index(target, '_');
      && r.id == target[..i]
      && Returned(r.path, r.err) == DecodePath(target[i + 1..])
  {
    var i := Strings.Index(target, '_');
    if i < 0 then Target([], [], Some(ErrValidTarget))
    else
      var d := DecodePath(target[i + 1..]);
      Target(target[..i], d.value, d.err)
  }

  /** For an id without "_", parsing the hash of a path gives back the id
      and the path, with its leading "/" restored (or added). */
  lemma ParseHashPath(id: GoString, p: GoString)
    requires forall k | 0 <= k < |id| :: id[k] != '_'
    ensures ParseTarget(HashPath(id, p)) ==
      Target(id, if Strings.HasPrefix(p, "/") then p else "/" + p, None)
  {
    var t := HashPath(id, p);
    var rest := Strings.TrimPrefix(p, "/");
    assert t[|id|] == '_';
    assert Strings.Index(t, '_') == |id| by {
      assert forall k | 0 <= k < |id| :: t[k] != '_';
    }
    assert t[..|id|] == id;
    assert t[|id| + 1..] == EncodePath(rest);
    DecodeEncodePath(rest);
    if Strings.HasPrefix(p, "/") {
      assert "/" + rest == p;
    }
  }

  // ---- commands and errors ----

  /** `url.Values.Get(key)`: the first value for the key, or "". */
  function QueryGet(q: map<GoString, seq<GoString>>, key: GoString): GoString {
    if key in q && |q[key]| > 0 then q[key][0] else []
  }

  /** `parseCommand(req)`: the `cmd` query parameter; a missing or empty
      one is errNoFoundCmd. */
  function ParseCommand(q: map<GoString, seq<GoString>>): (r: Returned<GoString>)
    ensures r.err.Some? <==> !("cmd" in q && |q["cmd"]| > 0 && q["cmd"][0] != [])
    ensures r.err.Some? ==> r == Returned([], Some(ErrNoFoundCmd))
    ensures r.err.None? ==> r.value == q["cmd"][0]
  {
    var cmd := QueryGet(q, "cmd");
    if cmd == [] then Returned([], Some(ErrNoFoundCmd)) else Returned(cmd, None)
  }

  /** The value under "err" in an error response: one error, or the list. */
  datatype ErrValue = One(e: Error) | Many(es: seq<Error>)

  function ErrorsOf(v: ErrValue): seq<Error> {
    match v
    case One(e) => [e]
    case Many(es) => es
  }

  /** `NewErr(errs...)`: a response whose only key is "err", holding the
      single error itself or, for any other count, the list. */
  function NewErr(errs: seq<Error>): (r: map<GoString, ErrValue>)
    ensures r.Keys == {"err"}
    ensures r["err"].One? <==> |errs| == 1
    ensures ErrorsOf(r["err"]) == errs
  {
    if |errs| == 1 then map["err" := One(errs[0])] else map["err" := Many(errs)]
  }

  // ---- file records ----

  /** The fields of `FileInfo` (file_info.go) the connector fills in. */
  datatype FileInfo = FileInfo(
    name: GoString, hash: GoString, phash: GoString, mime: GoString,
    ts: int, size: int, dirs: nat, read: nat, write: nat, locked: nat,
    volumeid: GoString, isroot: nat)

  predicate HasSubdir(items: seq<FsView.Stat>) {
    exists i | 0 <= i < |items| :: items[i].isDir
  }

  /** `CreateFileInfo(id, vol, path, fsInfo)`: the record for `path` from a
      stat result. A directory is listed (with `fs.ReadDir(vol, path)`) to
      find whether it has a subdirectory, stopping at the first one. */
  method CreateFileInfo(id: GoString, vol: FsView.FsVolume, path: GoString, fsInfo: FsView.Stat)
    returns (r: Result<FileInfo>)
    ensures r.Fail? <==> fsInfo.isDir && path !in vol.listings
    ensures r.Fail? ==> r.error == ErrNotExist
    ensures r.Ok? ==>
      var fi := r.value;
      && fi.hash == HashPath(id, path)
      && (fi.isroot == 1 <==> path == [] || path == "/") && fi.isroot <= 1
      && fi.phash == (if fi.isroot == 1 then [] else HashPath(id, FilePath.Dir(path)))
      && fi.mime == (if fsInfo.isDir then "directory" else "file")
      && (fi.dirs == 1 <==> fsInfo.isDir && HasSubdir(vol.listings[path])) && fi.dirs <= 1
      && fi.read == 1 && fi.write == 1 && fi.locked == 0
      && fi.volumeid == id + "_"
      && fi.name == fsInfo.name && fi.size == fsInfo.size && fi.ts == fsInfo.modTime
  {
    var isRoot := if path != [] && path != "/" then 0 else 1;
    var parentHash := if isRoot == 0 then HashPath(id, FilePath.Dir(path)) else [];
    var mimeType: GoString := "file";
    var hasDirs := 0;
    if fsInfo.isDir {
      mimeType := "directory";
      var listing := FsView.ReadDir(vol, path);
      if listing.Fail? {
        return Fail(listing.error);
      }
      var items := listing.value;
      var i := 0;
      while i < |items|
        invariant 0 <= i <= |items| && hasDirs <= 1
        invariant hasDirs == 0 ==> forall k | 0 <= k < i :: !items[k].isDir
        invariant hasDirs == 1 ==> HasSubdir(items)
      {
        if items[i].isDir {
          hasDirs := 1;
          break;
        }
        i := i + 1;
      }
    }
    r := Ok(FileInfo(fsInfo.name, HashPath(id, path), parentHash, mimeType, fsInfo.modTime,
                     fsInfo.size, hasDirs, 1, 1, 0, id + "_", isRoot));
  }

  /** The path inside the volume that `fs.Stat`/`fs.ReadDir` is given for a
      connector path: the "/" + name prefix and then one "/" are trimmed,
      and an empty result stands for the volume root ".". */
  function RelPath(volName: GoString, path: GoString): GoString {
    var rel := Strings.TrimPrefix(Strings.TrimPrefix(path, "/" + volName), "/");
    if rel == [] then "." else rel
  }

  /** `CreateFileInfoByPath(id, vol, path)`: the record for `path` from
      `fs.Stat` of its RelPath. */
  function CreateFileInfoByPath(id: GoString, vol: FsView.FsVolume, path: GoString): Result<FileInfo>
  {
    var volRoot := "/" + vol.name;
    var isRoot := path == volRoot;
    var rel := Strings.TrimPrefix(Strings.TrimPrefix(path, volRoot), "/");
    var name := if rel == [] then vol.name else [];
    match FsView.StatOf(vol, RelPath(vol.name, path))
    case Fail(e) => Fail(e)
    case Ok(info) =>
      Ok(FileInfo(
        if name == [] then info.name else name,
        HashPath(id, path),
        if isRoot then [] else HashPath(id, FilePath.Dir(path)),
        if info.isDir then "directory" else "file",
        info.modTime, info.size,
        if info.isDir then 1 else 0,
        1, 1, 0,
        if info.isDir then id + "_" else [],
        if isRoot then 1 else 0))
  }

  /** What CreateFileInfoByPath reports: the volume root is the path "/" +
      vol.Name(); it alone is marked root, has no parent hash and is named
      after the volume; every other record's parent hash is the hash of
      its Dir; directories, and only they, carry the volume id. */
  lemma CreateFileInfoByPathFields(id: GoString, vol: FsView.FsVolume, path: GoString)
    ensures CreateFileInfoByPath(id, vol, path).Ok? <==> RelPath(vol.name, path) in vol.stats
    ensures CreateFileInfoByPath(id, vol, path).Fail? ==> CreateFileInfoByPath(id, vol, path).error == ErrNotExist
    ensures CreateFileInfoByPath(id, vol, path).Ok? ==>
      var fi := CreateFileInfoByPath(id, vol, path).value;
      var info := vol.stats[RelPath(vol.name, path)];
      && fi.hash == HashPath(id, path)
      && (fi.isroot == 1 <==> path == "/" + vol.name) && fi.isroot <= 1
      && fi.phash == (if fi.isroot == 1 then [] else HashPath(id, FilePath.Dir(path)))
      && (fi.dirs == 1 <==> info.isDir) && fi.dirs <= 1
      && fi.mime == (if info.isDir then "directory" else "file")
      && fi.volumeid == (if info.isDir then id + "_" else [])
      && (fi.isroot == 1 && vol.name != [] ==> fi.name == vol.name)
      && fi.read == 1 && fi.write == 1 && fi.locked == 0
      && fi.size == info.size && fi.ts == info.modTime
  {
  }

  /** The records ReadFilesByPath builds for `entries`, listed in `path`:
      the first failure is the result. */
  function ReadAll(id: GoString, vol: FsView.FsVolume, path: GoString, entries: seq<FsView.Stat>)
    : Result<seq<FileInfo>>
    decreases |entries|
  {
    if entries == [] then Ok([])
    else match CreateFileInfoByPath(id, vol, FilePath.Join(path, entries[0].name))
      case Fail(e) => Fail(e)
      case Ok(info) =>
        match ReadAll(id, vol, path, entries[1..])
        case Fail(e) => Fail(e)
        case Ok(infos) => Ok([info] + infos)
  }

  /** ReadAll succeeds exactly when every entry's record can be built, and
      then holds those records in listing order. */
  lemma {:induction false} ReadAllOk(id: GoString, vol: FsView.FsVolume, path: GoString, entries: seq<FsView.Stat>)
    ensures ReadAll(id, vol, path, entries).Ok? <==>
      forall k | 0 <= k < |entries| :: CreateFileInfoByPath(id, vol, FilePath.Join(path, entries[k].name)).Ok?
    ensures ReadAll(id, vol, path, entries).Ok? ==>
      var infos := ReadAll(id, vol, path, entries).value;
      && |infos| == |entries|
      && forall k | 0 <= k < |entries| ::
           Ok(infos[k]) == CreateFileInfoByPath(id, vol, FilePath.Join(path, entries[k].name))
    decreases |entries|
  {
    if entries != [] {
      ReadAllOk(id, vol, path, entries[1..]);
      var r := ReadAll(id, vol, path, entries);
      if r.Ok? {
        var infos := r.value;
        forall k | 0 <= k < |entries|
          ensures Ok(infos[k]) == CreateFileInfoByPath(id, vol, FilePath.Join(path, entries[k].name))
        {
          if k > 0 { assert entries[1..][k - 1] == entries[k]; }
        }
      } else {
        if CreateFileInfoByPath(id, vol, FilePath.Join(path, entries[0].name)).Ok? {
          var k :| 0 <= k < |entries[1..]| &&
            !CreateFileInfoByPath(id, vol, FilePath.Join(path, entries[1..][k].name)).Ok?;
          assert entries[1..][k] == entries[k + 1];
        }
      }
    }
  }

  /** When the entries before `k` give records and entry `k` does not,
      ReadAll fails with entry k's error. */
  lemma {:induction false} ReadAllFail(id: GoString, vol: FsView.FsVolume, path: GoString,
                                       entries: seq<FsView.Stat>, k: nat)
    requires k < |entries|
    requires forall j | 0 <= j < k :: CreateFileInfoByPath(id, vol, FilePath.Join(path, entries[j].name)).Ok?
    requires CreateFileInfoByPath(id, vol, FilePath.Join(path, entries[k].name)).Fail?
    ensures ReadAll(id, vol, path, entries) ==
      Fail(CreateFileInfoByPath(id, vol, FilePath.Join(path, entries[k].name)).error)
    decreases k
  {
    if k > 0 {
      forall j | 0 <= j < k - 1
        ensures CreateFileInfoByPath(id, vol, FilePath.Join(path, entries[1..][j].name)).Ok?
      {
        assert entries[1..][j] == entries[j + 1];
      }
      assert entries[1..][k - 1] == entries[k];
      ReadAllFail(id, vol, path, entries[1..], k - 1);
      assert CreateFileInfoByPath(id, vol, FilePath.Join(path, entries[0].name)).Ok?;
    }
  }

  /** What ReadFilesByPath returns: the error of `fs.ReadDir`, or ReadAll of
      the entries. */
  function ReadFiles(id: GoString, vol: FsView.FsVolume, path: GoString): Result<seq<FileInfo>> {
    match FsView.ReadDir(vol, RelPath(vol.name, path))
    case Fail(e) => Fail(e)
    case Ok(entries) => ReadAll(id, vol, path, entries)
  }

  /** `ReadFilesByPath(id, vol, path)`: the record of every entry of the
      directory, built by CreateFileInfoByPath on `filepath.Join(path,
      name)`; a failed ReadDir or record ends the call with its error. */
  method ReadFilesByPath(id: GoString, vol: FsView.FsVolume, path: GoString)
    returns (r: Result<seq<FileInfo>>)
    ensures r == ReadFiles(id, vol, path)
  {
    var dirPath := RelPath(vol.name, path);
    var listing := FsView.ReadDir(vol, dirPath);
    if listing.Fail? {
      return Fail(listing.error);
    }
    var files := listing.value;
    var res: seq<FileInfo> := [];
    var i := 0;
    assert files[0..] == files;
    assert Prepend(res, ReadAll(id, vol, path, files)) == ReadAll(id, vol, path, files) by {
      var all := ReadAll(id, vol, path, files);
      if all.Ok? { assert res + all.value == all.value; }
    }
    while i < |files|
      invariant 0 <= i <= |files|
      invariant Prepend(res, ReadAll(id, vol, path, files[i..])) == ReadAll(id, vol, path, files)
    {
      var subPath := FilePath.Join(path, files[i].name);
      var info := CreateFileInfoByPath(id, vol, subPath);
      ReadAllStep(id, vol, path, files, i);
      if info.Fail? {
        return Fail(info.error);
      }
      PrependAssoc(res, [info.value], ReadAll(id, vol, path, files[i + 1..]));
      res := res + [info.value];
      i := i + 1;
    }
    assert files[|files|..] == [] && res + [] == res;
    r := Ok(res);
  }

  /** One step of ReadAll over the entries from `i` on. */
  lemma ReadAllStep(id: GoString, vol: FsView.FsVolume, path: GoString, entries: seq<FsView.Stat>, i: nat)
    requires i < |entries|
    ensures ReadAll(id, vol, path, entries[i..]) ==
      match CreateFileInfoByPath(id, vol, FilePath.Join(path, entries[i].name))
      case Fail(e) => Fail(e)
      case Ok(info) => Prepend([info], ReadAll(id, vol, path, entries[i + 1..]))
  {
    assert entries[i..][1..] == entries[i + 1..];
  }

  lemma PrependAssoc(a: seq<FileInfo>, b: seq<FileInfo>, r: Result<seq<FileInfo>>)
    ensures Prepend(a, Prepend(b, r)) == Prepend(a + b, r)
  {
    if r.Ok? { assert a + (b + r.value) == a + b + r.value; }
  }

  /** Every record ReadFilesByPath returns for a clean directory below the
      volume root hashes its own path and points back at the directory:
      its parent hash is the directory's hash. */
  lemma ReadFilesLinkToParent(id: GoString, vol: FsView.FsVolume, path: GoString, entries: seq<FsView.Stat>)
    requires FilePath.IsCleanAbs(path) && path != "/"
    requires FilePath.IsComponent(vol.name)
    requires forall k | 0 <= k < |entries| :: FilePath.IsComponent(entries[k].name)
    requires ReadAll(id, vol, path, entries).Ok?
    ensures var infos := ReadAll(id, vol, path, entries).value;
      && |infos| == |entries|
      && forall k | 0 <= k < |entries| ::
           && infos[k].hash == HashPath(id, FilePath.Join(path, entries[k].name))
           && infos[k].phash == HashPath(id, path)
           && infos[k].isroot == 0
  {
    ReadAllOk(id, vol, path, entries);
    forall k | 0 <= k < |entries|
      ensures FilePath.Join(path, entries[k].name) != "/" + vol.name
      ensures FilePath.Dir(FilePath.Join(path, entries[k].name)) == path
    {
      var child := FilePath.Join(path, entries[k].name);
      CreateFileInfoByPathFields(id, vol, child);
      FilePath.JoinDirBase(path, entries[k].name);
      FilePath.NoTrailingSlash(path);
      assert child == path + "/" + entries[k].name;
      assert child[|path|] == '/';
      assert |path| > 1 && path[0] == '/';
    }
  }

  // ---- the connector ----

  /** The id of each volume: MD5ID of its name. */
  function VolIds(md5: GoString -> Util.Digest, vs: seq<FsView.FsVolume>): (ids: seq<GoString>)
    ensures |ids| == |vs|
    ensures forall i | 0 <= i < |vs| :: ids[i] == Util.MD5ID(md5, vs[i].name)
  {
    seq(|vs|, i requires 0 <= i < |vs| => Util.MD5ID(md5, vs[i].name))
  }

  /** `Connector` of commands.go, built by its `NewConnector(vols...)`. */
  class Connector {
    var defaultVol: Option<FsView.FsVolume>
    var vols: map<GoString, FsView.FsVolume>
    var created: int

    /** `NewConnector(vols...)`: each volume under MD5ID of its name, in
        order; the first volume is the default. `now` stands for
        time.Now(). */
    constructor (md5: GoString -> Util.Digest, vs: seq<FsView.FsVolume>, now: int)
      ensures vols == VolumeIndex.Index(VolIds(md5, vs), vs)
      ensures defaultVol == VolumeIndex.First(vs)
      ensures created == now
    {
      var m := VolumeIndex.Fill(VolIds(md5, vs), vs);
      vols := m;
      defaultVol := VolumeIndex.First(vs);
      created := now;
    }

    /** `GetVolId(v)`: the key under which `v` itself (the same object) is
        stored, or "" when it is not stored. Go visits the map in an
        unspecified order, so when `v` is stored under several keys any one
        of them may come back. */
    method GetVolId(v: FsView.FsVolume) returns (id: GoString)
      ensures (exists k | k in vols :: vols[k] == v) <==> (id in vols && vols[id] == v)
      ensures !(id in vols && vols[id] == v) ==> id == []
    {
      var keys := vols.Keys;
      while keys != {}
        invariant keys <= vols.Keys
        invariant forall k | k in vols && k !in keys :: vols[k] != v
        decreases keys
      {
        var k :| k in keys;
        if vols[k] == v {
          return k;
        }
        keys := keys - {k};
      }
      return [];
    }

    /** `getVolByTarget(target)`: parseTarget, with the id and path
        cleared when it fails. */
    function GetVolByTarget(target: GoString): (r: Target)
      ensures r.err.Some? ==> r.id == [] && r.path == []
      ensures r.err.None? ==> r == ParseTarget(target)
      ensures r.err == ParseTarget(target).err
    {
      var t := ParseTarget(target);
      if t.err.Some? then Target([], [], t.err) else t
    }

    /** ParentsCommand after the `target` parameter has been bound: the
        record of the target's path, then, for each step of the walk up
        to "/", the record of the parent and the records of its entries. */
    method ParentsCommand(target: GoString) returns (reply: ParentsReply)
      ensures ParseTarget(target).err.Some? ==>
        reply == ErrReply(NewErr([ParseTarget(target).err.value]))
      ensures ParseTarget(target).err.None? ==>
        var t := ParseTarget(target);
        reply == if t.id !in vols then Panicked
                 else match ParentsTree(t.id, vols[t.id], t.path)
                   case Ok(tree) => Tree(tree)
                   case Fail(_) => Panicked
    {
      var t := GetVolByTarget(target);
      if t.err.Some? {
        return ErrReply(NewErr([t.err.value]));
      }
      if t.id !in vols {
        return Panicked;
      }
      var id, vol, path := t.id, vols[t.id], t.path;
      var cwd := CreateFileInfoByPath(id, vol, path);
      if cwd.Fail? {
        return Panicked;
      }
      var tree := [cwd.value];
      while path != "/"
        invariant |path| > 0 && path[0] == '/'
        invariant Prepend(tree, Walk(id, vol, path)) == ParentsTree(id, vol, t.path)
        decreases |path|
      {
        FilePath.DirClimbs(path);
        WalkStep(id, vol, path);
        var d := FilePath.Dir(path);
        var info := CreateFileInfoByPath(id, vol, d);
        if info.Fail? {
          return Panicked;
        }
        var dirs := ReadFilesByPath(id, vol, d);
        if dirs.Fail? {
          return Panicked;
        }
        PrependAssoc(tree, [info.value] + dirs.value, Walk(id, vol, d));
        tree := tree + ([info.value] + dirs.value);
        path := d;
      }
      assert Walk(id, vol, path) == Ok([]) && tree + [] == tree;
      reply := Tree(tree);
    }
  }

  datatype ParentsReply = Tree(tree: seq<FileInfo>) | ErrReply(err: map<GoString, ErrValue>) | Panicked

  /** `acc` followed by the records of `r`, or the error of `r`. */
  function Prepend(acc: seq<FileInfo>, r: Result<seq<FileInfo>>): Result<seq<FileInfo>> {
    match r
    case Ok(x) => Ok(acc + x)
    case Fail(e) => Fail(e)
  }

  /** The records the loop of ParentsCommand appends, from `path` up to
      "/": the parent's record and then its entries' records, step by
      step. */
  function Walk(id: GoString, vol: FsView.FsVolume, path: GoString): Result<seq<FileInfo>>
    requires |path| > 0 && path[0] == '/'
    decreases |path|
  {
    if path == "/" then Ok([])
    else
      FilePath.DirClimbs(path);
      var d := FilePath.Dir(path);
      match CreateFileInfoByPath(id, vol, d)
      case Fail(e) => Fail(e)
      case Ok(info) =>
        match ReadFiles(id, vol, d)
        case Fail(e) => Fail(e)
        case Ok(infos) => Prepend([info] + infos, Walk(id, vol, d))
  }

  /** One step of the walk: from `path` to its parent directory. */
  lemma WalkStep(id: GoString, vol: FsView.FsVolume, path: GoString)
    requires |path| > 0 && path[0] == '/' && path != "/"
    ensures |FilePath.Dir(path)| > 0 && FilePath.Dir(path)[0] == '/'
    ensures Walk(id, vol, path) ==
      match CreateFileInfoByPath(id, vol, FilePath.Dir(path))
      case Fail(e) => Fail(e)
      case Ok(info) =>
        match ReadFiles(id, vol, FilePath.Dir(path))
        case Fail(e) => Fail(e)
        case Ok(infos) => Prepend([info] + infos, Walk(id, vol, FilePath.Dir(path)))
  {
    FilePath.DirClimbs(path);
  }

  /** The tree ParentsCommand replies with for a decoded path. */
  function ParentsTree(id: GoString, vol: FsView.FsVolume, path: GoString): Result<seq<FileInfo>>
    requires |path| > 0 && path[0] == '/'
  {
    match CreateFileInfoByPath(id, vol, path)
    case Fail(e) => Fail(e)
    case Ok(cwd) => Prepend([cwd], Walk(id, vol, path))
  }

  /** The directories the walk visits: Dir of the path, Dir of that, and so
      on up to "/". */
  function Ancestors(path: GoString): seq<GoString>
    requires |path| > 0 && path[0] == '/'
    decreases |path|
  {
    if path == "/" then []
    else
      FilePath.DirClimbs(path);
      [FilePath.Dir(path)] + Ancestors(FilePath.Dir(path))
  }

  /** The ancestors of a path other than "/" end with "/". */
  lemma {:induction false} AncestorsEndAtRoot(path: GoString)
    requires |path| > 0 && path[0] == '/' && path != "/"
    ensures |Ancestors(path)| > 0 && Ancestors(path)[|Ancestors(path)| - 1] == "/"
    decreases |path|
  {
    FilePath.DirClimbs(path);
    var d := FilePath.Dir(path);
    if d != "/" {
      AncestorsEndAtRoot(d);
    }
  }

  /** A successful walk holds, for every ancestor of the path, that
      ancestor's record. */
  lemma {:induction false} WalkVisitsAncestors(id: GoString, vol: FsView.FsVolume, path: GoString, k: nat)
    requires |path| > 0 && path[0] == '/'
    requires Walk(id, vol, path).Ok? && k < |Ancestors(path)|
    ensures CreateFileInfoByPath(id, vol, Ancestors(path)[k]).Ok?
    ensures CreateFileInfoByPath(id, vol, Ancestors(path)[k]).value in Walk(id, vol, path).value
    decreases |path|
  {
    FilePath.DirClimbs(path);
    var d := FilePath.Dir(path);
    var info := CreateFileInfoByPath(id, vol, d).value;
    var infos := ReadFiles(id, vol, d).value;
    assert Walk(id, vol, path).value == [info] + infos + Walk(id, vol, d).value;
    if k > 0 {
      WalkVisitsAncestors(id, vol, d, k - 1);
    }
  }

  /** The walk climbs past the volume root "/" + name to "/". The record
      of "/" is the volume root's stat again, is not marked as root, and
      names itself as its parent: its parent hash equals its hash. */
  lemma ParentsRevisitsRoot(id: GoString, vol: FsView.FsVolume)
    requires FilePath.IsComponent(vol.name) && "." in vol.stats
    ensures var r := CreateFileInfoByPath(id, vol, "/");
      && r.Ok? && r.value.isroot == 0 && r.value.phash == r.value.hash
      && r.value.size == vol.stats["."].size
  {
    assert !Strings.HasPrefix("/", "/" + vol.name);
    assert FilePath.Dir("/") == "/";
    assert RelPath(vol.name, "/") == ".";
    CreateFileInfoByPathFields(id, vol, "/");
  }
}
