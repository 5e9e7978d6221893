/** The ElFinderConnector of elfinder.go: the volumes by id with a default
    volume, the zip size ceiling and temporary folder, and the commands
    that list a folder, sum sizes, build a zip archive and hand a finished
    archive out once.

    Requests are parameters and responses are returned: the `req` and `res`
    fields of the connector are not modelled. Every volume lives on the
    connector's `disk`; the archive registry is passed to the commands that
    use it, as the package-level map it is in the source. */
module ElFinderConnector {
  import opened GoTypes
  import Strings
  import Strconv
  import FilePath
  import OsFs
  import VolumeIndex
  import ZipFiles
  import LocalVolume
  import opened ElFinder

  type FileDir = LocalVolume.FileDir

  /** The id of every volume, in order: what `vol.ID()` returns. */
  function Ids(vs: seq<Volume>): (ids: seq<GoString>)
    ensures |ids| == |vs| && forall i | 0 <= i < |vs| :: ids[i] == vs[i].id
  {
    seq(|vs|, i requires 0 <= i < |vs| => vs[i].id)
  }

  // ---- the zipmaxsize option ----

  /** A key the option switch reads as "zipmaxsize": any letter case. */
  predicate IsSizeKey(k: GoString) {
    Strings.ToLower(k) == "zipmaxsize"
  }

  /** What Atoi makes of an option value, with 0 for a value it rejects. */
  function SizeValue(s: GoString): int {
    var a := Strconv.Atoi(s);
    if a.err.None? then a.value else 0
  }

  /** The sizes the options can set: the positive values of the
      "zipmaxsize" keys. */
  function OptionSizes(option: map<GoString, GoString>): set<int> {
    set k | k in option && IsSizeKey(k) && SizeValue(option[k]) > 0 :: SizeValue(option[k])
  }

  /** The "ziptmppath" option key, in any letter case. */
  predicate IsTmpKey(k: GoString) {
    Strings.ToLower(k) == "ziptmppath"
  }

  /** The folders the options can name for temporary archives. */
  function OptionTmpPaths(option: map<GoString, GoString>): set<GoString> {
    set k | k in option && IsTmpKey(k) :: option[k]
  }

  /** With a single "ziptmppath" key, in any letter case, its value is the
      only folder the options name. */
  lemma OneTmpKey(option: map<GoString, GoString>, k: GoString)
    requires k in option && IsTmpKey(k)
    requires forall j | j in option && j != k :: !IsTmpKey(j)
    ensures OptionTmpPaths(option) == {option[k]}
  {
  }

  /** With a single "zipmaxsize" key, in any letter case, its value is the
      only size the options can set, and none when it is not a positive
      number. */
  lemma OneSizeKey(option: map<GoString, GoString>, k: GoString)
    requires k in option && IsSizeKey(k)
    requires forall j | j in option && j != k :: !IsSizeKey(j)
    ensures OptionSizes(option) == if SizeValue(option[k]) > 0 then {SizeValue(option[k])} else {}
  {
    var s := OptionSizes(option);
    if SizeValue(option[k]) > 0 {
      assert SizeValue(option[k]) in s;
    }
  }

  /** Without a "zipmaxsize" key the options set no size. */
  lemma NoSizeKey(option: map<GoString, GoString>)
    requires forall j | j in option :: !IsSizeKey(j)
    ensures OptionSizes(option) == {}
  {
  }

  // ---- ls ----

  /** `fmt.Sprintf(`"%s";"%s"`, item.Hash, item.Name)`. */
  function Quoted(x: FileDir): GoString {
    "\"" + x.hash + "\";\"" + x.name + "\""
  }

  /** The lines of ls without an intersect list: one per record. */
  function AllLines(items: seq<FileDir>): seq<GoString> {
    if items == [] then [] else AllLines(items[..|items| - 1]) + [Quoted(items[|items| - 1])]
  }

  /** The lines one record contributes with an intersect list: one for
      each name of the list equal to its name. */
  function MatchLines(x: FileDir, names: seq<GoString>): seq<GoString> {
    if names == [] then []
    else MatchLines(x, names[..|names| - 1]) + if x.name == names[|names| - 1] then [Quoted(x)] else []
  }

  /** The lines of ls with an intersect list. */
  function IntersectLines(items: seq<FileDir>, names: seq<GoString>): seq<GoString> {
    if items == [] then [] else IntersectLines(items[..|items| - 1], names) + MatchLines(items[|items| - 1], names)
  }

  /** Without an intersect list every record gives one line, in order. */
  lemma {:induction false} AllLinesAre(items: seq<FileDir>)
    ensures |AllLines(items)| == |items|
    ensures forall i | 0 <= i < |items| :: AllLines(items)[i] == Quoted(items[i])
    decreases |items|
  {
    if items != [] {
      var n := |items| - 1;
      AllLinesAre(items[..n]);
      forall i | 0 <= i < n ensures AllLines(items)[i] == Quoted(items[i]) {
        assert items[..n][i] == items[i];
      }
    }
  }

  /** A record gives its line once for every occurrence of its name in the
      intersect list, and no other line. */
  lemma {:induction false} MatchLinesCount(x: FileDir, names: seq<GoString>)
    ensures |MatchLines(x, names)| == multiset(names)[x.name]
    ensures forall l | l in MatchLines(x, names) :: l == Quoted(x)
    decreases |names|
  {
    if names != [] {
      var n := |names| - 1;
      MatchLinesCount(x, names[..n]);
      assert names == names[..n] + [names[n]];
      assert multiset(names) == multiset(names[..n]) + multiset{names[n]};
    }
  }

  /** A record gives a line with an intersect list exactly when its name
      is in the list, and that line is its own. */
  lemma MatchLinesHas(x: FileDir, names: seq<GoString>, l: GoString)
    ensures l in MatchLines(x, names) <==> x.name in names && l == Quoted(x)
  {
    MatchLinesCount(x, names);
    if x.name in names {
      assert multiset(names)[x.name] > 0;
      assert MatchLines(x, names)[0] in MatchLines(x, names);
    }
  }

  /** With an intersect list, the lines are exactly those of the records
      whose name is in the list. */
  lemma {:induction false} IntersectMembers(items: seq<FileDir>, names: seq<GoString>, l: GoString)
    ensures l in IntersectLines(items, names) <==>
      exists i | 0 <= i < |items| :: items[i].name in names && l == Quoted(items[i])
    decreases |items|
  {
    if items != [] {
      var n := |items| - 1;
      var init := items[..n];
      IntersectMembers(init, names, l);
      MatchLinesHas(items[n], names, l);
      assert IntersectLines(items, names) == IntersectLines(init, names) + MatchLines(items[n], names);
      if exists i | 0 <= i < n :: init[i].name in names && l == Quoted(init[i]) {
        var i :| 0 <= i < n && init[i].name in names && l == Quoted(init[i]);
        assert items[i] == init[i];
      } else {
        forall i | 0 <= i < n ensures !(items[i].name in names && l == Quoted(items[i])) {
          assert items[i] == init[i];
        }
      }
    }
  }

  /** An intersect list that is given but empty selects nothing, unlike no
      list at all. */
  lemma {:induction false} EmptyIntersect(items: seq<FileDir>)
    ensures IntersectLines(items, []) == []
    decreases |items|
  {
    if items != [] {
      EmptyIntersect(items[..|items| - 1]);
    }
  }

  // ---- size and zip planning ----

  /** A target that parsed: the volume it resolved to and the path. */
  datatype Pick = Pick(v: Volume, path: GoString)

  /** What one picked target adds to size and to the zip ceiling: nothing
      when its Info fails, the sizes of the walk for a folder, its own size
      otherwise. */
  function PickSize(m: OsFs.Nodes, pk: Pick): int
    requires OsFs.Wf(m)
  {
    var info := pk.v.InfoAt(m, pk.path);
    if info.err.Some? then 0
    else if info.value.dirs == 1 then Total(Walk(m, pk.v, pk.path))
    else info.value.size
  }

  function PlanSize(m: OsFs.Nodes, plan: seq<Pick>): int
    requires OsFs.Wf(m)
  {
    if plan == [] then 0 else PlanSize(m, plan[..|plan| - 1]) + PickSize(m, plan[|plan| - 1])
  }

  lemma {:induction false} PlanSizeAppend(m: OsFs.Nodes, a: seq<Pick>, b: seq<Pick>)
    requires OsFs.Wf(m)
    ensures PlanSize(m, a + b) == PlanSize(m, a) + PlanSize(m, b)
    decreases |b|
  {
    if b == [] {
      assert a + b == a;
    } else {
      assert (a + b)[..|a + b| - 1] == a + b[..|b| - 1];
      PlanSizeAppend(m, a, b[..|b| - 1]);
    }
  }

  /** A file of a volume, other than its base path, named by a path the
      volume does not rewrite, counts with the length of its bytes. */
  lemma FileSize(m: OsFs.Nodes, v: Volume, p: GoString)
    requires OsFs.Wf(m) && p != [] && p != "/" && p in m && m[p].File?
    ensures PickSize(m, Pick(v, p)) == |m[p].data|
  {
    v.InfoAtRecord(m, p);
  }

  /** What zipdl writes for one picked target: the error of its Info; for
      a file one entry named by the record's name and holding the file's
      bytes; for a folder what zipFolder writes relative to the folder's
      parent. */
  function PickEntries(m: OsFs.Nodes, pk: Pick): (r: Written)
    requires OsFs.Wf(m)
  {
    var info := pk.v.InfoAt(m, pk.path);
    if info.err.Some? then Returned([], info.err)
    else if info.value.dirs == 0 then
      match OsFs.ReadFileOf(m, pk.path)
      case Fail(e) => Returned([], Some(e))
      case Ok(d) => Returned([Entry(info.value.name, d)], None)
    else FolderEntries(m, pk.v, FilePath.Dir(pk.path), pk.path)
  }

  /** The entries of the picked targets in order, up to the first error. */
  function PlanEntries(m: OsFs.Nodes, plan: seq<Pick>): Written
    requires OsFs.Wf(m)
  {
    if plan == [] then Returned([], None)
    else Then(PlanEntries(m, plan[..|plan| - 1]), PickEntries(m, plan[|plan| - 1]))
  }

  /** A file target is archived under its own name, with its bytes; a
      target whose Info fails stops the archive with that error. */
  lemma FileEntryIsNamed(m: OsFs.Nodes, v: Volume, p: GoString)
    requires OsFs.Wf(m) && p != [] && p != "/"
    ensures p !in m ==> PickEntries(m, Pick(v, p)) == Returned([], Some(ErrNotExist))
    ensures p in m && m[p].File? ==>
      PickEntries(m, Pick(v, p)) == Returned([Entry(FilePath.Base(p), m[p].data)], None)
  {
    v.InfoAtRecord(m, p);
  }

  /** Once a target fails, the archive fails with the error of the first
      failing target, and later targets are not written. */
  lemma {:induction false} PlanEntriesStop(m: OsFs.Nodes, a: seq<Pick>, b: seq<Pick>)
    requires OsFs.Wf(m) && PlanEntries(m, a).err.Some?
    ensures PlanEntries(m, a + b) == PlanEntries(m, a)
    decreases |b|
  {
    if b == [] {
      assert a + b == a;
    } else {
      assert (a + b)[..|a + b| - 1] == a + b[..|b| - 1];
      PlanEntriesStop(m, a, b[..|b| - 1]);
    }
  }

  lemma PlanEntriesStopAt(m: OsFs.Nodes, plan: seq<Pick>, j: nat)
    requires OsFs.Wf(m) && j <= |plan| && PlanEntries(m, plan[..j]).err.Some?
    ensures PlanEntries(m, plan) == PlanEntries(m, plan[..j])
  {
    PlanEntriesStop(m, plan[..j], plan[j..]);
    assert plan[..j] + plan[j..] == plan;
  }

  /** One more picked target: its entries follow the entries so far. */
  lemma PlanEntriesStep(m: OsFs.Nodes, plan: seq<Pick>, i: nat)
    requires OsFs.Wf(m) && i < |plan|
    ensures PlanEntries(m, plan[..i + 1]) == Then(PlanEntries(m, plan[..i]), PickEntries(m, plan[i]))
  {
    assert plan[..i + 1][..i] == plan[..i];
  }

  /** The zipdl response: the archive's description, or an error. */
  datatype ZipResponse = ZipResponse(zipdl: map<GoString, GoString>, err: Option<Error>)

  /** The name of the temporary archive: the time stamp, the key, ".zip". */
  function ArchiveName(stamp: GoString, key: GoString): (name: GoString)
    requires forall k | 0 <= k < |stamp + key| :: (stamp + key)[k] != '/'
    ensures FilePath.IsComponent(name)
  {
    var name := stamp + key + ".zip";
    assert forall k | 0 <= k < |stamp + key| :: name[k] == (stamp + key)[k];
    assert name[|name| - 4..] == ".zip";
    name
  }

  /** The description of a finished archive in the zipdl response. */
  function Described(key: GoString, name: GoString): map<GoString, GoString> {
    map["mime" := "application/zip", "file" := key, "name" := name]
  }

  /** A response, the file system and the registry after a command. */
  datatype Zipped = Zipped(r: ZipResponse, nodes: OsFs.Nodes, files: map<GoString, GoString>)

  /** What zipdl does once the targets are under the ceiling: the archive
      `name` is created in `dir`, the entries of the parsed targets are
      written to it, and only when all are written is it registered under
      `key` and described. */
  function Archived(m: OsFs.Nodes, files: map<GoString, GoString>, plan: seq<Pick>, dir: GoString, name: GoString,
                    key: GoString, archive: seq<Entry> -> GoString, now: int): Zipped
    requires OsFs.Wf(m) && FilePath.IsComponent(name)
  {
    var tmp := FilePath.Join(dir, name);
    var o := OsFs.CreateOutcome(m, tmp, now);
    if o.err.Some? then Zipped(ZipResponse(map[], o.err), o.nodes, files)
    else
      FilePath.BaseOfJoin(dir, name);
      OsFs.CreateKeepsWf(m, tmp, now);
      var w := PlanEntries(o.nodes, plan);
      if w.err.Some? then Zipped(ZipResponse(map[], w.err), o.nodes, files)
      else Zipped(ZipResponse(Described(key, name), None), OsFs.Written(o.nodes, tmp, 0, archive(w.value), now), files[key := tmp])
  }

  /** The key is registered exactly when the archive is described with no
      error, and then it names the temporary file, which holds the bytes of
      the entries of every parsed target; on an error the registry is as it
      was and the response holds no description. */
  lemma ArchivedRegistersOnSuccess(m: OsFs.Nodes, files: map<GoString, GoString>, plan: seq<Pick>, dir: GoString,
                                   name: GoString, key: GoString, archive: seq<Entry> -> GoString, now: int)
    requires OsFs.Wf(m) && FilePath.IsComponent(name)
    ensures var z := Archived(m, files, plan, dir, name, key, archive, now);
      var tmp := FilePath.Join(dir, name);
      && (z.r.err.None? ==>
           && z.files == files[key := tmp] && z.r.zipdl == Described(key, name)
           && ZipFiles.Lookup(z.files, key) == (tmp, true)
           && tmp in z.nodes && z.nodes[tmp].File?
           && OsFs.Wf(OsFs.CreateOutcome(m, tmp, now).nodes)
           && z.nodes[tmp].data == archive(PlanEntries(OsFs.CreateOutcome(m, tmp, now).nodes, plan).value))
      && (z.r.err.Some? ==> z.files == files && z.r.zipdl == map[])
  {
    var tmp := FilePath.Join(dir, name);
    var o := OsFs.CreateOutcome(m, tmp, now);
    if o.err.None? {
      FilePath.BaseOfJoin(dir, name);
      OsFs.CreateKeepsWf(m, tmp, now);
    }
  }

  /** A target that cannot be written leaves the created temporary file
      behind, unregistered: nothing will hand it out or remove it. Apart
      from that file, the file system is as its creation left it. */
  lemma ArchivedOrphansOnError(m: OsFs.Nodes, files: map<GoString, GoString>, plan: seq<Pick>, dir: GoString,
                               name: GoString, key: GoString, archive: seq<Entry> -> GoString, now: int)
    requires OsFs.Wf(m) && FilePath.IsComponent(name)
    requires OsFs.CreateOutcome(m, FilePath.Join(dir, name), now).err.None?
    requires Archived(m, files, plan, dir, name, key, archive, now).r.err.Some?
    ensures var z := Archived(m, files, plan, dir, name, key, archive, now);
      var tmp := FilePath.Join(dir, name);
      && tmp in z.nodes && z.nodes[tmp].File? && z.files == files
    ensures var z := Archived(m, files, plan, dir, name, key, archive, now);
      var tmp := FilePath.Join(dir, name);
      var o := OsFs.CreateOutcome(m, tmp, now);
      && z.nodes.Keys == o.nodes.Keys && forall k | k in o.nodes && k != tmp :: z.nodes[k] == o.nodes[k]
  {
  }

  // ---- the download handshake ----

  /** The key of a download request: the second of exactly four targets,
      and "" for any other number of targets. */
  function DownloadKey(targets: seq<GoString>): GoString {
    if |targets| == 4 then targets[1] else []
  }

  /** What a download request is answered with. */
  datatype Download = Sent(name: GoString, mime: GoString, data: GoString) | Answer(err: Option<Error>)

  /** The answer to a download request, given the registry `files`, the
      file system `m` and the error, if any, of sending the bytes: an
      unregistered key is answered with no error and nothing sent; a
      registered one with its file's bytes, or the error of reading or
      sending them. */
  function Served(files: map<GoString, GoString>, m: OsFs.Nodes, targets: seq<GoString>, sendErr: Option<Error>): (r: Download)
    ensures DownloadKey(targets) !in files ==> r == Answer(None)
    ensures r.Sent? <==> DownloadKey(targets) in files && OsFs.ReadFileOf(m, files[DownloadKey(targets)]).Ok? && sendErr.None?
    ensures r.Sent? ==> r.data == m[files[DownloadKey(targets)]].data
    ensures r.Sent? ==> if |targets| == 4 then r.name == targets[2] && r.mime == targets[3] else r.name == [] && r.mime == []
  {
    var four := |targets| == 4;
    var key := DownloadKey(targets);
    var got := ZipFiles.Lookup(files, key);
    if !got.1 then Answer(None)
    else
      match OsFs.ReadFileOf(m, got.0)
      case Fail(e) => Answer(Some(e))
      case Ok(d) =>
        if sendErr.Some? then Answer(sendErr)
        else Sent(if four then targets[2] else [], if four then targets[3] else [], d)
  }

  /** An archive registered under a key is sent, with the name and type
      the request gives, as the bytes of its temporary file. */
  lemma ServedAfterSet(files: map<GoString, GoString>, m: OsFs.Nodes, key: GoString, tmp: GoString,
                       first: GoString, name: GoString, mime: GoString)
    requires tmp in m && m[tmp].File?
    ensures Served(files[key := tmp], m, [first, key, name, mime], None) == Sent(name, mime, m[tmp].data)
  {
  }

  /** Once the key is dropped after sending, the same request is answered
      with nothing: an archive is handed out once. */
  lemma ServedOnce(files: map<GoString, GoString>, m: OsFs.Nodes, targets: seq<GoString>, sendErr: Option<Error>)
    ensures Served(files - {DownloadKey(targets)}, m, targets, sendErr) == Answer(None)
  {
  }

  /** `zipdl` with `download=1`: the registered archive is sent and then
      removed, with its key; on any failure, or for an unknown key, nothing
      changes. `sendErr` stands for the outcome of copying the bytes to the
      response. */
  method ZipDownload(reg: ZipFiles.Registry, targets: seq<GoString>, sendErr: Option<Error>) returns (r: Download)
    modifies reg, reg.disk
    ensures r == Served(old(reg.files), old(reg.disk.nodes), targets, sendErr)
    ensures r.Sent? ==>
      && reg.files == old(reg.files) - {DownloadKey(targets)}
      && reg.disk.nodes == OsFs.Removed(old(reg.disk.nodes), old(reg.files)[DownloadKey(targets)])
    ensures r.Answer? ==> reg.files == old(reg.files) && reg.disk.nodes == old(reg.disk.nodes)
    ensures reg.disk.now == old(reg.disk.now)
  {
    var fileKey: GoString := [];
    var filename: GoString := [];
    var mimetype: GoString := [];
    if |targets| == 4 {
      fileKey, filename, mimetype := targets[1], targets[2], targets[3];
    }
    var got := reg.Get(fileKey);
    if !got.1 {
      return Answer(None);
    }
    var data := reg.disk.ReadFile(got.0);
    if data.Fail? {
      return Answer(Some(data.error));
    }
    if sendErr.Some? {
      return Answer(sendErr);
    }
    reg.Del(fileKey);
    return Sent(filename, mimetype, data.value);
  }

  /** The loop of ls without an intersect list. */
  method LinesOf(items: seq<FileDir>) returns (list: seq<GoString>)
    ensures list == AllLines(items)
  {
    list := [];
    var i := 0;
    while i < |items|
      invariant 0 <= i <= |items|
      invariant list == AllLines(items[..i])
    {
      assert items[..i + 1][..i] == items[..i];
      list := list + [Quoted(items[i])];
      i := i + 1;
    }
    assert items[..|items|] == items;
  }

  /** The inner loop of ls with an intersect list: the names equal to the
      record's. */
  method MatchOf(x: FileDir, names: seq<GoString>) returns (lines: seq<GoString>)
    ensures lines == MatchLines(x, names)
  {
    lines := [];
    var j := 0;
    while j < |names|
      invariant 0 <= j <= |names|
      invariant lines == MatchLines(x, names[..j])
    {
      assert names[..j + 1][..j] == names[..j];
      if x.name == names[j] {
        lines := lines + [Quoted(x)];
      }
      j := j + 1;
    }
    assert names[..|names|] == names;
  }

  /** The outer loop of ls with an intersect list. */
  method IntersectOf(items: seq<FileDir>, names: seq<GoString>) returns (list: seq<GoString>)
    ensures list == IntersectLines(items, names)
  {
    list := [];
    var i := 0;
    while i < |items|
      invariant 0 <= i <= |items|
      invariant list == IntersectLines(items[..i], names)
    {
      assert items[..i + 1][..i] == items[..i];
      var lines := MatchOf(items[i], names);
      list := list + lines;
      i := i + 1;
    }
    assert items[..|items|] == items;
  }

  /** What one parsed target adds to size and to the zip ceiling, as the
      bodies of the loops of size and zipdl compute it. */
  method PickSizeOf(pk: Pick) returns (n: int)
    requires OsFs.Wf(pk.v.disk.nodes)
    ensures n == PickSize(pk.v.disk.nodes, pk)
  {
    var info := pk.v.Info(pk.path);
    n := 0;
    if info.err.None? {
      if info.value.dirs == 1 {
        n := CalculateFolderSize(pk.v, pk.path);
      } else {
        n := info.value.size;
      }
    }
  }

  /** The loop of zipdl that sums the sizes of the parsed targets. */
  method PlanSizeOf(disk: OsFs.Disk, plan: seq<Pick>) returns (total: int)
    requires OsFs.Wf(disk.nodes) && forall pk | pk in plan :: pk.v.disk == disk
    ensures total == PlanSize(disk.nodes, plan)
  {
    total := 0;
    var i := 0;
    while i < |plan|
      invariant 0 <= i <= |plan|
      invariant total == PlanSize(disk.nodes, plan[..i])
    {
      assert plan[..i + 1][..i] == plan[..i];
      assert plan[i] in plan;
      var n := PickSizeOf(plan[i]);
      total := total + n;
      i := i + 1;
    }
    assert plan[..|plan|] == plan;
  }

  /** The loop of zipdl that writes the entries of the parsed targets,
      stopping at the first error. */
  method WriteEntries(disk: OsFs.Disk, plan: seq<Pick>) returns (entries: seq<Entry>, err: Option<Error>)
    requires OsFs.Wf(disk.nodes) && forall pk | pk in plan :: pk.v.disk == disk
    ensures Returned(entries, err) == PlanEntries(disk.nodes, plan)
  {
    ghost var m := disk.nodes;
    entries := [];
    var i := 0;
    while i < |plan|
      invariant 0 <= i <= |plan|
      invariant Returned(entries, None) == PlanEntries(m, plan[..i])
    {
      PlanEntriesStep(m, plan, i);
      assert plan[i] in plan;
      var w := PickEntriesOf(plan[i]);
      if w.err.Some? {
        PlanEntriesStopAt(m, plan, i + 1);
        return entries + w.value, w.err;
      }
      entries := entries + w.value;
      i := i + 1;
    }
    assert plan[..|plan|] == plan;
    err := None;
  }

  /** The body of the loop of zipdl that writes one parsed target: a file
      as one entry named by its record, a folder through zipFolder. */
  method PickEntriesOf(pk: Pick) returns (w: Written)
    requires OsFs.Wf(pk.v.disk.nodes)
    ensures w == PickEntries(pk.v.disk.nodes, pk)
  {
    var info := pk.v.Info(pk.path);
    if info.err.Some? {
      return Returned([], info.err);
    }
    if info.value.dirs == 0 {
      var data := pk.v.GetFile(pk.path);
      if data.Fail? {
        return Returned([], Some(data.error));
      }
      return Returned([Entry(info.value.name, data.value)], None);
    }
    var entries, e := ZipFolder(pk.v, FilePath.Dir(pk.path), pk.path);
    return Returned(entries, e);
  }

  /** The part of zipdl after the ceiling check: create the archive,
      write the entries, and register it when every entry is written. */
  method WriteArchive(disk: OsFs.Disk, reg: ZipFiles.Registry, plan: seq<Pick>, dir: GoString, name: GoString,
                      key: GoString, archive: seq<Entry> -> GoString) returns (r: ZipResponse)
    requires OsFs.Wf(disk.nodes) && FilePath.IsComponent(name) && reg.disk == disk
    requires forall pk | pk in plan :: pk.v.disk == disk
    modifies disk, reg
    ensures Zipped(r, disk.nodes, reg.files) == Archived(old(disk.nodes), old(reg.files), plan, dir, name, key, archive, old(disk.now))
    ensures disk.now == old(disk.now)
  {
    var tmp := FilePath.Join(dir, name);
    ghost var m := disk.nodes;
    var err := disk.Create(tmp);
    if err.Some? {
      return ZipResponse(map[], err);
    }
    FilePath.BaseOfJoin(dir, name);
    OsFs.CreateKeepsWf(m, tmp, disk.now);
    var entries, e := WriteEntries(disk, plan);
    if e.Some? {
      return ZipResponse(map[], e);
    }
    disk.Write(tmp, 0, archive(entries));
    reg.Set(key, tmp);
    r := ZipResponse(Described(key, name), None);
  }

  /** `ElFinderConnector`. */
  class Connector {
    var Volumes: map<GoString, Volume>
    var defaultV: Volume
    var zipMaxSize: int
    var zipTmpPath: GoString
    /** The file system every volume lives on. */
    const disk: OsFs.Disk

    /** Every volume is stored under its id and lives on the connector's
        file system. */
    predicate Valid()
      reads this
    {
      && defaultV.disk == disk
      && forall k | k in Volumes :: Volumes[k].disk == disk && Volumes[k].id == k
    }

    /** `NewElFinderConnector(vs)`: each volume stored under its id, a later
        one replacing an earlier one with the same id, and the first as the
        default; `vs[0]` panics on an empty list. The size ceiling and the
        temporary folder stay unset until zipdl needs them. */
    constructor (vs: seq<Volume>, disk: OsFs.Disk)
      requires |vs| > 0 && forall i | 0 <= i < |vs| :: vs[i].disk == disk
      ensures Volumes == VolumeIndex.Index(Ids(vs), vs) && defaultV == vs[0] && this.disk == disk
      ensures zipMaxSize == 0 && zipTmpPath == []
      ensures Valid()
    {
      var ids := Ids(vs);
      var m := VolumeIndex.Fill(ids, vs);
      VolumeIndex.IndexValues(ids, vs);
      VolumeIndex.IndexKeyedBy(ids, vs, (v: Volume) => v.id);
      Volumes := m;
      defaultV := vs[0];
      zipMaxSize := 0;
      zipTmpPath := [];
      this.disk := disk;
    }

    /** `NewElFinderConnectorWithOption(vs, option)`: as the plain
        constructor, and the size ceiling is the value of a "zipmaxsize"
        key in any letter case when Atoi reads it as positive, 1 GiB when
        no key does. The temporary folder is the value of a "ziptmppath"
        key in any letter case, "/tmp" when there is none or its value is
        "". Of several keys of a kind, the one the map's iteration meets
        last wins. A "ziptmppath" value that does not exist makes Go create
        it and then stop the process with `log.Fatal`; the constructor
        requires every such value to exist. */
    constructor WithOption(vs: seq<Volume>, option: map<GoString, GoString>, disk: OsFs.Disk)
      requires |vs| > 0 && forall i | 0 <= i < |vs| :: vs[i].disk == disk
      requires forall k | k in option && IsTmpKey(k) :: option[k] in disk.nodes
      ensures Volumes == VolumeIndex.Index(Ids(vs), vs) && defaultV == vs[0] && this.disk == disk
      ensures OptionSizes(option) == {} ==> zipMaxSize == DefaultZipMaxSize
      ensures OptionSizes(option) != {} ==> zipMaxSize in OptionSizes(option)
      ensures zipMaxSize > 0
      ensures OptionTmpPaths(option) == {} ==> zipTmpPath == DefaultTmpPath
      ensures zipTmpPath == DefaultTmpPath || zipTmpPath in OptionTmpPaths(option)
      ensures OptionTmpPaths(option) != {} && [] !in OptionTmpPaths(option) ==> zipTmpPath in OptionTmpPaths(option)
      ensures Valid()
    {
      var ids := Ids(vs);
      var m := VolumeIndex.Fill(ids, vs);
      VolumeIndex.IndexValues(ids, vs);
      VolumeIndex.IndexKeyedBy(ids, vs, (v: Volume) => v.id);
      var size := 0;
      var tmp: GoString := [];
      ghost var named := false;
      var keys := option.Keys;
      while keys != {}
        invariant keys <= option.Keys
        invariant size == 0 || size in OptionSizes(option)
        invariant size == 0 ==> forall k | k in option && k !in keys :: !(IsSizeKey(k) && SizeValue(option[k]) > 0)
        invariant named ==> tmp in OptionTmpPaths(option)
        invariant !named ==> tmp == [] && forall k | k in option && k !in keys :: !IsTmpKey(k)
        decreases keys
      {
        var k :| k in keys;
        if Strings.ToLower(k) == "zipmaxsize" {
          var a := Strconv.Atoi(option[k]);
          if a.err.None? && a.value > 0 {
            size := a.value;
          }
        } else if Strings.ToLower(k) == "ziptmppath" {
          tmp := option[k];
          named := true;
        }
        keys := keys - {k};
      }
      if size == 0 {
        size := DefaultZipMaxSize;
      }
      if tmp == [] {
        tmp := DefaultTmpPath;
      }
      Volumes := m;
      defaultV := vs[0];
      zipMaxSize := size;
      zipTmpPath := tmp;
      this.disk := disk;
    }

    /** `getVolume(vid)`: the volume stored under `vid`; the default volume
        for "" and for an id nothing is stored under. */
    function GetVolume(vid: GoString): (v: Volume)
      reads this
      ensures vid != [] && vid in Volumes ==> v == Volumes[vid]
      ensures vid == [] || vid !in Volumes ==> v == defaultV
      ensures Valid() && vid != [] && vid in Volumes ==> v.id == vid
      ensures Valid() ==> v.disk == disk
    {
      if vid == [] then defaultV
      else if vid in Volumes then Volumes[vid]
      else defaultV
    }

    /** The target a stored volume hashes a path to resolves to that volume
        and that path. */
    lemma HashResolves(v: Volume, p: GoString)
      requires v.id in Volumes && Volumes[v.id] == v && v.id != []
      requires forall k | 0 <= k < |v.id| :: v.id[k] != '_'
      ensures var l := Locate(v.Hash(p));
        && GetVolume(l.vid) == v && l.err.None? && l.path == (if p == [] then "/" else p)
    {
      LocateHash(v, p);
    }

    /** `ls`: the lines of the records of the target's folder; with an
        intersect list only those whose name is in it. A target without
        "_" lists the root of the volume; one that does not decode lists
        the path "". */
    method Ls(target: GoString, intersect: Option<seq<GoString>>) returns (list: seq<GoString>)
      ensures var l := Locate(target); var v := GetVolume(l.vid);
        var items := v.ListAt(v.disk.nodes, l.path);
        list == if intersect.None? then AllLines(items) else IntersectLines(items, intersect.value)
    {
      var l := Locate(target);
      var v := GetVolume(l.vid);
      var items := v.List(l.path);
      if intersect.Some? {
        list := IntersectOf(items, intersect.value);
      } else {
        list := LinesOf(items);
      }
    }

    /** The targets that parse, in order, with the volumes they resolve
        to; a target that does not decode is skipped. */
    function Plan(targets: seq<GoString>): (plan: seq<Pick>)
      reads this
      ensures |plan| <= |targets|
      ensures Valid() ==> forall pk | pk in plan :: pk.v.disk == disk
    {
      if targets == [] then []
      else
        var l := Locate(targets[|targets| - 1]);
        Plan(targets[..|targets| - 1]) + if l.err.Some? then [] else [Pick(GetVolume(l.vid), l.path)]
    }

    lemma PlanStep(targets: seq<GoString>, i: nat)
      requires i < |targets|
      ensures var l := Locate(targets[i]);
        Plan(targets[..i + 1]) == Plan(targets[..i]) + if l.err.Some? then [] else [Pick(GetVolume(l.vid), l.path)]
    {
      assert targets[..i + 1][..i] == targets[..i];
    }

    /** What one more target adds to the sizes. */
    lemma PlanSizeStep(m: OsFs.Nodes, targets: seq<GoString>, i: nat)
      requires OsFs.Wf(m) && i < |targets|
      ensures var l := Locate(targets[i]);
        PlanSize(m, Plan(targets[..i + 1])) == PlanSize(m, Plan(targets[..i]))
          + if l.err.Some? then 0 else PickSize(m, Pick(GetVolume(l.vid), l.path))
    {
      PlanStep(targets, i);
      var l := Locate(targets[i]);
      if l.err.None? {
        var pk := Pick(GetVolume(l.vid), l.path);
        PlanSizeAppend(m, Plan(targets[..i]), [pk]);
        assert [pk][..0] == [];
      } else {
        assert Plan(targets[..i + 1]) == Plan(targets[..i]);
      }
    }

    /** The target of a file of a stored volume plans that volume and path,
        so the file counts with the length of its bytes. */
    lemma SizeOfFileTarget(v: Volume, p: GoString)
      requires v.id in Volumes && Volumes[v.id] == v && v.id != []
      requires forall k | 0 <= k < |v.id| :: v.id[k] != '_'
      requires OsFs.Wf(disk.nodes) && p != [] && p != "/" && p in disk.nodes && disk.nodes[p].File?
      ensures Plan([v.Hash(p)]) == [Pick(v, p)]
      ensures PlanSize(disk.nodes, Plan([v.Hash(p)])) == |disk.nodes[p].data|
    {
      HashResolves(v, p);
      assert [v.Hash(p)][..0] == [];
      FileSize(disk.nodes, v, p);
      assert [Pick(v, p)][..0] == [];
    }

    /** `size`: the sizes of the targets that parse and whose Info
        succeeds, a folder counting every entry below it. */
    method Size(targets: seq<GoString>) returns (total: int)
      requires Valid() && OsFs.Wf(disk.nodes)
      ensures total == PlanSize(disk.nodes, Plan(targets))
    {
      ghost var m := disk.nodes;
      total := 0;
      var i := 0;
      while i < |targets|
        invariant 0 <= i <= |targets| && disk.nodes == m
        invariant total == PlanSize(m, Plan(targets[..i]))
      {
        PlanSizeStep(m, targets, i);
        var l := Locate(targets[i]);
        if l.err.None? {
          var pk := Pick(GetVolume(l.vid), l.path);
          assert pk.v.disk == disk;
          var n := PickSizeOf(pk);
          assert n == PickSize(m, pk);
          total := total + n;
        }
        assert total == PlanSize(m, Plan(targets[..i + 1]));
        i := i + 1;
      }
      assert targets[..|targets|] == targets;
    }

    /** The loop of zipdl that keeps the targets that parse, with their
        volumes. */
    method PlanOf(targets: seq<GoString>) returns (plan: seq<Pick>)
      ensures plan == Plan(targets)
    {
      plan := [];
      var i := 0;
      while i < |targets|
        invariant 0 <= i <= |targets|
        invariant plan == Plan(targets[..i])
      {
        PlanStep(targets, i);
        var l := Locate(targets[i]);
        if l.err.None? {
          plan := plan + [Pick(GetVolume(l.vid), l.path)];
        }
        i := i + 1;
      }
      assert targets[..|targets|] == targets;
    }

    /** `zipdl`: the ceiling is set to 1 GiB when unset, and targets whose
        sizes sum to at least the ceiling are refused before anything is
        created. Otherwise the archive "<stamp><key>.zip" is created in the
        temporary folder ("/tmp" when unset), the entries of every target
        are written to it, and only when all are written is the key
        registered and the archive described. A failure leaves the created
        file in place, unregistered. `stamp` and `key` stand for the clock
        and the MD5 key, `archive` for the bytes the zip writer produces. */
    method Zipdl(reg: ZipFiles.Registry, targets: seq<GoString>, stamp: GoString, key: GoString,
                 archive: seq<Entry> -> GoString) returns (r: ZipResponse)
      requires Valid() && OsFs.Wf(disk.nodes) && reg.disk == disk
      requires forall k | 0 <= k < |stamp + key| :: (stamp + key)[k] != '/'
      modifies this, disk, reg
      ensures Volumes == old(Volumes) && defaultV == old(defaultV) && disk.now == old(disk.now)
      ensures zipMaxSize == if old(zipMaxSize) == 0 then DefaultZipMaxSize else old(zipMaxSize)
      ensures var plan := old(Plan(targets)); var m := old(disk.nodes);
        PlanSize(m, plan) >= zipMaxSize ==>
          && Zipped(r, disk.nodes, reg.files) == Zipped(ZipResponse(map[], Some(ErrArcMaxSize)), m, old(reg.files))
          && zipTmpPath == old(zipTmpPath)
      ensures var plan := old(Plan(targets)); var m := old(disk.nodes);
        PlanSize(m, plan) < zipMaxSize ==>
          && zipTmpPath == (if old(zipTmpPath) == [] then DefaultTmpPath else old(zipTmpPath))
          && Zipped(r, disk.nodes, reg.files)
             == Archived(m, old(reg.files), plan, zipTmpPath, ArchiveName(stamp, key), key, archive, disk.now)
    {
      var plan := PlanOf(targets);
      var total := PlanSizeOf(disk, plan);
      if zipMaxSize == 0 {
        zipMaxSize := DefaultZipMaxSize;
      }
      if total >= zipMaxSize {
        return ZipResponse(map[], Some(ErrArcMaxSize));
      }
      if zipTmpPath == [] {
        zipTmpPath := DefaultTmpPath;
      }
      r := WriteArchive(disk, reg, plan, zipTmpPath, ArchiveName(stamp, key), key, archive);
    }
  }
}
