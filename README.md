# elFinder Go connector: a verified Dafny model

This project models the server-side core of the Go connector for the elFinder
web file manager, and proves properties of the model. It covers six parts.

- **Target codec.** A target names a file as `volumeId + "_" + base64url(path)`, using the URL-safe alphabet of section 5 of RFC 4648 with no padding. There are two conventions:
  - `util.go`/`elfinder.go` encode the path as it is;
  - `commands.go` strips one leading `/` before encoding and puts it back after decoding.
- **Volume registry.** Volumes are stored under an id: `vol.ID()` in `elfinder.go`, and `MD5ID(vol.Name())` in `connector.go`, `connection/connector.go` and `commands.go`. `getVolume` falls back to the default volume. The connector constructors apply option setters.
- **Chunked upload.** The upload branch of `dispatch` has three wire parsers:
  - the chunk name `name.<cur>_<total>.part`;
  - the `offset,length,total` range;
  - the `cid_total_name` merge token;
  - the response fields (error, warnings, added records, chunk-merged token) the branch leaves.

  The part-file store in `LocalFileVolume` (`UploadChunk`, `MergeChunk`, `CompleteChunk`) works over a model file system.
- **Archive export.** This covers:
  - `size` and `calculateFolderSize`;
  - the size ceiling of `zipdl`;
  - the entry names of `zipFolder`;
  - register-on-success of the temporary archive;
  - the one-shot download handshake.
- **Temporary archive registry.** `getTmpFilePath`, `setTmpFilePath` and `delTmpFilePath` keep a map from key to path.
- **Supporting logic.** This covers:
  - the `LocalFileVolume` operations (`Info`, `List`, `MakeDir`, `MakeFile`, `UploadFile`, `Rename`, `Remove`, `Paste`, `RootFileDir`);
  - the `FileInfo` builders of `commands.go` and the parents walk;
  - the binding rules of `bind.go`, over an explicit field-kind datatype instead of reflection.

Go strings are byte strings (`GoString = seq<Byte>`). The operating system's
file system is the class `OsFs.Disk`, whose `nodes` map a path to a file (its
bytes) or a directory (its entry names). Operations that change files are
methods that modify the disk. Each such method is proved equal to a function
of the old state, and the lemmas state properties of those functions.

Some inputs are parameters rather than computations:
- MD5 is an opaque function `md5`.
- `time.Now()` is a parameter `now` or `stamp`.
- The random `GenerateTargetsMD5Key` result is a parameter `key`.
- Go's unspecified map iteration order is one of two things:
  - an explicit `order` sequence (in bind.go's case-insensitive search);
  - a nondeterministic choice in the loop (in `GetVolId` and in the option loop of `NewElFinderConnectorWithOption`).

Modules: `GoTypes`, `Strings`, `Strconv`, `FilePath` and `OsFs` model the Go
standard library the core uses. `Base64Url` and `Util` model util.go.
`Commands` and `FsView` model commands.go. `VolumeIndex`, `ConnectorOptions`
and `RootConnector` model connector.go. `Connection` models
connection/connector.go. `ZipFiles` models zipfilemanager.go. `LocalVolume`
models volume.go. `ChunkProtocol`, `ElFinder` and `ElFinderConnector` model
elfinder.go. `Bind` models bind.go.

## Model

| member | source | states |
|---|---|---|
| Util.Encode64 | util.go:19-21 | Every output byte is in the base64url alphabet (no `=` padding, no CR/LF), and n bytes become ceil(4n/3) symbols. |
| Util.Decode64 | util.go:11-17 | Decoding fails exactly when the RFC 4648 decoder rejects the input; on failure the value is "" together with the error. |
| Util.Decode64Encode64 | util.go:11-21 | `Decode64(Encode64(s)) == s` with no error, for every byte string. |
| Util.Decode64Rejects | util.go:11-15 | Input without CR/LF that holds a byte outside the alphabet fails, and the value is "". |
| Util.CreateHash | util.go:23-25 | The hash starts with the volume id followed by "_". |
| Util.CreateHashDecodes | util.go:11-25 | What follows the id and "_" of `CreateHash(id, p)` decodes back to `p`. |
| Util.ReadWritePem | util.go:33-41 | Both flags are 0 or 1. |
| Util.ReadWritePemOwner | util.go:33-41 | Readable is 1 iff the owner-read bit (4 of the owner digit, 0o400) is set, and writable is 1 iff the owner-write bit (0o200) is set, whatever the other bits are. |
| Util.HexEncode | util.go:27-31 | `hex.EncodeToString` gives two lowercase hex digits per byte. |
| Util.HexDecodeEncode | util.go:27-31 | Hex encoding loses nothing: decoding it gives the digest back. |
| Util.GenerateID | util.go:27-31 | The id is 32 lowercase hex digits that decode to the MD5 digest of the path. |
| Util.MD5ID | util.go:43-47 | `MD5ID` equals `GenerateID` on every input, and its 32 digits never include '_'. |
| Base64Url.StripNewlines | util.go:11-15 | The input the decoder sees has no CR or LF (Go's decoder skips them), and is no longer than the original. |
| Base64Url.EncodeAlphabet | util.go:19-21 | Every encoded byte is in the RFC 4648 section 5 alphabet, and the length is ceil(4n/3). |
| Base64Url.DecodeCleanEncode | util.go:11-21 | Decoding a newline-free encoding gives back the original bytes. |
| Base64Url.DecodeEncode | util.go:11-21 | The round trip through `RawURLEncoding` is the identity on every byte string. |
| Base64Url.DecodeCleanFails | util.go:11-15 | Newline-free input fails exactly when some byte is outside the alphabet or its length is 1 more than a multiple of 4. |
| Base64Url.EncodeInjective | util.go:19-25 | Equal encodings come from equal byte strings, so distinct paths get distinct targets. |
| Commands.DecodePath | commands.go:138-144 | On success the path starts with "/"; it fails exactly when base64url decoding fails, and then returns "" with the error. |
| Commands.DecodeEncodePath | commands.go:134-144 | `DecodePath(EncodePath(p)) == "/" + p`. |
| Commands.ParseTarget | commands.go:119-128 | A target without "_" gives ("", "", errValidTarget). Otherwise the id is everything before the first "_", and the path and error are `DecodePath` of the rest (the id is returned even when decoding fails). |
| Commands.ParseHashPath | commands.go:119-132 | For an id without "_", `parseTarget(hashPath(id, p))` gives back the id and `p` with exactly one leading "/" (restored, or added when missing), with no error. |
| Commands.ParseCommand | commands.go:152-158 | A missing or empty `cmd` gives ("", errNoFoundCmd); otherwise the result is the first `cmd` value. |
| Commands.NewErr | commands.go:580-589 | The response has the single key "err". It holds the error itself exactly when one error is given, and the list otherwise; the errors it holds are those given. |
| Commands.CreateFileInfo | commands.go:424-467 | It fails (with ErrNotExist) exactly for a directory that cannot be listed. The record hashes the path. It is root iff the path is "" or "/", and then has no parent hash; otherwise the parent hash is the hash of Dir(path). The mime is "directory" for a directory and "file" otherwise. HasDirs is 1 iff the entry is a directory with a subdirectory. Read = Write = 1, Locked = 0, Volumeid = id + "_". |
| Commands.CreateFileInfoByPathFields | commands.go:469-520 | It fails iff the stat of the path relative to "/" + name fails. Root iff the path is "/" + name; the root has no parent hash and the volume's name. Every other record's parent hash is the hash of Dir(path). Directories have HasDirs 1 and, exactly they, Volumeid = id + "_". |
| Commands.ReadAllOk | commands.go:522-548 | The loop over the entries succeeds iff every entry's record can be built, and then holds those records in listing order. |
| Commands.ReadAllFail | commands.go:536-542 | The first entry whose record fails ends the loop with that error. |
| Commands.ReadFilesByPath | commands.go:522-548 | The method's result equals the function `ReadFiles`: ReadDir of the relative path (failing with its error), then the records in order. |
| Commands.ReadFilesLinkToParent | commands.go:522-548 | For a clean directory below "/", every returned record hashes its own joined path and has the directory's hash as its parent hash. |
| Commands.VolIds | commands.go:53-58 | The id of each volume is MD5ID of its name. |
| Commands.Connector.constructor | commands.go:53-68 | The map is each volume under MD5ID of its name, with a later volume of the same id replacing an earlier one. The default is the first volume (nil when none). `Created` is the given time. |
| Commands.Connector.GetVolId | commands.go:76-83 | It returns a key whose stored volume is `v` itself iff one exists, and "" otherwise. |
| Commands.Connector.GetVolByTarget | commands.go:111-117 | It returns parseTarget's result, with the id and path cleared whenever there is an error. |
| Commands.Connector.ParentsCommand | commands.go:172-222 | A target that does not parse is answered with NewErr of the error. An unknown id, or any failing record or listing on the walk, panics. Otherwise the tree is the record of the path followed by the walk up to "/". |
| Commands.WalkStep | commands.go:201-219 | One step of the loop: the record of Dir(path), then the records of its entries, then the walk from Dir(path); any failure ends the walk with that error. |
| Commands.AncestorsEndAtRoot | commands.go:201-202 | The loop over `filepath.Dir` from any absolute path other than "/" ends at "/". |
| Commands.WalkVisitsAncestors | commands.go:201-219 | A successful walk holds the record of every ancestor of the path. |
| Commands.ParentsRevisitsRoot | commands.go:201-208 | The walk climbs past the volume root "/" + name to "/". The record of "/" is the volume root's stat again, not marked root, and its parent hash equals its own hash. |
| VolumeIndex.IndexKeys | connector.go:20-24 | The stored ids are exactly the ids given. |
| VolumeIndex.IndexLaterWins | connector.go:20-24 | A volume whose id no later volume shares is the one stored under that id: of two volumes with one id, the later wins. |
| VolumeIndex.IndexValues | connector.go:20-24 | Every stored volume is one of the volumes given. |
| VolumeIndex.IndexKeyedBy | connector.go:20-24 | When each id is computed from its volume, every stored volume sits under its own id. |
| VolumeIndex.Fill | connector.go:20-24 | The loop builds exactly the map `Index(ids, vols)`. |
| ConnectorOptions.ApplyAll | connector.go:16-19 | The setter loop yields the options after applying the setters in order. |
| ConnectorOptions.LastVolumesWin | connector.go:111-115 | The volumes come from the last `WithVolumes`; a `WithLogger` after it does not touch them. |
| ConnectorOptions.NoVolumesKeep | connector.go:13-19 | Without `WithVolumes` the initial (empty) volume list stays. |
| ConnectorOptions.LastLoggerWins | connector.go:117-121 | The logger comes from the last `WithLogger`. |
| ConnectorOptions.NoLoggerKeeps | connector.go:13-19 | Without `WithLogger` the initial logger (standard output) stays. |
| RootConnector.Connector.constructor | connector.go:12-34 | After the setters, each volume is under MD5ID of its name (a later one of the same name wins) and every key is the MD5ID of its volume's name. The default is the first volume or nil. The options' logger is not copied (the field stays unset). |
| RootConnector.Connector.GetVolId | connector.go:43-50 | It returns a key whose stored volume is `v` itself iff one exists, and "" otherwise. |
| RootConnector.GetVolByTarget | connector.go:96-102 | It returns the decoder's result, with id and path "" whenever it reports an error. |
| Connection.Connector.constructor | connection/connector.go:15-38 | As the root connector, and the logger is the options' logger: the global logger unless `WithLogger` is applied. |
| Connection.Connector.GetVolId | connection/connector.go:48-55 | It returns a key whose volume has `v`'s name iff one exists (name equality, not identity), and "" otherwise. |
| Connection.Connector.GetFsById | connection/connector.go:56-58 | It returns the volume stored under the id, or nil; it never falls back to the default. |
| ZipFiles.Lookup | zipfilemanager.go:13-18 | `(path, ok)` has ok iff the key is bound, and then the bound path; otherwise "". |
| ZipFiles.LookupAfterBind | zipfilemanager.go:13-24 | After binding a key, a lookup finds the new path. |
| ZipFiles.LookupOtherKeys | zipfilemanager.go:20-33 | Binding or dropping one key leaves every other key's lookup unchanged. |
| ZipFiles.LookupAfterDrop | zipfilemanager.go:26-33 | After a key is dropped its lookup fails. |
| ZipFiles.Registry.constructor | zipfilemanager.go:8-11 | The registry starts empty. |
| ZipFiles.Registry.Set | zipfilemanager.go:20-24 | It binds the key to the path, replacing any binding. The key's lookup then returns the path, and every other key's lookup is unchanged. |
| ZipFiles.Registry.Del | zipfilemanager.go:26-33 | It removes the key. A bound key's file (and subtree) is removed from the disk, and a key bound to the empty path removes nothing, as `os.RemoveAll("")` does. An unbound key changes neither the map nor the disk. Other keys' lookups are unchanged. |
| LocalVolume.UploadedChunkIsPart | volume.go:142-166 | A chunk uploaded as "<file>.<i>_<total>.part" with upload id cid lands exactly at the path MergeChunk reads for part i. |
| LocalVolume.PartPathInjective | volume.go:165-166 | Distinct part indices name distinct part files. |
| LocalVolume.PartPathsApart | volume.go:165-175 | Distinct parts are distinct files, none inside another, and none is the merged file. |
| LocalVolume.PartPathOutside | volume.go:159-175 | A part path is neither the merged file nor a folder above it. |
| LocalVolume.DirOfPart | volume.go:159-166 | A part lies in the merged file's directory. |
| LocalVolume.Parts | volume.go:165-166 | The part paths are parts 0 to total inclusive, in order, named `realPath.i_total.part_cid`. |
| LocalVolume.FirstUnreadable | volume.go:165-170 | The first part that cannot be opened: every part before it can be, and it cannot. |
| LocalVolume.FirstUnreadableIs | volume.go:165-170 | FirstUnreadable finds exactly the part that cannot be read after parts that can. |
| LocalVolume.MergedStep | volume.go:165-176 | One loop round copies part i after the bytes merged so far and removes the part. |
| LocalVolume.UploadIdempotent | volume.go:146-155 | Delivering the same chunk twice leaves the file system as one delivery does. |
| LocalVolume.UploadKeepsTail | volume.go:146-155 | Uploading fewer bytes than the part already holds keeps the old tail: no truncation. |
| LocalVolume.LocalFileVolume.constructor | volume.go:35-40 | The id is `GenerateID(path)` and the base path is the path. |
| LocalVolume.LocalFileVolume.InfoAt | volume.go:51-80 | Info succeeds exactly when the stat of the real path ("" and "/" mean the base path) succeeds. |
| LocalVolume.LocalFileVolume.InfoAtRecord | volume.go:51-80 | The parent hash is empty iff the real path is the base path, and is otherwise the hash of its Dir; it is set even when the stat fails, when the record holds nothing else. On success the record has the name, hash, size and time of the node. It is "directory" with Dirs 1 iff a directory, else "file" with 0. |
| LocalVolume.LocalFileVolume.InfosMembers | volume.go:92-98 | The listing keeps exactly the records of the entries whose Info succeeds. |
| LocalVolume.LocalFileVolume.List | volume.go:82-101 | It returns the records of the directory's entries in name order, skipping failing Infos; nothing when the directory cannot be read. |
| LocalVolume.LocalFileVolume.UploadChunk | volume.go:142-156 | The bytes are written from offset 0 into `Join(dirPath, chunkName) + "_" + cid`, which is created when missing and never truncated. |
| LocalVolume.LocalFileVolume.MergeChunk | volume.go:158-178 | The destination is opened without truncation. Parts 0..total are copied in order from offset 0, each removed after copying. The first unreadable part ends it with its error, the earlier parts already merged and removed. Otherwise the result is the Info of the merged file. |
| LocalVolume.LocalFileVolume.InfoOfPart | volume.go:180-190 | Info of a part path succeeds iff that path exists. |
| LocalVolume.LocalFileVolume.CompleteChunk | volume.go:180-190 | It returns true iff every part 0..total exists. |
| LocalVolume.LocalFileVolume.MakeDir | volume.go:196-203 | The disk is the outcome of `os.Mkdir(Join(dir, name), ModePerm)`; on an error the result is that error, otherwise the Info of the new directory. |
| LocalVolume.LocalFileVolume.MakeFile | volume.go:205-226 | The disk is the outcome of `os.Create`, which empties an existing file. On success the record is "file" with Dirs 0, and its parent hash is the hash of `dir`. |
| LocalVolume.LocalFileVolume.UploadFile | volume.go:129-140 | The bytes are written over the start of the file, which is not truncated; the result is then its Info. |
| LocalVolume.LocalFileVolume.Rename | volume.go:228-237 | The entry moves to `Join(Dir(old), newName)`; on success the result is the Info of the new path. |
| LocalVolume.LocalFileVolume.Remove | volume.go:239-241 | The path and its subtree are removed, with no error even when the path is missing. The empty path removes nothing, as `os.RemoveAll("")` does. |
| LocalVolume.LocalFileVolume.PasteTarget | volume.go:246-250 | The target is `Join(dir, filename)` plus `suffix` iff something by that name already exists. |
| LocalVolume.LocalFileVolume.Paste | volume.go:243-260 | The bytes are written to a new or emptied file at PasteTarget; the result is its Info or the error. |
| LocalVolume.LocalFileVolume.RootFileDir | volume.go:262-274 | The root record is a locked "directory" with Dirs 1, the volume's id, no parent hash, and the base path's hash and name. |
| LocalVolume.LocalFileVolume.RootFileDirIsInfo | volume.go:51-80 | For a directory base path, the root record is Info("/") with the volume id, the lock and no time stamp. |
| ChunkProtocol.DigitEnd | elfinder.go:542 | The end of a greedy digit run: digits up to it, and a non-digit (or the end) at it. |
| ChunkProtocol.FirstPartAt | elfinder.go:542 | The least position where `\.([0-9][0-9]*?_[0-9][0-9]*?)\.part` matches, or -1 when none does. |
| ChunkProtocol.FindChunkName | elfinder.go:542-551 | There is no match iff `\.[0-9]+_[0-9]+\.part` matches nowhere. On a match, the submatches are those at the first position `i` where it matches. The name is `s[p..i]`, where `p` is the start or just after a newline, and it holds no newline. `cur` is the digit run right after the ".", and `total` the digit run right after the "_" that ends it; both are non-empty. |
| ChunkProtocol.SubmatchedUnique | elfinder.go:542-547 | The submatches at a match position are determined by it: two readings of the same match agree on the name and on both numbers. |
| ChunkProtocol.FindChunkFileName | elfinder.go:542-583 | A chunk name `name.<cur>_<total>.part`, whose name has no newline and no ".part" of its own, is read back as name, cur and total. |
| ChunkProtocol.SplitDigits | elfinder.go:552 | `strings.Split(ch[2], "_")` gives the two digit runs. |
| ChunkProtocol.AtoiOfDigits | elfinder.go:553-562 | A digit run that Atoi accepts is a non-negative 64-bit value. |
| ChunkProtocol.ParseChunkUpload | elfinder.go:541-583 | Every rejection is errUploadFile. The upload is `RangeDropped` iff the chunk name matches, both its numbers parse, and the range does not split into 3 parts; the branch then leaves the switch before anything is stored. It is accepted iff the name matches and all five numbers parse. The accepted name is the name submatch, and each number is Atoi of its submatch or range part. The parts are non-negative, the name has no newline and the total fits in 64 bits. |
| ChunkProtocol.ParseChunkFileName | elfinder.go:541-583 | A client's chunk name and range, with numbers that fit in 64 bits, are accepted with exactly those values. |
| ChunkProtocol.ParseChunkUploadIs | elfinder.go:547-583 | When every step succeeds, the upload is accepted with the parsed values. |
| ChunkProtocol.SplitRangeField | elfinder.go:563-567 | "offset,length,total" splits into its three numbers. |
| ChunkProtocol.ChunkMerged | elfinder.go:601-604 | The merge token is set iff the chunk was accepted and its part number equals the total. |
| ChunkProtocol.FirstMergeAt | elfinder.go:607-616 | The least position where `([0-9]*)_([0-9]*)_` matches, or -1 when none does. |
| ChunkProtocol.Line | elfinder.go:607 | What the greedy `(.*)` takes: the text up to the first newline. |
| ChunkProtocol.ParseMergeToken | elfinder.go:607-623 | There is no result iff the merge expression matches nowhere. Otherwise both numbers are non-negative (Atoi with its error ignored) and the name has no newline. |
| ChunkProtocol.ParseTokenOf | elfinder.go:607-623 | An optional "-", two digit runs and a newline-free name are read as the runs' values and the name; a leading "-" is skipped. |
| ChunkProtocol.MergeTokenRoundTrip | elfinder.go:601-623 | For a non-negative cid and total, the token "cid_total_name" is read back as (cid, total, name). |
| ChunkProtocol.ChunkMergedRoundTrip | elfinder.go:541-623 | What the upload branch announces is what the merge request reads back, whenever the upload id is not negative. |
| ChunkProtocol.NegativeCidLosesSign | elfinder.go:601-623 | For a negative cid the "-" is skipped, and the merge reads back the id's absolute value. |
| ChunkProtocol.ChunkReply | elfinder.go:541-646 | As written: the response has an error iff the upload is rejected. It has warnings only for a stored chunk (the per-file loop's errors), never any added record, and the chunk-merged token as `ChunkMerged` gives it. |
| ChunkProtocol.RangeDroppedSilently | elfinder.go:563-567 | A chunk named as a client names it, with a range field that does not split into three, is `RangeDropped`. The `break` skips elfinder.go:646, so the response is empty: no error, no warning, nothing stored. |
| ChunkProtocol.IntendedChunkReply | elfinder.go:563-567 | The corrected response equals `ChunkReply` except for a dropped range, which now carries the warning. |
| ChunkProtocol.ChunkReplyHeard | elfinder.go:541-583 | With the corrected response, every chunk that is not stored is reported, by its error or by the warning "err range data". |
| ChunkProtocol.MergeReply | elfinder.go:605-647 | As written: the response has an error iff the token does not match. It adds a record iff the token matches and the merge succeeds, and that record is the merged file's. It never has warnings or a token. |
| ChunkProtocol.MergeFailureSilent | elfinder.go:624-628 | A matching token whose merge fails gets an empty response: the MergeChunk error is lost. |
| ChunkProtocol.IntendedMergeReply | elfinder.go:624-628 | The corrected response equals `MergeReply` except for a failed merge, which now carries its error as a warning. |
| ChunkProtocol.MergeReplyHeard | elfinder.go:605-629 | With the corrected response, every merge request is answered: by an error, by the merge error as a warning, or by the merged record. |
| ChunkProtocol.Mode | elfinder.go:541-630 | A chunk is sent iff Cid != 0 and Chunk != ""; a merge request iff Cid == 0 and Chunk != ""; whole files iff Chunk == "". |
| ElFinder.ParseTarget | elfinder.go:713-722 | "" and "/" give "/" without decoding. Anything else decodes as it is (no "/" added); an invalid one gives "" and the error. |
| ElFinder.ParseEncoded | elfinder.go:713-722 | The encoding of a path is parsed back to that path; the empty path comes back as "/". |
| ElFinder.Locate | elfinder.go:177-183 | The id is everything before the first "_" and the path is parseTarget of the rest; a target without "_" is the root "/". |
| ElFinder.SplitTarget | elfinder.go:177-182 | `strings.Split` then `Join(pieces[1:], "_")` gives everything after the first "_", or "" when there is none. |
| ElFinder.LocateHash | elfinder.go:177-183 | A target a volume hashes a path to is located at that volume's id and path. |
| ElFinder.CalculateFolderSize | elfinder.go:887-898 | The total is `Total(Walk(p))`: the sum of the reported sizes of the records the walk visits, folders' own sizes included. WalkVisitsBelow states, for a real folder path, that the walk visits every node below it exactly once, so each descendant is counted once. The case "/" is under Findings. |
| ElFinder.WalkVisitsBelow | elfinder.go:887-898 | On a well-formed tree, in which every folder lists each name once, the walk of a folder other than "" and "/" visits only nodes below it, each with its own Info. It visits every node below it, and no path twice. |
| ElFinder.WalkDistinct | elfinder.go:887-898 | On such a tree, the walk of a folder visits no path twice. Records of one listing carry different names, and the trees of two differently named children share no node. |
| ElFinder.ListOnce | volume.go:82-101 | On such a tree, the records that List returns for a folder carry pairwise different names. |
| ElFinder.WalkSound | elfinder.go:887-898 | Every visit of the walk of such a folder is a node below it, reported with its own Info. |
| ElFinder.WalkComplete | elfinder.go:887-898 | Every node below such a folder is visited by its walk. |
| ElFinder.RootWalkLeavesVolume | elfinder.go:887-898 | As written, with the base path "/vol" holding the folder "sub" and the file "/vol/sub/f": `List` reads "/" as the base path (volume.go:83-85), but the walk of "/" visits only "/sub". That path lies outside the volume and does not exist, so "/vol/sub/f" is never reached and the total is 0. |
| ElFinder.IntendedWalk | elfinder.go:887-898 | The corrected walk reads the folder as its real path. For every folder other than "" and "/" it equals the walk as written. |
| ElFinder.IntendedWalkCovers | elfinder.go:887-898 | The corrected walk of any folder target, "/" included, visits exactly the nodes below the real path it stands for, each once. |
| ElFinder.Then | elfinder.go:849-885 | Nothing more is written after an error: the entries so far and that error. |
| ElFinder.FileEntry | elfinder.go:863-882 | A file met at `path` gives one entry named `TrimPrefix(path, base)` with the file's bytes, or the read error. |
| ElFinder.PackEntries | elfinder.go:849-885 | Packing succeeds iff every file can be read. It then gives one entry per file, in walk order, each named by its path without the base and holding its bytes. Otherwise the error is that of the first unreadable file. |
| ElFinder.Slash | elfinder.go:850-852 | The base folder with "/" appended when it does not already end in one. |
| ElFinder.ZipFolder | elfinder.go:849-885 | The entries written and the error equal the function `FolderEntries`: the files of the folder's walk, packed until the first error. |
| ElFinder.EntryNameRebuildsPath | elfinder.go:850-863 | The base folder, its "/" and the entry name give the file's path back. |
| ElFinder.FolderEntryName | elfinder.go:849-863 | A folder target is zipped relative to its parent, so a file `n` directly inside it is named "<folder name>/n". |
| ElFinderConnector.Ids | elfinder.go:34-37 | The id of each volume is what `vol.ID()` returns. |
| ElFinderConnector.OneSizeKey | elfinder.go:48-54 | With a single "zipmaxsize" key in any letter case, its value is the only size the options can set, and none when Atoi does not read it as positive. |
| ElFinderConnector.OneTmpKey | elfinder.go:55-60 | With a single "ziptmppath" key in any letter case, its value is the only folder the options name. |
| ElFinderConnector.NoSizeKey | elfinder.go:48-54 | Without a "zipmaxsize" key the options set no size. |
| ElFinderConnector.AllLinesAre | elfinder.go:196-200 | Without an intersect list, each record gives one line `"hash";"name"`, in order. |
| ElFinderConnector.MatchLinesCount | elfinder.go:188-194 | With an intersect list, a record gives its line once for every occurrence of its name in the list, and no other line. |
| ElFinderConnector.IntersectMembers | elfinder.go:186-195 | With an intersect list, the lines are exactly those of the records whose name is in the list. |
| ElFinderConnector.EmptyIntersect | elfinder.go:186-195 | An intersect list that is given but empty selects nothing, unlike no list at all. |
| ElFinderConnector.FileSize | elfinder.go:437-447 | A file target (not the base path) counts with the length of its bytes. |
| ElFinderConnector.PlanSizeAppend | elfinder.go:744-754 | The size of two lists of targets is the sum of their sizes. |
| ElFinderConnector.FileEntryIsNamed | elfinder.go:785-815 | A file target is archived as one entry under its own name with its bytes. A target whose Info fails stops the archive with ErrNotExist. |
| ElFinderConnector.PlanEntriesStop | elfinder.go:782-823 | After a failing target the archive fails with the first error, and later targets are not written. |
| ElFinderConnector.PlanEntriesStep | elfinder.go:782-823 | One more target's entries follow the entries so far. |
| ElFinderConnector.ArchiveName | elfinder.go:770-772 | The archive name, the time stamp and the key followed by ".zip", is a single path component. |
| ElFinderConnector.ArchivedRegistersOnSuccess | elfinder.go:773-836 | The key is registered exactly when there is no error. It is then bound to the temporary file, which holds the archive of every target's entries, and the response describes mime, key and name. On an error the registry is unchanged and there is no description. |
| ElFinderConnector.ArchivedOrphansOnError | elfinder.go:773-836 | A target that cannot be written leaves the created temporary file behind, unregistered. Apart from that file, the file system is as the creation left it. |
| ElFinderConnector.Served | elfinder.go:649-678 | An unknown key is answered with no error and nothing sent. Bytes are sent iff the key is registered, its file can be read and sending succeeds. The bytes are the file's. Name and type are taken only from a 4-element Targets. |
| ElFinderConnector.ServedAfterSet | elfinder.go:649-668 | An archive registered under a key is sent, with the request's name and type, as its file's bytes. |
| ElFinderConnector.ServedOnce | elfinder.go:665-668 | Once the key is dropped after sending, the same request gets nothing: an archive is handed out once. |
| ElFinderConnector.ZipDownload | elfinder.go:649-678 | The answer is `Served` of the old state. After a send, the key and its file are removed; on a failure or an unknown key nothing changes. |
| ElFinderConnector.LinesOf | elfinder.go:196-200 | The loop produces `AllLines`. |
| ElFinderConnector.MatchOf | elfinder.go:189-194 | The inner loop produces `MatchLines`. |
| ElFinderConnector.IntersectOf | elfinder.go:188-195 | The outer loop produces `IntersectLines`. |
| ElFinderConnector.PickSizeOf | elfinder.go:437-447 | One target adds 0 when its Info fails, the folder walk's total for a folder, and its size otherwise. |
| ElFinderConnector.PlanSizeOf | elfinder.go:744-754 | The ceiling loop sums `PlanSize` of the parsed targets. |
| ElFinderConnector.WriteEntries | elfinder.go:782-823 | The writing loop gives `PlanEntries`: every target's entries in order, until the first error. |
| ElFinderConnector.PickEntriesOf | elfinder.go:783-822 | One target is one entry named by its record for a file, or zipFolder relative to its parent for a folder. |
| ElFinderConnector.WriteArchive | elfinder.go:765-836 | The response, the disk and the registry after creating, writing and registering are those `Archived` describes. |
| ElFinderConnector.Connector.constructor | elfinder.go:34-40 | Each volume is stored under its id (later wins), the first volume is the default, and the ceiling and folder are unset; an empty list panics. |
| ElFinderConnector.Connector.WithOption | elfinder.go:42-72 | The ceiling is the value of a "zipmaxsize" key in any letter case that Atoi reads as positive, or 1 GiB when no key gives one, so it is always positive. The folder is the value of a "ziptmppath" key in any letter case, or "/tmp" when there is no such key or its value is "". Among several keys of a kind, either value may win, since map order is unspecified. Every "ziptmppath" value must exist. |
| ElFinderConnector.Connector.GetVolume | elfinder.go:701-711 | A non-empty registered id gives its volume, which carries that id. "" or an unregistered id gives the default volume. |
| ElFinderConnector.Connector.HashResolves | elfinder.go:701-722 | A stored volume's hash of a path resolves to that volume and that path. |
| ElFinderConnector.Connector.Ls | elfinder.go:174-203 | The list is the lines of the located folder's records, all of them, or with an intersect list those whose name is in it. A target without "_" lists "/", and one that does not decode lists "". |
| ElFinderConnector.Connector.Plan | elfinder.go:729-741 | At most one pick per target; targets that do not decode are skipped. |
| ElFinderConnector.Connector.SizeOfFileTarget | elfinder.go:427-450 | The target of a stored volume's file plans that volume and path, so `size` counts the file's length. |
| ElFinderConnector.Connector.Size | elfinder.go:427-450 | `size` is the sum over the targets that parse of 0 for a failing Info, the folder total for a folder, and the size otherwise. |
| ElFinderConnector.Connector.PlanOf | elfinder.go:729-741 | The loop keeps exactly `Plan(targets)`. |
| ElFinderConnector.Connector.Zipdl | elfinder.go:724-838 | A zero ceiling becomes 1 GiB. If the size sum is at least the ceiling, the answer is errArcMaxSize with nothing created or registered. Otherwise the folder defaults to "/tmp", the archive "<stamp><key>.zip" is created there, and the result is `Archived`: registered only when every target is written. |
| Bind.SetIntField | bind.go:200-209 | "" is read as "0". The error is ParseInt's; on an error the field keeps its value, otherwise it holds the parsed value. |
| Bind.SetUintField | bind.go:211-220 | "" is read as "0". The error is ParseUint's; on an error the field keeps its value, otherwise it holds the parsed value. |
| Bind.SetBoolField | bind.go:222-231 | "" is read as "false". The error is ParseBool's; on an error the field keeps its value, otherwise it holds the parsed value. |
| Bind.EmptyIsZero | bind.go:157-231 | An empty value sets an int or uint field of any width to 0 and a bool field to false, with no error. |
| Bind.ErrorKeepsField | bind.go:157-231 | A value that does not parse leaves the field as it was; a string field takes any value. |
| Bind.IntRoundTrip | bind.go:200-209 | The decimal text of a 64-bit integer binds an int64 field to it. |
| Bind.FoldSearch | bind.go:75-81 | The key found equals the name under case folding; none is found only when no key does. |
| Bind.LookupRules | bind.go:69-82 | An exact key wins. Otherwise the key used is the first in iteration order equal under case folding. Without any, nothing is found. |
| Bind.FindFold | bind.go:75-81 | The breaking search loop returns `FoldSearch`. |
| Bind.StringSliceTakesAll | bind.go:96-105 | A string slice field with n values receives all n, in order. |
| Bind.SliceElemsFails | bind.go:97-104 | A slice fails exactly when one of its values does not parse. |
| Bind.ScalarTakesFirst | bind.go:84-109 | A scalar string field takes only the first value; a field whose name is not found keeps its value. |
| Bind.BoundFields | bind.go:39-111 | Binding stops at the first failing field, which keeps its value along with every later field; earlier fields hold their outcomes. Without an error every field holds its outcome. |
| Bind.FirstValues | bind.go:23-28 | A map destination gets every key bound to its first value. |
| Bind.BindData | bind.go:15-112 | A nil destination or empty data binds nothing, with no error. A map gets each key's first value. Another non-struct is untouched, with no error for "param", "query" and "header" and an error otherwise. A struct gets `Bound`. |
| Bind.BindStruct | bind.go:39-111 | The field loop produces `Bound` over all fields. |
| Bind.BindField | bind.go:51-109 | The loop body gives `FieldOutcome`. |
| Bind.SetField | bind.go:96-109 | A slice with values is built element by element and set only when every element parses; another field takes the first value. |

## Left out

- HTTP and JSON are left out: `ServeHTTP`, request parsing, headers, `SendJson`/`json.Marshal` and the response fields `elf.req`/`elf.res`. Handlers take their request values as parameters and return their responses.
- The ZIP container and Deflate compression are left out. The archive's bytes are a parameter `archive` applied to the ordered (name, bytes) entries. `CreateHeader` and the writer's `Close` are taken to succeed.
- MD5, `time.Now` and `math/rand` (`GenerateTargetsMD5Key`, `RandomStr`) are not computed. The hash is an opaque function, and the time stamp and the key are parameters.
- The `zipLocker` mutex and the logger are left out; the model is sequential.
- ElFinderConnector.ArchivedOrphansOnError does not state what the orphaned temporary file holds. The model writes the archive's bytes in one step, once every entry is written. In Go, the zip writer flushes to the file as entries are copied, so a failed zipdl may leave a partial archive where the model leaves an empty file.
- ElFinderConnector.Connector.WithOption requires every "ziptmppath" value to exist. When `os.Stat` reports that the folder does not exist, Go creates it with `os.MkdirAll` and then calls `log.Fatal`, whatever MkdirAll returned, which ends the process. That exit is not modelled. When the stat succeeds, or fails for another reason, the value is kept, as in the model.
- The handler files `command_*.go` (root and `connection/`), the data-only files, `log.go`, `log/log.go` and the example are left out. The other `dispatch` commands of elfinder.go are also left out.
- `Parents` and `GetFile` of volume.go are left out: they are not among the operations modelled. `GetFile` appears only as the file read inside zipdl.
- The calls at elfinder.go:595 and elfinder.go:624 pass more arguments than `UploadChunk` and `MergeChunk` declare at volume.go:23-24, so that snapshot does not compile. The store is modelled with volume.go's declared signatures, and the parsers separately.
- ElFinder.CalculateFolderSize: sums are unbounded integers, so int64 overflow of very large totals is not modelled. The same holds for ElFinderConnector.Connector.Size and the zipdl ceiling sum.
- Strconv: `Atoi` and `ParseInt` accept an optional sign and decimal digits. `ParseUint` accepts decimal digits only and rejects any sign, as Go does. All three reject out-of-range values. `ParseBool` accepts Go's spellings. Underscores and base prefixes are not modelled.
- Strings.EqualFold and Strings.ToLower fold ASCII letters only, not Unicode.
- FilePath.Join, FilePath.Dir and FilePath.Base agree with Go on clean paths. The lemmas that need it require clean paths, and `filepath.Clean` is not modelled in general.
- Directory listings come back sorted by name, as `ioutil.ReadDir` returns them. Each node carries its mode bits and modification time.
- Bind.SetWithProperType: float fields are not modelled. `setFloatField` works on floating point, and float kinds fall in the unknown-type case. Pointer fields, anonymous and untagged nested structs, and `BindUnmarshaler`/`TextUnmarshaler` fields are not modelled either.
- Bind.BindData: every key must have at least one value. The source indexes `inputValue[0]` and `v[0]` and would panic on an empty list. A nil map destination, which makes `SetMapIndex` panic, is not modelled.
- Commands.Connector.GetVolId, RootConnector.Connector.GetVolId, Connection.Connector.GetVolId and ElFinderConnector.Connector.WithOption: Go's map iteration order is modelled as a nondeterministic choice. The contracts say which keys may come back, not which one does.
- LocalVolume.LocalFileVolume.RootFileDir requires the base path to exist. The source dereferences the stat result without checking it.

Two behaviours of the code that a caller may not expect; the model follows
the code in both:
- `MergeChunk` reads parts 0 to total inclusive, not 0 to total-1. It removes each part as soon as it is copied, so a merge that fails partway has already consumed the earlier parts (LocalVolume.LocalFileVolume.MergeChunk).
- A zipdl that fails after the temporary file is created leaves that file on disk, unregistered. Nothing will hand it out or remove it (ElFinderConnector.ArchivedOrphansOnError).

## Findings

| source | as written | input that shows it | evidently intended | confidence | as-written member | corrected member |
|---|---|---|---|---|---|---|
| elfinder.go:563-567 | A range field that does not split into three appends "err range data" to `errs`, then leaves the switch by `break`. This skips `elf.res.Warning = errs` at elfinder.go:646. | Chunk "a.0_0.part" with a non-zero cid and Range "1,2": nothing is stored, and the response has no error and no warning. | The client is told "err range data". | not executed | ChunkProtocol.RangeDroppedSilently | ChunkProtocol.ChunkReplyHeard |
| elfinder.go:624-628 | A MergeChunk error is appended to `errs`, then the branch leaves the switch by `break`, skipping elfinder.go:646. | A merge token "5_1_a" whose part files are missing: the merge fails, and the response is empty. | The merge error reaches the client as a warning. | not executed | ChunkProtocol.MergeFailureSilent | ChunkProtocol.MergeReplyHeard |
| elfinder.go:887-898 | `calculateFolderSize` lists "/" as the volume's base path (volume.go:83-85), but joins the listed names to "/" itself. So the walk leaves the volume. zipFolder (elfinder.go:849-885) walks the same way. | Base path "/vol" holding the folder "sub" and in it the file "f": the walk of "/" visits "/sub", which is outside the volume, and sums 0 bytes. | The walk of "/" covers the base path's tree. | not executed | ElFinder.RootWalkLeavesVolume | ElFinder.IntendedWalkCovers |
