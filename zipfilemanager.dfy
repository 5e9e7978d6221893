/** zipfilemanager.go: the process-wide registry of finished zip archives,
    a map from download key to the temporary file that holds the archive.
    The mutex that guards it is dropped: the model is sequential. */
module ZipFiles {
  import opened GoTypes
  import OsFs

  /** `path, ok := zipTmpFiles[key]`: Go's zero value "" when unbound. */
  function Lookup(files: map<GoString, GoString>, key: GoString): (r: (GoString, bool))
    ensures r.1 <==> key in files
    ensures r.1 ==> r.0 == files[key]
    ensures !r.1 ==> r.0 == []
  {
    if key in files then (files[key], true) else ([], false)
  }

  /** A lookup right after binding a key finds the new path. */
  lemma LookupAfterBind(files: map<GoString, GoString>, key: GoString, path: GoString)
    ensures Lookup(files[key := path], key) == (path, true)
  {
  }

  /** Binding or dropping one key leaves the lookup of every other key as
      it was. */
  lemma LookupOtherKeys(files: map<GoString, GoString>, key: GoString, path: GoString, other: GoString)
    requires other != key
    ensures Lookup(files[key := path], other) == Lookup(files, other)
    ensures Lookup(files - {key}, other) == Lookup(files, other)
  {
  }

  /** After a key is dropped a lookup of it fails. */
  lemma LookupAfterDrop(files: map<GoString, GoString>, key: GoString)
    ensures Lookup(files - {key}, key) == ([], false)
  {
  }

  /** `zipTmpFiles` together with the file system the temporary files live
      on. */
  class Registry {
    var files: map<GoString, GoString>
    const disk: OsFs.Disk

    /** `make(map[string]string)`. */
    constructor (disk: OsFs.Disk)
      ensures files == map[] && this.disk == disk
    {
      files := map[];
      this.disk := disk;
    }

    /** `getTmpFilePath(key)`: reads the map and changes nothing, so
        repeated lookups give the same answer. */
    function Get(key: GoString): (r: (GoString, bool))
      reads this
    {
      Lookup(files, key)
    }

    /** `setTmpFilePath(key, path)`: binds the key, replacing any earlier
        binding. */
    method Set(key: GoString, path: GoString)
      modifies this
      ensures files == old(files)[key := path]
      ensures Get(key) == (path, true)
      ensures forall k | k != key :: Get(k) == old(Get(k))
    {
      files := files[key := path];
    }

    /** `delTmpFilePath(key)`: removes the bound file, if the key is bound,
        and then the key. An unbound key touches neither the map nor the
        file system. */
    method Del(key: GoString)
      modifies this, disk
      ensures files == old(files) - {key}
      ensures key in old(files) ==> disk.nodes == OsFs.Removed(old(disk.nodes), old(files)[key])
      ensures key !in old(files) ==> files == old(files) && disk.nodes == old(disk.nodes)
      ensures disk.now == old(disk.now)
      ensures Get(key) == ([], false)
      ensures forall k | k != key :: Get(k) == old(Get(k))
    {
      if key in files {
        disk.RemoveAll(files[key]);
      }
      files := files - {key};
    }
  }
}
