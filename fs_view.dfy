/** The volumes of the newer API (`NewVolume` in commands.go,
    `volumes.FsVolume` in the connection package): a name and a read-only
    `fs.FS`. The file system is given by what `fs.Stat` and `fs.ReadDir`
    report for each path they accept; any other path fails with
    ErrNotExist. */
module FsView {
  import opened GoTypes

  /** What `fs.Stat` or a directory entry reports about one file. */
  datatype Stat = Stat(name: GoString, isDir: bool, size: int, modTime: int)

  class FsVolume {
    const name: GoString
    const stats: map<GoString, Stat>
    const listings: map<GoString, seq<Stat>>

    constructor (name: GoString, stats: map<GoString, Stat>, listings: map<GoString, seq<Stat>>)
      ensures this.name == name && this.stats == stats && this.listings == listings
    {
      this.name := name;
      this.stats := stats;
      this.listings := listings;
    }
  }

  /** `fs.Stat(vol, p)`. */
  function StatOf(vol: FsVolume, p: GoString): Result<Stat> {
    if p in vol.stats then Ok(vol.stats[p]) else Fail(ErrNotExist)
  }

  /** `fs.ReadDir(vol, p)`: the entries in the order the volume lists them. */
  function ReadDir(vol: FsVolume, p: GoString): Result<seq<Stat>> {
    if p in vol.listings then Ok(vol.listings[p]) else Fail(ErrNotExist)
  }
}
