/** connection/connector.go: the connector of the `connection` package.
    It builds its volume map like the root package's connector but keeps
    the logger chosen by the options (the global logger by default), finds
    a volume's id by comparing names, and looks volumes up by id with no
    fallback to the default volume. */
module Connection {
  import opened GoTypes
  import Util
  import FsView
  import VolumeIndex
  import Commands
  import ConnectorOptions

  /** A `log.Logger`: the package-wide `GlobalLogger` or another one. */
  datatype Logger = GlobalLogger | Named(name: GoString)

  type Setter = ConnectorOptions.Setter<FsView.FsVolume, Logger>

  function DefaultOpt(): ConnectorOptions.Opt<FsView.FsVolume, Logger> {
    ConnectorOptions.Opt([], GlobalLogger)
  }

  class Connector {
    var defaultVol: Option<FsView.FsVolume>
    var vols: map<GoString, FsView.FsVolume>
    var created: int
    var logger: Logger

    /** `NewConnector(opts...)`: as in the root package, and the logger of
        the options is kept. */
    constructor (md5: GoString -> Util.Digest, opts: seq<Setter>, now: int)
      ensures var o := ConnectorOptions.Applied(opts, DefaultOpt());
        && vols == VolumeIndex.Index(Commands.VolIds(md5, o.vols), o.vols)
        && defaultVol == VolumeIndex.First(o.vols)
        && logger == o.logger
      ensures forall k | k in vols :: k == Util.MD5ID(md5, vols[k].name)
      ensures created == now
    {
      var o := ConnectorOptions.ApplyAll(opts, DefaultOpt());
      var ids := Commands.VolIds(md5, o.vols);
      var m := VolumeIndex.Fill(ids, o.vols);
      VolumeIndex.IndexKeyedBy(ids, o.vols, (v: FsView.FsVolume) => Util.MD5ID(md5, v.name));
      vols := m;
      defaultVol := VolumeIndex.First(o.vols);
      created := now;
      logger := o.logger;
    }

    /** `GetVolId(v)`: a key whose volume has the same name as `v`, or ""
        when no stored volume has that name. */
    method GetVolId(v: FsView.FsVolume) returns (id: GoString)
      ensures (exists k | k in vols :: vols[k].name == v.name) <==> (id in vols && vols[id].name == v.name)
      ensures !(id in vols && vols[id].name == v.name) ==> id == []
    {
      var keys := vols.Keys;
      while keys != {}
        invariant keys <= vols.Keys
        invariant forall k | k in vols && k !in keys :: vols[k].name != v.name
        decreases keys
      {
        var k :| k in keys;
        if vols[k].name == v.name {
          return k;
        }
        keys := keys - {k};
      }
      return [];
    }

    /** `GetFsById(id)`: the volume stored under `id`, or nil; the default
        volume is never substituted. */
    function GetFsById(id: GoString): (r: Option<FsView.FsVolume>)
      reads this
      ensures r.Some? <==> id in vols
      ensures r.Some? ==> r.value == vols[id]
    {
      if id in vols then Some(vols[id]) else None
    }
  }
}
