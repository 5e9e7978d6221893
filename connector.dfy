/** connector.go: the connector built from functional options. Volumes are
    stored under MD5ID of their names, the first volume is the default, and
    targets are decoded by `DecodeTarget`, which is not part of this model
    and is a parameter here. */
module RootConnector {
  import opened GoTypes
  import Util
  import FsView
  import VolumeIndex
  import Commands
  import ConnectorOptions

  /** An `io.Writer` given to WithLogger; `Stdout` is the default. */
  datatype Writer = Stdout | Named(name: GoString)

  type Setter = ConnectorOptions.Setter<FsView.FsVolume, Writer>

  /** The option record before any setter runs. */
  function DefaultOpt(): ConnectorOptions.Opt<FsView.FsVolume, Writer> {
    ConnectorOptions.Opt([], Stdout)
  }

  class Connector {
    var defaultVol: Option<FsView.FsVolume>
    var vols: map<GoString, FsView.FsVolume>
    var created: int
    /** `Logger` of the struct, which NewConnector never fills in. */
    var logger: Option<Writer>

    /** `NewConnector(opts...)`: the setters are applied in order, then
        each volume of the result is stored under MD5ID of its name (a
        later volume of the same name replacing an earlier one) and the
        first is the default. The logger chosen by the options is not
        copied into the connector. */
    constructor (md5: GoString -> Util.Digest, opts: seq<Setter>, now: int)
      ensures var o := ConnectorOptions.Applied(opts, DefaultOpt());
        && vols == VolumeIndex.Index(Commands.VolIds(md5, o.vols), o.vols)
        && defaultVol == VolumeIndex.First(o.vols)
      ensures forall k | k in vols :: k == Util.MD5ID(md5, vols[k].name)
      ensures created == now && logger == None
    {
      var o := ConnectorOptions.ApplyAll(opts, DefaultOpt());
      var ids := Commands.VolIds(md5, o.vols);
      var m := VolumeIndex.Fill(ids, o.vols);
      VolumeIndex.IndexKeyedBy(ids, o.vols, (v: FsView.FsVolume) => Util.MD5ID(md5, v.name));
      vols := m;
      defaultVol := VolumeIndex.First(o.vols);
      created := now;
      logger := None;
    }

    /** `GetVolId(v)`: the key under which `v` itself is stored, or "". */
    method GetVolId(v: FsView.FsVolume) returns (id: GoString)
      ensures (exists k | k in vols :: vols[k] == v) <==> (id in vols && vols[id] == v)
      ensures !(id in vols && vols[id] == v) ==> id == []
    {
      var keys := vols.Keys;
      while keys != {}
        invariant keys <= vols.Keys
        invariant forall k | k in vols && k !in keys :: vols[k] != v
        decreases keys
      {
        var k :| k in keys;
        if vols[k] == v {
          return k;
        }
        keys := keys - {k};
      }
      return [];
    }
  }

  /** `GetVolByTarget(target)`: what `decodeTarget` returns, with the id
      and path cleared when it reports an error. */
  function GetVolByTarget(decodeTarget: GoString -> Commands.Target, target: GoString): (r: Commands.Target)
    ensures r.err == decodeTarget(target).err
    ensures r.err.Some? ==> r.id == [] && r.path == []
    ensures r.err.None? ==> r == decodeTarget(target)
  {
    var t := decodeTarget(target);
    if t.err.Some? then Commands.Target([], [], t.err) else t
  }
}
