/** The volume map every connector constructor builds: each volume stored
    under its id, in argument order, so that of two volumes with the same
    id the later one is kept; and the default volume, which is the first. */
module VolumeIndex {
  import opened GoTypes

  /** The map after storing `vols[i]` under `ids[i]` for i = 0, 1, ... */
  function Index<V>(ids: seq<GoString>, vols: seq<V>): map<GoString, V>
    requires |ids| == |vols|
    decreases |vols|
  {
    if vols == [] then map[]
    else Index(ids[..|ids| - 1], vols[..|vols| - 1])[ids[|ids| - 1] := vols[|vols| - 1]]
  }

  /** The ids stored are exactly the ids given. */
  lemma {:induction false} IndexKeys<V>(ids: seq<GoString>, vols: seq<V>)
    requires |ids| == |vols|
    ensures Index(ids, vols).Keys == set i | 0 <= i < |ids| :: ids[i]
    decreases |vols|
  {
    if vols != [] {
      var n := |ids| - 1;
      IndexKeys(ids[..n], vols[..n]);
      var before := set i | 0 <= i < n :: ids[..n][i];
      assert before == set i | 0 <= i < n :: ids[i];
      assert (set i | 0 <= i < |ids| :: ids[i]) == before + {ids[n]};
    }
  }

  /** A volume that no later volume shares its id with is the one stored
      under that id: the later of two volumes with one id wins. */
  lemma {:induction false} IndexLaterWins<V>(ids: seq<GoString>, vols: seq<V>, i: nat)
    requires |ids| == |vols| && i < |vols|
    requires forall j | i < j < |ids| :: ids[j] != ids[i]
    ensures ids[i] in Index(ids, vols) && Index(ids, vols)[ids[i]] == vols[i]
    decreases |vols|
  {
    var n := |ids| - 1;
    if i < n {
      IndexLaterWins(ids[..n], vols[..n], i);
    }
  }

  /** Every stored volume is one of the volumes given. */
  lemma {:induction false} IndexValues<V>(ids: seq<GoString>, vols: seq<V>)
    requires |ids| == |vols|
    ensures forall k | k in Index(ids, vols) :: Index(ids, vols)[k] in vols
    decreases |vols|
  {
    if vols != [] {
      var n := |ids| - 1;
      IndexValues(ids[..n], vols[..n]);
      assert forall x | x in vols[..n] :: x in vols;
    }
  }

  /** When every id is computed from its volume by `key`, every stored
      volume sits under its own key. */
  lemma {:induction false} IndexKeyedBy<V>(ids: seq<GoString>, vols: seq<V>, key: V -> GoString)
    requires |ids| == |vols|
    requires forall i | 0 <= i < |vols| :: ids[i] == key(vols[i])
    ensures forall k | k in Index(ids, vols) :: k == key(Index(ids, vols)[k])
    decreases |vols|
  {
    if vols != [] {
      var n := |ids| - 1;
      IndexKeyedBy(ids[..n], vols[..n], key);
    }
  }

  /** The loop `for i := range vols { volsMap[id(vols[i])] = vols[i] }`,
      with the ids computed beforehand. */
  method Fill<V>(ids: seq<GoString>, vols: seq<V>) returns (m: map<GoString, V>)
    requires |ids| == |vols|
    ensures m == Index(ids, vols)
  {
    m := map[];
    var i := 0;
    while i < |vols|
      invariant 0 <= i <= |vols|
      invariant m == Index(ids[..i], vols[..i])
    {
      assert ids[..i + 1][..i] == ids[..i] && vols[..i + 1][..i] == vols[..i];
      m := m[ids[i] := vols[i]];
      i := i + 1;
    }
    assert ids[..|vols|] == ids && vols[..|vols|] == vols;
  }

  /** `if len(vols) > 0 { defaultVol = vols[0] }`. */
  function First<V>(vols: seq<V>): Option<V> {
    if vols == [] then None else Some(vols[0])
  }
}
