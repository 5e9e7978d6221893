/** The functional options of both connector packages: an `option` record
    holding the volumes and the logger, and setters `WithVolumes` and
    `WithLogger` that `NewConnector` applies to it in argument order. The
    two packages differ only in the logger's type, which is a type
    parameter here. */
module ConnectorOptions {
  datatype Opt<V, L> = Opt(vols: seq<V>, logger: L)

  datatype Setter<V, L> = WithVolumes(vols: seq<V>) | WithLogger(logger: L)

  /** `setter(&opt)`: each setter overwrites its own field only. */
  function Apply<V, L>(s: Setter<V, L>, o: Opt<V, L>): Opt<V, L> {
    match s
    case WithVolumes(vs) => o.(vols := vs)
    case WithLogger(w) => o.(logger := w)
  }

  /** The option after applying `setters` to `o` from first to last. */
  function Applied<V, L>(setters: seq<Setter<V, L>>, o: Opt<V, L>): Opt<V, L>
    decreases |setters|
  {
    if setters == [] then o else Applied(setters[1..], Apply(setters[0], o))
  }

  /** `for _, setter := range opts { setter(&opt) }`. */
  method ApplyAll<V, L>(setters: seq<Setter<V, L>>, init: Opt<V, L>) returns (o: Opt<V, L>)
    ensures o == Applied(setters, init)
  {
    o := init;
    var i := 0;
    while i < |setters|
      invariant 0 <= i <= |setters|
      invariant Applied(setters[i..], o) == Applied(setters, init)
    {
      assert setters[i..][1..] == setters[i + 1..];
      o := Apply(setters[i], o);
      i := i + 1;
    }
  }

  predicate SetsVolumes<V, L>(s: Setter<V, L>) { s.WithVolumes? }
  predicate SetsLogger<V, L>(s: Setter<V, L>) { s.WithLogger? }

  /** The volumes come from the last WithVolumes: an earlier one is
      replaced, and a WithLogger in between does not touch them. */
  lemma {:induction false} LastVolumesWin<V, L>(setters: seq<Setter<V, L>>, o: Opt<V, L>, i: nat)
    requires i < |setters| && setters[i].WithVolumes?
    requires forall j | i < j < |setters| :: !SetsVolumes(setters[j])
    ensures Applied(setters, o).vols == setters[i].vols
    decreases |setters|
  {
    if i == 0 {
      NoVolumesKeep(setters[1..], Apply(setters[0], o));
    } else {
      LastVolumesWin(setters[1..], Apply(setters[0], o), i - 1);
    }
  }

  /** Without any WithVolumes the initial volumes stay. */
  lemma {:induction false} NoVolumesKeep<V, L>(setters: seq<Setter<V, L>>, o: Opt<V, L>)
    requires forall j | 0 <= j < |setters| :: !SetsVolumes(setters[j])
    ensures Applied(setters, o).vols == o.vols
    decreases |setters|
  {
    if setters != [] {
      assert !SetsVolumes(setters[0]);
      NoVolumesKeep(setters[1..], Apply(setters[0], o));
    }
  }

  /** The logger comes from the last WithLogger. */
  lemma {:induction false} LastLoggerWins<V, L>(setters: seq<Setter<V, L>>, o: Opt<V, L>, i: nat)
    requires i < |setters| && setters[i].WithLogger?
    requires forall j | i < j < |setters| :: !SetsLogger(setters[j])
    ensures Applied(setters, o).logger == setters[i].logger
    decreases |setters|
  {
    if i == 0 {
      NoLoggerKeeps(setters[1..], Apply(setters[0], o));
    } else {
      LastLoggerWins(setters[1..], Apply(setters[0], o), i - 1);
    }
  }

  /** Without any WithLogger the initial logger stays. */
  lemma {:induction false} NoLoggerKeeps<V, L>(setters: seq<Setter<V, L>>, o: Opt<V, L>)
    requires forall j | 0 <= j < |setters| :: !SetsLogger(setters[j])
    ensures Applied(setters, o).logger == o.logger
    decreases |setters|
  {
    if setters != [] {
      assert !SetsLogger(setters[0]);
      NoLoggerKeeps(setters[1..], Apply(setters[0], o));
    }
  }
}
