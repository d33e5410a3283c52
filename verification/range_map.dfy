/**
  map.go: `Map` transforms each value with a mapper, dropping (and
  reporting) the values the mapper fails on.
 */
module RangeMap {
  import opened Types
  import opened RangeIter
  import opened Lists
  import Configuration

  /** Loop body of `Map`. */
  function MapStep<T, R>(f: Mapper<T, R>, conf: Configuration.Config): ((), T) -> Step<(), R> {
    (u: (), v: T) =>
      var r := f(v);
      if r.err.Some? then Skip(u, Configuration.Error(conf, r.err.value))
      else Emit(u, r.value, false)
  }

  /** `Map(it, f, opts...)`. */
  function Map<T, R>(s: seq<T>, f: Mapper<T, R>, opts: seq<Configuration.Opt>, c: Consumer): Run<R> {
    Drive(MapStep(f, Configuration.BuildConfig(opts)), (), s, c, 0)
  }

  /** The loop pushes the mapper's successful results and reports its errors. */
  lemma {:induction false} MapFrom<T, R>(s: seq<T>, f: Mapper<T, R>, conf: Configuration.Config, delivered: nat)
    ensures Drive(MapStep(f, conf), (), s, Drain, delivered)
              == Run(Successes(s, f), |s|, Configuration.ReportAll(conf, ErrorsOf(s, f)), false)
    decreases |s|
  {
    if |s| > 0 {
      if f(s[0]).err.None? {
        MapFrom(s[1..], f, conf, delivered + 1);
      } else {
        MapFrom(s[1..], f, conf, delivered);
      }
    }
  }

  /** `Map(s, f)` pushes `f(x)` for every input `x` the mapper succeeds on, in
      input order; every failing input is dropped and its error reported, in
      order; so the output is never longer than the input, and exactly as long
      (position by position the mapped input) when the mapper never fails. */
  lemma {:induction false} MapDrained<T, R>(s: seq<T>, f: Mapper<T, R>, opts: seq<Configuration.Opt>)
    ensures var r := Map(s, f, opts, Drain);
            && r.out == Successes(s, f)
            && r.effects == Configuration.ReportAll(Configuration.BuildConfig(opts), ErrorsOf(s, f))
            && |r.out| + |ErrorsOf(s, f)| == |s|
            && (|ErrorsOf(s, f)| == 0 ==> |r.out| == |s| && forall i | 0 <= i < |s| :: r.out[i] == f(s[i]).value)
            && r.pulled == |s| && !r.stopped
  {
    MapFrom(s, f, Configuration.BuildConfig(opts), 0);
  }

  /** When the consumer stops, the consumer has seen a prefix of the mapped
      values, and no source value after the one it refused is pulled or
      mapped: any continuation of the source gives the same traversal. */
  lemma {:induction false} MapStops<T, R>(s: seq<T>, f: Mapper<T, R>, opts: seq<Configuration.Opt>, c: Consumer)
    ensures var r := Map(s, f, opts, c);
            && r.out <= Successes(s, f)
            && (r.stopped ==> forall t :: Map(s[..r.pulled] + t, f, opts, c) == r)
  {
    var conf := Configuration.BuildConfig(opts);
    var r := Map(s, f, opts, c);
    ConsumerSeesPrefix(MapStep(f, conf), (), s, c, 0);
    MapFrom(s, f, conf, 0);
    if r.stopped {
      forall t ensures Map(s[..r.pulled] + t, f, opts, c) == r {
        StoppedRunIgnoresRest(MapStep(f, conf), (), s, c, 0, t);
      }
    }
  }
}
