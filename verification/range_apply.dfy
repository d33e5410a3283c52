/**
  apply.go: `Apply` is `Map` with the result type equal to the input type;
  its loop body is the same as `Map`'s.
 */
module RangeApply {
  import opened Types
  import opened RangeIter
  import opened Lists
  import RangeMap
  import Configuration

  /** `Apply(it, f, opts...)`. */
  function Apply<T>(s: seq<T>, f: Mapper<T, T>, opts: seq<Configuration.Opt>, c: Consumer): Run<T> {
    Drive(RangeMap.MapStep(f, Configuration.BuildConfig(opts)), (), s, c, 0)
  }

  /** `Apply(s, f)` pushes `f(x)` for each input the function succeeds on, in
      order, drops and reports the failures, and is as long as its input
      exactly when nothing fails. */
  lemma {:induction false} ApplyDrained<T>(s: seq<T>, f: Mapper<T, T>, opts: seq<Configuration.Opt>)
    ensures var r := Apply(s, f, opts, Drain);
            && r.out == Successes(s, f)
            && r.effects == Configuration.ReportAll(Configuration.BuildConfig(opts), ErrorsOf(s, f))
            && |r.out| <= |s|
            && (|ErrorsOf(s, f)| == 0 ==> |r.out| == |s| && forall i | 0 <= i < |s| :: r.out[i] == f(s[i]).value)
            && r.pulled == |s| && !r.stopped
  {
    RangeMap.MapFrom(s, f, Configuration.BuildConfig(opts), 0);
  }

  /** A consumer stop ends the traversal at once: nothing after the refused
      value's source is pulled or transformed. */
  lemma {:induction false} ApplyStops<T>(s: seq<T>, f: Mapper<T, T>, opts: seq<Configuration.Opt>, c: Consumer)
    ensures var r := Apply(s, f, opts, c);
            && r.out <= Successes(s, f)
            && (r.stopped ==> forall t :: Apply(s[..r.pulled] + t, f, opts, c) == r)
  {
    RangeMap.MapStops(s, f, opts, c);
  }
}
