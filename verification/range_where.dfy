/**
  where.go: `Where` keeps the values a predicate accepts and reports the
  predicate's errors through the configured error callback.
 */
module RangeWhere {
  import opened Types
  import opened RangeIter
  import opened Lists
  import Configuration

  /** Loop body of `Where`. */
  function WhereStep<T>(f: Predicate<T>, conf: Configuration.Config): ((), T) -> Step<(), T> {
    (u: (), v: T) =>
      var r := f(v);
      if r.err.Some? then Skip(u, Configuration.Error(conf, r.err.value))
      else if !r.value then Skip(u, [])
      else Emit(u, v, false)
  }

  /** `Where(s, f, opts...)`. */
  function Where<T>(s: seq<T>, f: Predicate<T>, opts: seq<Configuration.Opt>, c: Consumer): Run<T> {
    Drive(WhereStep(f, Configuration.BuildConfig(opts)), (), s, c, 0)
  }

  /** The loop pushes the accepted values and reports every predicate error. */
  lemma {:induction false} WhereFrom<T>(s: seq<T>, f: Predicate<T>, conf: Configuration.Config, delivered: nat)
    ensures Drive(WhereStep(f, conf), (), s, Drain, delivered)
              == Run(Accepted(s, f), |s|, Configuration.ReportAll(conf, ErrorsOf(s, f)), false)
    decreases |s|
  {
    if |s| > 0 {
      if Holds(f(s[0])) {
        WhereFrom(s[1..], f, conf, delivered + 1);
      } else {
        WhereFrom(s[1..], f, conf, delivered);
      }
    }
  }

  /** `Where(s, f)` pushes, in their original order, exactly the values on
      which the predicate returns `(true, nil)` (so a value appears in the
      output iff it appears in the input and passes, and empty input gives
      empty output); each predicate error drops its value and is reported
      once, in input order; the whole source is pulled. */
  lemma {:induction false} WhereDrained<T>(s: seq<T>, f: Predicate<T>, opts: seq<Configuration.Opt>)
    ensures var r := Where(s, f, opts, Drain);
            && r.out == Accepted(s, f)
            && (forall x :: x in r.out <==> x in s && Holds(f(x)))
            && r.effects == Configuration.ReportAll(Configuration.BuildConfig(opts), ErrorsOf(s, f))
            && r.pulled == |s| && !r.stopped
  {
    WhereFrom(s, f, Configuration.BuildConfig(opts), 0);
    AcceptedMembers(s, f);
  }
}
