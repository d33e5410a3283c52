/**
  coalesce.go: `Coalesce` folds the values of an iterator into one value of
  the same type, starting from the zero value and skipping (and reporting)
  every step on which the reducer fails.
 */
module RangeCoalesce {
  import opened Types
  import opened RangeIter
  import opened Lists
  import Configuration

  /** The loop's outcome: the accumulator, how many reducer calls were
      applied, and the errors of those that failed, in order. */
  datatype Folded<T> = Folded(acc: T, applied: nat, skipped: seq<Error>)

  /** The `for v := range it` loop from accumulator `acc` on. Every value is
      visited: each one is either applied or skipped. */
  function CoalesceFrom<T>(acc: T, s: seq<T>, f: Reducer<T, T>): (r: Folded<T>)
    ensures r.applied + |r.skipped| == |s|
    decreases |s|
  {
    if |s| == 0 then Folded(acc, 0, [])
    else
      var vv := f(acc, s[0]);
      if vv.err.Some? then
        var rest := CoalesceFrom(acc, s[1..], f);
        Folded(rest.acc, rest.applied, [vv.err.value] + rest.skipped)
      else
        var rest := CoalesceFrom(vv.value, s[1..], f);
        Folded(rest.acc, rest.applied + 1, rest.skipped)
  }

  /** What `Coalesce` returns, with the error reports it made. */
  datatype Coalesced<T> = Coalesced(value: T, effects: seq<Configuration.Effect>)

  /** `Coalesce(it, f, opts...)`; `zero` is the zero value of `T`. An empty
      input returns the zero value. */
  function Coalesce<T>(s: seq<T>, f: Reducer<T, T>, zero: T, opts: seq<Configuration.Opt>): (r: Coalesced<T>)
    ensures |s| == 0 ==> r == Coalesced(zero, [])
  {
    var folded := CoalesceFrom(zero, s, f);
    Coalesced(folded.acc, Configuration.ReportAll(Configuration.BuildConfig(opts), folded.skipped))
  }

  /** With a reducer that never fails, the loop is the left fold. */
  lemma {:induction false} CoalesceFromFolds<T>(acc: T, s: seq<T>, f: Reducer<T, T>)
    requires forall a, v :: f(a, v).err.None?
    ensures CoalesceFrom(acc, s, f) == Folded(FoldLeft((a, v) => f(a, v).value, acc, s), |s|, [])
    decreases |s|
  {
    if |s| > 0 {
      CoalesceFromFolds(f(acc, s[0]).value, s[1..], f);
    }
  }

  /** With a reducer that never fails, `Coalesce` is the left fold of the
      reducer from the zero value, and reports nothing. */
  lemma {:induction false} CoalesceFolds<T>(s: seq<T>, f: Reducer<T, T>, zero: T, opts: seq<Configuration.Opt>)
    requires forall a, v :: f(a, v).err.None?
    ensures Coalesce(s, f, zero, opts) == Coalesced(FoldLeft((a, v) => f(a, v).value, zero, s), [])
  {
    CoalesceFromFolds(zero, s, f);
  }

  /** A failing step leaves the accumulator as it was: with a reducer that
      always fails, the accumulator never leaves its start, and every value's
      error is reported, in order. */
  lemma {:induction false} CoalesceFromSkips<T>(acc: T, s: seq<T>, f: Reducer<T, T>)
    requires forall a, v :: f(a, v).err.Some?
    ensures CoalesceFrom(acc, s, f) == Folded(acc, 0, ErrorsOf(s, (v: T) => f(acc, v)))
    decreases |s|
  {
    if |s| > 0 {
      CoalesceFromSkips(acc, s[1..], f);
    }
  }

  /** `Coalesce` with a reducer that always fails returns the zero value and
      reports one error per input value. */
  lemma {:induction false} CoalesceSkips<T>(s: seq<T>, f: Reducer<T, T>, zero: T, opts: seq<Configuration.Opt>)
    requires forall a, v :: f(a, v).err.Some?
    ensures var errs := ErrorsOf(s, (v: T) => f(zero, v));
            && Coalesce(s, f, zero, opts) == Coalesced(zero, Configuration.ReportAll(Configuration.BuildConfig(opts), errs))
            && |errs| == |s|
  {
    CoalesceFromSkips(zero, s, f);
  }

  /** The loop, one value at a time: after the values of `s`, the next value
      either moves the accumulator to the reducer's result or, when the
      reducer fails on it, leaves the accumulator as it was and adds the
      error to the skipped ones. */
  lemma {:induction false} CoalesceFromSnoc<T>(acc: T, s: seq<T>, x: T, f: Reducer<T, T>)
    ensures var before := CoalesceFrom(acc, s, f);
            var vv := f(before.acc, x);
            CoalesceFrom(acc, s + [x], f)
              == if vv.err.Some? then Folded(before.acc, before.applied, before.skipped + [vv.err.value])
                 else Folded(vv.value, before.applied + 1, before.skipped)
    decreases |s|
  {
    if |s| == 0 {
      assert [x][1..] == [];
    } else {
      assert (s + [x])[0] == s[0] && (s + [x])[1..] == s[1..] + [x];
      var vv := f(acc, s[0]);
      if vv.err.Some? {
        CoalesceFromSnoc(acc, s[1..], x, f);
      } else {
        CoalesceFromSnoc(vv.value, s[1..], x, f);
      }
    }
  }

  /** `Coalesce` on one more value: a reducer error on it leaves the result
      as it was and is reported once, after every earlier report; otherwise
      the result moves to the reducer's value and nothing more is reported. */
  lemma CoalesceLast<T>(s: seq<T>, x: T, f: Reducer<T, T>, zero: T, opts: seq<Configuration.Opt>)
    ensures var before := Coalesce(s, f, zero, opts);
            var vv := f(before.value, x);
            var conf := Configuration.BuildConfig(opts);
            Coalesce(s + [x], f, zero, opts)
              == if vv.err.Some? then Coalesced(before.value, before.effects + Configuration.Error(conf, vv.err.value))
                 else Coalesced(vv.value, before.effects)
  {
    var before := CoalesceFrom(zero, s, f);
    var conf := Configuration.BuildConfig(opts);
    CoalesceFromSnoc(zero, s, x, f);
    var vv := f(before.acc, x);
    if vv.err.Some? {
      Configuration.ReportAllAppend(conf, before.skipped, [vv.err.value]);
      assert Configuration.ReportAll(conf, [vv.err.value]) == Configuration.Error(conf, vv.err.value) + [];
    }
  }
}
