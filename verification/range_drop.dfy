/**
  drop.go: `DropN` skips a count of values, `Drop` skips the values a
  predicate accepts until it rejects one.
 */
module RangeDrop {
  import opened Types
  import opened RangeIter
  import opened Lists
  import Configuration

  /** Loop body of `DropN`; the state is the `dropped` counter. */
  function DropNStep<T>(n: int): (int, T) -> Step<int, T> {
    (dropped: int, v: T) => if dropped < n then Skip(dropped + 1, []) else Emit(dropped, v, false)
  }

  /** `DropN(it, n)`: its options are built and never used, so they are not
      parameters here. */
  function DropN<T>(s: seq<T>, n: int, c: Consumer): Run<T> {
    Drive(DropNStep(n), 0, s, c, 0)
  }

  /** With `dropped` values already skipped, the loop skips the rest of the
      first `n` and pushes everything after them. */
  lemma {:induction false} DropNFrom<T>(s: seq<T>, n: int, dropped: int, delivered: nat)
    ensures Drive(DropNStep(n), dropped, s, Drain, delivered) == Run(s[Clamp(n - dropped, |s|)..], |s|, [], false)
    decreases |s|
  {
    if |s| > 0 {
      if dropped < n {
        DriveSkips(DropNStep(n), dropped, s, Drain, delivered);
        DropNFrom(s[1..], n, dropped + 1, delivered);
        assert s[1..][Clamp(n - dropped - 1, |s| - 1)..] == s[Clamp(n - dropped, |s|)..];
      } else {
        DriveEmits(DropNStep(n), dropped, s, Drain, delivered);
        DropNFrom(s[1..], n, dropped, delivered + 1);
        assert Clamp(n - dropped, |s|) == 0;
        assert [s[0]] + s[1..] == s;
      }
    }
  }

  /** `DropN(s, n)` pushes exactly `s[n..]`, nothing when `n >= |s|`, and all of
      `s` when `n <= 0` (so `DropN(s, 0)` is the identity); it pulls the whole
      source and reports nothing. */
  lemma {:induction false} DropNDrained<T>(s: seq<T>, n: int)
    ensures var r := DropN(s, n, Drain);
            && r.out == (if n <= 0 then s else if n >= |s| then [] else s[n..])
            && r.pulled == |s| && r.effects == [] && !r.stopped
  {
    DropNFrom(s, n, 0, 0);
  }

  /** Loop body of `Drop`; the state is Go's `dropped` flag, which becomes
      true once the predicate has rejected a value. */
  function DropStep<T>(f: Predicate<T>, conf: Configuration.Config): (bool, T) -> Step<bool, T> {
    (dropped: bool, v: T) =>
      if dropped then Emit(true, v, false)
      else
        var r := f(v);
        if r.err.Some? then Skip(false, Configuration.Error(conf, r.err.value))
        else if r.value then Skip(false, [])
        else Emit(true, v, false)
  }

  /** `Drop(it, f, opts...)`. */
  function Drop<T>(s: seq<T>, f: Predicate<T>, opts: seq<Configuration.Opt>, c: Consumer): Run<T> {
    Drive(DropStep(f, Configuration.BuildConfig(opts)), false, s, c, 0)
  }

  /** After the dropping phase the predicate plays no part: any predicate,
      every value pushed, nothing reported. */
  lemma {:induction false} DropPassing<T>(s: seq<T>, f: Predicate<T>, conf: Configuration.Config, delivered: nat)
    ensures Drive(DropStep(f, conf), true, s, Drain, delivered) == Run(s, |s|, [], false)
    decreases |s|
  {
    if |s| > 0 {
      DropPassing(s[1..], f, conf, delivered + 1);
      assert [s[0]] + s[1..] == s;
    }
  }

  /** In the dropping phase the loop skips up to the first rejected value,
      reporting each predicate error met on the way, then pushes the rest. */
  lemma {:induction false} DropDropping<T>(s: seq<T>, f: Predicate<T>, conf: Configuration.Config, delivered: nat)
    ensures var j := FirstFails(s, f);
            Drive(DropStep(f, conf), false, s, Drain, delivered)
              == Run(s[j..], |s|, Configuration.ReportAll(conf, ErrorsOf(s[..j], f)), false)
    decreases |s|
  {
    if |s| > 0 {
      var j := FirstFails(s, f);
      var r := f(s[0]);
      if r.err.None? && !r.value {
        DropPassing(s[1..], f, conf, delivered + 1);
        assert [s[0]] + s[1..] == s;
      } else {
        DropDropping(s[1..], f, conf, delivered);
        DropDroppingStep(s, f, conf, delivered);
      }
    }
  }

  /** One value skipped in the dropping phase, given the run on the rest. */
  lemma DropDroppingStep<T>(s: seq<T>, f: Predicate<T>, conf: Configuration.Config, delivered: nat)
    requires |s| > 0 && !Fails(f(s[0]))
    requires var j' := FirstFails(s[1..], f);
             Drive(DropStep(f, conf), false, s[1..], Drain, delivered)
               == Run(s[1..][j'..], |s| - 1, Configuration.ReportAll(conf, ErrorsOf(s[1..][..j'], f)), false)
    ensures var j := FirstFails(s, f);
            Drive(DropStep(f, conf), false, s, Drain, delivered)
              == Run(s[j..], |s|, Configuration.ReportAll(conf, ErrorsOf(s[..j], f)), false)
  {
    var r := f(s[0]);
    var j := FirstFails(s, f);
    var j' := FirstFails(s[1..], f);
    var effects := if r.err.Some? then Configuration.Error(conf, r.err.value) else [];
    assert DropStep(f, conf)(false, s[0]) == Skip(false, effects);
    DriveSkips(DropStep(f, conf), false, s, Drain, delivered);
    assert j == j' + 1 && s[j..] == s[1..][j'..];
    DroppedErrors(s, f, conf);
  }

  /** The reports of the dropping phase, one skipped value at a time. */
  lemma DroppedErrors<T>(s: seq<T>, f: Predicate<T>, conf: Configuration.Config)
    requires |s| > 0 && !Fails(f(s[0]))
    ensures var r := f(s[0]);
            var j' := FirstFails(s[1..], f);
            Configuration.ReportAll(conf, ErrorsOf(s[..j' + 1], f))
              == (if r.err.Some? then Configuration.Error(conf, r.err.value) else []) + Configuration.ReportAll(conf, ErrorsOf(s[1..][..j'], f))
  {
    var r := f(s[0]);
    var j' := FirstFails(s[1..], f);
    var before := ErrorsOf(s[1..][..j'], f);
    assert s[..j' + 1][0] == s[0] && s[..j' + 1][1..] == s[1..][..j'];
    if r.err.Some? {
      assert ErrorsOf(s[..j' + 1], f) == [r.err.value] + before;
      assert ([r.err.value] + before)[1..] == before;
    } else {
      assert ErrorsOf(s[..j' + 1], f) == before;
    }
  }

  /** `Drop(s, f)` pushes the suffix of `s` that starts at the first value the
      predicate rejects: the values before it were each accepted or failed
      the predicate, each failure was reported once and in order, and the
      source is pulled to the end. */
  lemma {:induction false} DropDrained<T>(s: seq<T>, f: Predicate<T>, opts: seq<Configuration.Opt>)
    ensures var j := FirstFails(s, f);
            var r := Drop(s, f, opts, Drain);
            && r.out == s[j..]
            && (forall i | 0 <= i < j :: Holds(f(s[i])) || f(s[i]).err.Some?)
            && r.effects == Configuration.ReportAll(Configuration.BuildConfig(opts), ErrorsOf(s[..j], f))
            && r.pulled == |s| && !r.stopped
  {
    DropDropping(s, f, Configuration.BuildConfig(opts), 0);
  }
}
