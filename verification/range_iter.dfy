/**
  The range-over-func generation: an `Iter[T]` is a Go push iterator,
  `func(yield func(T) bool)`. Over a finite source the iterator is modelled by
  the sequence of values it pushes. Every combinator of this generation is a
  `for v := range it { ... }` loop whose body looks at one pulled value,
  possibly calls a caller-supplied function, and then skips the value,
  pushes a value to its own consumer, or returns. `Drive` is that loop, and a
  combinator is `Drive` with its own loop body (`Step`).

  The consumer is the `yield` callback of the combinator's caller. Its answer
  decides whether iteration continues; `Consumer` says at which output
  position, if any, it answers `false`.
 */
module RangeIter {
  import opened Types
  import Configuration

  /** The consumer behind `yield`: `Drain` always answers true; `StopAt(i)`
      answers false when it is handed the value at output position `i`. */
  datatype Consumer = Drain | StopAt(index: nat)

  /** The answer `yield` gives for the value at output position `position`. */
  predicate Accepts(c: Consumer, position: nat) {
    !(c.StopAt? && c.index == position)
  }

  /** What the loop body decides for one pulled source value:
      `Skip` it (`continue`, after possibly reporting errors), push `value`
      to the consumer (and return afterwards when `last`), or `Halt` (return
      without pushing). */
  datatype Step<S, U> =
    | Skip(next: S, effects: seq<Configuration.Effect>)
    | Emit(next: S, value: U, last: bool)
    | Halt

  /** One traversal: the values the consumer observed, how many source values
      were pulled, the error reports made, and whether the consumer stopped
      the traversal by answering false. */
  datatype Run<U> = Run(out: seq<U>, pulled: nat, effects: seq<Configuration.Effect>, stopped: bool)

  /** The `for v := range s` loop with body `step` and loop state `st`;
      `delivered` counts the values already pushed to the consumer. The
      consumer can only stop the loop on the value it was just handed. */
  function Drive<S, T, U>(step: (S, T) -> Step<S, U>, st: S, s: seq<T>, c: Consumer, delivered: nat): (r: Run<U>)
    ensures r.pulled <= |s|
    ensures |r.out| <= r.pulled
    ensures r.stopped ==> c.StopAt? && |r.out| > 0 && c.index == delivered + |r.out| - 1
    decreases |s|
  {
    if |s| == 0 then Run([], 0, [], false)
    else
      match step(st, s[0])
      case Skip(next, effects) =>
        var rest := Drive(step, next, s[1..], c, delivered);
        Run(rest.out, rest.pulled + 1, effects + rest.effects, rest.stopped)
      case Halt => Run([], 1, [], false)
      case Emit(next, u, last) =>
        if !Accepts(c, delivered) then Run([u], 1, [], true)
        else if last then Run([u], 1, [], false)
        else
          var rest := Drive(step, next, s[1..], c, delivered + 1);
          Run([u] + rest.out, rest.pulled + 1, rest.effects, rest.stopped)
  }

  /** One skipped source value: the loop goes on with the next state,
      after the value's error reports. */
  lemma DriveSkips<S, T, U>(step: (S, T) -> Step<S, U>, st: S, s: seq<T>, c: Consumer, delivered: nat)
    requires |s| > 0 && step(st, s[0]).Skip?
    ensures var rest := Drive(step, step(st, s[0]).next, s[1..], c, delivered);
            Drive(step, st, s, c, delivered) == Run(rest.out, rest.pulled + 1, step(st, s[0]).effects + rest.effects, rest.stopped)
  {
  }

  /** One pushed source value that the consumer accepts, not the last: the
      loop goes on with the next state. */
  lemma DriveEmits<S, T, U>(step: (S, T) -> Step<S, U>, st: S, s: seq<T>, c: Consumer, delivered: nat)
    requires |s| > 0 && step(st, s[0]).Emit? && !step(st, s[0]).last && Accepts(c, delivered)
    ensures var rest := Drive(step, step(st, s[0]).next, s[1..], c, delivered + 1);
            Drive(step, st, s, c, delivered) == Run([step(st, s[0]).value] + rest.out, rest.pulled + 1, rest.effects, rest.stopped)
  {
  }

  /** How many of `n` pushed values a consumer observes when `delivered`
      values were pushed before. */
  function Seen(c: Consumer, delivered: nat, n: nat): nat {
    if c.StopAt? && delivered <= c.index && c.index - delivered < n then c.index - delivered + 1 else n
  }

  /** Early stop: whatever the consumer, it observes a prefix of what a
      draining consumer observes, cut right after the value it refused; the
      traversal is stopped exactly when that value exists; an unstopped
      traversal is the draining one, and a stopped one has pulled and reported
      no more than the draining one. */
  ghost predicate SeesPrefix<S, T, U>(step: (S, T) -> Step<S, U>, st: S, s: seq<T>, c: Consumer, delivered: nat) {
    var full := Drive(step, st, s, Drain, delivered);
    var r := Drive(step, st, s, c, delivered);
    && r.out == full.out[..Seen(c, delivered, |full.out|)]
    && (r.stopped <==> c.StopAt? && delivered <= c.index < delivered + |full.out|)
    && (!r.stopped ==> r == full)
    && r.pulled <= full.pulled
    && r.effects <= full.effects
  }

  /** What `SeesPrefix` says holds of every loop, source and consumer. */
  lemma {:induction false} ConsumerSeesPrefix<S, T, U>(step: (S, T) -> Step<S, U>, st: S, s: seq<T>, c: Consumer, delivered: nat)
    ensures SeesPrefix(step, st, s, c, delivered)
    decreases |s|
  {
    if |s| > 0 {
      match step(st, s[0])
      case Skip(next, effects) =>
        ConsumerSeesPrefix(step, next, s[1..], c, delivered);
        SeesPrefixSkip(step, st, s, c, delivered);
      case Halt =>
      case Emit(next, u, last) =>
        if Accepts(c, delivered) && !last {
          ConsumerSeesPrefix(step, next, s[1..], c, delivered + 1);
          SeesPrefixEmit(step, st, s, c, delivered);
        } else if !Accepts(c, delivered) {
          SeesPrefixRefused(step, st, s, c, delivered);
        }
    }
  }

  /** `SeesPrefix` across a skipped source value. */
  lemma SeesPrefixSkip<S, T, U>(step: (S, T) -> Step<S, U>, st: S, s: seq<T>, c: Consumer, delivered: nat)
    requires |s| > 0 && step(st, s[0]).Skip?
    requires SeesPrefix(step, step(st, s[0]).next, s[1..], c, delivered)
    ensures SeesPrefix(step, st, s, c, delivered)
  {
    DriveSkips(step, st, s, c, delivered);
    DriveSkips(step, st, s, Drain, delivered);
  }

  /** `SeesPrefix` across a pushed value the consumer accepts. */
  lemma SeesPrefixEmit<S, T, U>(step: (S, T) -> Step<S, U>, st: S, s: seq<T>, c: Consumer, delivered: nat)
    requires |s| > 0 && step(st, s[0]).Emit? && !step(st, s[0]).last && Accepts(c, delivered)
    requires SeesPrefix(step, step(st, s[0]).next, s[1..], c, delivered + 1)
    ensures SeesPrefix(step, st, s, c, delivered)
  {
    DriveEmits(step, st, s, c, delivered);
    DriveEmits(step, st, s, Drain, delivered);
    var u := step(st, s[0]).value;
    var rest := Drive(step, step(st, s[0]).next, s[1..], Drain, delivered + 1);
    var k := Seen(c, delivered + 1, |rest.out|);
    assert Seen(c, delivered, 1 + |rest.out|) == 1 + k;
    assert ([u] + rest.out)[..1 + k] == [u] + rest.out[..k];
  }

  /** `SeesPrefix` at the value the consumer refuses. */
  lemma SeesPrefixRefused<S, T, U>(step: (S, T) -> Step<S, U>, st: S, s: seq<T>, c: Consumer, delivered: nat)
    requires |s| > 0 && step(st, s[0]).Emit? && !Accepts(c, delivered)
    ensures SeesPrefix(step, st, s, c, delivered)
  {
    var full := Drive(step, st, s, Drain, delivered);
    assert |full.out| > 0 && full.out[0] == step(st, s[0]).value;
    assert full.out[..1] == [step(st, s[0]).value];
  }

  /** Once the consumer has stopped the loop, no source value after the one
      that produced the refused value is ever pulled: replacing everything
      after it changes nothing. */
  lemma {:induction false} StoppedRunIgnoresRest<S, T, U>(step: (S, T) -> Step<S, U>, st: S, s: seq<T>, c: Consumer, delivered: nat, t: seq<T>)
    requires Drive(step, st, s, c, delivered).stopped
    ensures var r := Drive(step, st, s, c, delivered);
            Drive(step, st, s[..r.pulled] + t, c, delivered) == r
    decreases |s|
  {
    var r := Drive(step, st, s, c, delivered);
    var s' := s[..r.pulled] + t;
    assert s'[0] == s[0];
    match step(st, s[0])
    case Skip(next, effects) =>
      var rest := Drive(step, next, s[1..], c, delivered);
      assert s'[1..] == s[1..][..rest.pulled] + t;
      StoppedRunIgnoresRest(step, next, s[1..], c, delivered, t);
    case Halt =>
    case Emit(next, u, last) =>
      if Accepts(c, delivered) && !last {
        var rest := Drive(step, next, s[1..], c, delivered + 1);
        assert s'[1..] == s[1..][..rest.pulled] + t;
        StoppedRunIgnoresRest(step, next, s[1..], c, delivered + 1, t);
      }
  }

  /** The loop body of a plain pass-through `for v := range s { yield(v) }`. */
  function Pass<T>(): ((), T) -> Step<(), T> {
    (u: (), v: T) => Emit(u, v, false)
  }

  /** A pass-through loop pushes every source value, in order. */
  lemma {:induction false} PassDrained<T>(s: seq<T>, delivered: nat)
    ensures Drive(Pass(), (), s, Drain, delivered) == Run(s, |s|, [], false)
    decreases |s|
  {
    if |s| > 0 {
      PassDrained(s[1..], delivered + 1);
      assert [s[0]] + s[1..] == s;
    }
  }
}
