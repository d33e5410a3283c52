/**
  take.go: `TakeN` keeps a count of values, `Take` keeps values while a
  predicate accepts them.
 */
module RangeTake {
  import opened Types
  import opened RangeIter
  import opened Lists

  /** Loop body of `TakeN`; the state is the `count` of values pushed, and
      the loop returns right after the `n`-th. */
  function TakeNStep<T>(n: int): (int, T) -> Step<int, T> {
    (count: int, v: T) => Emit(count + 1, v, count + 1 == n)
  }

  /** `TakeN(it, n)` on its first traversal: with `n <= 0` it returns before
      ranging over the source, so nothing is pulled. */
  function TakeN<T>(s: seq<T>, n: int, c: Consumer): (r: Run<T>)
    ensures n <= 0 ==> r.out == [] && r.pulled == 0 && !r.stopped
  {
    if n <= 0 then Run([], 0, [], false) else Drive(TakeNStep(n), 0, s, c, 0)
  }

  /** With `count` values pushed and fewer than `n`, the loop pushes the next
      `n - count` values and pulls nothing after the last of them. */
  lemma {:induction false} TakeNFrom<T>(s: seq<T>, n: int, count: int, delivered: nat)
    requires count < n
    ensures var k := Clamp(n - count, |s|);
            Drive(TakeNStep(n), count, s, Drain, delivered) == Run(s[..k], k, [], false)
    decreases |s|
  {
    if |s| > 0 && count + 1 != n {
      TakeNFrom(s[1..], n, count + 1, delivered + 1);
      assert [s[0]] + s[1..][..Clamp(n - count - 1, |s| - 1)] == s[..Clamp(n - count, |s|)];
    }
  }

  /** `TakeN(s, n)` pushes exactly `s[..min(n, |s|)]` (nothing when `n <= 0`)
      and pulls exactly as many source values as it pushes. */
  lemma {:induction false} TakeNDrained<T>(s: seq<T>, n: int)
    ensures var k := Clamp(n, |s|);
            TakeN(s, n, Drain) == Run(s[..k], k, [], false)
  {
    if n > 0 {
      TakeNFrom(s, n, 0, 0);
    }
  }

  /** Loop body of `Take`: a predicate error skips the value without a
      report, a rejection ends the loop without pushing. */
  function TakeStep<T>(f: Predicate<T>): ((), T) -> Step<(), T> {
    (u: (), v: T) =>
      var r := f(v);
      if r.err.Some? then Skip(u, [])
      else if !r.value then Halt
      else Emit(u, v, false)
  }

  /** `Take(it, f)`: its options are built and never used. */
  function Take<T>(s: seq<T>, f: Predicate<T>, c: Consumer): Run<T> {
    Drive(TakeStep(f), (), s, c, 0)
  }

  /** The loop pushes the accepted values before the first rejected one. */
  lemma {:induction false} TakeFrom<T>(s: seq<T>, f: Predicate<T>, delivered: nat)
    ensures var j := FirstFails(s, f);
            Drive(TakeStep(f), (), s, Drain, delivered)
              == Run(Accepted(s[..j], f), if j < |s| then j + 1 else |s|, [], false)
    decreases |s|
  {
    if |s| > 0 && !Fails(f(s[0])) {
      if Holds(f(s[0])) {
        assert TakeStep(f)((), s[0]) == Emit((), s[0], false);
        DriveEmits(TakeStep(f), (), s, Drain, delivered);
        TakeFrom(s[1..], f, delivered + 1);
      } else {
        assert TakeStep(f)((), s[0]) == Skip((), []);
        DriveSkips(TakeStep(f), (), s, Drain, delivered);
        TakeFrom(s[1..], f, delivered);
      }
      TakenHead(s, f);
    }
  }

  /** The accepted values before the first rejected one, one value at a time. */
  lemma TakenHead<T>(s: seq<T>, f: Predicate<T>)
    requires |s| > 0 && !Fails(f(s[0]))
    ensures var j := FirstFails(s, f);
            var j' := FirstFails(s[1..], f);
            && j == j' + 1
            && Accepted(s[..j], f) == (if Holds(f(s[0])) then [s[0]] else []) + Accepted(s[1..][..j'], f)
  {
    var j := FirstFails(s, f);
    assert s[..j][1..] == s[1..][..j - 1];
    assert s[..j][0] == s[0];
  }

  /** `Take(s, f)` ends at the first value the predicate rejects, pulling it
      and nothing after it; before that it pushes, in order, every value the
      predicate accepts, and silently skips (without ending) every value on
      which the predicate fails. */
  lemma {:induction false} TakeDrained<T>(s: seq<T>, f: Predicate<T>)
    ensures var j := FirstFails(s, f);
            var r := Take(s, f, Drain);
            && r.out == Accepted(s[..j], f)
            && r.pulled == (if j < |s| then j + 1 else |s|)
            && r.effects == [] && !r.stopped
  {
    TakeFrom(s, f, 0);
  }

  /** When the predicate never fails, `Take` is take-while: exactly the
      longest prefix of accepted values. */
  lemma {:induction false} TakeIsTakeWhile<T>(s: seq<T>, f: Predicate<T>)
    requires forall i | 0 <= i < |s| :: f(s[i]).err.None?
    ensures Take(s, f, Drain).out == s[..FirstFails(s, f)]
  {
    TakeFrom(s, f, 0);
    var j := FirstFails(s, f);
    AcceptedAll(s[..j], f);
  }
}
