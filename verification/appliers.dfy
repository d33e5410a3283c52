/**
  appliers.go: stateful mappers that turn a stream of numbers into a running
  aggregate. Each Go constructor returns a closure over its running state;
  here that state is a datatype, and a call of the closure is a step that
  returns the new state with the mapper's `(value, error)` result.

  `Max` and `Min` are modelled over Go integers; `Sum` and `Mean` over
  `int64`, whose `+=` wraps around and whose `/` truncates toward zero.
 */
module Appliers {
  import opened Types

  const Two64: int := 0x1_0000_0000_0000_0000
  const Int64Min: int := -0x8000_0000_0000_0000

  /** Go's `int64`. */
  type Int64 = x: int | -0x8000_0000_0000_0000 <= x < 0x8000_0000_0000_0000

  /** The `int64` that a mathematical integer wraps around to: the only one
      that differs from it by a multiple of 2^64. */
  function Wrap64(x: int): (r: Int64)
    ensures (x - r) % Two64 == 0
  {
    (x - Int64Min) % Two64 + Int64Min
  }

  /** Wrapping after every addition is wrapping once at the end. */
  lemma WrapAdd(a: int, b: int)
    ensures Wrap64(Wrap64(a) + b) == Wrap64(a + b)
  {
    var k := (a - Wrap64(a)) / Two64;
    assert a == Wrap64(a) + k * Two64;
    ModShift(Wrap64(a) + b - Int64Min, k);
  }

  lemma ModShift(x: int, k: int)
    ensures (x + k * Two64) % Two64 == x % Two64
  {
  }

  /** Go's integer division, which truncates toward zero. */
  function GoDiv(a: int, b: int): (q: int)
    requires b != 0
    ensures var rem := a - b * q;
            && (if b > 0 then -b < rem < b else b < rem < -b)
            && (rem == 0 || (rem > 0 <==> a > 0))
  {
    var x := if a < 0 then -a else a;
    var y := if b < 0 then -b else b;
    var q := x / y;
    var r := x - y * q;
    NatDiv(x, y);
    assert a == 0 ==> q == 0;
    var signed := if (a < 0) != (b < 0) then -q else q;
    assert a - b * signed == (if a < 0 then -r else r) by {
      if a < 0 && b < 0 {
        assert b * q == -(y * q);
      } else if a < 0 {
        assert b * -q == -(y * q);
      } else if b < 0 {
        assert b * -q == y * q;
      }
    }
    signed
  }

  /** Division of naturals leaves a remainder below the divisor. */
  lemma NatDiv(x: nat, y: nat)
    requires y > 0
    ensures 0 <= x - y * (x / y) < y
  {
  }

  /** Dividing by a positive count moves toward zero without crossing it,
      so a quotient of an `int64` is an `int64`. */
  lemma GoDivShrinks(a: int, b: int)
    requires b > 0
    ensures if a >= 0 then 0 <= GoDiv(a, b) <= a else a <= GoDiv(a, b) <= 0
  {
    var x := if a < 0 then -a else a;
    DivBelow(x, b);
  }

  lemma DivBelow(x: nat, y: nat)
    requires y > 0
    ensures 0 <= x / y <= x
  {
    var q := x / y;
    NatDiv(x, y);
    MulAtLeast(y, q);
  }

  lemma MulAtLeast(y: nat, q: nat)
    requires y >= 1
    ensures y * q >= q
  {
  }

  /** One call of a mapper closure: its new state and its result. */
  datatype Applied<S, R> = Applied(state: S, out: Ret<R>)

  /** The results of calling a mapper closure on each value in turn. */
  function Feed<S, T, R>(step: (S, T) -> Applied<S, R>, st: S, s: seq<T>): (r: seq<Ret<R>>)
    ensures |r| == |s|
    decreases |s|
  {
    if |s| == 0 then []
    else
      var a := step(st, s[0]);
      [a.out] + Feed(step, a.state, s[1..])
  }

  /** A closure whose state summarises the values seen so far (`inv`) and
      whose every result is `spec` of those values reports, on call `k`,
      `spec` of the first `k + 1` values. */
  lemma {:induction false} FeedRunning<S, T, R>(step: (S, T) -> Applied<S, R>, st: S, seen: seq<T>, s: seq<T>,
                                               inv: (S, seq<T>) -> bool, spec: seq<T> -> R)
    requires inv(st, seen)
    requires forall st', seen', t | inv(st', seen') ::
      inv(step(st', t).state, seen' + [t]) && step(st', t).out == Ret(spec(seen' + [t]), None)
    ensures var r := Feed(step, st, s);
            forall k | 0 <= k < |s| :: r[k] == Ret(spec(seen + s[..k + 1]), None)
    ensures |seen| == 0 ==> forall k | 0 <= k < |s| :: Feed(step, st, s)[k] == Ret(spec(s[..k + 1]), None)
    decreases |s|
  {
    if |s| > 0 {
      var a := step(st, s[0]);
      var seen' := seen + [s[0]];
      assert inv(a.state, seen') && a.out == Ret(spec(seen'), None);
      var rest := Feed(step, a.state, s[1..]);
      FeedRunning(step, a.state, seen', s[1..], inv, spec);
      assert |s| > 1 ==> Feed(step, a.state, s[1..])[0] == Ret(spec(seen' + s[1..][..0 + 1]), None);
      assert forall j | 0 <= j < |s[1..]| :: rest[j] == Ret(spec(seen' + s[1..][..j + 1]), None);
      var r := Feed(step, st, s);
      assert r == [a.out] + rest;
      forall k | 0 <= k < |s| ensures r[k] == Ret(spec(seen + s[..k + 1]), None) {
        if k == 0 {
          assert seen + s[..1] == seen';
        } else {
          var j := k - 1;
          assert 0 <= j < |s[1..]|;
          assert r[k] == rest[j];
          assert rest[j] == Ret(spec(seen' + s[1..][..j + 1]), None);
          assert s[..k + 1] == [s[0]] + s[1..][..k];
          assert seen' + s[1..][..k] == seen + s[..k + 1];
        }
      }
      if |seen| == 0 {
        forall k | 0 <= k < |s| ensures r[k] == Ret(spec(s[..k + 1]), None) {
          assert seen + s[..k + 1] == s[..k + 1];
        }
      }
    }
  }

  // `Max` and `Min`.

  /** The largest value of a non-empty sequence. */
  function SeqMax(s: seq<int>): (m: int)
    requires |s| > 0
    ensures m in s && forall i | 0 <= i < |s| :: s[i] <= m
    decreases |s|
  {
    if |s| == 1 then s[0]
    else
      var m := SeqMax(s[..|s| - 1]);
      assert forall i | 0 <= i < |s| - 1 :: s[..|s| - 1][i] == s[i];
      if s[|s| - 1] > m then s[|s| - 1] else m
  }

  /** The smallest value of a non-empty sequence. */
  function SeqMin(s: seq<int>): (m: int)
    requires |s| > 0
    ensures m in s && forall i | 0 <= i < |s| :: m <= s[i]
    decreases |s|
  {
    if |s| == 1 then s[0]
    else
      var m := SeqMin(s[..|s| - 1]);
      assert forall i | 0 <= i < |s| - 1 :: s[..|s| - 1][i] == s[i];
      if s[|s| - 1] < m then s[|s| - 1] else m
  }

  /** The state captured by the `Max` closure. */
  datatype MaxOf = MaxOf(maximum: int, first: bool)

  /** `Max()`: the closure before its first call. */
  const Max: MaxOf := MaxOf(0, true)

  /** One call of the `Max` closure. */
  function MaxStep(st: MaxOf, t: int): Applied<MaxOf, int> {
    var next := if t > st.maximum || st.first then MaxOf(t, false) else st;
    Applied(next, Ret(next.maximum, None))
  }

  /** The `k`-th result of `Max` is the largest of the first `k + 1` inputs,
      never an error, even when every input is below the zero value. */
  lemma {:induction false} MaxRunning(s: seq<int>)
    ensures var r := Feed(MaxStep, Max, s);
            forall k | 0 <= k < |s| :: r[k] == Ret(SeqMax(s[..k + 1]), None)
  {
    var inv := (st: MaxOf, seen: seq<int>) => (st.first <==> |seen| == 0) && (|seen| > 0 ==> st.maximum == SeqMax(seen));
    var spec := (seen: seq<int>) => if |seen| == 0 then 0 else SeqMax(seen);
    forall st: MaxOf, seen: seq<int>, t: int | inv(st, seen)
      ensures inv(MaxStep(st, t).state, seen + [t]) && MaxStep(st, t).out == Ret(spec(seen + [t]), None)
    {
      assert (seen + [t])[..|seen|] == seen;
    }
    FeedRunning(MaxStep, Max, [], s, inv, spec);
  }

  /** `Max`'s results never decrease. */
  lemma {:induction false} MaxNonDecreasing(s: seq<int>, j: nat, k: nat)
    requires j <= k < |s|
    ensures Feed(MaxStep, Max, s)[j].value <= Feed(MaxStep, Max, s)[k].value
  {
    MaxRunning(s);
    assert s[..j + 1] == s[..k + 1][..j + 1];
    var m := SeqMax(s[..j + 1]);
    var i :| 0 <= i < j + 1 && s[..j + 1][i] == m;
    assert s[..k + 1][i] == m;
  }

  /** The state captured by the `Min` closure. */
  datatype MinOf = MinOf(minimum: int, first: bool)

  /** `Min()`: the closure before its first call. */
  const Min: MinOf := MinOf(0, true)

  /** One call of the `Min` closure. */
  function MinStep(st: MinOf, t: int): Applied<MinOf, int> {
    var next := if t < st.minimum || st.first then MinOf(t, false) else st;
    Applied(next, Ret(next.minimum, None))
  }

  /** The `k`-th result of `Min` is the smallest of the first `k + 1`
      inputs, never an error, even when every input is above the zero value. */
  lemma {:induction false} MinRunning(s: seq<int>)
    ensures var r := Feed(MinStep, Min, s);
            forall k | 0 <= k < |s| :: r[k] == Ret(SeqMin(s[..k + 1]), None)
  {
    var inv := (st: MinOf, seen: seq<int>) => (st.first <==> |seen| == 0) && (|seen| > 0 ==> st.minimum == SeqMin(seen));
    var spec := (seen: seq<int>) => if |seen| == 0 then 0 else SeqMin(seen);
    forall st: MinOf, seen: seq<int>, t: int | inv(st, seen)
      ensures inv(MinStep(st, t).state, seen + [t]) && MinStep(st, t).out == Ret(spec(seen + [t]), None)
    {
      assert (seen + [t])[..|seen|] == seen;
    }
    FeedRunning(MinStep, Min, [], s, inv, spec);
  }

  /** `Min`'s results never increase. */
  lemma {:induction false} MinNonIncreasing(s: seq<int>, j: nat, k: nat)
    requires j <= k < |s|
    ensures Feed(MinStep, Min, s)[k].value <= Feed(MinStep, Min, s)[j].value
  {
    MinRunning(s);
    assert s[..j + 1] == s[..k + 1][..j + 1];
    var m := SeqMin(s[..j + 1]);
    var i :| 0 <= i < j + 1 && s[..j + 1][i] == m;
    assert s[..k + 1][i] == m;
  }

  // `Sum` and `Mean`.

  /** The mathematical sum of a sequence. */
  function Total(s: seq<int>): int
    decreases |s|
  {
    if |s| == 0 then 0 else Total(s[..|s| - 1]) + s[|s| - 1]
  }

  /** The state captured by the `Sum` closure. */
  datatype SumOf = SumOf(total: Int64)

  /** `Sum()`: the closure before its first call. */
  const Sum: SumOf := SumOf(0)

  /** One call of the `Sum` closure. */
  function SumStep(st: SumOf, v: Int64): Applied<SumOf, Int64> {
    var total := Wrap64(st.total + v);
    Applied(SumOf(total), Ret(total, None))
  }

  /** The `k`-th result of `Sum` is the sum of the first `k + 1` inputs,
      wrapped to `int64`, never an error. */
  lemma {:induction false} SumRunning(s: seq<Int64>)
    ensures var r := Feed(SumStep, Sum, s);
            forall k | 0 <= k < |s| :: r[k] == Ret(Wrap64(Total(s[..k + 1])), None)
  {
    var inv := (st: SumOf, seen: seq<Int64>) => st.total == Wrap64(Total(seen));
    var spec := (seen: seq<Int64>) => Wrap64(Total(seen));
    forall st: SumOf, seen: seq<Int64>, t: Int64 | inv(st, seen)
      ensures inv(SumStep(st, t).state, seen + [t]) && SumStep(st, t).out == Ret(spec(seen + [t]), None)
    {
      assert (seen + [t])[..|seen|] == seen;
      WrapAdd(Total(seen), t);
    }
    FeedRunning(SumStep, Sum, [], s, inv, spec);
  }

  /** The state captured by the `Mean` closure. */
  datatype MeanOf = MeanOf(n: nat, total: Int64)

  /** `Mean()`: the closure before its first call. */
  const Mean: MeanOf := MeanOf(0, 0)

  /** `total / T(n)` for `int64`: the quotient of an `int64` by a positive
      count is itself an `int64`. */
  function MeanOfTotal(total: Int64, n: nat): (q: Int64)
    requires n > 0
    ensures q == GoDiv(total, n)
  {
    GoDivShrinks(total, n);
    GoDiv(total, n)
  }

  /** One call of the `Mean` closure. */
  function MeanStep(st: MeanOf, t: Int64): Applied<MeanOf, Int64> {
    var n := st.n + 1;
    var total := Wrap64(st.total + t);
    Applied(MeanOf(n, total), Ret(MeanOfTotal(total, n), None))
  }

  /** One call of `Mean` keeps its state equal to the count and wrapped
      sum of the values seen, and reports their truncated mean. */
  lemma MeanStepKeeps(st: MeanOf, seen: seq<Int64>, t: Int64)
    requires st.n == |seen| && st.total == Wrap64(Total(seen))
    ensures var a := MeanStep(st, t);
            && a.state.n == |seen + [t]| && a.state.total == Wrap64(Total(seen + [t]))
            && a.out == Ret(GoDiv(Wrap64(Total(seen + [t])), |seen + [t]|), None)
  {
    assert (seen + [t])[..|seen|] == seen;
    WrapAdd(Total(seen), t);
  }

  /** The `k`-th result of `Mean` is the wrapped sum of the first `k + 1`
      inputs divided by `k + 1`, truncating toward zero; never an error. */
  lemma {:induction false} MeanRunning(s: seq<Int64>)
    ensures var r := Feed(MeanStep, Mean, s);
            forall k | 0 <= k < |s| :: r[k] == Ret(GoDiv(Wrap64(Total(s[..k + 1])), k + 1), None)
  {
    var inv := (st: MeanOf, seen: seq<Int64>) => st.n == |seen| && st.total == Wrap64(Total(seen));
    var spec := (seen: seq<Int64>) => if |seen| == 0 then 0 else MeanOfTotal(Wrap64(Total(seen)), |seen|);
    forall st: MeanOf, seen: seq<Int64>, t: Int64 | inv(st, seen)
      ensures inv(MeanStep(st, t).state, seen + [t]) && MeanStep(st, t).out == Ret(spec(seen + [t]), None)
    {
      MeanStepKeeps(st, seen, t);
    }
    assert inv(Mean, []) by {
      assert Wrap64(Total([])) == 0;
    }
    FeedRunning(MeanStep, Mean, [], s, inv, spec);
    var r := Feed(MeanStep, Mean, s);
    forall k | 0 <= k < |s| ensures r[k] == Ret(GoDiv(Wrap64(Total(s[..k + 1])), k + 1), None) {
      assert r[k] == Ret(spec(s[..k + 1]), None);
      assert |s[..k + 1]| == k + 1;
    }
  }
}
