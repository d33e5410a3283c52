/**
  reducers.go: ready-made reducers for `Reduce`. Only `Count` is
  implemented there; its counter is a `uint64`, whose `++` wraps around.
 */
module Reducers {
  import opened Types
  import opened Lists
  import opened ElemIter
  import opened ElemReduce
  import Appliers

  /** Go's `uint64`. */
  type UInt64 = x: int | 0 <= x < 0x1_0000_0000_0000_0000

  /** `Count`: one more than the count so far, whatever the value. */
  function Count<T>(m: UInt64, x: T): (r: Ret<UInt64>)
    ensures r.err.None?
    ensures r.value == (m + 1) % Appliers.Two64
  {
    Ret((m + 1) % Appliers.Two64, None)
  }

  /** `Count` accepts every value, so `Reduce` with it stops only at an
      element error: starting from `m`, the count grows by the number of
      elements before that error, modulo 2^64. */
  lemma {:induction false} CountElems<T>(es: seq<Elem<T>>, m: UInt64)
    ensures var i := FirstElemError(es);
            var r := ReduceElems<T, UInt64>(es, Count<T>, m);
            && (i < |es| ==> r == Reduced(Ret((m + i) % Appliers.Two64, es[i].err), i + 1))
            && (i == |es| ==> r == Reduced(Ret((m + |es|) % Appliers.Two64, None), |es|))
    decreases |es|
  {
    if |es| > 0 && es[0].err.None? {
      var m': UInt64 := (m + 1) % Appliers.Two64;
      assert ReduceElems<T, UInt64>(es, Count<T>, m) == var rest := ReduceElems<T, UInt64>(es[1..], Count<T>, m'); Reduced(rest.result, rest.pulled + 1);
      CountElems(es[1..], m');
      var i := FirstElemError(es[1..]);
      assert FirstElemError(es) == i + 1;
      CountWraps(m, i);
    }
  }

  /** Wrapping after the first increment is wrapping once at the end. */
  lemma CountWraps(m: UInt64, i: nat)
    ensures ((m + 1) % Appliers.Two64 + i) % Appliers.Two64 == (m + i + 1) % Appliers.Two64
  {
    if m + 1 == Appliers.Two64 {
      Appliers.ModShift(i, 1);
    } else {
      assert (m + 1) % Appliers.Two64 == m + 1;
    }
  }

  /** `Reduce(it, Count)` returns how many elements came before the first
      one carrying an error, modulo 2^64, with that element's error; with no
      element error, it returns how many elements there were, and nil. */
  lemma CountCounts<T>(it: Iter<T>, zero: T)
    ensures var es := Drain(it, zero).elems;
            var i := FirstElemError(es);
            var r := Reduce<T, UInt64>(it, Count<T>, zero, 0);
            && (i < |es| ==> r == Reduced(Ret(i % Appliers.Two64, es[i].err), i + 1))
            && (i == |es| ==> r == Reduced(Ret(|es| % Appliers.Two64, None), |es|))
  {
    var es := Drain(it, zero).elems;
    var i := FirstElemError(es);
    var r := Reduce<T, UInt64>(it, Count<T>, zero, 0);
    assert r == ReduceElems<T, UInt64>(es, Count<T>, 0) by {
      ReduceLoopTrace<T, UInt64>(it, Count<T>, 0, zero);
    }
    CountElems(es, 0);
    if i < |es| {
      assert r == Reduced(Ret(i % Appliers.Two64, es[i].err), i + 1);
    } else {
      assert r == Reduced(Ret(|es| % Appliers.Two64, None), |es|);
    }
  }
}
