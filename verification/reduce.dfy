/**
  reduce.go: `Reduce` folds an `*Iter[I]` into an accumulator that starts at
  the zero value of `A`, and gives up at the first error, of an element or
  of the reducer. The result records, besides Go's `(A, error)` pair, how
  many valid elements were pulled, so that "nothing after the first error is
  consumed" can be stated.
 */
module ElemReduce {
  import opened Types
  import opened Lists
  import opened ElemIter

  /** The `(A, error)` pair `Reduce` returns, and how many valid elements it
      pulled from the iterator. */
  datatype Reduced<A> = Reduced(result: Ret<A>, pulled: nat)

  /** The `for` loop of `Reduce`, with accumulator `acc`. */
  function ReduceLoop<I, A>(it: Iter<I>, f: Reducer<I, A>, acc: A, zero: I): (r: Reduced<A>)
    ensures r.pulled <= Remaining(it)
    decreases Remaining(it)
  {
    var s := Next(it, zero);
    if !s.out.valid then Reduced(Ret(acc, None), 0)
    else if s.out.elem.err.Some? then Reduced(Ret(acc, s.out.elem.err), 1)
    else
      var a := f(acc, s.out.elem.val);
      if a.err.Some? then Reduced(a, 1)
      else
        var rest := ReduceLoop(s.next, f, a.value, zero);
        Reduced(rest.result, rest.pulled + 1)
  }

  /** `Reduce(it, f)`; `zeroI` and `zeroA` are the zero values of `I` and `A`. */
  function Reduce<I, A>(it: Iter<I>, f: Reducer<I, A>, zeroI: I, zeroA: A): (r: Reduced<A>)
    ensures r.pulled <= Remaining(it)
  {
    ReduceLoop(it, f, zeroA, zeroI)
  }

  /** The values carried by a list of elements. */
  function Vals<I>(es: seq<Elem<I>>): seq<I> {
    seq(|es|, i requires 0 <= i < |es| => es[i].val)
  }

  /** The position of the first element carrying an error, or `|es|`. */
  function FirstElemError<I>(es: seq<Elem<I>>): (i: nat)
    ensures i <= |es|
    ensures forall j | 0 <= j < i :: es[j].err.None?
    ensures i < |es| ==> es[i].err.Some?
    decreases |es|
  {
    if |es| == 0 then 0
    else if es[0].err.Some? then 0
    else 1 + FirstElemError(es[1..])
  }

  /** `Reduce`'s loop read off the elements the iterator hands out. */
  function ReduceElems<I, A>(es: seq<Elem<I>>, f: Reducer<I, A>, acc: A): Reduced<A>
    decreases |es|
  {
    if |es| == 0 then Reduced(Ret(acc, None), 0)
    else if es[0].err.Some? then Reduced(Ret(acc, es[0].err), 1)
    else
      var a := f(acc, es[0].val);
      if a.err.Some? then Reduced(a, 1)
      else
        var rest := ReduceElems(es[1..], f, a.value);
        Reduced(rest.result, rest.pulled + 1)
  }

  /** The loop over an iterator is the loop over what draining it hands out. */
  lemma {:induction false} ReduceLoopTrace<I, A>(it: Iter<I>, f: Reducer<I, A>, acc: A, zero: I)
    ensures ReduceLoop(it, f, acc, zero) == ReduceElems(Drain(it, zero).elems, f, acc)
    decreases Remaining(it)
  {
    DrainStep(it, zero);
    var s := Next(it, zero);
    if s.out.valid && s.out.elem.err.None? && f(acc, s.out.elem.val).err.None? {
      ReduceLoopTrace(s.next, f, f(acc, s.out.elem.val).value, zero);
    }
  }

  /** The reducer accepts the values before position `k`, each folded into
      the accumulator built from the values before it. */
  predicate ReducerAcceptsUpTo<I, A>(vs: seq<I>, f: Reducer<I, A>, acc: A, k: nat)
    requires k <= |vs|
  {
    forall j | 0 <= j < k :: f(FoldLeft(Combine(f), acc, vs[..j]), vs[j]).err.None?
  }

  /** Moving the accumulator one value forward. */
  lemma FoldPrefixShift<I, A>(vs: seq<I>, f: Reducer<I, A>, acc: A, j: nat)
    requires 0 < |vs| && j < |vs|
    ensures FoldLeft(Combine(f), acc, vs[..j + 1]) == FoldLeft(Combine(f), Combine(f)(acc, vs[0]), vs[1..][..j])
  {
    assert vs[..j + 1][1..] == vs[1..][..j];
  }

  /** When the reducer accepts everything it is handed before the first
      element error, `Reduce` returns the fold of the values before that
      element with that element's error, having pulled the element and
      nothing after it; with no element error, it returns the fold of all
      values and no error, having pulled every element. */
  lemma {:induction false} ReduceElemsFolds<I, A>(es: seq<Elem<I>>, f: Reducer<I, A>, acc: A)
    requires ReducerAcceptsUpTo(Vals(es), f, acc, FirstElemError(es))
    ensures var i := FirstElemError(es);
            var vs := Vals(es);
            && (i < |es| ==> ReduceElems(es, f, acc) == Reduced(Ret(FoldLeft(Combine(f), acc, vs[..i]), es[i].err), i + 1))
            && (i == |es| ==> ReduceElems(es, f, acc) == Reduced(Ret(FoldLeft(Combine(f), acc, vs), None), |es|))
    decreases |es|
  {
    var vs := Vals(es);
    if |es| > 0 && es[0].err.None? {
      var tail := es[1..];
      var acc' := Combine(f)(acc, vs[0]);
      assert f(FoldLeft(Combine(f), acc, vs[..0]), vs[0]).err.None?;
      assert Vals(tail) == vs[1..];
      var i := FirstElemError(es);
      assert FirstElemError(tail) == i - 1;
      forall j | 0 <= j < i - 1
        ensures f(FoldLeft(Combine(f), acc', vs[1..][..j]), vs[1..][j]).err.None?
      {
        FoldPrefixShift(vs, f, acc, j);
        assert f(FoldLeft(Combine(f), acc, vs[..j + 1]), vs[j + 1]).err.None?;
      }
      ReduceElemsFolds(tail, f, acc');
      if i < |es| {
        FoldPrefixShift(vs, f, acc, i - 1);
      } else {
        assert vs == vs[..|es|];
        FoldPrefixShift(vs, f, acc, |es| - 1);
        assert vs[1..][..|es| - 1] == vs[1..];
      }
    }
  }

  /** Position `k` holds the first value the reducer rejects: it comes before
      any element error, and the reducer accepted every value before it. */
  predicate RejectsAt<I, A>(es: seq<Elem<I>>, f: Reducer<I, A>, acc: A, k: nat) {
    && k < |es| && k < FirstElemError(es)
    && ReducerAcceptsUpTo(Vals(es), f, acc, k)
    && f(FoldLeft(Combine(f), acc, Vals(es)[..k]), es[k].val).err.Some?
  }

  /** The first value the reducer rejects ends `Reduce`: it returns the
      reducer's own `(A, error)` pair for that value, having pulled nothing
      after it. */
  lemma {:induction false} ReduceElemsReducerError<I, A>(es: seq<Elem<I>>, f: Reducer<I, A>, acc: A, k: nat)
    requires RejectsAt(es, f, acc, k)
    ensures ReduceElems(es, f, acc) == Reduced(f(FoldLeft(Combine(f), acc, Vals(es)[..k]), es[k].val), k + 1)
    decreases |es|
  {
    var vs := Vals(es);
    if k > 0 {
      var tail := es[1..];
      var acc' := Combine(f)(acc, vs[0]);
      assert f(FoldLeft(Combine(f), acc, vs[..0]), vs[0]).err.None?;
      assert Vals(tail) == vs[1..];
      assert FirstElemError(tail) == FirstElemError(es) - 1;
      forall j | 0 <= j < k - 1
        ensures f(FoldLeft(Combine(f), acc', vs[1..][..j]), vs[1..][j]).err.None?
      {
        FoldPrefixShift(vs, f, acc, j);
        assert f(FoldLeft(Combine(f), acc, vs[..j + 1]), vs[j + 1]).err.None?;
      }
      FoldPrefixShift(vs, f, acc, k - 1);
      ReduceElemsReducerError(tail, f, acc', k - 1);
    }
  }

  /** `Reduce` over an iterator, as the fold of what draining it hands out:
      it stops at the first element error with the accumulator built so
      far, and otherwise returns the fold of every value, starting from the
      zero value of `A`. */
  lemma ReduceFolds<I, A>(it: Iter<I>, f: Reducer<I, A>, zeroI: I, zeroA: A)
    requires var es := Drain(it, zeroI).elems;
             ReducerAcceptsUpTo(Vals(es), f, zeroA, FirstElemError(es))
    ensures var es := Drain(it, zeroI).elems;
            var i := FirstElemError(es);
            var r := Reduce(it, f, zeroI, zeroA);
            && (i < |es| ==> r == Reduced(Ret(FoldLeft(Combine(f), zeroA, Vals(es)[..i]), es[i].err), i + 1))
            && (i == |es| ==> r == Reduced(Ret(FoldLeft(Combine(f), zeroA, Vals(es)), None), |es|))
  {
    ReduceLoopTrace(it, f, zeroA, zeroI);
    ReduceElemsFolds(Drain(it, zeroI).elems, f, zeroA);
  }

  /** `Reduce` over an iterator returns the reducer's pair for the first
      value it rejects, having pulled nothing after that value. */
  lemma ReduceReducerError<I, A>(it: Iter<I>, f: Reducer<I, A>, zeroI: I, zeroA: A, k: nat)
    requires RejectsAt(Drain(it, zeroI).elems, f, zeroA, k)
    ensures var es := Drain(it, zeroI).elems;
            Reduce(it, f, zeroI, zeroA) == Reduced(f(FoldLeft(Combine(f), zeroA, Vals(es)[..k]), es[k].val), k + 1)
  {
    ReduceLoopTrace(it, f, zeroA, zeroI);
    ReduceElemsReducerError(Drain(it, zeroI).elems, f, zeroA, k);
  }
}
