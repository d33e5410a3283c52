/**
  The `Elem`/`Iter` generation (shortcuts.go, each.go). An `*Iter[T]` hands
  out one `Elem{val, err}` per `Next()` call, with a flag that is false once
  it has nothing more to give. The `Iter` struct itself is not part of this
  model; an iterator here is the state captured by its `next` closure, and
  `Next` is one call of it.

  The source is a fixed list of elements that, once used up, answers invalid
  on every call. The other constructors are the shortcut combinators, each
  holding its input iterator and the variables its closure captures. The
  mutexes of `Take` and `While` only matter to concurrent callers and are
  left out: a single caller is modelled.
 */
module ElemIter {
  import opened Types
  import opened Lists

  /** `Elem[T]`: a value together with the error met producing it. */
  datatype Elem<T> = Elem(val: T, err: Option<Error>)

  /** What `Next()` returns: an element and whether it is valid. */
  datatype Pulled<T> = Pulled(elem: Elem<T>, valid: bool)

  /** `DoneElem[T]()`: the invalid answer; `zero` is the zero value of `T`. */
  function DoneElem<T>(zero: T): (r: Pulled<T>)
    ensures !r.valid && r.elem == Elem(zero, None)
  {
    Pulled(Elem(zero, None), false)
  }

  /** `ValElem(v)`: a valid element holding `v` and no error. */
  function ValElem<T>(v: T): (r: Pulled<T>)
    ensures r.valid && r.elem == Elem(v, None)
  {
    Pulled(Elem(v, None), true)
  }

  /** `ErrElem[T](err)`: a valid element holding only an error. */
  function ErrElem<T>(zero: T, err: Error): (r: Pulled<T>)
    ensures r.valid && r.elem == Elem(zero, Some(err))
  {
    Pulled(Elem(zero, Some(err)), true)
  }

  /** The state captured by an iterator's `next` closure. `Each` records the
      calls made to its callback, in order. */
  datatype Iter<!T> =
    | Source(elems: seq<Elem<T>>, pos: nat)
    | NoError(src: Iter<T>)
    | Take(src: Iter<T>, n: nat, count: nat)
    | Where(src: Iter<T>, keep: T -> bool)
    | While(src: Iter<T>, still: T -> bool, done: bool)
    | Each(src: Iter<T>, calls: seq<Elem<T>>)

  /** One call of `Next()`: what it returns and the state afterwards. */
  datatype Moved<!T> = Moved(next: Iter<T>, out: Pulled<T>)

  /** How many iterators are stacked on top of the source. */
  function Depth<T>(it: Iter<T>): nat {
    match it
    case Source(_, _) => 0
    case NoError(src) => 1 + Depth(src)
    case Take(src, _, _) => 1 + Depth(src)
    case Where(src, _) => 1 + Depth(src)
    case While(src, _, _) => 1 + Depth(src)
    case Each(src, _) => 1 + Depth(src)
  }

  /** How many more elements the source can hand out. */
  function Remaining<T>(it: Iter<T>): nat {
    match it
    case Source(elems, pos) => if pos < |elems| then |elems| - pos else 0
    case NoError(src) => Remaining(src)
    case Take(src, _, _) => Remaining(src)
    case Where(src, _) => Remaining(src)
    case While(src, _, _) => Remaining(src)
    case Each(src, _) => Remaining(src)
  }

  /** One call of `Next()`. A valid answer uses up at least one element of
      the source. */
  function Next<T>(it: Iter<T>, zero: T): (r: Moved<T>)
    ensures Depth(r.next) == Depth(it)
    ensures Remaining(r.next) <= Remaining(it)
    ensures r.out.valid ==> Remaining(r.next) < Remaining(it)
    decreases Depth(it), 0
  {
    match it
    case Source(elems, pos) =>
      if pos < |elems| then Moved(Source(elems, pos + 1), Pulled(elems[pos], true))
      else Moved(it, DoneElem(zero))
    case NoError(src) => NoErrorLoop(src, zero)
    case Take(src, n, count) =>
      if count >= n then Moved(it, DoneElem(zero))
      else
        var s := Next(src, zero);
        Moved(Take(s.next, n, count + 1), s.out)
    case Where(src, keep) => WhereLoop(src, keep, zero)
    case While(src, still, done) =>
      if done then Moved(it, DoneElem(zero))
      else
        var s := Next(src, zero);
        if !s.out.valid then Moved(While(s.next, still, true), DoneElem(zero))
        else if s.out.elem.err.Some? then Moved(While(s.next, still, false), s.out)
        else if still(s.out.elem.val) then Moved(While(s.next, still, false), s.out)
        else Moved(While(s.next, still, true), DoneElem(zero))
    case Each(src, calls) =>
      var s := Next(src, zero);
      Moved(Each(s.next, if s.out.valid then calls + [s.out.elem] else calls), s.out)
  }

  /** The `for` loop of `NoError`'s closure. */
  function NoErrorLoop<T>(src: Iter<T>, zero: T): (r: Moved<T>)
    ensures r.next.NoError?
    ensures Depth(r.next.src) == Depth(src) && Remaining(r.next.src) <= Remaining(src)
    ensures r.out.valid ==> Remaining(r.next.src) < Remaining(src)
    decreases Depth(src), 1, Remaining(src)
  {
    var s := Next(src, zero);
    if !s.out.valid then Moved(NoError(s.next), DoneElem(zero))
    else if s.out.elem.err.None? then Moved(NoError(s.next), s.out)
    else NoErrorLoop(s.next, zero)
  }

  /** The `for` loop of `Where`'s closure. */
  function WhereLoop<T>(src: Iter<T>, keep: T -> bool, zero: T): (r: Moved<T>)
    ensures r.next.Where? && r.next.keep == keep
    ensures Depth(r.next.src) == Depth(src) && Remaining(r.next.src) <= Remaining(src)
    ensures r.out.valid ==> Remaining(r.next.src) < Remaining(src)
    decreases Depth(src), 1, Remaining(src)
  {
    var s := Next(src, zero);
    if !s.out.valid then Moved(Where(s.next, keep), DoneElem(zero))
    else if s.out.elem.err.Some? then Moved(Where(s.next, keep), s.out)
    else if keep(s.out.elem.val) then Moved(Where(s.next, keep), s.out)
    else WhereLoop(s.next, keep, zero)
  }

  /** Once an iterator has answered invalid, it keeps answering invalid. */
  lemma {:induction false} InvalidIsFinal<T>(it: Iter<T>, zero: T)
    ensures var r := Next(it, zero); !r.out.valid ==> !Next(r.next, zero).out.valid
    decreases Depth(it), 0
  {
    match it
    case Source(_, _) =>
    case NoError(src) => NoErrorLoopFinal(src, zero);
    case Take(src, n, count) => InvalidIsFinal(src, zero);
    case Where(src, keep) => WhereLoopFinal(src, keep, zero);
    case While(_, _, _) =>
    case Each(src, _) => InvalidIsFinal(src, zero);
  }

  lemma {:induction false} NoErrorLoopFinal<T>(src: Iter<T>, zero: T)
    ensures var r := NoErrorLoop(src, zero); !r.out.valid ==> !Next(r.next.src, zero).out.valid
    decreases Depth(src), 1, Remaining(src)
  {
    InvalidIsFinal(src, zero);
    var s := Next(src, zero);
    if s.out.valid && s.out.elem.err.Some? {
      NoErrorLoopFinal(s.next, zero);
    }
  }

  lemma {:induction false} WhereLoopFinal<T>(src: Iter<T>, keep: T -> bool, zero: T)
    ensures var r := WhereLoop(src, keep, zero); !r.out.valid ==> !Next(r.next.src, zero).out.valid
    decreases Depth(src), 1, Remaining(src)
  {
    InvalidIsFinal(src, zero);
    var s := Next(src, zero);
    if s.out.valid && s.out.elem.err.None? && !keep(s.out.elem.val) {
      WhereLoopFinal(s.next, keep, zero);
    }
  }

  // Draining an iterator: calling `Next()` until it answers invalid.

  /** The valid elements handed out, and the state after the invalid answer. */
  datatype Drained<!T> = Drained(elems: seq<Elem<T>>, rest: Iter<T>)

  /** Calls `Next()` until it answers invalid. */
  function Drain<T>(it: Iter<T>, zero: T): (d: Drained<T>)
    ensures |d.elems| <= Remaining(it)
    decreases Remaining(it)
  {
    var s := Next(it, zero);
    if !s.out.valid then Drained([], s.next)
    else
      var rest := Drain(s.next, zero);
      Drained([s.out.elem] + rest.elems, rest.rest)
  }

  /** One call of a drained iterator. */
  lemma DrainStep<T>(it: Iter<T>, zero: T)
    ensures var s := Next(it, zero);
            var d := Drain(it, zero);
            && (!s.out.valid ==> d == Drained([], s.next))
            && (s.out.valid ==> |d.elems| > 0 && d.elems[0] == s.out.elem
                                && d.elems[1..] == Drain(s.next, zero).elems && d.rest == Drain(s.next, zero).rest)
  {
  }

  /** Two iterators whose next call behaves the same drain the same. */
  lemma DrainByNext<T>(a: Iter<T>, b: Iter<T>, zero: T)
    requires Next(a, zero) == Next(b, zero)
    ensures Drain(a, zero) == Drain(b, zero)
  {
  }

  /** A source hands out its remaining elements in order, then stays used up. */
  lemma {:induction false} SourceTrace<T>(elems: seq<Elem<T>>, pos: nat, zero: T)
    requires pos <= |elems|
    ensures Drain(Source(elems, pos), zero) == Drained(elems[pos..], Source(elems, |elems|))
    decreases |elems| - pos
  {
    if pos < |elems| {
      SourceTrace(elems, pos + 1, zero);
      assert elems[pos..] == [elems[pos]] + elems[pos + 1..];
    }
  }

  /** The elements of `es` that carry no error, in order. */
  function WithoutErrors<T>(es: seq<Elem<T>>): (r: seq<Elem<T>>)
    ensures |r| <= |es|
    ensures forall i | 0 <= i < |r| :: r[i].err.None?
    decreases |es|
  {
    if |es| == 0 then []
    else if es[0].err.None? then [es[0]] + WithoutErrors(es[1..])
    else WithoutErrors(es[1..])
  }

  /** `NoError(it)` hands out exactly the elements of `it` that carry no
      error, in order. */
  lemma {:induction false} NoErrorTrace<T>(src: Iter<T>, zero: T)
    ensures Drain(NoError(src), zero).elems == WithoutErrors(Drain(src, zero).elems)
    decreases Remaining(src)
  {
    var s := Next(src, zero);
    var d := Drain(src, zero);
    DrainStep(src, zero);
    DrainStep(NoError(src), zero);
    if s.out.valid {
      NoErrorTrace(s.next, zero);
      assert d.elems == [d.elems[0]] + d.elems[1..];
      if s.out.elem.err.Some? {
        DrainByNext(NoError(src), NoError(s.next), zero);
      }
    }
  }

  /** `Take(it, n)` hands out the first `n` elements of `it`, or all of them
      when there are fewer. */
  lemma {:induction false} TakeTrace<T>(src: Iter<T>, n: nat, count: nat, zero: T)
    requires count <= n
    ensures var d := Drain(src, zero);
            Drain(Take(src, n, count), zero).elems == d.elems[..Clamp(n - count, |d.elems|)]
    decreases Remaining(src)
  {
    if count < n {
      var s := Next(src, zero);
      if s.out.valid {
        TakeTrace(s.next, n, count + 1, zero);
        TakeTraceStep(src, n, count, zero);
      } else {
        TakeDrainStep(src, n, count, zero);
        DrainStep(src, zero);
      }
    } else {
      assert Next(Take(src, n, count), zero).out == DoneElem(zero);
    }
  }

  /** The step of `TakeTrace` for a valid element. */
  lemma TakeTraceStep<T>(src: Iter<T>, n: nat, count: nat, zero: T)
    requires count < n && Next(src, zero).out.valid
    requires var s := Next(src, zero);
             var tail := Drain(s.next, zero).elems;
             Drain(Take(s.next, n, count + 1), zero).elems == tail[..Clamp(n - (count + 1), |tail|)]
    ensures var d := Drain(src, zero);
            Drain(Take(src, n, count), zero).elems == d.elems[..Clamp(n - count, |d.elems|)]
  {
    var s := Next(src, zero);
    var d := Drain(src, zero);
    TakeDrainStep(src, n, count, zero);
    DrainStep(src, zero);
    PrefixCons(d.elems, Clamp(n - count, |d.elems|));
  }

  /** One call of a drained `Take` that has not let `n` calls through. */
  lemma TakeDrainStep<T>(src: Iter<T>, n: nat, count: nat, zero: T)
    requires count < n
    ensures var s := Next(src, zero);
            var d := Drain(Take(src, n, count), zero);
            && (!s.out.valid ==> d.elems == [])
            && (s.out.valid ==> d.elems == [s.out.elem] + Drain(Take(s.next, n, count + 1), zero).elems)
  {
    var s := Next(src, zero);
    var it := Take(src, n, count);
    assert Next(it, zero) == Moved(Take(s.next, n, count + 1), s.out);
    DrainStep(it, zero);
  }

  /** Once `Take` has let `n` calls through, it answers invalid without
      calling its input again. */
  lemma TakeStopsPulling<T>(src: Iter<T>, n: nat, count: nat, zero: T)
    requires count >= n
    ensures Next(Take(src, n, count), zero) == Moved(Take(src, n, count), DoneElem(zero))
  {
  }

  /** What `Where` hands out: every element with an error, untested, and
      every element without one that `keep` accepts. */
  function WhereElems<T>(es: seq<Elem<T>>, keep: T -> bool): (r: seq<Elem<T>>)
    ensures |r| <= |es|
    decreases |es|
  {
    if |es| == 0 then []
    else if es[0].err.Some? || keep(es[0].val) then [es[0]] + WhereElems(es[1..], keep)
    else WhereElems(es[1..], keep)
  }

  /** `Where(it, keep)` hands out the elements `WhereElems` says. */
  lemma {:induction false} WhereTrace<T>(src: Iter<T>, keep: T -> bool, zero: T)
    ensures Drain(Where(src, keep), zero).elems == WhereElems(Drain(src, zero).elems, keep)
    decreases Remaining(src)
  {
    var s := Next(src, zero);
    var d := Drain(src, zero);
    DrainStep(src, zero);
    DrainStep(Where(src, keep), zero);
    if s.out.valid {
      WhereTrace(s.next, keep, zero);
      assert d.elems == [d.elems[0]] + d.elems[1..];
      if s.out.elem.err.None? && !keep(s.out.elem.val) {
        DrainByNext(Where(src, keep), Where(s.next, keep), zero);
      }
    }
  }

  /** An element is handed out by `Where` exactly when it occurs in the input
      and either carries an error or passes `keep`. */
  lemma {:induction false} WhereElemsMembers<T>(es: seq<Elem<T>>, keep: T -> bool)
    ensures forall x :: x in WhereElems(es, keep) <==> x in es && (x.err.Some? || keep(x.val))
    decreases |es|
  {
    if |es| > 0 {
      WhereElemsMembers(es[1..], keep);
      assert forall x :: x in es <==> x == es[0] || x in es[1..];
    }
  }

  /** What `While` hands out: elements with an error, untested, and
      elements `still` accepts, up to the first element without an error
      that `still` rejects. */
  function WhileElems<T>(es: seq<Elem<T>>, still: T -> bool): (r: seq<Elem<T>>)
    ensures |r| <= |es|
    decreases |es|
  {
    if |es| == 0 then []
    else if es[0].err.Some? || still(es[0].val) then [es[0]] + WhileElems(es[1..], still)
    else []
  }

  /** `While(it, still)` hands out the elements `WhileElems` says. */
  lemma {:induction false} WhileTrace<T>(src: Iter<T>, still: T -> bool, zero: T)
    ensures Drain(While(src, still, false), zero).elems == WhileElems(Drain(src, zero).elems, still)
    decreases Remaining(src)
  {
    var s := Next(src, zero);
    var d := Drain(src, zero);
    DrainStep(src, zero);
    DrainStep(While(src, still, false), zero);
    if s.out.valid {
      WhileTrace(s.next, still, zero);
      assert d.elems == [d.elems[0]] + d.elems[1..];
    }
  }

  /** The first rejected value ends `While` for good: that call answers
      invalid, and so does every later one, without calling the input. */
  lemma WhileStopsForGood<T>(src: Iter<T>, still: T -> bool, zero: T)
    ensures var s := Next(src, zero);
            var r := Next(While(src, still, false), zero);
            s.out.valid && s.out.elem.err.None? && !still(s.out.elem.val) ==>
              && r == Moved(While(s.next, still, true), DoneElem(zero))
              && Next(r.next, zero) == Moved(r.next, DoneElem(zero))
  {
  }

  /** `Each(it, fn)` hands out exactly the elements of `it`, and `fn` has
      been called once per valid element, with that element's value and
      error, in order, and never for the invalid answer. */
  lemma {:induction false} EachTrace<T>(src: Iter<T>, calls: seq<Elem<T>>, zero: T)
    ensures var d := Drain(src, zero);
            var e := Drain(Each(src, calls), zero);
            && e.elems == d.elems
            && e.rest.Each? && e.rest.calls == calls + d.elems
    decreases Remaining(src)
  {
    var s := Next(src, zero);
    if s.out.valid {
      EachTrace(s.next, calls + [s.out.elem], zero);
      EachTraceStep(src, calls, zero);
    } else {
      DrainStep(src, zero);
      EachDrainStep(src, calls, zero);
      assert calls + [] == calls;
    }
  }

  /** The step of `EachTrace` for a valid element. */
  lemma EachTraceStep<T>(src: Iter<T>, calls: seq<Elem<T>>, zero: T)
    requires Next(src, zero).out.valid
    requires var s := Next(src, zero);
             var d' := Drain(s.next, zero);
             var e' := Drain(Each(s.next, calls + [s.out.elem]), zero);
             e'.elems == d'.elems && e'.rest.Each? && e'.rest.calls == calls + [s.out.elem] + d'.elems
    ensures var d := Drain(src, zero);
            var e := Drain(Each(src, calls), zero);
            && e.elems == d.elems
            && e.rest.Each? && e.rest.calls == calls + d.elems
  {
    var s := Next(src, zero);
    var d' := Drain(s.next, zero);
    var e' := Drain(Each(s.next, calls + [s.out.elem]), zero);
    var d := Drain(src, zero);
    var e := Drain(Each(src, calls), zero);
    assert |d.elems| > 0 && d.elems[0] == s.out.elem && d.elems[1..] == d'.elems by {
      DrainStep(src, zero);
    }
    assert e == Drained([s.out.elem] + e'.elems, e'.rest) by {
      EachDrainStep(src, calls, zero);
    }
    Recorded(calls, d.elems);
  }

  /** Recording a list's head, then its tail, records the list. */
  lemma Recorded<X>(calls: seq<X>, whole: seq<X>)
    requires |whole| > 0
    ensures whole == [whole[0]] + whole[1..]
    ensures calls + [whole[0]] + whole[1..] == calls + whole
  {
  }

  /** One call of a drained `Each`. */
  lemma EachDrainStep<T>(src: Iter<T>, calls: seq<Elem<T>>, zero: T)
    ensures var s := Next(src, zero);
            var e := Drain(Each(src, calls), zero);
            && (!s.out.valid ==> e == Drained([], Each(s.next, calls)))
            && (s.out.valid ==> e == Drained([s.out.elem] + Drain(Each(s.next, calls + [s.out.elem]), zero).elems,
                                             Drain(Each(s.next, calls + [s.out.elem]), zero).rest))
  {
    var s := Next(src, zero);
    assert Next(Each(src, calls), zero) == Moved(Each(s.next, if s.out.valid then calls + [s.out.elem] else calls), s.out);
  }

  // `Zip`, over two iterators of possibly different element types.

  /** The state captured by `Zip`'s closure. */
  datatype ZipIter<!L, !R> = ZipIter(left: Iter<L>, right: Iter<R>)

  /** `errors.Join` of two possibly nil errors: nil when both are nil. */
  function Join(a: Option<Error>, b: Option<Error>): (e: Option<Error>)
    ensures e.None? <==> a.None? && b.None?
  {
    if a.None? && b.None? then None
    else Some(Joined((if a.Some? then [a.value] else []) + (if b.Some? then [b.value] else [])))
  }

  /** One call of `Zip`'s `Next()`: both inputs are always called. */
  function ZipNext<L, R>(z: ZipIter<L, R>, zl: L, zr: R): (r: (ZipIter<L, R>, Pulled<Pair<L, R>>))
    ensures Remaining(r.0.left) <= Remaining(z.left)
    ensures r.1.valid ==> Remaining(r.0.left) < Remaining(z.left)
  {
    var l := Next(z.left, zl);
    var r := Next(z.right, zr);
    var next := ZipIter(l.next, r.next);
    if !l.out.valid || !r.out.valid then (next, DoneElem(Pair(zl, zr)))
    else
      var err := Join(l.out.elem.err, r.out.elem.err);
      if err.Some? then (next, ErrElem(Pair(zl, zr), err.value))
      else (next, ValElem(Pair(l.out.elem.val, r.out.elem.val)))
  }

  /** Calls `Zip`'s `Next()` until it answers invalid. */
  function ZipDrain<L, R>(z: ZipIter<L, R>, zl: L, zr: R): (d: (seq<Elem<Pair<L, R>>>, ZipIter<L, R>))
    decreases Remaining(z.left)
  {
    var (next, out) := ZipNext(z, zl, zr);
    if !out.valid then ([], next)
    else
      var (es, rest) := ZipDrain(next, zl, zr);
      ([out.elem] + es, rest)
  }

  /** What `Zip` hands out for one pair of input elements: the pair of
      values when neither has an error, otherwise an element holding only
      the joined errors. */
  function Zipped<L, R>(l: Elem<L>, r: Elem<R>, zl: L, zr: R): Elem<Pair<L, R>> {
    var err := Join(l.err, r.err);
    if err.Some? then Elem(Pair(zl, zr), err) else Elem(Pair(l.val, r.val), None)
  }

  /** `Zip` hands out one element per position both inputs reach, as
      `Zipped` says, and ends as soon as either input ends; the longer input
      still loses the element after that position, which `Zip` fetched and
      dropped. */
  ghost predicate ZipTraced<L, R>(z: ZipIter<L, R>, zl: L, zr: R) {
    var l := Drain(z.left, zl).elems;
    var r := Drain(z.right, zr).elems;
    var (es, rest) := ZipDrain(z, zl, zr);
    && |es| == (if |l| < |r| then |l| else |r|)
    && (forall i | 0 <= i < |es| :: es[i] == Zipped(l[i], r[i], zl, zr))
    && (|l| > |r| ==> Drain(rest.left, zl).elems == l[|r| + 1..])
    && (|r| > |l| ==> Drain(rest.right, zr).elems == r[|l| + 1..])
    && (|l| <= |r| ==> Drain(rest.left, zl).elems == [])
    && (|r| <= |l| ==> Drain(rest.right, zr).elems == [])
  }

  /** What `ZipTraced` says holds of every pair of iterators. */
  lemma {:induction false} ZipTrace<L, R>(z: ZipIter<L, R>, zl: L, zr: R)
    ensures ZipTraced(z, zl, zr)
    decreases Remaining(z.left)
  {
    var ls := Next(z.left, zl);
    var rs := Next(z.right, zr);
    if ls.out.valid && rs.out.valid {
      ZipTrace(ZipIter(ls.next, rs.next), zl, zr);
      ZipTraceStep(z, zl, zr);
    } else {
      ZipTraceEnd(z, zl, zr);
    }
  }

  /** The step of `ZipTrace` when both inputs hand out an element. */
  lemma ZipTraceStep<L, R>(z: ZipIter<L, R>, zl: L, zr: R)
    requires Next(z.left, zl).out.valid && Next(z.right, zr).out.valid
    requires ZipTraced(ZipIter(Next(z.left, zl).next, Next(z.right, zr).next), zl, zr)
    ensures ZipTraced(z, zl, zr)
  {
    var ls := Next(z.left, zl);
    var rs := Next(z.right, zr);
    var z' := ZipIter(ls.next, rs.next);
    var l := Drain(z.left, zl).elems;
    var r := Drain(z.right, zr).elems;
    var l' := Drain(ls.next, zl).elems;
    var r' := Drain(rs.next, zr).elems;
    assert |l| > 0 && l[0] == ls.out.elem && l[1..] == l' by {
      DrainStep(z.left, zl);
    }
    assert |r| > 0 && r[0] == rs.out.elem && r[1..] == r' by {
      DrainStep(z.right, zr);
    }
    var (es', rest) := ZipDrain(z', zl, zr);
    var (es, rest0) := ZipDrain(z, zl, zr);
    assert ZipNext(z, zl, zr) == (z', Pulled(Zipped(l[0], r[0], zl, zr), true));
    assert es == [Zipped(l[0], r[0], zl, zr)] + es' && rest0 == rest;
    if |l| > |r| {
      assert l[|r| + 1..] == l'[|r'| + 1..];
    }
    if |r| > |l| {
      assert r[|l| + 1..] == r'[|l'| + 1..];
    }
  }

  /** The end of `ZipTrace`: one input answers invalid. */
  lemma ZipTraceEnd<L, R>(z: ZipIter<L, R>, zl: L, zr: R)
    requires !Next(z.left, zl).out.valid || !Next(z.right, zr).out.valid
    ensures ZipTraced(z, zl, zr)
  {
    var ls := Next(z.left, zl);
    var rs := Next(z.right, zr);
    DrainStep(z.left, zl);
    DrainStep(z.right, zr);
    InvalidIsFinal(z.left, zl);
    InvalidIsFinal(z.right, zr);
    DrainStep(ls.next, zl);
    DrainStep(rs.next, zr);
    assert ZipDrain(z, zl, zr) == ([], ZipIter(ls.next, rs.next));
  }

  /** Once `Zip` has answered invalid, it keeps answering invalid. */
  lemma ZipInvalidIsFinal<L, R>(z: ZipIter<L, R>, zl: L, zr: R)
    ensures var r := ZipNext(z, zl, zr); !r.1.valid ==> !ZipNext(r.0, zl, zr).1.valid
  {
    InvalidIsFinal(z.left, zl);
    InvalidIsFinal(z.right, zr);
  }

  /** After `Zip` has answered invalid, each further call still answers
      invalid but calls both inputs: an input with elements left loses its
      next one, so the longer input keeps being drained. */
  lemma ZipKeepsDraining<L, R>(z: ZipIter<L, R>, zl: L, zr: R)
    requires !ZipNext(z, zl, zr).1.valid
    ensures var z1 := ZipNext(z, zl, zr).0;
            var z2 := ZipNext(z1, zl, zr);
            var l := Drain(z1.left, zl).elems;
            var r := Drain(z1.right, zr).elems;
            && !z2.1.valid
            && Drain(z2.0.left, zl).elems == (if |l| == 0 then [] else l[1..])
            && Drain(z2.0.right, zr).elems == (if |r| == 0 then [] else r[1..])
  {
    var z1 := ZipNext(z, zl, zr).0;
    ZipInvalidIsFinal(z, zl, zr);
    DrainStep(z1.left, zl);
    DrainStep(z1.right, zr);
    InvalidIsFinal(z1.left, zl);
    InvalidIsFinal(z1.right, zr);
    DrainStep(Next(z1.left, zl).next, zl);
    DrainStep(Next(z1.right, zr).next, zr);
  }
}
