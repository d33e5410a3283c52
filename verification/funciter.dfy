/**
  The closure generation (iter.go). A `Func[T]` is a stateful Go closure;
  here it is the closure's captured state, and `Call` is one call of it,
  returning the produced triple together with the state the next call sees.

  Sources are the slice closure of create.go and `Producer`, which stands for
  any caller-written closure that keeps the package's contract: it returns a
  fixed list of values and errors, then `false` with a final error, then
  `false` with a nil error forever. The other constructors are the
  sequential `Func` methods, each holding its source and the variables its
  closure captures.
 */
module FuncIter {
  import opened Types
  import opened Lists
  import opened Helpers

  /** The state captured by a `Func[T]` closure. */
  datatype Func<!T> =
    | SliceSource(elems: seq<T>, calls: nat)
    | Producer(items: seq<Ret<T>>, endErr: Option<Error>, calls: nat)
    | Apply(src: Func<T>, op: Mapper<T, T>)
    | DropN(src: Func<T>, n: int, count: nat)
    | Drop(src: Func<T>, f: Predicate<T>, dropDone: bool)
    | TakeN(src: Func<T>, n: int, count: nat, takeDone: bool)
    | Take(src: Func<T>, f: Predicate<T>, done: bool)
    | Where(src: Func<T>, f: Predicate<T>)

  /** One call: the triple it returns and the closure state afterwards. */
  datatype Stepped<!T> = Stepped(next: Func<T>, out: Produced<T>)

  /** How many closures are stacked on top of the source. */
  function Depth<T>(p: Func<T>): nat {
    match p
    case SliceSource(_, _) => 0
    case Producer(_, _, _) => 0
    case Apply(src, _) => 1 + Depth(src)
    case DropN(src, _, _) => 1 + Depth(src)
    case Drop(src, _, _) => 1 + Depth(src)
    case TakeN(src, _, _, _) => 1 + Depth(src)
    case Take(src, _, _) => 1 + Depth(src)
    case Where(src, _) => 1 + Depth(src)
  }

  /** How many more values the underlying source can produce. */
  function Remaining<T>(p: Func<T>): nat {
    match p
    case SliceSource(elems, calls) => if calls < |elems| then |elems| - calls else 0
    case Producer(items, _, calls) => if calls < |items| then |items| - calls else 0
    case Apply(src, _) => Remaining(src)
    case DropN(src, _, _) => Remaining(src)
    case Drop(src, _, _) => Remaining(src)
    case TakeN(src, _, _, _) => Remaining(src)
    case Take(src, _, _) => Remaining(src)
    case Where(src, _) => Remaining(src)
  }

  /** One call of the closure; `zero` is the zero value of `T`. Every call
      keeps the stack of closures as it is, and a call that produces a value
      consumes at least one value of the underlying source. */
  function Call<T>(p: Func<T>, zero: T): (r: Stepped<T>)
    ensures Depth(r.next) == Depth(p)
    ensures Remaining(r.next) <= Remaining(p)
    ensures r.out.more ==> Remaining(r.next) < Remaining(p)
    decreases Depth(p), 0
  {
    match p
    case SliceSource(elems, calls) =>
      if calls < |elems| then Stepped(SliceSource(elems, calls + 1), Value(elems[calls], None))
      else Stepped(SliceSource(elems, calls + 1), Done(zero, None))
    case Producer(items, endErr, calls) =>
      if calls < |items| then Stepped(Producer(items, endErr, calls + 1), Value(items[calls].value, items[calls].err))
      else if calls == |items| then Stepped(Producer(items, endErr, calls + 1), Done(zero, endErr))
      else Stepped(p, Done(zero, None))
    case Apply(src, op) =>
      var s := Call(src, zero);
      if !s.out.more then Stepped(Apply(s.next, op), Done(zero, s.out.err))
      else if s.out.err.Some? then Stepped(Apply(s.next, op), Value(s.out.value, s.out.err))
      else
        var r := op(s.out.value);
        Stepped(Apply(s.next, op), Value(r.value, r.err))
    case DropN(src, n, count) => DropNLoop(src, n, count, zero)
    case Drop(src, f, dropDone) => DropLoop(src, f, dropDone, zero)
    case TakeN(src, n, count, takeDone) =>
      if takeDone then Stepped(p, Done(zero, None))
      else if count >= n then Stepped(TakeN(src, n, count, true), Done(zero, None))
      else
        var s := Call(src, zero);
        if !s.out.more then Stepped(TakeN(s.next, n, count, true), Done(zero, s.out.err))
        else Stepped(TakeN(s.next, n, count + 1, false), s.out)
    case Take(src, f, done) =>
      if done then Stepped(p, Done(zero, None))
      else
        var s := Call(src, zero);
        if !s.out.more then Stepped(Take(s.next, f, true), Done(zero, None))
        else
          // Go reuses `err` for the predicate's error, so the source's
          // error on this value is replaced.
          var t := f(s.out.value);
          if t.err.Some? then Stepped(Take(s.next, f, false), Value(s.out.value, t.err))
          else if !t.value then Stepped(Take(s.next, f, true), Done(zero, None))
          else Stepped(Take(s.next, f, false), Value(s.out.value, None))
    case Where(src, f) => WhereLoop(src, f, zero)
  }

  /** The `for` loop of the `DropN` closure. */
  function DropNLoop<T>(src: Func<T>, n: int, count: nat, zero: T): (r: Stepped<T>)
    ensures r.next.DropN? && r.next.n == n
    ensures Depth(r.next.src) == Depth(src) && Remaining(r.next.src) <= Remaining(src)
    ensures r.out.more ==> Remaining(r.next.src) < Remaining(src)
    decreases Depth(src), 1, Remaining(src)
  {
    var s := Call(src, zero);
    if !s.out.more then Stepped(DropN(s.next, n, count), Done(zero, s.out.err))
    else if count >= n then Stepped(DropN(s.next, n, count), s.out)
    else DropNLoop(s.next, n, count + 1, zero)
  }

  /** The `for` loop of the `Drop` closure. */
  function DropLoop<T>(src: Func<T>, f: Predicate<T>, dropDone: bool, zero: T): (r: Stepped<T>)
    ensures r.next.Drop? && r.next.f == f
    ensures Depth(r.next.src) == Depth(src) && Remaining(r.next.src) <= Remaining(src)
    ensures r.out.more ==> Remaining(r.next.src) < Remaining(src)
    decreases Depth(src), 1, Remaining(src)
  {
    var s := Call(src, zero);
    if !s.out.more then Stepped(Drop(s.next, f, dropDone), Done(zero, s.out.err))
    else if dropDone then Stepped(Drop(s.next, f, true), Value(s.out.value, s.out.err))
    else
      // The predicate's error replaces the source's error here too.
      var d := f(s.out.value);
      if d.err.Some? then Stepped(Drop(s.next, f, false), Value(s.out.value, d.err))
      else if d.value then DropLoop(s.next, f, false, zero)
      else Stepped(Drop(s.next, f, true), Value(s.out.value, None))
  }

  /** The `for` loop of the `Where` closure. */
  function WhereLoop<T>(src: Func<T>, f: Predicate<T>, zero: T): (r: Stepped<T>)
    ensures r.next.Where? && r.next.f == f
    ensures Depth(r.next.src) == Depth(src) && Remaining(r.next.src) <= Remaining(src)
    ensures r.out.more ==> Remaining(r.next.src) < Remaining(src)
    decreases Depth(src), 1, Remaining(src)
  {
    var s := Call(src, zero);
    if !s.out.more then Stepped(Where(s.next, f), Done(zero, s.out.err))
    else if s.out.err.Some? then Stepped(Where(s.next, f), Value(s.out.value, s.out.err))
    else
      var k := f(s.out.value);
      if k.err.Some? then Stepped(Where(s.next, f), Value(s.out.value, k.err))
      else if k.value then Stepped(Where(s.next, f), Value(s.out.value, None))
      else WhereLoop(s.next, f, zero)
  }

  // The contract of iter.go: once a `Func` has returned `false`, every later
  // call returns `false` with a nil error.

  /** The closure has already returned `false`. */
  predicate Exhausted<T>(p: Func<T>) {
    match p
    case SliceSource(elems, calls) => calls > |elems|
    case Producer(items, _, calls) => calls > |items|
    case Apply(src, _) => Exhausted(src)
    case DropN(src, _, _) => Exhausted(src)
    case Drop(src, _, _) => Exhausted(src)
    case TakeN(_, _, _, takeDone) => takeDone
    case Take(_, _, done) => done
    case Where(src, _) => Exhausted(src)
  }

  /** An exhausted closure returns `(zero, false, nil)` and stays exhausted. */
  lemma {:induction false} ExhaustionIsSticky<T>(p: Func<T>, zero: T)
    requires Exhausted(p)
    ensures Call(p, zero).out == Done(zero, None)
    ensures Exhausted(Call(p, zero).next)
    decreases Depth(p)
  {
    match p
    case SliceSource(_, _) =>
    case Producer(_, _, _) =>
    case Apply(src, _) => ExhaustionIsSticky(src, zero);
    case DropN(src, _, _) => ExhaustionIsSticky(src, zero);
    case Drop(src, _, _) => ExhaustionIsSticky(src, zero);
    case TakeN(_, _, _, _) =>
    case Take(_, _, _) =>
    case Where(src, _) => ExhaustionIsSticky(src, zero);
  }

  /** Every combinator keeps the contract: a call that returns `false` leaves
      the closure exhausted, so from then on it only returns
      `(zero, false, nil)`. */
  lemma {:induction false} FalseIsFinal<T>(p: Func<T>, zero: T)
    ensures !Call(p, zero).out.more ==> Exhausted(Call(p, zero).next)
    decreases Depth(p), 0
  {
    match p
    case SliceSource(_, _) =>
    case Producer(_, _, _) =>
    case Apply(src, _) => FalseIsFinal(src, zero);
    case DropN(src, n, count) => DropNLoopFalseIsFinal(src, n, count, zero);
    case Drop(src, f, dropDone) => DropLoopFalseIsFinal(src, f, dropDone, zero);
    case TakeN(_, _, _, _) =>
    case Take(_, _, _) =>
    case Where(src, f) => WhereLoopFalseIsFinal(src, f, zero);
  }

  lemma {:induction false} DropNLoopFalseIsFinal<T>(src: Func<T>, n: int, count: nat, zero: T)
    ensures var r := DropNLoop(src, n, count, zero); !r.out.more ==> Exhausted(r.next.src)
    decreases Depth(src), 1, Remaining(src)
  {
    FalseIsFinal(src, zero);
    var s := Call(src, zero);
    if s.out.more && count < n {
      DropNLoopFalseIsFinal(s.next, n, count + 1, zero);
    }
  }

  lemma {:induction false} DropLoopFalseIsFinal<T>(src: Func<T>, f: Predicate<T>, dropDone: bool, zero: T)
    ensures var r := DropLoop(src, f, dropDone, zero); !r.out.more ==> Exhausted(r.next.src)
    decreases Depth(src), 1, Remaining(src)
  {
    FalseIsFinal(src, zero);
    var s := Call(src, zero);
    if s.out.more && !dropDone && f(s.out.value).err.None? && f(s.out.value).value {
      DropLoopFalseIsFinal(s.next, f, false, zero);
    }
  }

  lemma {:induction false} WhereLoopFalseIsFinal<T>(src: Func<T>, f: Predicate<T>, zero: T)
    ensures var r := WhereLoop(src, f, zero); !r.out.more ==> Exhausted(r.next.src)
    decreases Depth(src), 1, Remaining(src)
  {
    FalseIsFinal(src, zero);
    var s := Call(src, zero);
    if s.out.more && s.out.err.None? && f(s.out.value).err.None? && !f(s.out.value).value {
      WhereLoopFalseIsFinal(s.next, f, zero);
    }
  }

  // Draining a closure: what a caller sees by calling it until it returns
  // `false`.

  /** Every value produced with its error, then the error returned with
      `false`. */
  datatype Trace<!T> = Trace(items: seq<Ret<T>>, endErr: Option<Error>)

  /** Calls the closure until it returns `false`. */
  function Drain<T>(p: Func<T>, zero: T): (t: Trace<T>)
    ensures |t.items| <= Remaining(p)
    decreases Remaining(p)
  {
    var s := Call(p, zero);
    if !s.out.more then Trace([], s.out.err)
    else
      var rest := Drain(s.next, zero);
      Trace([Ret(s.out.value, s.out.err)] + rest.items, rest.endErr)
  }

  /** One call of the drained closure: a call returning `false` ends the
      trace with its error, a call returning a value puts it in front. */
  lemma DrainStep<T>(p: Func<T>, zero: T)
    ensures var s := Call(p, zero);
            var t := Drain(p, zero);
            && (!s.out.more ==> t == Trace([], s.out.err))
            && (s.out.more ==> |t.items| > 0 && t.items[0] == Ret(s.out.value, s.out.err)
                               && t.items[1..] == Drain(s.next, zero).items && t.endErr == Drain(s.next, zero).endErr)
  {
  }

  /** Two closures whose next call behaves the same drain the same. */
  lemma DrainByCall<T>(p: Func<T>, q: Func<T>, zero: T)
    requires Call(p, zero) == Call(q, zero)
    ensures Drain(p, zero) == Drain(q, zero)
  {
  }

  /** The values of a list of produced items. */
  function ValuesOf<T>(items: seq<Ret<T>>): (vs: seq<T>)
  {
    seq(|items|, i requires 0 <= i < |items| => items[i].value)
  }

  /** Values produced without an error. */
  function Clean<T>(vs: seq<T>): (items: seq<Ret<T>>)
    ensures |items| == |vs| && forall i | 0 <= i < |vs| :: items[i] == Ret(vs[i], None)
  {
    seq(|vs|, i requires 0 <= i < |vs| => Ret(vs[i], None))
  }

  /** The position of the first item that carries an error, or `|items|`. */
  function FirstError<T>(items: seq<Ret<T>>): (i: nat)
    ensures i <= |items|
    ensures forall k | 0 <= k < i :: items[k].err.None?
    ensures i < |items| ==> items[i].err.Some?
    decreases |items|
  {
    if |items| == 0 then 0
    else if items[0].err.Some? then 0
    else 1 + FirstError(items[1..])
  }

  /** A caller-written closure that keeps the contract produces exactly its
      list of items, then `false` with its final error. */
  lemma {:induction false} ProducerTrace<T>(items: seq<Ret<T>>, endErr: Option<Error>, calls: nat, zero: T)
    requires calls <= |items|
    ensures Drain(Producer(items, endErr, calls), zero) == Trace(items[calls..], endErr)
    decreases |items| - calls
  {
    if calls < |items| {
      ProducerTrace(items, endErr, calls + 1, zero);
      assert items[calls..] == [items[calls]] + items[calls + 1..];
    }
  }

  // The trace each combinator produces, against a reference definition over
  // the source's trace.

  /** Source errors pass through with their value and without calling `op`;
      every other value is replaced by `op`'s result and error. */
  function ApplyItems<T>(items: seq<Ret<T>>, op: Mapper<T, T>): (r: seq<Ret<T>>)
    ensures |r| == |items|
    ensures forall i | 0 <= i < |items| ::
      r[i] == (if items[i].err.Some? then items[i] else op(items[i].value))
  {
    seq(|items|, i requires 0 <= i < |items| => if items[i].err.Some? then items[i] else op(items[i].value))
  }

  /** `Apply(op)` maps every item of the source as `ApplyItems` says, and
      forwards the source's final error. */
  lemma {:induction false} ApplyTrace<T>(src: Func<T>, op: Mapper<T, T>, zero: T)
    ensures var t := Drain(src, zero);
            Drain(Apply(src, op), zero) == Trace(ApplyItems(t.items, op), t.endErr)
    decreases Remaining(src)
  {
    var s := Call(src, zero);
    if s.out.more {
      ApplyTrace(s.next, op, zero);
      ApplyTraceStep(src, op, zero);
    } else {
      ApplyDrainStep(src, op, zero);
      DrainStep(src, zero);
    }
  }

  /** One call of a drained `Apply`. */
  lemma ApplyDrainStep<T>(src: Func<T>, op: Mapper<T, T>, zero: T)
    ensures var s := Call(src, zero);
            var d := Drain(Apply(src, op), zero);
            var rest := Drain(Apply(s.next, op), zero);
            var item := Ret(s.out.value, s.out.err);
            && (!s.out.more ==> d == Trace([], s.out.err))
            && (s.out.more ==> d == Trace([if item.err.Some? then item else op(item.value)] + rest.items, rest.endErr))
  {
    var s := Call(src, zero);
    var p := Apply(src, op);
    if !s.out.more {
      assert Call(p, zero) == Stepped(Apply(s.next, op), Done(zero, s.out.err));
    } else if s.out.err.Some? {
      assert Call(p, zero) == Stepped(Apply(s.next, op), Value(s.out.value, s.out.err));
    } else {
      assert Call(p, zero) == Stepped(Apply(s.next, op), Value(op(s.out.value).value, op(s.out.value).err));
    }
    DrainStep(p, zero);
  }

  /** The step of `ApplyTrace` for a produced source value. */
  lemma ApplyTraceStep<T>(src: Func<T>, op: Mapper<T, T>, zero: T)
    requires Call(src, zero).out.more
    requires var rest := Drain(Call(src, zero).next, zero);
             Drain(Apply(Call(src, zero).next, op), zero) == Trace(ApplyItems(rest.items, op), rest.endErr)
    ensures var t := Drain(src, zero);
            Drain(Apply(src, op), zero) == Trace(ApplyItems(t.items, op), t.endErr)
  {
    var t := Drain(src, zero);
    ApplyDrainStep(src, op, zero);
    DrainStep(src, zero);
    ApplyItemsCons(t.items, op);
  }

  /** Mapping a non-empty list is mapping its head, then its tail. */
  lemma ApplyItemsCons<T>(items: seq<Ret<T>>, op: Mapper<T, T>)
    requires |items| > 0
    ensures ApplyItems(items, op) == [if items[0].err.Some? then items[0] else op(items[0].value)] + ApplyItems(items[1..], op)
  {
  }

  /** `DropN(n)` produces the source's items after its first `n` (none for a
      non-positive `n`), then the source's final error. */
  lemma {:induction false} DropNTrace<T>(src: Func<T>, n: int, count: nat, zero: T)
    ensures var t := Drain(src, zero);
            Drain(DropN(src, n, count), zero) == Trace(t.items[Clamp(n - count, |t.items|)..], t.endErr)
    decreases Remaining(src)
  {
    var s := Call(src, zero);
    if s.out.more {
      var count' := if count >= n then count else count + 1;
      DropNTrace(s.next, n, count', zero);
      DropNTraceStep(src, n, count, zero);
    } else {
      DropNDrainStep(src, n, count, zero);
      DrainStep(src, zero);
    }
  }

  /** One call of a drained `DropN`: the source's end passes through, a
      value after the first `n` is produced, one among them is skipped. */
  lemma DropNDrainStep<T>(src: Func<T>, n: int, count: nat, zero: T)
    ensures var s := Call(src, zero);
            var d := Drain(DropN(src, n, count), zero);
            && (!s.out.more ==> d == Trace([], s.out.err))
            && (s.out.more && count >= n ==>
                  d == Trace([Ret(s.out.value, s.out.err)] + Drain(DropN(s.next, n, count), zero).items,
                             Drain(DropN(s.next, n, count), zero).endErr))
            && (s.out.more && count < n ==> d == Drain(DropN(s.next, n, count + 1), zero))
  {
    var s := Call(src, zero);
    var p := DropN(src, n, count);
    if !s.out.more {
      assert Call(p, zero) == Stepped(DropN(s.next, n, count), Done(zero, s.out.err));
      DrainStep(p, zero);
    } else if count >= n {
      assert Call(p, zero) == Stepped(DropN(s.next, n, count), s.out);
      DrainStep(p, zero);
    } else {
      assert Call(p, zero) == Call(DropN(s.next, n, count + 1), zero);
      DrainByCall(p, DropN(s.next, n, count + 1), zero);
    }
  }

  /** The step of `DropNTrace` for a produced source value. */
  lemma DropNTraceStep<T>(src: Func<T>, n: int, count: nat, zero: T)
    requires Call(src, zero).out.more
    requires var s := Call(src, zero);
             var count' := if count >= n then count else count + 1;
             var rest := Drain(s.next, zero);
             Drain(DropN(s.next, n, count'), zero) == Trace(rest.items[Clamp(n - count', |rest.items|)..], rest.endErr)
    ensures var t := Drain(src, zero);
            Drain(DropN(src, n, count), zero) == Trace(t.items[Clamp(n - count, |t.items|)..], t.endErr)
  {
    var s := Call(src, zero);
    var t := Drain(src, zero);
    var rest := Drain(s.next, zero);
    DropNDrainStep(src, n, count, zero);
    DrainStep(src, zero);
    SuffixCons(t.items, Clamp(n - count, |t.items|));
  }

  /** A suffix of a non-empty list: all of it is the head and the tail;
      a later one is a suffix of the tail. */
  lemma SuffixCons<X>(xs: seq<X>, k: nat)
    requires 0 < |xs| && k <= |xs|
    ensures k == 0 ==> xs[k..] == [xs[0]] + xs[1..]
    ensures k > 0 ==> xs[k..] == xs[1..][k - 1..]
  {
  }

  /** What `Drop(f)` produces while it is still dropping: an item `f` accepts
      is dropped; one on which `f` fails is produced with `f`'s error; the
      first one `f` rejects is produced with a nil error and ends the dropping
      phase, after which every item passes unchanged. */
  function DropItems<T>(items: seq<Ret<T>>, f: Predicate<T>): (r: seq<Ret<T>>)
    ensures |r| <= |items|
    decreases |items|
  {
    if |items| == 0 then []
    else
      var d := f(items[0].value);
      if d.err.Some? then [Ret(items[0].value, d.err)] + DropItems(items[1..], f)
      else if d.value then DropItems(items[1..], f)
      else [Ret(items[0].value, None)] + items[1..]
  }

  /** `Drop(f)` produces the source's items as `DropItems` says, then the
      source's final error; once it has stopped dropping it is the source. */
  lemma {:induction false} DropTrace<T>(src: Func<T>, f: Predicate<T>, dropDone: bool, zero: T)
    ensures var t := Drain(src, zero);
            Drain(Drop(src, f, dropDone), zero) == Trace(if dropDone then t.items else DropItems(t.items, f), t.endErr)
    decreases Remaining(src)
  {
    var s := Call(src, zero);
    var t := Drain(src, zero);
    DrainStep(src, zero);
    DrainStep(Drop(src, f, dropDone), zero);
    if s.out.more {
      var rest := Drain(s.next, zero);
      assert t.items == [t.items[0]] + rest.items;
      var d := f(s.out.value);
      if dropDone || d.err.Some? {
        DropTrace(s.next, f, dropDone, zero);
      } else if d.value {
        DropTrace(s.next, f, false, zero);
        DrainByCall(Drop(src, f, false), Drop(s.next, f, false), zero);
      } else {
        DropTrace(s.next, f, true, zero);
      }
    }
  }

  /** With a predicate that never fails on a clean source, `Drop` removes the
      longest prefix of accepted values and produces the rest unchanged. */
  lemma {:induction false} DropItemsSkipsPrefix<T>(vs: seq<T>, f: Predicate<T>)
    requires forall i | 0 <= i < |vs| :: f(vs[i]).err.None?
    ensures DropItems(Clean(vs), f) == Clean(vs[FirstFails(vs, f)..])
    decreases |vs|
  {
    if |vs| > 0 {
      assert Clean(vs)[1..] == Clean(vs[1..]);
      if f(vs[0]).value {
        DropItemsSkipsPrefix(vs[1..], f);
        assert vs[1..][FirstFails(vs[1..], f)..] == vs[FirstFails(vs, f)..];
      } else {
        assert Clean(vs) == [Ret(vs[0], None)] + Clean(vs[1..]);
      }
    }
  }

  /** `TakeN(n)` produces the source's first `n` items (none for a
      non-positive `n`). It forwards the source's final error only when the
      source ran out before `n` items. */
  lemma {:induction false} TakeNTrace<T>(src: Func<T>, n: int, count: nat, zero: T)
    ensures var t := Drain(src, zero);
            Drain(TakeN(src, n, count, false), zero)
              == Trace(t.items[..Clamp(n - count, |t.items|)], if n - count > |t.items| then t.endErr else None)
    decreases Remaining(src)
  {
    if count < n {
      var s := Call(src, zero);
      if s.out.more {
        TakeNTrace(s.next, n, count + 1, zero);
        TakeNTraceStep(src, n, count, zero);
      } else {
        TakeNDrainStep(src, n, count, zero);
        DrainStep(src, zero);
      }
    } else {
      assert Call(TakeN(src, n, count, false), zero).out == Done(zero, None);
    }
  }

  /** The step of `TakeNTrace` for a produced source value. */
  lemma TakeNTraceStep<T>(src: Func<T>, n: int, count: nat, zero: T)
    requires count < n && Call(src, zero).out.more
    requires var rest := Drain(Call(src, zero).next, zero);
             Drain(TakeN(Call(src, zero).next, n, count + 1, false), zero)
               == Trace(rest.items[..Clamp(n - (count + 1), |rest.items|)], if n - (count + 1) > |rest.items| then rest.endErr else None)
    ensures var t := Drain(src, zero);
            Drain(TakeN(src, n, count, false), zero)
              == Trace(t.items[..Clamp(n - count, |t.items|)], if n - count > |t.items| then t.endErr else None)
  {
    var t := Drain(src, zero);
    TakeNDrainStep(src, n, count, zero);
    DrainStep(src, zero);
    PrefixCons(t.items, Clamp(n - count, |t.items|));
  }

  /** One call of a drained `TakeN` that has not reached its count. */
  lemma TakeNDrainStep<T>(src: Func<T>, n: int, count: nat, zero: T)
    requires count < n
    ensures var s := Call(src, zero);
            var d := Drain(TakeN(src, n, count, false), zero);
            var rest := Drain(TakeN(s.next, n, count + 1, false), zero);
            && (!s.out.more ==> d == Trace([], s.out.err))
            && (s.out.more ==> d == Trace([Ret(s.out.value, s.out.err)] + rest.items, rest.endErr))
  {
    var s := Call(src, zero);
    var p := TakeN(src, n, count, false);
    if s.out.more {
      assert Call(p, zero) == Stepped(TakeN(s.next, n, count + 1, false), s.out);
    } else {
      assert Call(p, zero) == Stepped(TakeN(s.next, n, count, true), Done(zero, s.out.err));
    }
    DrainStep(p, zero);
  }

  /** After its `n`-th value, `TakeN` ends without calling its source again. */
  lemma TakeNStopsPulling<T>(src: Func<T>, n: int, count: nat, takeDone: bool, zero: T)
    requires count >= n || takeDone
    ensures var r := Call(TakeN(src, n, count, takeDone), zero);
            r.out == Done(zero, None) && r.next.src == src && r.next.takeDone
  {
  }

  /** What `Take(f)` produces: each item `f` accepts, with a nil error; each
      item on which `f` fails, with `f`'s error; nothing from the first item
      `f` rejects on. */
  function TakeItems<T>(items: seq<Ret<T>>, f: Predicate<T>): (r: seq<Ret<T>>)
    ensures |r| <= |items|
    decreases |items|
  {
    if |items| == 0 then []
    else
      var t := f(items[0].value);
      if t.err.Some? then [Ret(items[0].value, t.err)] + TakeItems(items[1..], f)
      else if !t.value then []
      else [Ret(items[0].value, None)] + TakeItems(items[1..], f)
  }

  /** `Take(f)` produces the items `TakeItems` says and then ends with a nil
      error, whatever the source's final error. */
  lemma {:induction false} TakeTrace<T>(src: Func<T>, f: Predicate<T>, zero: T)
    ensures Drain(Take(src, f, false), zero) == Trace(TakeItems(Drain(src, zero).items, f), None)
    decreases Remaining(src)
  {
    var s := Call(src, zero);
    if s.out.more {
      TakeTrace(s.next, f, zero);
      TakeTraceStep(src, f, zero);
    } else {
      TakeDrainStep(src, f, zero);
      DrainStep(src, zero);
    }
  }

  /** One call of a drained `Take` that has not ended. */
  lemma TakeDrainStep<T>(src: Func<T>, f: Predicate<T>, zero: T)
    ensures var s := Call(src, zero);
            var d := Drain(Take(src, f, false), zero);
            var rest := Drain(Take(s.next, f, false), zero);
            && (!s.out.more ==> d == Trace([], None))
            && (s.out.more && f(s.out.value).err.Some? ==>
                  d == Trace([Ret(s.out.value, f(s.out.value).err)] + rest.items, rest.endErr))
            && (s.out.more && Fails(f(s.out.value)) ==> d == Trace([], None))
            && (s.out.more && Holds(f(s.out.value)) ==> d == Trace([Ret(s.out.value, None)] + rest.items, rest.endErr))
  {
    var s := Call(src, zero);
    var p := Take(src, f, false);
    if !s.out.more {
      assert Call(p, zero) == Stepped(Take(s.next, f, true), Done(zero, None));
    } else if f(s.out.value).err.Some? {
      assert Call(p, zero) == Stepped(Take(s.next, f, false), Value(s.out.value, f(s.out.value).err));
    } else if !f(s.out.value).value {
      assert Call(p, zero) == Stepped(Take(s.next, f, true), Done(zero, None));
    } else {
      assert Call(p, zero) == Stepped(Take(s.next, f, false), Value(s.out.value, None));
    }
    DrainStep(p, zero);
  }

  /** The step of `TakeTrace` for a produced source value. */
  lemma TakeTraceStep<T>(src: Func<T>, f: Predicate<T>, zero: T)
    requires Call(src, zero).out.more
    requires var s := Call(src, zero);
             Drain(Take(s.next, f, false), zero) == Trace(TakeItems(Drain(s.next, zero).items, f), None)
    ensures Drain(Take(src, f, false), zero) == Trace(TakeItems(Drain(src, zero).items, f), None)
  {
    TakeDrainStep(src, f, zero);
    DrainStep(src, zero);
  }

  /** Every value `Take` produces without an error passes the predicate. */
  lemma {:induction false} TakeItemsPass<T>(items: seq<Ret<T>>, f: Predicate<T>)
    ensures forall i | 0 <= i < |TakeItems(items, f)| ::
      TakeItems(items, f)[i].err.None? ==> Holds(f(TakeItems(items, f)[i].value))
    decreases |items|
  {
    if |items| > 0 {
      TakeItemsPass(items[1..], f);
    }
  }

  /** With a predicate that never fails, `Take` produces the longest prefix of
      accepted values, all with nil errors. */
  lemma {:induction false} TakeItemsPrefix<T>(items: seq<Ret<T>>, f: Predicate<T>)
    requires forall i | 0 <= i < |items| :: f(items[i].value).err.None?
    ensures TakeItems(items, f) == Clean(ValuesOf(items)[..FirstFails(ValuesOf(items), f)])
    decreases |items|
  {
    if |items| > 0 {
      TakeItemsPrefix(items[1..], f);
      assert ValuesOf(items)[1..] == ValuesOf(items[1..]);
    }
  }

  /** What `Where(f)` produces: source errors pass with their value; an item
      on which `f` fails is produced with `f`'s error; an item `f` accepts is
      produced with a nil error; the others are dropped. */
  function WhereItems<T>(items: seq<Ret<T>>, f: Predicate<T>): (r: seq<Ret<T>>)
    ensures |r| <= |items|
    decreases |items|
  {
    if |items| == 0 then []
    else if items[0].err.Some? then [items[0]] + WhereItems(items[1..], f)
    else
      var k := f(items[0].value);
      if k.err.Some? then [Ret(items[0].value, k.err)] + WhereItems(items[1..], f)
      else if k.value then [Ret(items[0].value, None)] + WhereItems(items[1..], f)
      else WhereItems(items[1..], f)
  }

  /** `Where(f)` produces the items `WhereItems` says, then the source's
      final error. */
  lemma {:induction false} WhereTrace<T>(src: Func<T>, f: Predicate<T>, zero: T)
    ensures var t := Drain(src, zero);
            Drain(Where(src, f), zero) == Trace(WhereItems(t.items, f), t.endErr)
    decreases Remaining(src)
  {
    var s := Call(src, zero);
    var t := Drain(src, zero);
    DrainStep(src, zero);
    DrainStep(Where(src, f), zero);
    if s.out.more {
      var rest := Drain(s.next, zero);
      assert t.items == [t.items[0]] + rest.items;
      WhereTrace(s.next, f, zero);
      if s.out.err.None? && f(s.out.value).err.None? && !f(s.out.value).value {
        DrainByCall(Where(src, f), Where(s.next, f), zero);
      }
    }
  }

  /** Without errors, `Where` produces exactly the accepted values, in order. */
  lemma {:induction false} WhereItemsFilter<T>(vs: seq<T>, f: Predicate<T>)
    requires forall i | 0 <= i < |vs| :: f(vs[i]).err.None?
    ensures WhereItems(Clean(vs), f) == Clean(Accepted(vs, f))
    decreases |vs|
  {
    if |vs| > 0 {
      assert Clean(vs)[1..] == Clean(vs[1..]);
      WhereItemsFilter(vs[1..], f);
    }
  }

  // The two terminal methods.

  /** The loop of `Coalesce`, with the accumulator and index so far. */
  function CoalesceLoop<T>(p: Func<T>, c: Reducer<T, T>, acc: T, index: nat, zero: T): Ret<T>
    decreases Remaining(p)
  {
    var s := Call(p, zero);
    if s.out.err.Some? then Ret(acc, Some(AtIndex(CoalesceIterator, index, s.out.err.value)))
    else if !s.out.more then Ret(acc, None)
    else
      var r := c(acc, s.out.value);
      if r.err.Some? then Ret(r.value, Some(AtIndex(CoalesceFunction, index, r.err.value)))
      else CoalesceLoop(s.next, c, r.value, index + 1, zero)
  }

  /** `p.Coalesce(c)`: folds from the zero value. */
  function Coalesce<T>(p: Func<T>, c: Reducer<T, T>, zero: T): Ret<T> {
    CoalesceLoop(p, c, zero, 0, zero)
  }

  /** `Coalesce`'s loop read off the trace it drains: it stops at the first
      error, of the source or of the reducer. */
  function CoalesceItems<T>(items: seq<Ret<T>>, endErr: Option<Error>, c: Reducer<T, T>, acc: T, index: nat): Ret<T>
    decreases |items|
  {
    if |items| == 0 then
      if endErr.Some? then Ret(acc, Some(AtIndex(CoalesceIterator, index, endErr.value))) else Ret(acc, None)
    else if items[0].err.Some? then Ret(acc, Some(AtIndex(CoalesceIterator, index, items[0].err.value)))
    else
      var r := c(acc, items[0].value);
      if r.err.Some? then Ret(r.value, Some(AtIndex(CoalesceFunction, index, r.err.value)))
      else CoalesceItems(items[1..], endErr, c, r.value, index + 1)
  }

  /** The loop over a closure is the loop over what draining it produces. */
  lemma {:induction false} CoalesceLoopTrace<T>(p: Func<T>, c: Reducer<T, T>, acc: T, index: nat, zero: T)
    ensures var t := Drain(p, zero);
            CoalesceLoop(p, c, acc, index, zero) == CoalesceItems(t.items, t.endErr, c, acc, index)
    decreases Remaining(p)
  {
    DrainStep(p, zero);
    var s := Call(p, zero);
    if s.out.more && s.out.err.None? && c(acc, s.out.value).err.None? {
      CoalesceLoopTrace(s.next, c, c(acc, s.out.value).value, index + 1, zero);
    }
  }

  /** `CoalesceSourceErrors` on a drained trace, from any accumulator and
      index. */
  lemma {:induction false} CoalesceItemsSourceErrors<T>(items: seq<Ret<T>>, endErr: Option<Error>, c: Reducer<T, T>, acc: T, index: nat)
    requires forall a, v :: c(a, v).err.None?
    ensures var i := FirstError(items);
            var vs := ValuesOf(items);
            var r := CoalesceItems(items, endErr, c, acc, index);
            && (i < |items| ==>
                  r == Ret(FoldLeft(Combine(c), acc, vs[..i]), Some(AtIndex(CoalesceIterator, index + i, items[i].err.value))))
            && (i == |items| && endErr.Some? ==>
                  r == Ret(FoldLeft(Combine(c), acc, vs), Some(AtIndex(CoalesceIterator, index + i, endErr.value))))
            && (i == |items| && endErr.None? ==>
                  r == Ret(FoldLeft(Combine(c), acc, vs), None))
    decreases |items|
  {
    if |items| > 0 && items[0].err.None? {
      var vs := ValuesOf(items);
      CoalesceItemsSourceErrors(items[1..], endErr, c, c(acc, items[0].value).value, index + 1);
      assert vs[1..] == ValuesOf(items[1..]);
      var i := FirstError(items[1..]);
      assert vs[..1 + i][1..] == ValuesOf(items[1..])[..i];
    }
  }

  /** With a reducer that never fails, `Coalesce` folds the values up to the
      first error of the source and returns that fold with the error, tagged
      with its index; with no source error it returns the fold of every value
      and a nil error. */
  lemma {:induction false} CoalesceSourceErrors<T>(p: Func<T>, c: Reducer<T, T>, zero: T)
    requires forall a, v :: c(a, v).err.None?
    ensures var t := Drain(p, zero);
            var i := FirstError(t.items);
            var vs := ValuesOf(t.items);
            && (i < |t.items| ==>
                  Coalesce(p, c, zero) == Ret(FoldLeft(Combine(c), zero, vs[..i]), Some(AtIndex(CoalesceIterator, i, t.items[i].err.value))))
            && (i == |t.items| && t.endErr.Some? ==>
                  Coalesce(p, c, zero) == Ret(FoldLeft(Combine(c), zero, vs), Some(AtIndex(CoalesceIterator, i, t.endErr.value))))
            && (i == |t.items| && t.endErr.None? ==>
                  Coalesce(p, c, zero) == Ret(FoldLeft(Combine(c), zero, vs), None))
  {
    var t := Drain(p, zero);
    var r := Coalesce(p, c, zero);
    assert r == CoalesceItems(t.items, t.endErr, c, zero, 0) by {
      CoalesceLoopTrace(p, c, zero, 0, zero);
    }
    var i := FirstError(t.items);
    var vs := ValuesOf(t.items);
    CoalesceItemsSourceErrors(t.items, t.endErr, c, zero, 0);
    if i < |t.items| {
      assert r == Ret(FoldLeft(Combine(c), zero, vs[..i]), Some(AtIndex(CoalesceIterator, i, t.items[i].err.value)));
    } else if t.endErr.Some? {
      assert r == Ret(FoldLeft(Combine(c), zero, vs), Some(AtIndex(CoalesceIterator, i, t.endErr.value)));
    } else {
      assert r == Ret(FoldLeft(Combine(c), zero, vs), None);
    }
  }

  /** The fold of a reducer that may fail over clean values: it stops at the
      first failure, keeping the accumulator the reducer returned with the
      error, tagged with its index. */
  function FoldUntilFailure<T>(vs: seq<T>, c: Reducer<T, T>, acc: T, index: nat): Ret<T>
    decreases |vs|
  {
    if |vs| == 0 then Ret(acc, None)
    else
      var r := c(acc, vs[0]);
      if r.err.Some? then Ret(r.value, Some(AtIndex(CoalesceFunction, index, r.err.value)))
      else FoldUntilFailure(vs[1..], c, r.value, index + 1)
  }

  /** On a source without errors, `Coalesce` is the fold that stops at the
      reducer's first failure. */
  lemma {:induction false} CoalesceReducerErrors<T>(p: Func<T>, c: Reducer<T, T>, zero: T)
    requires var t := Drain(p, zero); FirstError(t.items) == |t.items| && t.endErr.None?
    ensures Coalesce(p, c, zero) == FoldUntilFailure(ValuesOf(Drain(p, zero).items), c, zero, 0)
  {
    var t := Drain(p, zero);
    CoalesceLoopTrace(p, c, zero, 0, zero);
    CoalesceItemsReducerErrors(t.items, c, zero, 0);
  }

  /** `CoalesceReducerErrors` on a drained trace, from any accumulator and
      index. */
  lemma {:induction false} CoalesceItemsReducerErrors<T>(items: seq<Ret<T>>, c: Reducer<T, T>, acc: T, index: nat)
    requires FirstError(items) == |items|
    ensures CoalesceItems(items, None, c, acc, index) == FoldUntilFailure(ValuesOf(items), c, acc, index)
    decreases |items|
  {
    if |items| > 0 {
      assert items[0].err.None?;
      assert ValuesOf(items)[1..] == ValuesOf(items[1..]);
      CoalesceItemsReducerErrors(items[1..], c, c(acc, items[0].value).value, index + 1);
    }
  }

  /** With a reducer that never fails, stopping at the first failure is the
      plain left fold. */
  lemma {:induction false} FoldUntilFailureFolds<T>(vs: seq<T>, c: Reducer<T, T>, acc: T, index: nat)
    requires forall a, v :: c(a, v).err.None?
    ensures FoldUntilFailure(vs, c, acc, index) == Ret(FoldLeft(Combine(c), acc, vs), None)
    decreases |vs|
  {
    if |vs| > 0 {
      FoldUntilFailureFolds(vs[1..], c, c(acc, vs[0]).value, index + 1);
    }
  }

  /** The loop of `Slice`, with the values collected so far. */
  function SliceLoop<T>(p: Func<T>, values: seq<T>, zero: T): Ret<seq<T>>
    decreases Remaining(p)
  {
    var s := Call(p, zero);
    if s.out.err.Some? then Ret(values, Some(AtIndex(SliceIterator, |values|, s.out.err.value)))
    else if !s.out.more then Ret(values, None)
    else SliceLoop(s.next, values + [s.out.value], zero)
  }

  /** `p.Slice()`. */
  function Slice<T>(p: Func<T>, zero: T): Ret<seq<T>> {
    SliceLoop(p, [], zero)
  }

  /** `Slice`'s loop read off the trace it drains. */
  function SliceItems<T>(items: seq<Ret<T>>, endErr: Option<Error>, values: seq<T>): Ret<seq<T>>
    decreases |items|
  {
    if |items| == 0 then
      if endErr.Some? then Ret(values, Some(AtIndex(SliceIterator, |values|, endErr.value))) else Ret(values, None)
    else if items[0].err.Some? then Ret(values, Some(AtIndex(SliceIterator, |values|, items[0].err.value)))
    else SliceItems(items[1..], endErr, values + [items[0].value])
  }

  /** The loop over a closure is the loop over what draining it produces. */
  lemma {:induction false} SliceLoopTrace<T>(p: Func<T>, values: seq<T>, zero: T)
    ensures var t := Drain(p, zero); SliceLoop(p, values, zero) == SliceItems(t.items, t.endErr, values)
    decreases Remaining(p)
  {
    DrainStep(p, zero);
    var s := Call(p, zero);
    if s.out.more && s.out.err.None? {
      SliceLoopTrace(s.next, values + [s.out.value], zero);
    }
  }

  /** `SliceCollects` on a drained trace, after `values` were collected. */
  lemma {:induction false} SliceItemsCollect<T>(items: seq<Ret<T>>, endErr: Option<Error>, values: seq<T>)
    ensures var i := FirstError(items);
            var r := SliceItems(items, endErr, values);
            && (i < |items| ==> r == Ret(values + ValuesOf(items[..i]), Some(AtIndex(SliceIterator, |values| + i, items[i].err.value))))
            && (i == |items| && endErr.Some? ==> r == Ret(values + ValuesOf(items), Some(AtIndex(SliceIterator, |values| + i, endErr.value))))
            && (i == |items| && endErr.None? ==> r == Ret(values + ValuesOf(items), None))
    decreases |items|
  {
    if |items| == 0 {
      assert values + ValuesOf(items) == values;
    } else if items[0].err.Some? {
      assert values + ValuesOf(items[..0]) == values;
    } else {
      var tail := items[1..];
      var values' := values + [items[0].value];
      assert SliceItems(items, endErr, values) == SliceItems(tail, endErr, values');
      SliceItemsCollect(tail, endErr, values');
      var i := FirstError(tail);
      assert FirstError(items) == 1 + i;
      if i < |tail| {
        ValuesOfCons(items, 1 + i);
        assert values' + ValuesOf(tail[..i]) == values + ValuesOf(items[..1 + i]);
      } else {
        ValuesOfCons(items, |items|);
        assert items[..|items|] == items;
        assert tail[..i] == tail;
        assert values' + ValuesOf(tail) == values + ValuesOf(items);
      }
    }
  }

  /** Taking values commutes with splitting off the first item. */
  lemma ValuesOfCons<T>(items: seq<Ret<T>>, k: nat)
    requires 1 <= k <= |items|
    ensures ValuesOf(items[..k]) == [items[0].value] + ValuesOf(items[1..][..k - 1])
  {
    assert ValuesOf(items[..k]) == [items[0].value] + ValuesOf(items[1..][..k - 1]);
  }

  /** `Slice` returns every value in order when the source reports no error;
      otherwise it returns the values before the first error together with
      that error, tagged with the number of values collected. */
  lemma {:induction false} SliceCollects<T>(p: Func<T>, zero: T)
    ensures var t := Drain(p, zero);
            var i := FirstError(t.items);
            var vs := ValuesOf(t.items);
            && (i < |t.items| ==> Slice(p, zero) == Ret(vs[..i], Some(AtIndex(SliceIterator, i, t.items[i].err.value))))
            && (i == |t.items| && t.endErr.Some? ==> Slice(p, zero) == Ret(vs, Some(AtIndex(SliceIterator, i, t.endErr.value))))
            && (i == |t.items| && t.endErr.None? ==> Slice(p, zero) == Ret(vs, None))
  {
    var t := Drain(p, zero);
    SliceLoopTrace(p, [], zero);
    SliceItemsCollect(t.items, t.endErr, []);
    var vs := ValuesOf(t.items);
    var i := FirstError(t.items);
    assert [] + vs == vs;
    assert [] + ValuesOf(t.items[..i]) == vs[..i];
  }
}
