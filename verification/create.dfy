/**
  create.go: the closure sources. `Slice` walks a slice; `Entries`, `Keys`
  and `Values` copy a map into a slice, in the order Go's `range` visits it,
  and walk that copy.
 */
module Create {
  import opened Types
  import opened Helpers
  import FuncIter

  /** `Slice(elements)`: the closure before its first call. */
  function Slice<T>(elems: seq<T>): (p: FuncIter.Func<T>)
    ensures FuncIter.Remaining(p) == |elems| && !FuncIter.Exhausted(p)
  {
    FuncIter.SliceSource(elems, 0)
  }

  /** The closure state after `k` calls. */
  function After<T>(p: FuncIter.Func<T>, k: nat, zero: T): FuncIter.Func<T>
    decreases k
  {
    if k == 0 then p else After(FuncIter.Call(p, zero).next, k - 1, zero)
  }

  /** Each call of the slice closure moves its index one step on. */
  lemma {:induction false} SliceAfter<T>(elems: seq<T>, k: nat, j: nat, zero: T)
    ensures After(FuncIter.SliceSource(elems, j), k, zero) == FuncIter.SliceSource(elems, j + k)
    decreases k
  {
    if k > 0 {
      SliceAfter(elems, k - 1, j + 1, zero);
    }
  }

  /** Call `k` of `Slice(s)` returns `(s[k], true, nil)` while `k < |s|`, and
      `(zero, false, nil)` from then on, leaving the closure exhausted; an
      empty slice is exhausted by its first call. */
  lemma {:induction false} SliceNthCall<T>(elems: seq<T>, k: nat, zero: T)
    ensures var r := FuncIter.Call(After(Slice(elems), k, zero), zero);
            && (k < |elems| ==> r.out == Value(elems[k], None))
            && (k >= |elems| ==> r.out == Done(zero, None) && FuncIter.Exhausted(r.next))
  {
    SliceAfter(elems, k, 0, zero);
  }

  /** Draining `Slice(s)` yields the elements of `s` in order, without
      errors, and ends with a nil error. */
  lemma {:induction false} SliceTrace<T>(elems: seq<T>, zero: T)
    ensures FuncIter.Drain(Slice(elems), zero) == FuncIter.Trace(FuncIter.Clean(elems), None)
  {
    SliceTraceFrom(elems, 0, zero);
    assert elems[0..] == elems;
  }

  /** Draining the slice closure after `j` calls yields `s[j..]`. */
  lemma {:induction false} SliceTraceFrom<T>(elems: seq<T>, j: nat, zero: T)
    requires j <= |elems|
    ensures FuncIter.Drain(FuncIter.SliceSource(elems, j), zero) == FuncIter.Trace(FuncIter.Clean(elems[j..]), None)
    decreases |elems| - j
  {
    FuncIter.DrainStep(FuncIter.SliceSource(elems, j), zero);
    if j < |elems| {
      SliceTraceFrom(elems, j + 1, zero);
      assert elems[j + 1..] == elems[j..][1..];
    }
  }

  /** `Entries(m)`: the run time's visiting order of the map is `order`. */
  function Entries<K, V>(m: map<K, V>, order: seq<K>): FuncIter.Func<MapEntry<K, V>>
    requires Enumerates(order, m)
  {
    Slice(EntriesIn(m, order))
  }

  /** `Keys(m)`. */
  function Keys<K, V>(m: map<K, V>, order: seq<K>): FuncIter.Func<K>
    requires Enumerates(order, m)
  {
    Slice(order)
  }

  /** `Values(m)`. */
  function Values<K, V>(m: map<K, V>, order: seq<K>): FuncIter.Func<V>
    requires Enumerates(order, m)
  {
    Slice(seq(|order|, i requires 0 <= i < |order| && order[i] in m => m[order[i]]))
  }

  /** Whatever order the run time picks, `Entries(m)` produces each entry of
      the map exactly once, key with its own value, without errors, and then
      ends with a nil error. */
  lemma {:induction false} EntriesOnce<K, V>(m: map<K, V>, order: seq<K>, zero: MapEntry<K, V>)
    requires Enumerates(order, m)
    ensures var t := FuncIter.Drain(Entries(m, order), zero);
            && t.endErr.None?
            && |t.items| == |m|
            && (forall i | 0 <= i < |t.items| :: t.items[i].err.None? && t.items[i].value.key in m && t.items[i].value.value == m[t.items[i].value.key])
            && (forall i, j | 0 <= i < j < |t.items| :: t.items[i].value.key != t.items[j].value.key)
            && (forall k | k in m :: exists i | 0 <= i < |t.items| :: t.items[i].value.key == k)
  {
    var es := EntriesIn(m, order);
    SliceTrace(es, zero);
    EntriesEnumerate(m, order);
    CleanEntries(m, es);
  }

  /** Entries listed once each stay listed once each when handed out
      without errors. */
  lemma CleanEntries<K, V>(m: map<K, V>, es: seq<MapEntry<K, V>>)
    requires |es| == |m|
    requires forall i | 0 <= i < |es| :: es[i].key in m && es[i].value == m[es[i].key]
    requires forall i, j | 0 <= i < j < |es| :: es[i].key != es[j].key
    requires forall k | k in m :: exists i | 0 <= i < |es| :: es[i].key == k
    ensures var items := FuncIter.Clean(es);
            && |items| == |m|
            && (forall i | 0 <= i < |items| :: items[i].err.None? && items[i].value.key in m && items[i].value.value == m[items[i].value.key])
            && (forall i, j | 0 <= i < j < |items| :: items[i].value.key != items[j].value.key)
            && (forall k | k in m :: exists i | 0 <= i < |items| :: items[i].value.key == k)
  {
    var items := FuncIter.Clean(es);
    forall k | k in m ensures exists i | 0 <= i < |items| :: items[i].value.key == k {
      var i :| 0 <= i < |es| && es[i].key == k;
      assert items[i].value == es[i];
    }
  }

  /** Whatever order the run time picks for the loop in `Keys`, `Keys(m)`
      produces each key of the map exactly once, without errors, `|m|` items
      in all, and then ends with a nil error. The loops of `Keys`, `Values`
      and `Entries` each pick their own order. */
  lemma {:induction false} KeysOnce<K, V>(m: map<K, V>, order: seq<K>, zero: K)
    requires Enumerates(order, m)
    ensures var t := FuncIter.Drain(Keys(m, order), zero);
            && t.endErr.None?
            && |t.items| == |m|
            && (forall i | 0 <= i < |t.items| :: t.items[i].err.None? && t.items[i].value in m)
            && (forall i, j | 0 <= i < j < |t.items| :: t.items[i].value != t.items[j].value)
            && (forall k | k in m :: exists i | 0 <= i < |t.items| :: t.items[i].value == k)
  {
    SliceTrace(order, zero);
    EnumerationLength(order, m);
    var items := FuncIter.Clean(order);
    forall k | k in m ensures exists i | 0 <= i < |items| :: items[i].value == k {
      var i :| 0 <= i < |order| && order[i] == k;
      assert items[i].value == k;
    }
  }

  /** Whatever order the run time picks for the loop in `Values`, `Values(m)`
      produces the value the map holds for each key, one key after another in
      that order, without errors, `|m|` items in all, and then ends with a nil
      error; every value of the map is among them. */
  lemma {:induction false} ValuesOnce<K, V>(m: map<K, V>, order: seq<K>, zero: V)
    requires Enumerates(order, m)
    ensures var t := FuncIter.Drain(Values(m, order), zero);
            && t.endErr.None?
            && |t.items| == |m| == |order|
            && (forall i | 0 <= i < |t.items| :: t.items[i] == Ret(m[order[i]], None))
            && (forall k | k in m :: exists i | 0 <= i < |t.items| :: t.items[i].value == m[k])
  {
    var vs := seq(|order|, i requires 0 <= i < |order| && order[i] in m => m[order[i]]);
    SliceTrace(vs, zero);
    EnumerationLength(order, m);
    var items := FuncIter.Clean(vs);
    forall k | k in m ensures exists i | 0 <= i < |items| :: items[i].value == m[k] {
      var i :| 0 <= i < |order| && order[i] == k;
      assert items[i].value == m[k];
    }
  }
}
