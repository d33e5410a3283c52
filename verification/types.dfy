/**
  The value types shared by all three iterator generations of the library:
  Go's `error`, optional values, the `(R, error)` pairs returned by
  caller-supplied mappers, predicates and reducers, and the `Pair` and
  `MapEntry` records that some combinators produce.
 */
module Types {

  /** Go's `error` interface, as an abstract value. Errors raised by code the
      model cannot see are `Raised`; the library itself only ever joins errors
      or wraps them with the index at which they were met. */
  datatype Error =
    | Raised(code: nat)
    | Joined(errs: seq<Error>)
    | AtIndex(op: Op, index: nat, cause: Error)

  /** The operations that wrap an error together with an index. */
  datatype Op = CoalesceIterator | CoalesceFunction | SliceIterator

  /** A nil-able value: Go's nil error or nil callback is `None`. */
  datatype Option<+T> = None | Some(value: T)

  /** A Go `(R, error)` return pair. A non-nil `err` makes `value` meaningless
      to most callers, but the pair still carries it. */
  datatype Ret<+R> = Ret(value: R, err: Option<Error>)

  /** `Mapper[T, R]`: transforms one value into another, possibly failing. */
  type Mapper<!T, +R> = T -> Ret<R>

  /** `Predicate[T]`: a test that may fail; its boolean is ignored on failure. */
  type Predicate<!T> = T -> Ret<bool>

  /** `Reducer[T, R]`: folds one more value into an aggregate. */
  type Reducer<!T, !R> = (R, T) -> Ret<R>

  /** `Pair[L, R]`: two values that go together. */
  datatype Pair<+L, +R> = Pair(left: L, right: R)

  /** `MapEntry[K, V]`: one key-value association of a map. */
  datatype MapEntry<+K, +V> = MapEntry(key: K, value: V)

  /** A predicate or mapper result that counts as success: no error. */
  predicate Succeeded<R>(r: Ret<R>) {
    r.err.None?
  }

  /** A predicate result that keeps its value: `(true, nil)`. */
  predicate Holds(r: Ret<bool>) {
    r.err.None? && r.value
  }

  /** A predicate result that rejects its value: `(false, nil)`. */
  predicate Fails(r: Ret<bool>) {
    r.err.None? && !r.value
  }

  /** The order in which Go's `range` over a map visits the keys is chosen
      at run time. A model of that choice is any sequence that lists every
      key of the map exactly once. */
  ghost predicate Enumerates<K, V>(order: seq<K>, m: map<K, V>) {
    && (forall i, j | 0 <= i < j < |order| :: order[i] != order[j])
    && (forall i | 0 <= i < |order| :: order[i] in m)
    && (forall k | k in m :: k in order)
  }

  /** An enumeration of a map's keys has exactly one position per entry. */
  lemma {:induction false} EnumerationLength<K, V>(order: seq<K>, m: map<K, V>)
    requires Enumerates(order, m)
    ensures |order| == |m|
  {
    DistinctSetSize(order);
    assert (set k | k in order) == m.Keys;
  }

  /** The set of a duplicate-free sequence has as many members as the sequence. */
  lemma {:induction false} DistinctSetSize<K>(order: seq<K>)
    requires forall i, j | 0 <= i < j < |order| :: order[i] != order[j]
    ensures |set k | k in order| == |order|
  {
    if |order| > 0 {
      var init := order[..|order| - 1];
      var last := order[|order| - 1];
      DistinctSetSize(init);
      assert last !in init by {
        forall i | 0 <= i < |init| ensures init[i] != last {
          assert init[i] == order[i];
        }
      }
      assert (set k | k in order) == (set k | k in init) + {last} by {
        forall k ensures k in order <==> k in init || k == last {
          if k in order {
            var i :| 0 <= i < |order| && order[i] == k;
            if i < |order| - 1 { assert init[i] == k; }
          }
          if k in init {
            var i :| 0 <= i < |init| && init[i] == k;
            assert order[i] == k;
          }
        }
      }
    }
  }

  /** The entries of `m` in the order `order` visits its keys. */
  function EntriesIn<K, V>(m: map<K, V>, order: seq<K>): (es: seq<MapEntry<K, V>>)
    requires forall i | 0 <= i < |order| :: order[i] in m
    ensures |es| == |order|
    ensures forall i | 0 <= i < |es| :: es[i].key == order[i] && es[i].value == m[order[i]]
    decreases |order|
  {
    if |order| == 0 then [] else [MapEntry(order[0], m[order[0]])] + EntriesIn(m, order[1..])
  }

  /** Visiting a map in any enumeration of its keys lists each entry exactly
      once: as many entries as the map has, every key present once, every
      value the one the map holds for its key. */
  lemma {:induction false} EntriesEnumerate<K, V>(m: map<K, V>, order: seq<K>)
    requires Enumerates(order, m)
    ensures var es := EntriesIn(m, order);
            && |es| == |m|
            && (forall i | 0 <= i < |es| :: es[i].key in m && es[i].value == m[es[i].key])
            && (forall i, j | 0 <= i < j < |es| :: es[i].key != es[j].key)
            && (forall k | k in m :: exists i | 0 <= i < |es| :: es[i].key == k)
  {
    EnumerationLength(order, m);
    var es := EntriesIn(m, order);
    forall k | k in m ensures exists i | 0 <= i < |es| :: es[i].key == k {
      assert k in order;
      var i :| 0 <= i < |order| && order[i] == k;
      assert es[i].key == k;
    }
  }
}
