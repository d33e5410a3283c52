/**
  from.go: the sources of the range-over-func generation, over a slice, a
  list of arguments, or a map.
 */
module RangeFrom {
  import opened Types
  import opened RangeIter

  /** `FromSlice(s)`. */
  function FromSlice<T>(s: seq<T>, c: Consumer): Run<T> {
    Drive(Pass(), (), s, c, 0)
  }

  /** `FromSlice(s)` pushes `s` in order; the consumer observes exactly a
      prefix of `s`, ending with the value it refused, and production halts
      there. */
  lemma {:induction false} FromSliceYields<T>(s: seq<T>, c: Consumer)
    ensures var r := FromSlice(s, c);
            && r.out == s[..Seen(c, 0, |s|)]
            && r.pulled == |r.out|
            && (r.stopped <==> c.StopAt? && c.index < |s|)
            && (c.Drain? ==> r.out == s)
  {
    ConsumerSeesPrefix(Pass(), (), s, c, 0);
    PassDrained(s, 0);
    PassPulls(s, c, 0);
  }

  /** A pass-through loop pulls exactly the values it pushes. */
  lemma {:induction false} PassPulls<T>(s: seq<T>, c: Consumer, delivered: nat)
    ensures var r := Drive(Pass(), (), s, c, delivered); r.pulled == |r.out|
    decreases |s|
  {
    if |s| > 0 && Accepts(c, delivered) {
      PassPulls(s[1..], c, delivered + 1);
    }
  }

  /** `FromVals(vs...)` is `FromSlice(vs)`: a draining consumer receives the
      arguments in order. */
  function FromVals<T>(vs: seq<T>, c: Consumer): (r: Run<T>)
    ensures c.Drain? ==> r.out == vs
  {
    PassDrained(vs, 0);
    FromSlice(vs, c)
  }

  /** `FromMap(vals)`: Go ranges over the map in an order chosen at run time,
      given here as `order`. */
  function FromMap<K, V>(m: map<K, V>, order: seq<K>, c: Consumer): Run<MapEntry<K, V>>
    requires Enumerates(order, m)
  {
    Drive(Pass(), (), EntriesIn(m, order), c, 0)
  }

  /** Whatever order the run time picks, a draining consumer receives each
      entry of the map exactly once, key with its own value. */
  lemma {:induction false} FromMapYields<K, V>(m: map<K, V>, order: seq<K>)
    requires Enumerates(order, m)
    ensures var out := FromMap(m, order, Drain).out;
            && |out| == |m|
            && (forall i | 0 <= i < |out| :: out[i].key in m && out[i].value == m[out[i].key])
            && (forall i, j | 0 <= i < j < |out| :: out[i].key != out[j].key)
            && (forall k | k in m :: exists i | 0 <= i < |out| :: out[i].key == k)
  {
    PassDrained(EntriesIn(m, order), 0);
    EntriesEnumerate(m, order);
  }
}
