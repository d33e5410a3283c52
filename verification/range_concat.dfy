/**
  concat.go: `Concat` ranges over each of its iterators in turn.
 */
module RangeConcat {
  import opened Types
  import opened RangeIter

  /** One traversal of a concatenation: the values observed, how many of the
      inputs were started, and whether the consumer stopped it. */
  datatype ConcatRun<T> = ConcatRun(out: seq<T>, started: nat, stopped: bool)

  /** The outer `for _, it := range its` loop; each input is ranged over by
      a pass-through inner loop, and a stop inside it returns from both. */
  function ConcatFrom<T>(its: seq<seq<T>>, c: Consumer, delivered: nat): (r: ConcatRun<T>)
    ensures r.started <= |its|
    ensures r.stopped ==> c.StopAt?
    decreases |its|
  {
    if |its| == 0 then ConcatRun([], 0, false)
    else
      var first := Drive(Pass(), (), its[0], c, delivered);
      if first.stopped then ConcatRun(first.out, 1, true)
      else
        var rest := ConcatFrom(its[1..], c, delivered + |first.out|);
        ConcatRun(first.out + rest.out, 1 + rest.started, rest.stopped)
  }

  /** `Concat(its...)`. */
  function Concat<T>(its: seq<seq<T>>, c: Consumer): ConcatRun<T> {
    ConcatFrom(its, c, 0)
  }

  /** The in-order concatenation of a list of sequences. */
  function Flatten<T>(its: seq<seq<T>>): seq<T>
    decreases |its|
  {
    if |its| == 0 then [] else its[0] + Flatten(its[1..])
  }

  /** An input that a consumer did not stop is pushed entirely. */
  lemma PassUnstopped<T>(s: seq<T>, c: Consumer, delivered: nat)
    requires !Drive(Pass(), (), s, c, delivered).stopped
    ensures Drive(Pass(), (), s, c, delivered).out == s
  {
    ConsumerSeesPrefix(Pass(), (), s, c, delivered);
    PassDrained(s, delivered);
  }

  /** The first `k + 1` inputs flatten to the first input followed by the
      next `k`. */
  lemma FlattenTake<T>(its: seq<seq<T>>, k: nat)
    requires k < |its|
    ensures Flatten(its[..k + 1]) == its[0] + Flatten(its[1..][..k])
  {
    assert its[..k + 1][1..] == its[1..][..k];
  }

  /** Whatever the consumer, it observes a prefix of the concatenation, and
      an unstopped traversal is the whole concatenation over every input. */
  lemma {:induction false} ConcatFromPrefix<T>(its: seq<seq<T>>, c: Consumer, delivered: nat)
    ensures var r := ConcatFrom(its, c, delivered);
            && r.out <= Flatten(its)
            && (!r.stopped ==> r.out == Flatten(its) && r.started == |its|)
    decreases |its|
  {
    if |its| > 0 {
      var first := Drive(Pass(), (), its[0], c, delivered);
      ConsumerSeesPrefix(Pass(), (), its[0], c, delivered);
      PassDrained(its[0], delivered);
      if !first.stopped {
        ConcatFromPrefix(its[1..], c, delivered + |first.out|);
      }
    }
  }

  /** When the consumer stops, the stop falls inside the last input started:
      the inputs before it were pushed in full, and no later input is ever
      started. */
  lemma {:induction false} ConcatStopsInside<T>(its: seq<seq<T>>, c: Consumer, delivered: nat)
    requires ConcatFrom(its, c, delivered).stopped
    ensures var r := ConcatFrom(its, c, delivered);
            1 <= r.started && |Flatten(its[..r.started - 1])| < |r.out| <= |Flatten(its[..r.started])|
    decreases |its|
  {
    var first := Drive(Pass(), (), its[0], c, delivered);
    FlattenTake(its, 0);
    if !first.stopped {
      PassUnstopped(its[0], c, delivered);
      var rest := ConcatFrom(its[1..], c, delivered + |first.out|);
      ConcatStopsInside(its[1..], c, delivered + |first.out|);
      FlattenTake(its, rest.started);
      FlattenTake(its, rest.started - 1);
    }
  }

  /** `Concat(its...)` with a draining consumer pushes the in-order
      concatenation of all its inputs, starting every one of them. */
  lemma {:induction false} ConcatDrained<T>(its: seq<seq<T>>)
    ensures Concat(its, Drain) == ConcatRun(Flatten(its), |its|, false)
  {
    ConcatFromPrefix(its, Drain, 0);
  }

  /** A single input is reproduced exactly. */
  lemma {:induction false} ConcatSingle<T>(s: seq<T>)
    ensures Concat([s], Drain).out == s
  {
    ConcatDrained([s]);
    assert [s][1..] == [];
    assert s + [] == s;
  }

  /** Empty inputs contribute nothing, wherever they stand. */
  lemma {:induction false} FlattenSkipsEmpty<T>(a: seq<seq<T>>, b: seq<seq<T>>)
    ensures Flatten(a + [[]] + b) == Flatten(a + b)
    decreases |a|
  {
    if |a| == 0 {
      assert a + [[]] + b == [[]] + b;
      assert ([[]] + b)[1..] == b;
      assert a + b == b;
    } else {
      assert (a + [[]] + b)[1..] == a[1..] + [[]] + b;
      assert (a + b)[1..] == a[1..] + b;
      FlattenSkipsEmpty(a[1..], b);
    }
  }
}
