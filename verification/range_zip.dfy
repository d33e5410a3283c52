/**
  zip.go: `Zip` pulls both inputs in lockstep and pairs their values,
  filling the side that has run out with its type's zero value, until both
  have run out.
 */
module RangeZip {
  import opened Types
  import opened RangeIter

  /** One traversal of a zip: the pairs observed, how many values were pulled
      from each side, and whether the consumer stopped it (which also stops
      both pulled inputs). */
  datatype ZipRun<L, R> = ZipRun(out: seq<Pair<L, R>>, leftPulled: nat, rightPulled: nat, stopped: bool)

  /** What a pull from an input yields on its `i`-th call: its `i`-th value,
      or the zero value once it is exhausted. */
  function At<T>(s: seq<T>, i: nat, zero: T): T {
    if i < |s| then s[i] else zero
  }

  function Max(a: nat, b: nat): nat { if a < b then b else a }
  function Min(a: nat, b: nat): nat { if a < b then a else b }

  /** The `for` loop from its `i`-th iteration on. */
  function ZipFrom<L, R>(left: seq<L>, right: seq<R>, zl: L, zr: R, c: Consumer, i: nat): (r: ZipRun<L, R>)
    decreases Max(|left|, |right|) - i
  {
    if i >= |left| && i >= |right| then ZipRun([], |left|, |right|, false)
    else
      var p := Pair(At(left, i, zl), At(right, i, zr));
      if !Accepts(c, i) then ZipRun([p], Min(i + 1, |left|), Min(i + 1, |right|), true)
      else
        var rest := ZipFrom(left, right, zl, zr, c, i + 1);
        ZipRun([p] + rest.out, rest.leftPulled, rest.rightPulled, rest.stopped)
  }

  /** `Zip(left, right)`; `zl` and `zr` are the zero values of the two
      element types. */
  function Zip<L, R>(left: seq<L>, right: seq<R>, zl: L, zr: R, c: Consumer): ZipRun<L, R> {
    ZipFrom(left, right, zl, zr, c, 0)
  }

  /** From iteration `i` on, a draining consumer gets one pair per remaining
      position of the longer input. */
  lemma {:induction false} ZipFromDrained<L, R>(left: seq<L>, right: seq<R>, zl: L, zr: R, i: nat)
    requires i <= Max(|left|, |right|)
    ensures var r := ZipFrom(left, right, zl, zr, Drain, i);
            && |r.out| == Max(|left|, |right|) - i
            && (forall k | 0 <= k < |r.out| :: r.out[k] == Pair(At(left, i + k, zl), At(right, i + k, zr)))
            && r.leftPulled == |left| && r.rightPulled == |right| && !r.stopped
    decreases Max(|left|, |right|) - i
  {
    if i < Max(|left|, |right|) {
      ZipFromDrained(left, right, zl, zr, i + 1);
    }
  }

  /** `Zip(left, right)` yields `max(|left|, |right|)` pairs; pair `i` holds
      `left[i]` and `right[i]`, with the zero value standing in on the side
      that has run out; both inputs are pulled to the end. */
  lemma {:induction false} ZipDrained<L, R>(left: seq<L>, right: seq<R>, zl: L, zr: R)
    ensures var r := Zip(left, right, zl, zr, Drain);
            && |r.out| == Max(|left|, |right|)
            && (forall i | 0 <= i < |r.out| :: r.out[i] == Pair(At(left, i, zl), At(right, i, zr)))
            && r.leftPulled == |left| && r.rightPulled == |right| && !r.stopped
  {
    ZipFromDrained(left, right, zl, zr, 0);
  }

  /** Equal-length inputs zip pointwise (and two empty inputs give nothing). */
  lemma {:induction false} ZipEqualLengths<L, R>(left: seq<L>, right: seq<R>, zl: L, zr: R)
    requires |left| == |right|
    ensures var r := Zip(left, right, zl, zr, Drain);
            |r.out| == |left| && forall i | 0 <= i < |left| :: r.out[i] == Pair(left[i], right[i])
  {
    ZipDrained(left, right, zl, zr);
  }

  /** A consumer that refuses pair `k` (one that exists) sees the pairs up to
      and including `k` and stops the loop: neither input is pulled beyond
      position `k`. */
  lemma {:induction false} ZipFromStops<L, R>(left: seq<L>, right: seq<R>, zl: L, zr: R, k: nat, i: nat)
    requires i <= k < Max(|left|, |right|)
    ensures var r := ZipFrom(left, right, zl, zr, StopAt(k), i);
            && r.stopped
            && |r.out| == k + 1 - i
            && (forall j | 0 <= j < |r.out| :: r.out[j] == Pair(At(left, i + j, zl), At(right, i + j, zr)))
            && r.leftPulled == Min(k + 1, |left|) && r.rightPulled == Min(k + 1, |right|)
    decreases k - i
  {
    if i < k {
      ZipFromStops(left, right, zl, zr, k, i + 1);
    }
  }

  /** `Zip` under a consumer that stops at pair `k`. */
  lemma {:induction false} ZipStops<L, R>(left: seq<L>, right: seq<R>, zl: L, zr: R, k: nat)
    requires k < Max(|left|, |right|)
    ensures |Zip(left, right, zl, zr, Drain).out| == Max(|left|, |right|)
    ensures var r := Zip(left, right, zl, zr, StopAt(k));
            && r.stopped
            && r.out == Zip(left, right, zl, zr, Drain).out[..k + 1]
            && r.leftPulled == Min(k + 1, |left|) && r.rightPulled == Min(k + 1, |right|)
  {
    ZipFromStops(left, right, zl, zr, k, 0);
    ZipDrained(left, right, zl, zr);
  }
}
