/**
  Reference definitions over finite sequences that the combinators of all
  three generations are specified against: keeping the values a predicate
  accepts, the first value it rejects, the successes and errors of a mapper,
  a count clamped to a length, and the left fold.
 */
module Lists {
  import opened Types

  /** A Go `int` count `k` applied to a sequence of length `len`: non-positive
      counts select nothing, counts past the end select everything. */
  function Clamp(k: int, len: nat): (r: nat)
    ensures r <= len
  {
    if k <= 0 then 0 else if k >= len then len else k
  }

  /** A non-empty prefix is the head followed by a prefix of the tail. */
  lemma PrefixCons<X>(xs: seq<X>, k: nat)
    requires 0 < k <= |xs|
    ensures xs[..k] == [xs[0]] + xs[1..][..k - 1]
  {
  }

  /** The values of `s` that `f` keeps (`(true, nil)`), in order. */
  function Accepted<T>(s: seq<T>, f: Predicate<T>): (r: seq<T>)
    ensures |r| <= |s|
    ensures forall i | 0 <= i < |r| :: Holds(f(r[i]))
    decreases |s|
  {
    if |s| == 0 then []
    else if Holds(f(s[0])) then [s[0]] + Accepted(s[1..], f)
    else Accepted(s[1..], f)
  }

  /** A value is kept exactly when it occurs in the input and passes. */
  lemma {:induction false} AcceptedMembers<T>(s: seq<T>, f: Predicate<T>)
    ensures forall x :: x in Accepted(s, f) <==> x in s && Holds(f(x))
    decreases |s|
  {
    if |s| > 0 {
      AcceptedMembers(s[1..], f);
      assert forall x :: x in s <==> x == s[0] || x in s[1..];
    }
  }

  /** When every value passes, every value is kept. */
  lemma {:induction false} AcceptedAll<T>(s: seq<T>, f: Predicate<T>)
    requires forall i | 0 <= i < |s| :: Holds(f(s[i]))
    ensures Accepted(s, f) == s
    decreases |s|
  {
    if |s| > 0 {
      AcceptedAll(s[1..], f);
      assert [s[0]] + s[1..] == s;
    }
  }

  /** Keeping values splits over concatenation. */
  lemma {:induction false} AcceptedAppend<T>(a: seq<T>, b: seq<T>, f: Predicate<T>)
    ensures Accepted(a + b, f) == Accepted(a, f) + Accepted(b, f)
    decreases |a|
  {
    if |a| == 0 {
      assert a + b == b;
    } else {
      assert (a + b)[1..] == a[1..] + b;
      AcceptedAppend(a[1..], b, f);
    }
  }

  /** The errors `f` returns over `s`, in order. */
  function ErrorsOf<T, R>(s: seq<T>, f: T -> Ret<R>): seq<Error>
    decreases |s|
  {
    if |s| == 0 then []
    else if f(s[0]).err.Some? then [f(s[0]).err.value] + ErrorsOf(s[1..], f)
    else ErrorsOf(s[1..], f)
  }

  /** The results of `f` over `s` where it succeeds, in order. Every input
      either contributes a result or an error, so with no error every input
      contributes its own result at its own position. */
  function Successes<T, R>(s: seq<T>, f: Mapper<T, R>): (r: seq<R>)
    ensures |r| + |ErrorsOf(s, f)| == |s|
    ensures |ErrorsOf(s, f)| == 0 ==> forall i | 0 <= i < |s| :: r[i] == f(s[i]).value
    decreases |s|
  {
    if |s| == 0 then []
    else if f(s[0]).err.None? then [f(s[0]).value] + Successes(s[1..], f)
    else Successes(s[1..], f)
  }

  /** The position of the first value `f` rejects with `(false, nil)`, or
      `|s|` when there is none. */
  function FirstFails<T>(s: seq<T>, f: Predicate<T>): (j: nat)
    ensures j <= |s|
    ensures forall i | 0 <= i < j :: !Fails(f(s[i]))
    ensures j < |s| ==> Fails(f(s[j]))
    decreases |s|
  {
    if |s| == 0 then 0
    else if Fails(f(s[0])) then 0
    else 1 + FirstFails(s[1..], f)
  }

  /** A reducer as a plain two-argument function, ignoring its error. */
  function Combine<T, A>(f: Reducer<T, A>): (A, T) -> A {
    (a: A, v: T) => f(a, v).value
  }

  /** The left fold of `g` over `s` from `acc`. */
  function FoldLeft<A, T>(g: (A, T) -> A, acc: A, s: seq<T>): A
    decreases |s|
  {
    if |s| == 0 then acc else FoldLeft(g, g(acc, s[0]), s[1..])
  }

  /** Folding one more value at the end is one more step of the fold. */
  lemma {:induction false} FoldLeftSnoc<A, T>(g: (A, T) -> A, acc: A, s: seq<T>, x: T)
    ensures FoldLeft(g, acc, s + [x]) == g(FoldLeft(g, acc, s), x)
    decreases |s|
  {
    if |s| == 0 {
      assert s + [x] == [x];
    } else {
      assert (s + [x])[1..] == s[1..] + [x];
      FoldLeftSnoc(g, g(acc, s[0]), s[1..], x);
    }
  }
}
