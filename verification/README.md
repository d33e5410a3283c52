# funky: a Dafny model of the sequential iterator combinators

This project models the single-consumer part of the Go iterator library
`funky` and proves properties of the model. The library has three API
generations side by side, and each one is its own family of modules here.

- **Push iterators** (`Iter[T] = func(yield func(T) bool)`): `DropN`, `Drop`, `TakeN`,
  `Take`, `Where`, `Map`, `Apply`, `Concat`, `Zip`, `Coalesce`, and the sources
  `FromSlice`, `FromVals` and `FromMap`.
  - A finite iterator is the `seq<T>` of values it pushes.
  - Every combinator is a `for v := range it` loop, so it is modelled as the
    generic loop `RangeIter.Drive` with its own loop body (`Step`).
  - The caller's `yield` is a `Consumer`. `Drain` always answers true;
    `StopAt(i)` answers false at output position `i`.
  - A traversal gives a `Run`: the values the consumer saw, how many source
    values were pulled, the error reports made (as `Configuration.Effect`s),
    and whether the consumer stopped it.
  - The options of `config.go` (`buildConfig`, `With`, `WithName`, `OnError`,
    `WithLogger`, `Config.Error`) are the `Configuration` module.
- **Closure iterators** (`Func[T] = func() (T, bool, error)`): the sequential
  methods of `iter.go`, the sources of `create.go`, and the helpers of `helpers.go`.
  - A closure is the state it captures (`FuncIter.Func`), and `FuncIter.Call` is
    one call of it.
  - `FuncIter.Drain` calls it until it returns `false`. The result is a `Trace`:
    the produced items, then the final error.
  - Every combinator is related to its source by a lemma about the two traces.
- **`Elem`/`*Iter` iterators**: `NoError`, `Take`, `Where`, `While` and `Zip` of
  `shortcuts.go`, `Each`, `Reduce`, the `Count` reducer, and the running-aggregate
  mappers of `appliers.go`.
  - An iterator is the state captured by its `next` closure (`ElemIter.Iter`), and
    `ElemIter.Next` is one call.
  - `ElemIter.Drain` collects the valid elements it hands out.

Shared conventions (module `Types`):

- Go `(R, error)` pairs are `Ret(value, err)`. A nil error is `None`.
- Errors are abstract values. Errors tagged with an index, or joined, are
  built from the errors they wrap.
- Mappers, predicates and reducers supplied by callers are Dafny functions
  returning such pairs.
- Zero values of type parameters are explicit parameters (`zero`).
- The order in which Go ranges over a map is chosen at run time. It is a
  parameter `order`, constrained only to list every key exactly once.
- Go's `int64` addition wraps and its `/` truncates toward zero. Both are written
  out (`Appliers.Wrap64`, `Appliers.GoDiv`).
- `Count`'s `uint64` increment wraps modulo 2^64.

Behaviour notes on the modelled code:

- The push-iterator `Zip` pads the shorter side with zero values until both
  sides run out (zip.go:20-36). The `*Iter` `Zip` ends with the shorter side
  (shortcuts.go:179-184).
- That `*Iter` `Zip` pulls both sides before checking either, so the longer
  side loses one more element, fetched and dropped (shortcuts.go:179-184).
- The push-iterator combinators do not attach a failing mapper's, predicate's
  or reducer's error to an output value. They drop the value and pass the
  error to `Config.Error`, which calls the `OnError` callback (map.go:14-18,
  apply.go:15-19, where.go:16-20, drop.go:46-50, coalesce.go:15-19). The
  push-iterator `Take` skips such values without reporting (take.go:40-43).
- `Func.Drop` and `Func.Take` reuse `err` for the predicate's result
  (iter.go:218, iter.go:277). A source error on a value they pass on is
  therefore replaced by the predicate's result error, which is nil when the
  predicate succeeds (iter.go:219-221, iter.go:278-280). `Func.Take` also
  ends with a nil error when its source runs out, dropping the source's final
  error (iter.go:271-274).
- `shortcuts.go`'s `Zip` builds an error element whenever either side has an
  error. The element holds the joined errors and a pair of zero values
  (shortcuts.go:186-189).

## Model

| member | source | states |
|---|---|---|
| Configuration.Set | config.go:20-44 | `With(c)` copies all three fields of `c`. `WithName`, `OnError` and `WithLogger` each write only their own field and leave the other two as they were |
| Configuration.BuildConfig | config.go:46-53 | with no options the config has an empty name, no error callback and no logger |
| Configuration.LastNameWins | config.go:46-53 | options apply left to right: the name is the one written by the last option that writes a name, or "" when none does |
| Configuration.LastHandlerWins | config.go:46-53 | the error callback is the one written by the last option that writes it, or none |
| Configuration.LastLoggerWins | config.go:46-53 | the logger is the one written by the last option that writes it, or none |
| Configuration.WithCopiesAll | config.go:20-26 | a final `With(c)` makes the built config equal to `c`, whatever came before |
| Configuration.Error | config.go:9-16 | without a callback nothing happens, even with a logger. With a callback, the logger (if any) logs the error under the config's name, and then the callback receives the error exactly once |
| Helpers.Done | helpers.go:16-18 | `Done(err)` is the zero value, `more == false` and `err` unchanged |
| Helpers.Value | helpers.go:20-22 | `Value(v, e)` is `(v, true, e)` |
| Helpers.HelpersCover | helpers.go:16-22 | a triple with `more` set is exactly a `Value`. A triple is a `Done` exactly when `more` is clear and the value is zero. `Done` keeps distinct errors distinct |
| RangeIter.Drive | where.go:14-31 | the shared `for v := range it` loop pulls at most the source, pushes at most one value per pull, and is stopped only by a consumer refusing the last value it was handed |
| RangeIter.ConsumerSeesPrefix | where.go:26-29 | for every loop body and consumer: the consumer sees a prefix of what a draining consumer sees, cut right after the refused value. The run is stopped iff that value exists. An unstopped run equals the draining one. A stopped run pulls and reports no more |
| RangeIter.StoppedRunIgnoresRest | where.go:26-29 | after a consumer stop nothing later in the source is pulled: replacing the rest of the source changes nothing |
| RangeDrop.DropNDrained | drop.go:5-22 | `DropN(s, n)` pushes exactly `s[n..]`: all of `s` for `n <= 0` (so `DropN(s, 0)` is the identity) and nothing for `n >= len(s)`. It pulls the whole source and reports nothing |
| RangeDrop.DropDrained | drop.go:31-64 | `Drop(s, f)` pushes the suffix of `s` from the first value `f` rejects with `(false, nil)`. Every earlier value was accepted or failed the predicate. Each failure is reported once, in order. The whole source is pulled |
| RangeDrop.DropPassing | drop.go:37-44 | once dropping is over, every later value is pushed and the predicate's answers play no part |
| RangeDrop.DropDropping | drop.go:46-61 | while dropping, a predicate error skips the value, reports the error and stays in the dropping phase |
| RangeTake.TakeN | take.go:10-12 | with `n <= 0` nothing is pushed and nothing is pulled |
| RangeTake.TakeNDrained | take.go:5-26 | `TakeN(s, n)` pushes exactly `s[..min(n, len(s))]` and pulls exactly as many values as it pushes, so nothing after the `n`-th |
| RangeTake.TakeDrained | take.go:35-55 | `Take(s, f)` pulls up to and including the first value `f` rejects. Before it, it pushes exactly the values `f` accepts, in order, and silently skips (without ending) values on which `f` fails |
| RangeTake.TakeIsTakeWhile | take.go:39-53 | when `f` never fails, `Take` pushes the longest prefix of accepted values |
| RangeWhere.WhereDrained | where.go:11-32 | `Where(s, f)` pushes the subsequence of values `f` accepts, in order. A value is pushed iff it occurs in `s` and passes. Each predicate error is reported, in order. An empty input gives nothing |
| RangeMap.MapDrained | map.go:9-26 | `Map(s, f)` pushes `f(x)` for each `x` on which `f` succeeds, in order, and reports the other errors in order. Outputs plus errors equal the input length. With no error, output `i` is `f(s[i])` |
| RangeMap.MapStops | map.go:20-23 | a stopping consumer sees a prefix of the mapped values, and no source value after the refused one is pulled or mapped |
| RangeApply.ApplyDrained | apply.go:10-27 | `Apply(s, f)` pushes `f(x)` for each `x` on which `f` succeeds, in order, and reports failures. Output length is at most the input length, with equality and `out[i] == f(s[i])` when `f` never fails |
| RangeApply.ApplyStops | apply.go:21-24 | a consumer stop ends the traversal at once: nothing after the refused value is pulled |
| RangeConcat.ConcatDrained | concat.go:12-23 | `Concat(its...)` pushes the in-order concatenation of its inputs and starts every one. No inputs give nothing |
| RangeConcat.ConcatFromPrefix | concat.go:14-21 | any consumer sees a prefix of the concatenation. An unstopped traversal is the whole concatenation |
| RangeConcat.ConcatStopsInside | concat.go:16-19 | a consumer stop falls inside the last input started. The inputs before it were pushed in full, and no later input is started |
| RangeConcat.ConcatSingle | concat.go:12-23 | a single input is reproduced exactly |
| RangeConcat.FlattenSkipsEmpty | concat.go:14-21 | an empty input contributes nothing, wherever it stands |
| RangeZip.ZipDrained | zip.go:15-39 | `Zip` yields `max(len(left), len(right))` pairs. Pair `i` holds `left[i]` and `right[i]`, with the zero value on a side that has run out. Both sides are pulled to the end |
| RangeZip.ZipEqualLengths | zip.go:20-31 | equal-length inputs zip pointwise, and two empty inputs give nothing |
| RangeZip.ZipStops | zip.go:28-36 | a consumer refusing pair `k` sees exactly the first `k + 1` pairs. Neither side is pulled beyond position `k` |
| RangeCoalesce.Coalesce | coalesce.go:10-25 | the accumulator starts at the zero value: an empty input returns it and reports nothing |
| RangeCoalesce.CoalesceFolds | coalesce.go:13-24 | with a reducer that never fails, the result is the left fold of the reducer over every value from the zero value, and nothing is reported |
| RangeCoalesce.CoalesceSkips | coalesce.go:15-19 | with a reducer that always fails, every value is visited and skipped, the result stays the zero value, and one error per value is reported in order |
| RangeCoalesce.CoalesceLast | coalesce.go:14-22 | one more value: on a reducer error the result is unchanged and the error is reported once after the earlier reports; otherwise the result becomes the reducer's value |
| RangeFrom.FromSliceYields | from.go:28-37 | the consumer sees exactly a prefix of `s`, cut after the refused value. Production halts there and pulls nothing more. A draining consumer sees all of `s` |
| RangeFrom.FromVals | from.go:39-41 | `FromVals(vs...)` is `FromSlice(vs)`; a draining consumer receives `vs` |
| RangeFrom.FromMapYields | from.go:14-26 | whatever order the run time picks, each map entry is pushed exactly once, with its own value, and nothing else |
| FuncIter.ExhaustionIsSticky | iter.go:17-24 | once a closure has returned `false`, every call returns `(zero, false, nil)` and it stays exhausted |
| FuncIter.FalseIsFinal | iter.go:17-24 | every closure, source or combinator, is exhausted right after it returns `false` |
| FuncIter.ProducerTrace | iter.go:8-24 | a caller-written closure that keeps the contract drains to its values and errors, then its final error |
| FuncIter.ApplyTrace | iter.go:31-45 | `Apply(op)` maps each clean source value through `op`. A source error passes with its value and without calling `op`. The source's final error is forwarded |
| FuncIter.DropNTrace | iter.go:180-196 | `DropN(n)` produces the source's items after its first `n` (all of them for `n <= 0`), then the source's final error |
| FuncIter.DropTrace | iter.go:205-232 | `Drop(f)` drops accepted items until the first rejected one. Items on which `f` fails are produced with `f`'s error. After the first rejected item every item passes unchanged, then the source's final error |
| FuncIter.DropItemsSkipsPrefix | iter.go:205-232 | on a clean source with a never-failing predicate, `Drop` removes exactly the longest accepted prefix |
| FuncIter.TakeNTrace | iter.go:236-259 | `TakeN(n)` produces the first `min(n, len)` items. It forwards the source's final error only when the source ran out first, then returns `(zero, false, nil)` |
| FuncIter.TakeNStopsPulling | iter.go:240-247 | after the `n`-th value, `TakeN` returns done without calling its source |
| FuncIter.TakeTrace | iter.go:264-289 | `Take(f)` produces accepted items with nil errors and failing items with `f`'s error. It ends for good at the first rejected item, with a nil error |
| FuncIter.TakeItemsPass | iter.go:277-287 | every item `Take` produces without an error passes the predicate |
| FuncIter.TakeItemsPrefix | iter.go:264-289 | with a never-failing predicate, `Take` produces the longest accepted prefix, all with nil errors |
| FuncIter.WhereTrace | iter.go:297-319 | `Where(f)` passes source errors with their value. It produces items on which `f` fails with `f`'s error and accepted items with a nil error. It drops the rest, then forwards the source's final error |
| FuncIter.WhereItemsFilter | iter.go:297-319 | without errors, `Where` produces exactly the accepted values, in order |
| FuncIter.CoalesceSourceErrors | iter.go:340-362 | with a never-failing reducer, `Coalesce` folds from the zero value up to the source's first error and returns that fold with the error, tagged with its index. With no source error it returns the fold of every value and nil |
| FuncIter.CoalesceReducerErrors | iter.go:340-362 | on a clean source, `Coalesce` stops at the reducer's first failure. It returns the accumulator the reducer returned with that error, tagged with its index |
| FuncIter.FoldUntilFailureFolds | iter.go:343-361 | when the reducer never fails, stopping at its first failure is the plain left fold |
| FuncIter.SliceCollects | iter.go:370-386 | `Slice` returns every value in order and nil when the source reports no error. Otherwise it returns the values before the first error, with that error tagged by the number of values collected |
| Create.SliceNthCall | create.go:51-62 | call `k` of `Slice(s)` returns `(s[k], true, nil)` for `k < len(s)` and `(zero, false, nil)` from then on. An empty slice is exhausted on the first call |
| Create.SliceTrace | create.go:51-62 | draining `Slice(s)` yields `s` in order without errors and ends with a nil error |
| Create.EntriesOnce | create.go:15-27 | whatever order the run time picks, `Entries(m)` produces each key exactly once with its own value, `len(m)` items in all, then ends with nil |
| Create.KeysOnce | create.go:29-38 | whatever order the run time picks for its own loop, `Keys(m)` produces each key of the map exactly once, without errors, `len(m)` items in all, then ends with nil |
| Create.ValuesOnce | create.go:40-49 | whatever order the run time picks for its own loop, item `i` of `Values(m)` is the map's value for the `i`-th key visited, without an error; there are `len(m)` items, every value of the map is among them, and it ends with nil |
| Appliers.Wrap64 | appliers.go:10-13 | the `int64` a sum wraps to differs from the mathematical sum by a multiple of 2^64 |
| Appliers.GoDiv | appliers.go:14 | Go's `/` truncates toward zero: the remainder is smaller than the divisor in magnitude and has the dividend's sign |
| Appliers.MaxRunning | appliers.go:19-31 | the `k`-th result of `Max` is the largest of the first `k + 1` inputs, never an error. The first result is the first input even when every input is negative |
| Appliers.MaxNonDecreasing | appliers.go:24-30 | `Max`'s results never decrease |
| Appliers.MinRunning | appliers.go:34-46 | the `k`-th result of `Min` is the smallest of the first `k + 1` inputs, never an error |
| Appliers.MinNonIncreasing | appliers.go:39-44 | `Min`'s results never increase |
| Appliers.SumRunning | appliers.go:48-54 | the `k`-th result of `Sum` is the sum of the first `k + 1` inputs, wrapped to `int64`, never an error |
| Appliers.MeanRunning | appliers.go:8-16 | the `k`-th result of `Mean` is the wrapped sum of the first `k + 1` inputs divided by `k + 1`, truncating toward zero, never an error |
| ElemIter.InvalidIsFinal | shortcuts.go:19-152 | once any `Iter` (a source, `NoError`, `Take`, `Where`, `While` or `Each`) answers invalid, its next call answers invalid too |
| ElemIter.NoErrorTrace | shortcuts.go:19-37 | `NoError` hands out exactly the valid elements of its input that carry no error, in order |
| ElemIter.TakeTrace | shortcuts.go:39-63 | `Take(it, n)` forwards at most `n` calls: it hands out the first `min(n, len)` elements of its input |
| ElemIter.TakeStopsPulling | shortcuts.go:45-47 | after `n` calls `Take` answers invalid without calling its input |
| ElemIter.WhereTrace | shortcuts.go:65-87 | `Where` passes elements with an error untested and keeps an error-free element iff `keep` accepts its value, in order |
| ElemIter.WhereElemsMembers | shortcuts.go:65-87 | an element is handed out by `Where` iff it occurs in the input and either carries an error or passes `keep` |
| ElemIter.WhileTrace | shortcuts.go:99-152 | `While` hands out error elements untested and error-free elements while `still` holds. It ends at the first error-free element `still` rejects |
| ElemIter.WhileStopsForGood | shortcuts.go:104-150 | the first rejected value ends `While`: that call and every later one answer invalid without calling the input |
| ElemIter.EachTrace | each.go:6-18 | `Each` hands out its input's elements unchanged. `fn` has been called once per valid element with its value and error, in order, and never for the invalid answer |
| ElemIter.Join | shortcuts.go:186 | the joined error is nil exactly when both errors are nil |
| ElemIter.ZipTrace | shortcuts.go:176-198 | `Zip` hands out one element per position both inputs reach: the pair of values, or the joined errors when either side has one. It ends when either side ends. The longer side loses one more element, fetched and dropped |
| ElemIter.ZipInvalidIsFinal | shortcuts.go:169-184 | once `Zip` has answered invalid, its next call answers invalid too |
| ElemIter.ZipKeepsDraining | shortcuts.go:169-184 | after `Zip` has answered invalid, a further call still answers invalid but calls both inputs: each input with elements left loses exactly its next one, so the longer input keeps being drained |
| ElemReduce.ReduceFolds | reduce.go:16-32 | if the reducer accepts every value before the first element error, `Reduce` returns the left fold from the zero value of those values with that element's error, having pulled nothing after it. With no element error it returns the fold of all values and nil; an empty input gives `(zero, nil)` |
| ElemReduce.ReduceReducerError | reduce.go:25-28 | the first value the reducer rejects ends `Reduce` with the reducer's own returned accumulator and error. Nothing after it is pulled |
| Reducers.Count | reducers.go:5-8 | `Count(m, x)` is `m + 1` modulo 2^64 whatever `x` is, and never an error |
| Reducers.CountCounts | reducers.go:5-8 | `Reduce` with `Count` returns how many elements came before the first element error, modulo 2^64, with that error. Without one it returns the number of elements and nil |

## Left out

- Concurrency is not modelled: `buffer.go`, `parallel.go`, and `Split`, `splitBranch`, `Buffered`, `Parallel`, `Chan` and `bufferedChan` in iter.go. Their behaviour is goroutine scheduling, channels and locks.
- Channel sources are not modelled: `Chan` (create.go) and `FromChan` (from.go). A channel is concurrent state.
- The mutexes in `shortcuts.go`'s `Take` and `While` are left out. A single caller is modelled, and for a single caller the locks change nothing.
- `iter.Pull` in zip.go is modelled as indexing into each input sequence.
- The `Iter` struct, `Next`, `Close` and the close functions of the shortcuts are not part of this model. Only the `next` closures are. Iterator code that is not among the modelled files is also out.
- The output of `shortcuts.go`'s `Zip` has its own state type, so the model does not feed it into further shortcuts.
- Appliers.SumRunning: only the `int64` (and 64-bit `int`) instantiation of `Sum` is modelled. The `int32` instantiation, whose `+=` wraps modulo 2^32, and the float ones are left out, because only one integer width is modelled and floating point is not modelled.
- Appliers.MeanRunning: only the `int64` (and 64-bit `int`) instantiation of `Mean` is modelled. The `int32` one, where `total` wraps modulo 2^32 and `T(n)` truncates the counter, and the float ones are left out, for the same reasons.
- Appliers.MeanRunning: the call counter `n` is an unbounded natural. Go's `int` counter would wrap only after 2^63 calls.
- FuncIter.Producer / ElemIter.Source: finite sources only. A `Func` need not ever return `false` (iter.go:8-24), and on a source that never does, Go's `Slice`, `Coalesce` and `Reduce` do not return (iter.go:366-368). `TakeN`/`Take` over an unbounded source are covered only by finite sources longer than `n`.
- FuncIter.SliceCollects: an empty result is the empty sequence. Go returns a nil slice there (`var values []T` is never appended to), and the model does not tell a nil slice from an empty one.
- `Histogram` (reducers.go) is left out: it only panics. `funcs.go` is entirely commented out.
- Configuration.Set: `With` takes a `*Config` in Go and reads it when the option is applied, so `With(nil)` panics inside `buildConfig`. The model passes the config by value and has no nil case.
- The text of log and error messages (config.go, iter.go) is left out. The logger call and the wrapped errors are modelled as values, with their index and cause.
- The `Stop` variable of helpers.go is left out; none of the modelled code uses it.
- RangeTake.TakeNDrained: one traversal only. `count` is captured outside the closure that `TakeN` returns, so a second traversal of the same iterator continues from the old count, and that is not modelled.
- `Keys` and `Values` (create.go) take `map[K]any` and `map[any]V` in Go. The model takes any `map<K, V>`.
- The options that `DropN`, `TakeN` and `Take` (push generation) build are never used, so they are not parameters.
