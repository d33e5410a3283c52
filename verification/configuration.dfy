/**
  The options shared by the range-over-func combinators (config.go): a name,
  an optional error callback and an optional logger, set by functional
  options applied left to right. The callbacks themselves are code the model
  cannot see, so they are identified by opaque handles, and a call to them is
  recorded as an `Effect`.
 */
module Configuration {
  import opened Types

  /** Identity of a caller-supplied `func(error)` callback. */
  type HandlerId = nat

  /** Identity of a caller-supplied `Logger`. */
  type LoggerId = nat

  /** `Config`: nil callbacks are `None`. */
  datatype Config = Config(name: string, onError: Option<HandlerId>, logger: Option<LoggerId>)

  /** `Opt`: the four functional options of the package. `OnError(nil)` and
      `WithLogger(nil)` are allowed and clear the field. */
  datatype Opt =
    | With(from: Config)
    | WithName(name: string)
    | OnError(handler: Option<HandlerId>)
    | WithLogger(logger: Option<LoggerId>)

  /** One observable call made while reporting an error. */
  datatype Effect =
    | Logged(logger: LoggerId, name: string, err: Error)
    | Handled(handler: HandlerId, err: Error)

  /** The zero `Config{}` that `buildConfig` starts from. */
  const Empty := Config("", None, None)

  /** The name an option writes, if it writes one. */
  function NameSetBy(o: Opt): Option<string> {
    match o
    case With(c) => Some(c.name)
    case WithName(n) => Some(n)
    case _ => None
  }

  /** The error callback an option writes, if it writes one. */
  function HandlerSetBy(o: Opt): Option<Option<HandlerId>> {
    match o
    case With(c) => Some(c.onError)
    case OnError(h) => Some(h)
    case _ => None
  }

  /** The logger an option writes, if it writes one. */
  function LoggerSetBy(o: Opt): Option<Option<LoggerId>> {
    match o
    case With(c) => Some(c.logger)
    case WithLogger(l) => Some(l)
    case _ => None
  }

  /** Runs one option against a config. Every option writes exactly the
      fields it names and leaves the others as they were. */
  function Set(p: Config, o: Opt): (q: Config)
    ensures q.name == (if NameSetBy(o).Some? then NameSetBy(o).value else p.name)
    ensures q.onError == (if HandlerSetBy(o).Some? then HandlerSetBy(o).value else p.onError)
    ensures q.logger == (if LoggerSetBy(o).Some? then LoggerSetBy(o).value else p.logger)
  {
    match o
    case With(c) => Config(c.name, c.onError, c.logger)
    case WithName(n) => p.(name := n)
    case OnError(h) => p.(onError := h)
    case WithLogger(l) => p.(logger := l)
  }

  /** `buildConfig(opts...)`: the options applied left to right to `Config{}`. */
  function BuildConfig(opts: seq<Opt>): (p: Config)
    ensures |opts| == 0 ==> p == Empty
  {
    if |opts| == 0 then Empty else Set(BuildConfig(opts[..|opts| - 1]), opts[|opts| - 1])
  }

  /** The last option that writes the name decides it; with none, it stays "". */
  lemma {:induction false} LastNameWins(opts: seq<Opt>, i: int)
    requires -1 <= i < |opts|
    requires i >= 0 ==> NameSetBy(opts[i]).Some?
    requires forall j | i < j < |opts| :: NameSetBy(opts[j]).None?
    ensures BuildConfig(opts).name == (if i >= 0 then NameSetBy(opts[i]).value else "")
    decreases |opts|
  {
    if |opts| > 0 && i < |opts| - 1 {
      LastNameWins(opts[..|opts| - 1], i);
    }
  }

  /** The last option that writes the error callback decides it; with none,
      the config has no callback. */
  lemma {:induction false} LastHandlerWins(opts: seq<Opt>, i: int)
    requires -1 <= i < |opts|
    requires i >= 0 ==> HandlerSetBy(opts[i]).Some?
    requires forall j | i < j < |opts| :: HandlerSetBy(opts[j]).None?
    ensures BuildConfig(opts).onError == (if i >= 0 then HandlerSetBy(opts[i]).value else None)
    decreases |opts|
  {
    if |opts| > 0 && i < |opts| - 1 {
      LastHandlerWins(opts[..|opts| - 1], i);
    }
  }

  /** The last option that writes the logger decides it; with none, the
      config has no logger. */
  lemma {:induction false} LastLoggerWins(opts: seq<Opt>, i: int)
    requires -1 <= i < |opts|
    requires i >= 0 ==> LoggerSetBy(opts[i]).Some?
    requires forall j | i < j < |opts| :: LoggerSetBy(opts[j]).None?
    ensures BuildConfig(opts).logger == (if i >= 0 then LoggerSetBy(opts[i]).value else None)
    decreases |opts|
  {
    if |opts| > 0 && i < |opts| - 1 {
      LastLoggerWins(opts[..|opts| - 1], i);
    }
  }

  /** `With(c)` as the last option reproduces `c` whatever came before. */
  lemma WithCopiesAll(opts: seq<Opt>, c: Config)
    ensures BuildConfig(opts + [With(c)]) == c
  {
    assert (opts + [With(c)])[..|opts|] == opts;
  }

  /** `Config.Error`: nothing happens without an error callback, even when a
      logger is set; with one, the logger (if any) records the error under the
      config's name and then the callback receives the error exactly once. */
  function Error(p: Config, err: Types.Error): (effects: seq<Effect>)
    ensures p.onError.None? ==> effects == []
    ensures p.onError.Some? ==>
      && |effects| == (if p.logger.Some? then 2 else 1)
      && effects[|effects| - 1] == Handled(p.onError.value, err)
      && (p.logger.Some? ==> effects[0] == Logged(p.logger.value, p.name, err))
  {
    match p.onError
    case None => []
    case Some(h) =>
      (if p.logger.Some? then [Logged(p.logger.value, p.name, err)] else []) + [Handled(h, err)]
  }

  /** The effects of reporting each error of `errs` in turn. */
  function ReportAll(p: Config, errs: seq<Types.Error>): (effects: seq<Effect>)
    ensures p.onError.None? ==> effects == []
  {
    if |errs| == 0 then [] else Error(p, errs[0]) + ReportAll(p, errs[1..])
  }

  /** Reporting a list of errors in two parts is reporting each part in turn. */
  lemma {:induction false} ReportAllAppend(p: Config, a: seq<Types.Error>, b: seq<Types.Error>)
    ensures ReportAll(p, a + b) == ReportAll(p, a) + ReportAll(p, b)
    decreases |a|
  {
    if |a| == 0 {
      assert a + b == b;
    } else {
      assert (a + b)[1..] == a[1..] + b;
      ReportAllAppend(p, a[1..], b);
    }
  }
}
