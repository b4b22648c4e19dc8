/** What the plugins see of the framework (the request and the response, as
    plain records) and what they hand to the logger: levelled records with an
    ordered context array. A hook's run is the list of records it logged and
    how it ended. */
module Events {
  import opened Common
  import opened Bytes
  import opened Php
  import opened Sanitizer
  import opened Config

  /** The answers of the request object's accessors. `getServer` and
      `getClientIp` may answer `null`/`false`, so they are PHP values. */
  datatype Request = Request(
    uri: ByteString,
    pathInfo: ByteString,
    moduleName: ByteString,
    controller: ByteString,
    action: ByteString,
    fullAction: ByteString,
    params: PhpArray,
    httpMethod: ByteString,
    referer: Value,
    userAgent: Value,
    clientIp: Value,
    frontName: Option<ByteString>)

  /** A `Response\Http`: its status code and the value of its `Location`
      header (`getHeader('Location')` answers `false` when there is none). */
  datatype Response = Response(statusCode: int, location: Option<ByteString>)

  /** The redirect status set the hooks test with `in_array`. */
  predicate IsRedirectStatus(code: int)
  {
    code in {301, 302, 303, 307, 308}
  }

  /** A frame of the full backtrace of Plugin/ResponseLogger.php. */
  datatype FullFrame = FullFrame(
    file: ByteString,
    line: Option<int>,
    func: ByteString,
    cls: ByteString,
    callType: ByteString,
    args: Option<seq<(Key, Sanitized)>>,
    obj: Option<ObjectRef>)

  /** A frame of the full backtrace of Plugin/DebugPlugin.php. */
  datatype BasicFrame = BasicFrame(
    file: ByteString,
    line: Option<int>,
    func: ByteString,
    cls: ByteString,
    callType: ByteString)

  /** A frame of `getSimplifiedBacktrace`: only file, line and function. */
  datatype ShortFrame = ShortFrame(file: ByteString, line: int, func: ByteString)

  /** A frame of `getBacktrace` in src/Plugin/ResponseLogger.php. */
  datatype ClassFrame = ClassFrame(file: ByteString, line: int, func: ByteString, cls: ByteString)

  /** A value placed in a log record's context. */
  datatype Field =
    | Val(v: Value)
    | FullTrace(full: seq<FullFrame>)
    | BasicTrace(basic: seq<BasicFrame>)
    | TraceError(message: ByteString)
    | ShortTrace(short: seq<ShortFrame>)
    | ClassTrace(withClass: seq<ClassFrame>)
    | RawTrace(raw: seq<RawFrame>)

  function Str(s: ByteString): Field { Val(PString(s)) }

  datatype Level = DebugLevel | InfoLevel | ErrorLevel

  type Context = seq<(ByteString, Field)>

  datatype Event = Event(level: Level, message: ByteString, context: Context)

  /** A context built from its keys and its values, pairwise
      (`array_combine`). */
  function Entries(ks: seq<ByteString>, vs: seq<Field>): (c: Context)
    requires |ks| == |vs|
    ensures KeysOf(c) == ks
    ensures forall i :: 0 <= i < |c| ==> c[i] == (ks[i], vs[i])
  {
    seq(|ks|, i requires 0 <= i < |ks| => (ks[i], vs[i]))
  }

  /** `$context[$k]`: the value of the first entry under key `k`. */
  function Lookup(c: Context, k: ByteString): (r: Option<Field>)
    ensures r.None? <==> forall i :: 0 <= i < |c| ==> c[i].0 != k
    ensures r.Some? ==> (k, r.value) in c
  {
    if |c| == 0 then None
    else if c[0].0 == k then Some(c[0].1)
    else Lookup(c[1..], k)
  }

  /** How a hook call ended, and what it logged on the way. */
  datatype Run<+T> = Run(events: seq<Event>, outcome: Outcome<T>)

  /** What a frame without a file reports in place of its file. */
  const InternalFunction: ByteString := "[internal function]"

  /** `$file` with every `BP . '/'` removed; the installation root is an
      input. */
  function StripRoot(root: ByteString, file: ByteString): (r: ByteString)
    ensures |r| <= |file|
    ensures !OccursIn(root + "/", file) ==> r == file
  {
    var needle := root + "/";
    assert !OccursIn(needle, file) ==> RemoveAll(needle, file) == file by {
      if !OccursIn(needle, file) { RemoveAllAbsent(needle, file); }
    }
    RemoveAll(needle, file)
  }

  /** A file under the installation root is reported by its path relative
      to the root. */
  lemma StripRootUnder(root: ByteString, rel: ByteString)
    requires !OccursIn(root + "/", rel)
    ensures StripRoot(root, root + "/" + rel) == rel
  {
    var needle := root + "/";
    var file := needle + rel;
    assert StartsWith(file, needle) by { assert file[..|needle|] == needle; }
    assert file[|needle|..] == rel;
    RemoveAllAbsent(needle, rel);
  }

  /** Where a hook's own collaborators may throw: while the record is being
      assembled, and inside the backtrace builder. */
  datatype Faults = Faults(assembly: Option<Throwable>, trace: Option<Throwable>)

  const NoFaults := Faults(None, None)

  /** No collaborator throws an `\Error`; `\Exception`s may still occur. */
  predicate OnlyExceptions(f: Faults)
  {
    && (f.assembly.Some? ==> f.assembly.value.Exception?)
    && (f.trace.Some? ==> f.trace.value.Exception?)
  }

  /** Everything a hook reads besides its own arguments: the settings, the
      injected request, the clock, the installation root, the call stack at
      the capture point, and which collaborators throw. */
  datatype Env = Env(
    settings: Settings,
    request: Request,
    now: ByteString,
    root: ByteString,
    stack: seq<RawFrame>,
    faults: Faults)

  /** The gate of every hook, asked of the injected request. */
  predicate IsActive(env: Env)
  {
    Active(env.settings, env.request.frontName)
  }

  /** A hook of a `ResponseLogger`: its run and the `redirectDetected` flag
      it leaves behind. */
  datatype Hooked = Hooked(run: Run<Value>, redirectDetected: bool)

  /** `return;` / `return null;` of a before-plugin: the arguments are passed
      on unchanged. */
  const Unchanged: Outcome<Value> := Returned(PNull)

  /** A `logRedirect` call seen as a hook's run: its records, then
      `Unchanged` or the throwable that escaped it. */
  function AsHook(r: Run<()>): (h: Run<Value>)
    ensures h.events == r.events
    ensures r.outcome.Returned? ==> h.outcome == Unchanged
    ensures r.outcome.Raised? ==> h.outcome == Raised(r.outcome.thrown)
  {
    Run(r.events, if r.outcome.Returned? then Unchanged else Raised(r.outcome.thrown))
  }
}
