/** Plugin/DebugPlugin.php: one class plugged into the response, the front
    controller and the routers. Every hook passes its subject's call through
    unchanged; when active it also writes debug records. */
module DebugPlugin {
  import opened Common
  import opened Bytes
  import opened Php
  import opened Config
  import opened Events
  import opened Redirect

  const BeforeDispatchMessage: ByteString := "FRONT CONTROLLER BEFORE"
  const AfterDispatchMessage: ByteString := "FRONT CONTROLLER AFTER"
  const RouterBefore: ByteString := "ROUTER BEFORE: "
  const RouterAfter: ByteString := "ROUTER AFTER: "
  const NoMatchSuffix: ByteString := " - NO MATCH"

  /** The frames both backtrace builders skip: the builder and its caller. */
  const SkippedFrames: nat := 2

  // ---------------------------------------------------------------------
  // Backtraces.
  // ---------------------------------------------------------------------

  function BasicFrameOf(root: ByteString, f: RawFrame): (r: BasicFrame)
    ensures f.file.None? ==> r.file == InternalFunction
    ensures f.file.Some? ==> r.file == StripRoot(root, f.file.value)
    ensures r.line == f.line
    ensures r.func == OrEmpty(f.func) && r.cls == OrEmpty(f.cls) && r.callType == OrEmpty(f.callType)
  {
    BasicFrame(
      if f.file.Some? then StripRoot(root, f.file.value) else InternalFunction,
      f.line, OrEmpty(f.func), OrEmpty(f.cls), OrEmpty(f.callType))
  }

  /** `getFullBacktrace`: every captured frame after the first two, in order,
      with no class filter; an `\Exception` inside becomes an `error` entry,
      an `\Error` escapes. */
  function FullBacktrace(env: Env): (r: Outcome<Field>)
    ensures env.faults.trace.None? ==> r.Returned? && r.value.BasicTrace?
    ensures env.faults.trace.None? ==>
      var captured := Capture(env.stack, env.settings.backtraceLimit);
      && |r.value.basic| == Max(0, |captured| - SkippedFrames)
      && forall i :: 0 <= i < |r.value.basic| ==>
           r.value.basic[i] == BasicFrameOf(env.root, captured[i + SkippedFrames])
    ensures env.faults.trace.Some? && env.faults.trace.value.Exception? ==>
      r == Returned(TraceError(env.faults.trace.value.message))
    ensures env.faults.trace.Some? && env.faults.trace.value.Error? ==>
      r == Raised(env.faults.trace.value)
  {
    match env.faults.trace
    case Some(Exception(m)) => Returned(TraceError(m))
    case Some(Error(m)) => Raised(Error(m))
    case None =>
      var kept := Drop(Capture(env.stack, env.settings.backtraceLimit), SkippedFrames);
      Returned(BasicTrace(seq(|kept|, i requires 0 <= i < |kept| => BasicFrameOf(env.root, kept[i]))))
  }

  /** Frames the simplified backtrace keeps: those with both file and line. */
  predicate Located(f: RawFrame)
  {
    f.file.Some? && f.line.Some?
  }

  function ShortFrameOf(root: ByteString, f: RawFrame): (r: ShortFrame)
    requires Located(f)
    ensures r.file == StripRoot(root, f.file.value)
    ensures r.line == f.line.value
    ensures r.func == OrEmpty(f.func)
  {
    ShortFrame(StripRoot(root, f.file.value), f.line.value, OrEmpty(f.func))
  }

  /** The filtering loop of `getSimplifiedBacktrace`. */
  function ShortFrames(root: ByteString, frames: seq<RawFrame>): (r: seq<ShortFrame>)
    ensures |r| <= |frames|
    ensures (forall i :: 0 <= i < |frames| ==> !Located(frames[i])) ==> r == []
  {
    if |frames| == 0 then []
    else
      var rest := ShortFrames(root, frames[1..]);
      if Located(frames[0]) then [ShortFrameOf(root, frames[0])] + rest else rest
  }

  /** The filter keeps order: a split stack yields the outputs of its parts
      in sequence. */
  lemma {:induction false} ShortFramesAppend(root: ByteString, a: seq<RawFrame>, b: seq<RawFrame>)
    ensures ShortFrames(root, a + b) == ShortFrames(root, a) + ShortFrames(root, b)
    decreases |a|
  {
    if |a| == 0 {
      assert a + b == b;
    } else {
      assert (a + b)[1..] == a[1..] + b;
      assert (a + b)[0] == a[0];
      ShortFramesAppend(root, a[1..], b);
    }
  }

  /** A located frame is kept as its short entry; any other is dropped. */
  lemma ShortFramesSingle(root: ByteString, f: RawFrame)
    ensures ShortFrames(root, [f]) == if Located(f) then [ShortFrameOf(root, f)] else []
  {
    assert [f][1..] == [];
  }

  /** When every frame is located, each yields its entry in place. */
  lemma {:induction false} ShortFramesAllLocated(root: ByteString, frames: seq<RawFrame>)
    requires forall i :: 0 <= i < |frames| ==> Located(frames[i])
    ensures |ShortFrames(root, frames)| == |frames|
    ensures forall i :: 0 <= i < |frames| ==> ShortFrames(root, frames)[i] == ShortFrameOf(root, frames[i])
    decreases |frames|
  {
    if |frames| > 0 {
      ShortFramesAllLocated(root, frames[1..]);
      var r := ShortFrames(root, frames);
      assert r == [ShortFrameOf(root, frames[0])] + ShortFrames(root, frames[1..]);
      forall i | 0 <= i < |frames| ensures r[i] == ShortFrameOf(root, frames[i]) {
        if i > 0 {
          assert frames[1..][i - 1] == frames[i];
        }
      }
    }
  }

  /** `getSimplifiedBacktrace($limit)`: at most `limit` frames are captured,
      the first two are skipped, and located ones are kept. */
  function SimplifiedBacktrace(root: ByteString, stack: seq<RawFrame>, limit: int): (r: seq<ShortFrame>)
    ensures Int32Of(limit) > 0 ==> |r| <= Max(0, Int32Of(limit) - SkippedFrames)
    ensures |r| <= Max(0, |stack| - SkippedFrames)
    ensures Int32Of(limit) < 0 ==> r == []
  {
    ShortFrames(root, Drop(Capture(stack, limit), SkippedFrames))
  }

  // ---------------------------------------------------------------------
  // Response hooks.
  // ---------------------------------------------------------------------

  function Log(env: Env, resp: Response, statusCode: Option<int>, url: Option<ByteString>): Run<Value>
  {
    AsHook(LogRedirect(env.settings, env.now, env.request, resp, statusCode, url,
                       env.faults.assembly, FullBacktrace(env)))
  }

  /** `beforeSendResponse`: log a response whose status is a redirect. */
  function BeforeSendResponse(env: Env, resp: Response): (r: Run<Value>)
    ensures r.outcome.Returned? ==> r.outcome == Unchanged
    ensures !IsActive(env) || !IsRedirectStatus(resp.statusCode) ==> r == Run([], Unchanged)
    ensures IsActive(env) && IsRedirectStatus(resp.statusCode) && OnlyExceptions(env.faults) ==>
      |r.events| == 1 && r.outcome == Unchanged
  {
    if IsActive(env) && IsRedirectStatus(resp.statusCode) then
      Log(env, resp, Some(resp.statusCode), None)
    else Run([], Unchanged)
  }

  /** `beforeRedirect`: log the redirect with its target url; null on every
      path. */
  function BeforeRedirect(env: Env, resp: Response, url: Option<ByteString>): (r: Run<Value>)
    ensures r.outcome.Returned? ==> r.outcome == Unchanged
    ensures !IsActive(env) ==> r == Run([], Unchanged)
    ensures IsActive(env) && OnlyExceptions(env.faults) ==> |r.events| == 1 && r.outcome == Unchanged
  {
    if IsActive(env) then Log(env, resp, None, url) else Run([], Unchanged)
  }

  /** With backtraces on, a trace `\Exception` is recorded inside the
      redirect record rather than replacing it. */
  lemma TraceExceptionInsideRecord(env: Env, resp: Response, url: Option<ByteString>, m: ByteString)
    requires IsActive(env) && env.settings.logBacktrace
    requires env.faults == Faults(None, Some(Exception(m)))
    ensures BeforeRedirect(env, resp, url).events[0].message == RedirectMessage
    ensures Lookup(BeforeRedirect(env, resp, url).events[0].context, BacktraceKey) == Some(TraceError(m))
  {
  }

  // ---------------------------------------------------------------------
  // Front controller and router hooks.
  // ---------------------------------------------------------------------

  const BeforeDispatchKeys: seq<ByteString> :=
    ["full_action", "module", "controller", "action", "params", "uri", "backtrace"]

  function BeforeContext(env: Env, request: Request): (c: Context)
    ensures KeysOf(c) == BeforeDispatchKeys
    ensures c[6].1 == ShortTrace(SimplifiedBacktrace(env.root, env.stack, 10))
  {
    Entries(BeforeDispatchKeys, [
      Str(request.fullAction),
      Str(request.moduleName),
      Str(request.controller),
      Str(request.action),
      Val(PArray(request.params)),
      Str(request.uri),
      ShortTrace(SimplifiedBacktrace(env.root, env.stack, 10))])
  }

  /** `beforeDispatch`: the request's routing data and a simplified
      backtrace of at most ten captured frames. */
  function BeforeDispatch(env: Env, request: Request): (r: Run<Value>)
    ensures r.outcome == Unchanged
    ensures !IsActive(env) ==> r.events == []
    ensures IsActive(env) ==>
      && |r.events| == 1
      && r.events[0].level == DebugLevel
      && r.events[0].message == BeforeDispatchMessage
      && KeysOf(r.events[0].context) == BeforeDispatchKeys
      && r.events[0].context[6].1 == ShortTrace(SimplifiedBacktrace(env.root, env.stack, 10))
  {
    if !IsActive(env) then Run([], Unchanged)
    else Run([Event(DebugLevel, BeforeDispatchMessage, BeforeContext(env, request))], Unchanged)
  }

  /** What `dispatch` returned: an HTTP response, or anything else. */
  datatype DispatchResult = HttpResponse(response: Response) | OtherResult(v: Value)

  const AfterDispatchKeys: seq<ByteString> := ["status_code", "is_redirect", "redirect_url", "backtrace"]

  /** The context of the record describing a dispatched response. */
  function AfterContext(env: Env, resp: Response): (c: Context)
    ensures KeysOf(c) == AfterDispatchKeys
    ensures Lookup(c, "is_redirect") == Some(Val(PBool(IsRedirectStatus(resp.statusCode))))
    ensures resp.location.None? <==> Lookup(c, "redirect_url") == Some(Val(PNull))
  {
    var c := Entries(AfterDispatchKeys, [
      Val(PInt(resp.statusCode)),
      Val(PBool(IsRedirectStatus(resp.statusCode))),
      Val(if resp.location.Some? then PString(resp.location.value) else PNull),
      ShortTrace(SimplifiedBacktrace(env.root, env.stack, 5))]);
    assert c[0].0 != c[1].0 && c[0].0 != c[2].0 && c[1].0 != c[2].0;
    LookupAt(c, 1);
    LookupAt(c, 2);
    c
  }

  /** `afterDispatch`: the result passes through; an HTTP response is
      described first. */
  function AfterDispatch(env: Env, result: DispatchResult, request: Request): (r: Run<DispatchResult>)
    ensures r.outcome == Returned(result)
    ensures !IsActive(env) || result.OtherResult? ==> r.events == []
    ensures IsActive(env) && result.HttpResponse? ==>
      && |r.events| == 1
      && r.events[0].message == AfterDispatchMessage
      && KeysOf(r.events[0].context) == AfterDispatchKeys
      && Lookup(r.events[0].context, "is_redirect") == Some(Val(PBool(IsRedirectStatus(result.response.statusCode))))
      && (result.response.location.None? <==> Lookup(r.events[0].context, "redirect_url") == Some(Val(PNull)))
  {
    if IsActive(env) && result.HttpResponse? then
      Run([Event(DebugLevel, AfterDispatchMessage, AfterContext(env, result.response))], Returned(result))
    else Run([], Returned(result))
  }

  /** The action a router produced: its class and routing data. */
  datatype Action = Action(cls: ByteString, moduleName: ByteString, controller: ByteString,
                           actionName: ByteString, params: PhpArray)

  const RouterBeforeKeys: seq<ByteString> := ["request_uri", "path_info"]
  const RouterAfterKeys: seq<ByteString> := ["result_class", "module", "controller", "action", "params"]

  /** One step of a router call through `aroundMatch`: a record written, or
      the continuation `$proceed` called with a request. */
  datatype Step = Logged(event: Event) | Proceeded(request: Request)

  /** The records among the steps, in order. */
  function Records(steps: seq<Step>): (es: seq<Event>)
    ensures |es| <= |steps|
  {
    if |steps| == 0 then []
    else (if steps[0].Logged? then [steps[0].event] else []) + Records(steps[1..])
  }

  /** The requests handed to `$proceed`, in order. */
  function Calls(steps: seq<Step>): (cs: seq<Request>)
    ensures |cs| <= |steps|
  {
    if |steps| == 0 then []
    else (if steps[0].Proceeded? then [steps[0].request] else []) + Calls(steps[1..])
  }

  /** A call between two records: one call, two records, in order. */
  lemma CallBetweenRecords(before: Event, request: Request, after: Event)
    ensures Calls([Logged(before), Proceeded(request), Logged(after)]) == [request]
    ensures Records([Logged(before), Proceeded(request), Logged(after)]) == [before, after]
  {
    var steps := [Logged(before), Proceeded(request), Logged(after)];
    var tail := [Proceeded(request), Logged(after)];
    var last := [Logged(after)];
    assert steps[1..] == tail && tail[1..] == last && last[1..] == [];
    assert Calls(last) == [] && Records(last) == [after];
    assert Calls(tail) == [request] && Records(tail) == [after];
  }

  /** `$proceed($request)`: the continuation's answer, and the step that
      records the call. */
  function Proceed(proceed: Request -> Option<Action>, request: Request): (c: (Step, Option<Action>))
    ensures c.0 == Proceeded(request) && c.1 == proceed(request)
  {
    (Proceeded(request), proceed(request))
  }

  /** A router call through `aroundMatch`: its steps, and the result it
      returns. */
  datatype Routed = Routed(steps: seq<Step>, result: Option<Action>)

  /** `aroundMatch`: `$proceed` is called exactly once with the request and
      its result is returned untouched; when active, the call sits between a
      record before and a record after it. */
  function AroundMatch(env: Env, routerClass: ByteString, proceed: Request -> Option<Action>,
                       request: Request): (r: Routed)
    ensures Calls(r.steps) == [request]
    ensures r.result == proceed(request)
    ensures !IsActive(env) ==> Records(r.steps) == []
    ensures IsActive(env) ==>
      && |r.steps| == 3
      && r.steps[0].Logged? && r.steps[1] == Proceeded(request) && r.steps[2].Logged?
      && |Records(r.steps)| == 2
      && r.steps[0].event.message == RouterBefore + routerClass
      && KeysOf(r.steps[0].event.context) == RouterBeforeKeys
      && (proceed(request).Some? ==>
            r.steps[2].event.message == RouterAfter + routerClass
            && KeysOf(r.steps[2].event.context) == RouterAfterKeys)
      && (proceed(request).None? ==>
            r.steps[2].event == Event(DebugLevel, RouterAfter + routerClass + NoMatchSuffix, []))
  {
    if !IsActive(env) then
      var (call, result) := Proceed(proceed, request);
      Routed([call], result)
    else
      var before := Event(DebugLevel, RouterBefore + routerClass,
                          Entries(RouterBeforeKeys, [Str(request.uri), Str(request.pathInfo)]));
      var (call, result) := Proceed(proceed, request);
      var after := match result
        case Some(a) =>
          Event(DebugLevel, RouterAfter + routerClass, Entries(RouterAfterKeys, [
            Str(a.cls), Str(a.moduleName), Str(a.controller), Str(a.actionName), Val(PArray(a.params))]))
        case None => Event(DebugLevel, RouterAfter + routerClass + NoMatchSuffix, []);
      CallBetweenRecords(before, request, after);
      Routed([Logged(before), call, Logged(after)], result)
  }

  /** A router that matches nothing is reported under a distinct message. */
  lemma NoMatchDistinct(env: Env, routerClass: ByteString, proceed: Request -> Option<Action>,
                        request: Request)
    requires IsActive(env)
    ensures var r := AroundMatch(env, routerClass, proceed, request);
      proceed(request).None? <==> r.steps[2].event.message != RouterAfter + routerClass
  {
    var r := AroundMatch(env, routerClass, proceed, request);
    if proceed(request).None? {
      assert |r.steps[2].event.message| > |RouterAfter + routerClass|;
    }
  }

  /** The simplified backtrace, under any limit, of a stack whose frames
      after the first two are all located lists every captured frame after
      the first two, in order. */
  lemma SimplifiedKeepsLocated(root: ByteString, stack: seq<RawFrame>, limit: int)
    requires forall i :: SkippedFrames <= i < |stack| ==> Located(stack[i])
    ensures |SimplifiedBacktrace(root, stack, limit)| == Max(0, |Capture(stack, limit)| - SkippedFrames)
    ensures forall i :: 0 <= i < |SimplifiedBacktrace(root, stack, limit)| ==>
      SimplifiedBacktrace(root, stack, limit)[i] == ShortFrameOf(root, stack[i + SkippedFrames])
  {
    var captured := Capture(stack, limit);
    var kept := Drop(captured, SkippedFrames);
    forall i | 0 <= i < |kept| ensures kept[i] == stack[i + SkippedFrames] && Located(kept[i]) {
      assert captured[i + SkippedFrames] == stack[i + SkippedFrames];
    }
    ShortFramesAllLocated(root, kept);
  }
}
