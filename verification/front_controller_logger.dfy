/** Plugin/FrontControllerLogger.php: a before-plugin on the front
    controller's `dispatch` that logs the raw call stack and the request,
    and always hands the request on as its single argument. */
module FrontControllerLogger {
  import opened Common
  import opened Bytes
  import opened Php
  import opened Config
  import opened Events

  const BacktraceMessage: ByteString := "FRONT CONTROLLER BACKTRACE"
  const StartedMessage: ByteString := "REQUEST STARTED"

  /** The frames the logged backtrace leaves out: this hook and its
      interceptor. */
  const SkippedFrames: nat := 2

  /** The frames logged: captured without arguments or objects, up to the
      configured limit, minus the first two. */
  function LoggedFrames(s: Settings, stack: seq<RawFrame>): (r: seq<RawFrame>)
    ensures |r| == Max(0, |Capture(stack, s.backtraceLimit)| - SkippedFrames)
    ensures Int32Of(s.backtraceLimit) > 0 ==> |r| <= Max(0, Int32Of(s.backtraceLimit) - SkippedFrames)
    ensures forall i :: 0 <= i < |r| ==> r[i] == Bare(stack[i + SkippedFrames])
  {
    Drop(CaptureBare(stack, s.backtraceLimit), SkippedFrames)
  }

  const StartedKeys: seq<ByteString> := ["url", "method", "full_action", "params"]

  function StartedContext(request: Request): (c: Context)
    ensures KeysOf(c) == StartedKeys
  {
    Entries(StartedKeys, [Str(request.uri), Str(request.httpMethod), Str(request.fullAction),
                          Val(PArray(request.params))])
  }

  /** `beforeDispatch`: the argument list `[$request]` on every path that
      returns. Inside its `try`, a fault while capturing or logging the stack
      (`faults.trace`) comes before the backtrace record, a fault while
      reading the request (`faults.assembly`) after it; an `\Exception` stops
      the logging silently, an `\Error` escapes. */
  function BeforeDispatch(env: Env, request: Request): (r: Run<seq<Request>>)
    ensures r.outcome.Returned? ==> r.outcome.value == [request]
    ensures r.outcome.Raised? ==> r.outcome.thrown.Error?
    ensures OnlyExceptions(env.faults) ==> r.outcome == Returned([request])
    ensures !IsActive(env) ==> r.events == []
    ensures |r.events| <= 2
    ensures |r.events| > 0 ==>
      r.events[0] == Event(DebugLevel, BacktraceMessage,
                           [("backtrace", RawTrace(LoggedFrames(env.settings, env.stack)))])
    ensures |r.events| == 2 ==> r.events[1] == Event(DebugLevel, StartedMessage, StartedContext(request))
    ensures IsActive(env) && env.faults == NoFaults ==> |r.events| == 2
  {
    if !IsActive(env) then Run([], Returned([request]))
    else
      var traced := Event(DebugLevel, BacktraceMessage,
                          [("backtrace", RawTrace(LoggedFrames(env.settings, env.stack)))]);
      var started := Event(DebugLevel, StartedMessage, StartedContext(request));
      match (env.faults.trace, env.faults.assembly)
      case (Some(Exception(_)), _) => Run([], Returned([request]))
      case (Some(Error(m)), _) => Run([], Raised(Error(m)))
      case (None, Some(Exception(_))) => Run([traced], Returned([request]))
      case (None, Some(Error(m))) => Run([traced], Raised(Error(m)))
      case (None, None) => Run([traced, started], Returned([request]))
  }

  /** The backtrace record always comes first: whenever the request record is
      written, the backtrace record precedes it. */
  lemma BacktraceBeforeRequest(env: Env, request: Request)
    ensures forall i :: 0 <= i < |BeforeDispatch(env, request).events| ==>
      (BeforeDispatch(env, request).events[i].message == StartedMessage ==>
         i == 1 && BeforeDispatch(env, request).events[0].message == BacktraceMessage)
  {
    assert BacktraceMessage != StartedMessage;
  }

  /** Whatever the settings and the faults, the request handed on is the one
      received. */
  lemma RequestPassesThrough(env: Env, env': Env, request: Request)
    requires OnlyExceptions(env.faults) && OnlyExceptions(env'.faults)
    ensures BeforeDispatch(env, request).outcome == BeforeDispatch(env', request).outcome
  {
  }
}
