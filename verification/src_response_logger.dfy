/** src/Plugin/ResponseLogger.php: the older response plugin. It logs fewer
    request fields, keeps a short class-filtered backtrace under `backtrace`,
    swallows an `\Exception` without any output, and takes the redirect url
    from the `Location` header without checking that the header exists. */
module SrcResponseLogger {
  import opened Common
  import opened Bytes
  import opened Php
  import opened Config
  import opened Events
  import opened Redirect

  const MagentoNamespace: ByteString := "Magento\\"
  const OwnNamespace: ByteString := "CodeDrop\\DebugRedirect\\"
  const SrcBacktraceKey: ByteString := "backtrace"
  const MaxFrames: nat := 10

  const SrcRequestDataKeys: seq<ByteString> := ["request_params", "request_method", "http_referer"]

  /** The `\Error` PHP throws when `getFieldValue()` is called on the `false`
      that `getHeader('Location')` answers for a missing header, as PHP 8
      words it. Nothing logs the message; only its kind matters here. */
  const MissingHeaderCall: ByteString := "Call to a member function " + "getFieldValue() on false"

  // ---------------------------------------------------------------------
  // Backtrace.
  // ---------------------------------------------------------------------

  /** Frames of the framework or of this plugin's namespace. */
  predicate IsFrameworkFrame(f: RawFrame)
  {
    f.cls.Some? && (StartsWith(f.cls.value, MagentoNamespace) || StartsWith(f.cls.value, OwnNamespace))
  }

  predicate Kept(f: RawFrame)
  {
    !IsFrameworkFrame(f) && f.file.Some? && f.line.Some?
  }

  function ClassFrameOf(root: ByteString, f: RawFrame): (r: ClassFrame)
    requires f.file.Some? && f.line.Some?
    ensures r.file == StripRoot(root, f.file.value) && r.line == f.line.value
    ensures r.func == OrEmpty(f.func) && r.cls == OrEmpty(f.cls)
  {
    ClassFrame(StripRoot(root, f.file.value), f.line.value, OrEmpty(f.func), OrEmpty(f.cls))
  }

  /** The filtering loop of `getBacktrace`. No surviving entry names a class
      under either skipped namespace. */
  function ClassFrames(root: ByteString, frames: seq<RawFrame>): (r: seq<ClassFrame>)
    ensures |r| <= |frames|
    ensures forall i :: 0 <= i < |r| ==>
      !StartsWith(r[i].cls, MagentoNamespace) && !StartsWith(r[i].cls, OwnNamespace)
    ensures (forall i :: 0 <= i < |frames| ==> !Kept(frames[i])) ==> r == []
  {
    if |frames| == 0 then []
    else
      var rest := ClassFrames(root, frames[1..]);
      if Kept(frames[0]) then
        var r := [ClassFrameOf(root, frames[0])] + rest;
        assert forall i :: 1 <= i < |r| ==> r[i] == rest[i - 1];
        r
      else rest
  }

  /** The filter keeps order: a split stack yields the outputs of its parts
      in sequence. */
  lemma {:induction false} ClassFramesAppend(root: ByteString, a: seq<RawFrame>, b: seq<RawFrame>)
    ensures ClassFrames(root, a + b) == ClassFrames(root, a) + ClassFrames(root, b)
    decreases |a|
  {
    if |a| == 0 {
      assert a + b == b;
    } else {
      assert (a + b)[1..] == a[1..] + b;
      assert (a + b)[0] == a[0];
      ClassFramesAppend(root, a[1..], b);
    }
  }

  /** A single frame survives exactly when it is outside both namespaces and
      has a file and a line. */
  lemma ClassFramesSingle(root: ByteString, f: RawFrame)
    ensures ClassFrames(root, [f]) == if Kept(f) then [ClassFrameOf(root, f)] else []
  {
    assert [f][1..] == [];
  }

  /** `getBacktrace`: the first ten frames surviving the filter, out of the
      frames captured with the configured limit. */
  function GetBacktrace(s: Settings, root: ByteString, stack: seq<RawFrame>): (r: seq<ClassFrame>)
    ensures |r| <= MaxFrames
    ensures |r| <= |ClassFrames(root, Capture(stack, s.backtraceLimit))| <= |Capture(stack, s.backtraceLimit)| <= |stack|
    ensures forall i :: 0 <= i < |r| ==>
      !StartsWith(r[i].cls, MagentoNamespace) && !StartsWith(r[i].cls, OwnNamespace)
    ensures r == ClassFrames(root, Capture(stack, s.backtraceLimit))[..|r|]
    ensures |r| == Min(MaxFrames, |ClassFrames(root, Capture(stack, s.backtraceLimit))|)
  {
    Take(ClassFrames(root, Capture(stack, s.backtraceLimit)), MaxFrames)
  }

  /** A frame appended below the tenth survivor never shows. */
  lemma TenFramesFinal(s: Settings, root: ByteString, frames: seq<RawFrame>, f: RawFrame)
    requires |ClassFrames(root, frames)| >= MaxFrames
    ensures Take(ClassFrames(root, frames + [f]), MaxFrames) == Take(ClassFrames(root, frames), MaxFrames)
  {
    ClassFramesAppend(root, frames, [f]);
    var a := ClassFrames(root, frames);
    var b := ClassFrames(root, [f]);
    assert (a + b)[..MaxFrames] == a[..MaxFrames];
  }

  // ---------------------------------------------------------------------
  // The record.
  // ---------------------------------------------------------------------

  function SrcRequestData(req: Request): (c: Context)
    ensures KeysOf(c) == SrcRequestDataKeys
  {
    Entries(SrcRequestDataKeys, [Val(PArray(req.params)), Str(req.httpMethod), Val(req.referer)])
  }

  function SrcRecord(s: Settings, now: ByteString, req: Request, statusCode: Option<int>,
                     url: ByteString, backtrace: Option<Field>): Context
  {
    BaseRecord(now, req, StatusField(statusCode), url)
    + (if s.logRequestData then SrcRequestData(req) else [])
    + (if backtrace.Some? then [(SrcBacktraceKey, backtrace.value)] else [])
  }

  lemma SrcRecordShape(s: Settings, now: ByteString, req: Request, statusCode: Option<int>,
                       url: ByteString, backtrace: Option<Field>)
    ensures KeysOf(SrcRecord(s, now, req, statusCode, url, backtrace)) ==
      BaseKeys + (if s.logRequestData then SrcRequestDataKeys else [])
      + (if backtrace.Some? then [SrcBacktraceKey] else [])
    ensures Lookup(SrcRecord(s, now, req, statusCode, url, backtrace), "redirect_url") == Some(Str(url))
  {
    var base := BaseRecord(now, req, StatusField(statusCode), url);
    var extra := if s.logRequestData then SrcRequestData(req) else [];
    var bt: Context := if backtrace.Some? then [(SrcBacktraceKey, backtrace.value)] else [];
    var c := SrcRecord(s, now, req, statusCode, url, backtrace);
    KeysOfAppend(base + extra, bt);
    KeysOfAppend(base, extra);
    assert KeysOf(base) == BaseKeys;
    assert KeysOf(extra) == if s.logRequestData then SrcRequestDataKeys else [];
    assert KeysOf(bt) == if backtrace.Some? then [SrcBacktraceKey] else [];
    assert c[0] == base[0] && c[1] == base[1] && c[2] == base[2] && c[3] == base[3];
    BaseFields(c, StatusField(statusCode), url);
  }

  /** `$redirectUrl ?: $response->getHeader('Location')->getFieldValue()` as
      written: with a falsy url and no header, the call on `false` throws an
      `\Error`. */
  function RedirectUrlAsWritten(url: Option<ByteString>, location: Option<ByteString>): (r: Outcome<ByteString>)
    ensures url.Some? && IsTruthy(url.value) ==> r == Returned(url.value)
    ensures r.Raised? <==> !(url.Some? && IsTruthy(url.value)) && location.None?
    ensures r.Raised? ==> r.thrown == Error(MissingHeaderCall)
  {
    if url.Some? && IsTruthy(url.value) then Returned(url.value)
    else if location.Some? then Returned(location.value)
    else Raised(Error(MissingHeaderCall))
  }

  /** What the empty `catch (\Exception)` leaves of a throwable: an
      `\Exception` vanishes without output, an `\Error` escapes. */
  function Silenced(t: Throwable): (r: Run<()>)
    ensures r.events == []
    ensures r.outcome.Raised? <==> t.Error?
  {
    if t.Exception? then Run([], Returned(())) else Run([], Raised(t))
  }

  /** `logRedirect` once the url has been settled. The record's collaborators
      fail first (`assemblyFault`), then the url, then the backtrace. */
  function LogWith(s: Settings, now: ByteString, req: Request, statusCode: Option<int>,
                   url: Outcome<ByteString>, assemblyFault: Option<Throwable>,
                   trace: Outcome<Field>): (r: Run<()>)
    ensures |r.events| <= 1
    ensures r.outcome.Raised? ==> r.events == [] && r.outcome.thrown.Error?
    ensures assemblyFault.Some? ==> r == Silenced(assemblyFault.value)
    ensures assemblyFault.None? && url.Raised? ==> r == Silenced(url.thrown)
    ensures assemblyFault.None? && url.Returned? && s.logBacktrace && trace.Raised? ==>
      r == Silenced(trace.thrown)
    ensures assemblyFault.None? && url.Returned? && (!s.logBacktrace || trace.Returned?) ==>
      r == Run([Event(InfoLevel, RedirectMessage,
                      SrcRecord(s, now, req, statusCode, url.value,
                                if s.logBacktrace then Some(trace.value) else None))],
               Returned(()))
  {
    var thrown := if assemblyFault.Some? then assemblyFault
                  else if url.Raised? then Some(url.thrown)
                  else if s.logBacktrace && trace.Raised? then Some(trace.thrown)
                  else None;
    match thrown
    case Some(t) => Silenced(t)
    case None =>
      var bt := if s.logBacktrace then Some(trace.value) else None;
      Run([Event(InfoLevel, RedirectMessage, SrcRecord(s, now, req, statusCode, url.value, bt))], Returned(()))
  }

  /** The url or the header makes the record's `redirect_url`. */
  predicate HasTarget(resp: Response, url: Option<ByteString>)
  {
    resp.location.Some? || (url.Some? && IsTruthy(url.value))
  }

  /** `logRedirect` as written (src/Plugin/ResponseLogger.php:61-90). */
  function LogRedirectAsWritten(s: Settings, now: ByteString, req: Request, resp: Response,
                                statusCode: Option<int>, url: Option<ByteString>,
                                assemblyFault: Option<Throwable>, trace: Outcome<Field>): (r: Run<()>)
    ensures |r.events| <= 1
    ensures r.outcome.Raised? ==> r.events == [] && r.outcome.thrown.Error?
    ensures assemblyFault.None? && !HasTarget(resp, url) ==> r == Run([], Raised(Error(MissingHeaderCall)))
    ensures assemblyFault.Some? ==> r == Silenced(assemblyFault.value)
    ensures assemblyFault.None? && HasTarget(resp, url) && s.logBacktrace && trace.Raised? ==>
      r == Silenced(trace.thrown)
    ensures assemblyFault.None? && HasTarget(resp, url) && (!s.logBacktrace || trace.Returned?) ==>
      && r.outcome.Returned?
      && |r.events| == 1
      && r.events[0].level == InfoLevel
      && r.events[0].message == RedirectMessage
      && KeysOf(r.events[0].context) ==
           BaseKeys + (if s.logRequestData then SrcRequestDataKeys else [])
           + (if s.logBacktrace then [SrcBacktraceKey] else [])
      && Lookup(r.events[0].context, "redirect_url") == Some(Str(RedirectUrl(url, resp.location)))
  {
    var u := RedirectUrlAsWritten(url, resp.location);
    SrcRecordShape(s, now, req, statusCode, RedirectUrl(url, resp.location),
                   if s.logBacktrace && trace.Returned? then Some(trace.value) else None);
    LogWith(s, now, req, statusCode, u, assemblyFault, trace)
  }

  /** A redirect without a `Location` header and without a truthy url makes
      `logRedirect` throw out of the hook, although nothing else failed. */
  lemma MissingLocationRaises(s: Settings, now: ByteString, req: Request, trace: Field)
    ensures LogRedirectAsWritten(s, now, req, Response(302, None), Some(302), None, None, Returned(trace))
      == Run([], Raised(Error(MissingHeaderCall)))
    ensures LogRedirectAsWritten(s, now, req, Response(302, None), None, Some("0"), None, Returned(trace))
      == Run([], Raised(Error(MissingHeaderCall)))
  {
  }

  /** `logRedirect` with the header checked, as its sibling in Plugin/ does:
      a missing header gives `N/A`. */
  function LogRedirect(s: Settings, now: ByteString, req: Request, resp: Response,
                       statusCode: Option<int>, url: Option<ByteString>,
                       assemblyFault: Option<Throwable>, trace: Outcome<Field>): (r: Run<()>)
    ensures |r.events| <= 1
    ensures r.outcome.Raised? ==> r.events == [] && r.outcome.thrown.Error?
    ensures ((assemblyFault.Some? ==> assemblyFault.value.Exception?)
             && (s.logBacktrace && trace.Raised? ==> trace.thrown.Exception?)) ==> r.outcome.Returned?
    ensures assemblyFault.None? && (!s.logBacktrace || trace.Returned?) ==>
      && r.outcome.Returned?
      && |r.events| == 1
      && r.events[0].level == InfoLevel
      && r.events[0].message == RedirectMessage
      && KeysOf(r.events[0].context) ==
           BaseKeys + (if s.logRequestData then SrcRequestDataKeys else [])
           + (if s.logBacktrace then [SrcBacktraceKey] else [])
      && Lookup(r.events[0].context, "redirect_url") == Some(Str(RedirectUrl(url, resp.location)))
    ensures assemblyFault.Some? ==> r == Silenced(assemblyFault.value)
    ensures assemblyFault.None? && s.logBacktrace && trace.Raised? ==> r == Silenced(trace.thrown)
    ensures assemblyFault.None? && s.logBacktrace && trace.Raised? && trace.thrown.Exception? ==>
      r == Run([], Returned(()))
  {
    var u := RedirectUrl(url, resp.location);
    SrcRecordShape(s, now, req, statusCode, u, if s.logBacktrace && trace.Returned? then Some(trace.value) else None);
    LogWith(s, now, req, statusCode, Returned(u), assemblyFault, trace)
  }

  /** Where the header exists or the url is truthy, the correction changes
      nothing. */
  lemma CorrectionAgrees(s: Settings, now: ByteString, req: Request, resp: Response,
                         statusCode: Option<int>, url: Option<ByteString>,
                         assemblyFault: Option<Throwable>, trace: Outcome<Field>)
    requires HasTarget(resp, url)
    ensures LogRedirect(s, now, req, resp, statusCode, url, assemblyFault, trace)
         == LogRedirectAsWritten(s, now, req, resp, statusCode, url, assemblyFault, trace)
  {
  }

  // ---------------------------------------------------------------------
  // Hooks, as written.
  // ---------------------------------------------------------------------

  function Trace(env: Env): Outcome<Field>
  {
    if env.faults.trace.Some? then Raised(env.faults.trace.value)
    else Returned(ClassTrace(GetBacktrace(env.settings, env.root, env.stack)))
  }

  function Log(env: Env, resp: Response, statusCode: Option<int>, url: Option<ByteString>): (h: Run<Value>)
  {
    AsHook(LogRedirectAsWritten(env.settings, env.now, env.request, resp, statusCode, url,
                                env.faults.assembly, Trace(env)))
  }

  /** `beforeSendResponse`: log a response whose status is a redirect. A
      redirect status without a `Location` header throws out of the hook. */
  function BeforeSendResponse(env: Env, detected: bool, resp: Response): (h: Hooked)
    ensures h.redirectDetected == detected
    ensures h.run.outcome.Returned? ==> h.run.outcome == Unchanged
    ensures h.run.outcome.Raised? ==> h.run.events == [] && h.run.outcome.thrown.Error?
    ensures !IsActive(env) || !IsRedirectStatus(resp.statusCode) ==> h.run == Run([], Unchanged)
    ensures OnlyExceptions(env.faults) && resp.location.Some? ==> h.run.outcome == Unchanged
    ensures IsActive(env) && IsRedirectStatus(resp.statusCode) && env.faults == NoFaults && resp.location.Some? ==>
      && h.run.outcome == Unchanged
      && |h.run.events| == 1
      && h.run.events[0].message == RedirectMessage
      && Lookup(h.run.events[0].context, "redirect_url") == Some(Str(resp.location.value))
    ensures IsActive(env) && IsRedirectStatus(resp.statusCode) && env.faults.assembly.None? && resp.location.None? ==>
      h.run == Run([], Raised(Error(MissingHeaderCall)))
  {
    if IsActive(env) && IsRedirectStatus(resp.statusCode) then
      Hooked(Log(env, resp, Some(resp.statusCode), None), detected)
    else Hooked(Run([], Unchanged), detected)
  }

  /** `beforeRedirect`: the flag is raised exactly on the active path; a
      falsy url with no `Location` header throws out of the hook. */
  function BeforeRedirect(env: Env, detected: bool, resp: Response, url: Option<ByteString>): (h: Hooked)
    ensures h.redirectDetected <==> detected || IsActive(env)
    ensures h.run.outcome.Returned? ==> h.run.outcome == Unchanged
    ensures h.run.outcome.Raised? ==> h.run.events == [] && h.run.outcome.thrown.Error?
    ensures !IsActive(env) ==> h.run == Run([], Unchanged)
    ensures OnlyExceptions(env.faults) && HasTarget(resp, url) ==> h.run.outcome == Unchanged
    ensures IsActive(env) && env.faults == NoFaults && HasTarget(resp, url) ==>
      && |h.run.events| == 1
      && h.run.events[0].message == RedirectMessage
      && Lookup(h.run.events[0].context, "redirect_url") == Some(Str(RedirectUrl(url, resp.location)))
    ensures IsActive(env) && env.faults.assembly.None? && !HasTarget(resp, url) ==>
      h.run == Run([], Raised(Error(MissingHeaderCall)))
  {
    if !IsActive(env) then Hooked(Run([], Unchanged), detected)
    else Hooked(Log(env, resp, None, url), true)
  }

  /** Unlike the Plugin/ variant, an `\Exception` leaves no trace at all. */
  lemma ExceptionLeavesNoLine(env: Env, detected: bool, resp: Response, url: Option<ByteString>, m: ByteString)
    requires IsActive(env)
    requires env.faults.assembly == Some(Exception(m))
    ensures BeforeRedirect(env, detected, resp, url) == Hooked(Run([], Unchanged), true)
  {
  }

  /** With every collaborator working, an active redirect response without a
      `Location` header breaks both hooks. */
  lemma MissingHeaderBreaksHooks(env: Env, detected: bool)
    requires IsActive(env) && env.faults == NoFaults
    ensures BeforeSendResponse(env, detected, Response(302, None)).run == Run([], Raised(Error(MissingHeaderCall)))
    ensures BeforeRedirect(env, detected, Response(302, None), None).run == Run([], Raised(Error(MissingHeaderCall)))
  {
  }

  // ---------------------------------------------------------------------
  // Hooks with the header checked.
  // ---------------------------------------------------------------------

  function CheckedLog(env: Env, resp: Response, statusCode: Option<int>, url: Option<ByteString>): (h: Run<Value>)
  {
    AsHook(LogRedirect(env.settings, env.now, env.request, resp, statusCode, url,
                       env.faults.assembly, Trace(env)))
  }

  /** `beforeSendResponse` on the corrected `logRedirect`: with no
      `\Error` among the faults it never throws. */
  function CheckedBeforeSendResponse(env: Env, detected: bool, resp: Response): (h: Hooked)
    ensures h.redirectDetected == detected
    ensures h.run.outcome.Returned? ==> h.run.outcome == Unchanged
    ensures OnlyExceptions(env.faults) ==> h.run.outcome == Unchanged
    ensures !IsActive(env) || !IsRedirectStatus(resp.statusCode) ==> h.run == Run([], Unchanged)
    ensures IsActive(env) && IsRedirectStatus(resp.statusCode) && env.faults == NoFaults ==>
      && |h.run.events| == 1
      && h.run.events[0].message == RedirectMessage
      && Lookup(h.run.events[0].context, "redirect_url") == Some(Str(RedirectUrl(None, resp.location)))
  {
    if IsActive(env) && IsRedirectStatus(resp.statusCode) then
      Hooked(CheckedLog(env, resp, Some(resp.statusCode), None), detected)
    else Hooked(Run([], Unchanged), detected)
  }

  /** `beforeRedirect` on the corrected `logRedirect`. */
  function CheckedBeforeRedirect(env: Env, detected: bool, resp: Response, url: Option<ByteString>): (h: Hooked)
    ensures h.redirectDetected <==> detected || IsActive(env)
    ensures h.run.outcome.Returned? ==> h.run.outcome == Unchanged
    ensures OnlyExceptions(env.faults) ==> h.run.outcome == Unchanged
    ensures !IsActive(env) ==> h.run == Run([], Unchanged)
    ensures IsActive(env) && env.faults == NoFaults ==>
      && |h.run.events| == 1
      && h.run.events[0].message == RedirectMessage
      && Lookup(h.run.events[0].context, "redirect_url") == Some(Str(RedirectUrl(url, resp.location)))
  {
    if !IsActive(env) then Hooked(Run([], Unchanged), detected)
    else Hooked(CheckedLog(env, resp, None, url), true)
  }

  /** Where the header exists or the url is truthy, the checked hooks do
      exactly what the hooks as written do. */
  lemma CheckedHooksAgree(env: Env, detected: bool, resp: Response, url: Option<ByteString>)
    requires resp.location.Some?
    ensures CheckedBeforeSendResponse(env, detected, resp) == BeforeSendResponse(env, detected, resp)
    ensures HasTarget(resp, url) ==>
      CheckedBeforeRedirect(env, detected, resp, url) == BeforeRedirect(env, detected, resp, url)
  {
    CorrectionAgrees(env.settings, env.now, env.request, resp, Some(resp.statusCode), None,
                     env.faults.assembly, Trace(env));
    if HasTarget(resp, url) {
      CorrectionAgrees(env.settings, env.now, env.request, resp, None, url,
                       env.faults.assembly, Trace(env));
    }
  }
}
