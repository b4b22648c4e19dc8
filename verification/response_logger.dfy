/** Plugin/ResponseLogger.php: the response plugin that logs redirects with a
    full backtrace whose arguments are sanitized and whose objects are
    reported only for selected framework classes. */
module ResponseLogger {
  import opened Common
  import opened Bytes
  import opened Php
  import opened Config
  import opened Sanitizer
  import opened Events
  import opened Redirect

  const OwnNamespace: ByteString := "CodeDrop\\DebugRedirect\\"

  /** The classes whose objects a frame may report. */
  const IncludedPrefixes: seq<ByteString> := [
    "Magento\\Framework\\App\\Response\\",
    "Magento\\Framework\\App\\Request\\",
    "Magento\\Framework\\App\\Action\\",
    "Magento\\Catalog\\",
    "Magento\\Cms\\"
  ]

  // ---------------------------------------------------------------------
  // Frames.
  // ---------------------------------------------------------------------

  /** The plugin's own frames: one of the two backtrace helpers, called on a
      class of this module's namespace. */
  predicate IsOwnFrame(f: RawFrame)
  {
    && f.cls.Some? && StartsWith(f.cls.value, OwnNamespace)
    && (f.func == Some("getFullBacktrace") || f.func == Some("logRedirect"))
  }

  predicate KeepFrame(f: RawFrame) { !IsOwnFrame(f) }

  /** Whether a frame's object is reported: a non-empty class, an object,
      and the class under one of the included prefixes. */
  predicate ObjectWanted(f: RawFrame)
  {
    && f.cls.Some? && IsTruthy(f.cls.value) && f.obj.Some?
    && exists i :: 0 <= i < |IncludedPrefixes| && StartsWith(f.cls.value, IncludedPrefixes[i])
  }

  /** `shouldIncludeObject`, walking the prefix list the way the source
      does. */
  method ShouldIncludeObject(f: RawFrame) returns (b: bool)
    ensures b <==> ObjectWanted(f)
  {
    if f.cls.None? || !IsTruthy(f.cls.value) || f.obj.None? {
      return false;
    }
    var i := 0;
    while i < |IncludedPrefixes|
      invariant 0 <= i <= |IncludedPrefixes|
      invariant forall k :: 0 <= k < i ==> !StartsWith(f.cls.value, IncludedPrefixes[k])
    {
      if StartsWith(f.cls.value, IncludedPrefixes[i]) {
        return true;
      }
      i := i + 1;
    }
    return false;
  }

  /** The entry a kept frame becomes. */
  function FullFrameOf(root: ByteString, sanitize: bool, f: RawFrame): (r: FullFrame)
    ensures f.file.None? ==> r.file == InternalFunction
    ensures f.file.Some? ==> r.file == StripRoot(root, f.file.value) && |r.file| <= |f.file.value|
    ensures r.line == f.line
    ensures r.func == OrEmpty(f.func) && r.cls == OrEmpty(f.cls) && r.callType == OrEmpty(f.callType)
    ensures r.args.Some? <==> f.args.Some? && |f.args.value| > 0
    ensures r.args.Some? ==> r.args.value == SanitizeArguments(f.args.value, sanitize)
    ensures r.args.Some? ==> KeysOf(r.args.value) == KeysOf(f.args.value)
    ensures r.obj.Some? <==> ObjectWanted(f)
    ensures r.obj.Some? ==> r.obj == f.obj
  {
    FullFrame(
      if f.file.Some? then StripRoot(root, f.file.value) else InternalFunction,
      f.line,
      OrEmpty(f.func),
      OrEmpty(f.cls),
      OrEmpty(f.callType),
      if f.args.Some? && |f.args.value| > 0 then Some(SanitizeArguments(f.args.value, sanitize)) else None,
      if ObjectWanted(f) then f.obj else None)
  }

  function FullFrameIn(root: ByteString, sanitize: bool): RawFrame -> FullFrame
  {
    f => FullFrameOf(root, sanitize, f)
  }

  /** The loop of `getFullBacktrace` over captured frames. */
  function FullFrames(root: ByteString, sanitize: bool, frames: seq<RawFrame>): (r: seq<FullFrame>)
    ensures |r| <= |frames|
  {
    FilterMap(frames, KeepFrame, FullFrameIn(root, sanitize))
  }

  /** Order is kept: the frames of a longer stack come out as the frames of
      its parts, one after the other. */
  lemma FullFramesAppend(root: ByteString, sanitize: bool, a: seq<RawFrame>, b: seq<RawFrame>)
    ensures FullFrames(root, sanitize, a + b) == FullFrames(root, sanitize, a) + FullFrames(root, sanitize, b)
  {
    FilterMapAppend(a, b, KeepFrame, FullFrameIn(root, sanitize));
  }

  /** A single frame is dropped exactly when it is one of the plugin's own,
      and otherwise becomes its entry. */
  lemma FullFramesSingle(root: ByteString, sanitize: bool, f: RawFrame)
    ensures FullFrames(root, sanitize, [f]) ==
      if IsOwnFrame(f) then [] else [FullFrameOf(root, sanitize, f)]
  {
    FilterMapSingle(f, KeepFrame, FullFrameIn(root, sanitize));
  }

  /** Without own frames, every captured frame yields its entry in place. */
  lemma FullFramesNoOwn(root: ByteString, sanitize: bool, frames: seq<RawFrame>)
    requires forall i :: 0 <= i < |frames| ==> !IsOwnFrame(frames[i])
    ensures |FullFrames(root, sanitize, frames)| == |frames|
    ensures forall i :: 0 <= i < |frames| ==>
      FullFrames(root, sanitize, frames)[i] == FullFrameOf(root, sanitize, frames[i])
  {
    FilterMapAllKept(frames, KeepFrame, FullFrameIn(root, sanitize));
  }

  /** `getFullBacktrace`: the frames captured with the configured limit
      (arguments and objects included), own frames dropped. */
  function FullBacktrace(s: Settings, root: ByteString, stack: seq<RawFrame>): (r: seq<FullFrame>)
    ensures |r| <= |stack|
    ensures Int32Of(s.backtraceLimit) > 0 ==> |r| <= Int32Of(s.backtraceLimit)
    ensures Int32Of(s.backtraceLimit) < 0 ==> r == []
  {
    FullFrames(root, s.sanitizeSensitive, Capture(stack, s.backtraceLimit))
  }

  /** A stored limit of `PHP_INT_MAX` or more is clamped to `PHP_INT_MAX`,
      whose low 32 bits read as -1: the backtrace captures no frame. */
  lemma HugeStoredLimitLogsNoFrame(store: Store, sanitize: bool, root: ByteString,
                                   stack: seq<RawFrame>, n: nat)
    requires n >= LongMax
    ensures FullBacktrace(Load(store[BacktraceLimitPath := DecimalString(n)], sanitize), root, stack) == []
  {
    BacktraceLimitOfDecimal(store, n);
    assert Int32Of(LongMax) == -1;
  }

  // ---------------------------------------------------------------------
  // Hooks.
  // ---------------------------------------------------------------------

  /** What the backtrace builder hands to `logRedirect`. */
  function Trace(env: Env): Outcome<Field>
  {
    if env.faults.trace.Some? then Raised(env.faults.trace.value)
    else Returned(FullTrace(FullBacktrace(env.settings, env.root, env.stack)))
  }

  function Log(env: Env, resp: Response, statusCode: Option<int>, url: Option<ByteString>): Run<Value>
  {
    AsHook(LogRedirect(env.settings, env.now, env.request, resp, statusCode, url,
                       env.faults.assembly, Trace(env)))
  }

  /** `beforeSendResponse`: log a response whose status is a redirect. */
  function BeforeSendResponse(env: Env, detected: bool, resp: Response): (h: Hooked)
    ensures h.redirectDetected == detected
    ensures h.run.outcome.Returned? ==> h.run.outcome == Unchanged
    ensures !IsActive(env) || !IsRedirectStatus(resp.statusCode) ==> h.run == Run([], Unchanged)
    ensures IsActive(env) && IsRedirectStatus(resp.statusCode) && env.faults == NoFaults ==>
      && |h.run.events| == 1
      && h.run.events[0].message == RedirectMessage
      && Lookup(h.run.events[0].context, "status_code") == Some(Val(PInt(resp.statusCode)))
  {
    if !IsActive(env) then Hooked(Run([], Unchanged), detected)
    else if IsRedirectStatus(resp.statusCode) then
      Hooked(Log(env, resp, Some(resp.statusCode), None), detected)
    else Hooked(Run([], Unchanged), detected)
  }

  /** `beforeRedirect`: mark the redirect and log it with the target url. */
  function BeforeRedirect(env: Env, detected: bool, resp: Response, url: Option<ByteString>): (h: Hooked)
    ensures h.redirectDetected <==> detected || IsActive(env)
    ensures h.run.outcome.Returned? ==> h.run.outcome == Unchanged
    ensures !IsActive(env) ==> h.run == Run([], Unchanged)
    ensures IsActive(env) && env.faults == NoFaults ==>
      && |h.run.events| == 1
      && h.run.events[0].message == RedirectMessage
      && Lookup(h.run.events[0].context, "status_code") == Some(Val(PString(ViaRedirectMethod)))
      && Lookup(h.run.events[0].context, "redirect_url") == Some(Str(RedirectUrl(url, resp.location)))
  {
    if !IsActive(env) then Hooked(Run([], Unchanged), detected)
    else Hooked(Log(env, resp, None, url), true)
  }

  // ---------------------------------------------------------------------
  // Properties of the hooks.
  // ---------------------------------------------------------------------

  /** Unless a collaborator throws an `\Error`, `beforeSendResponse` writes
      one line exactly for redirect statuses, and only when active. */
  lemma SendResponseLogsIffRedirect(env: Env, detected: bool, resp: Response)
    requires OnlyExceptions(env.faults)
    ensures |BeforeSendResponse(env, detected, resp).run.events| == 1 <==>
      IsActive(env) && IsRedirectStatus(resp.statusCode)
    ensures BeforeSendResponse(env, detected, resp).run.outcome == Unchanged
  {
    if IsActive(env) && IsRedirectStatus(resp.statusCode) {
      var r := LogRedirect(env.settings, env.now, env.request, resp, Some(resp.statusCode), None,
                           env.faults.assembly, Trace(env));
      assert r.outcome.Returned?;
    }
  }

  /** Unless an `\Error` escapes, `beforeRedirect` writes exactly one line
      when active and returns null on every path. */
  lemma RedirectAlwaysNull(env: Env, detected: bool, resp: Response, url: Option<ByteString>)
    requires OnlyExceptions(env.faults)
    ensures BeforeRedirect(env, detected, resp, url).run.outcome == Unchanged
    ensures |BeforeRedirect(env, detected, resp, url).run.events| == (if IsActive(env) then 1 else 0)
  {
    if IsActive(env) {
      var r := LogRedirect(env.settings, env.now, env.request, resp, None, url,
                           env.faults.assembly, Trace(env));
      assert r.outcome.Returned?;
    }
  }

  /** With backtraces on and nothing thrown, the record carries the full
      backtrace of the stack under `full_backtrace`. */
  lemma RedirectCarriesBacktrace(env: Env, detected: bool, resp: Response, url: Option<ByteString>)
    requires IsActive(env) && env.settings.logBacktrace && env.faults == NoFaults
    ensures Lookup(BeforeRedirect(env, detected, resp, url).run.events[0].context, BacktraceKey) ==
      Some(FullTrace(FullBacktrace(env.settings, env.root, env.stack)))
  {
  }

  /** Frames of other classes named like the helpers are kept, as are the
      plugin's frames of other functions. */
  lemma OwnFrameNeedsBoth(f: RawFrame)
    requires f.cls == Some(OwnNamespace + "Plugin\\ResponseLogger")
    ensures IsOwnFrame(f) <==> f.func == Some("getFullBacktrace") || f.func == Some("logRedirect")
  {
    assert (OwnNamespace + "Plugin\\ResponseLogger")[..|OwnNamespace|] == OwnNamespace;
  }

  /** An object of a catalog class is reported. */
  lemma CatalogObjectIncluded(id: ByteString)
    ensures ObjectWanted(RawFrame(None, None, None, Some("Magento\\Catalog\\Model\\Product"), None,
                                  Some(ObjectRef("Magento\\Catalog\\Model\\Product", id)), None))
  {
    var c: ByteString := "Magento\\Catalog\\Model\\Product";
    assert StartsWith(c, IncludedPrefixes[3]) by {
      assert c[..|IncludedPrefixes[3]|] == IncludedPrefixes[3];
    }
  }

  /** An object of a framework class outside the listed namespaces is not. */
  lemma FrameworkObjectExcluded(id: ByteString)
    ensures !ObjectWanted(RawFrame(None, None, None, Some("Magento\\Framework\\App\\Http"), None,
                                   Some(ObjectRef("Magento\\Framework\\App\\Http", id)), None))
  {
    var h: ByteString := "Magento\\Framework\\App\\Http";
    forall i | 0 <= i < |IncludedPrefixes| ensures !StartsWith(h, IncludedPrefixes[i]) {
      if i < 3 {
        assert |IncludedPrefixes[i]| > 22 && h[22] != IncludedPrefixes[i][22];
      } else {
        assert h[8] != IncludedPrefixes[i][8];
      }
    }
  }

  /** A frame whose class is `'0'` is falsy, so its object is never
      reported. */
  lemma ZeroClassExcluded(id: ByteString)
    ensures !ObjectWanted(RawFrame(None, None, None, Some("0"), None, Some(ObjectRef("0", id)), None))
  {
  }
}
