/** `logRedirect` as Plugin/ResponseLogger.php and Plugin/DebugPlugin.php both
    write it: a record of eight fixed keys, a request-data section and a
    backtrace section switched on by flags, logged as one info record; an
    `\Exception` from a collaborator turns into one error line instead. */
module Redirect {
  import opened Common
  import opened Bytes
  import opened Php
  import opened Config
  import opened Events

  const ViaRedirectMethod: ByteString := "302 (via redirect method)"
  const NotAvailable: ByteString := "N/A"
  const RedirectMessage: ByteString := "REDIRECT DETECTED"
  const ErrorPrefix: ByteString := "Error logging redirect: "
  const BacktraceKey: ByteString := "full_backtrace"

  /** `$statusCode ?: '302 (via redirect method)'`: a missing or zero code
      is reported as a redirect issued through `redirect()`. */
  function StatusField(statusCode: Option<int>): (r: Value)
    ensures r != PInt(0)
    ensures r.PInt? <==> statusCode.Some? && statusCode.value != 0
    ensures r.PInt? ==> r.i == statusCode.value
    ensures !r.PInt? ==> r == PString(ViaRedirectMethod)
  {
    if statusCode.Some? && statusCode.value != 0 then PInt(statusCode.value)
    else PString(ViaRedirectMethod)
  }

  /** `$redirectUrl ?: (Location header ? its value : 'N/A')`. */
  function RedirectUrl(url: Option<ByteString>, location: Option<ByteString>): (r: ByteString)
    ensures url.Some? && IsTruthy(url.value) ==> r == url.value
    ensures (url.None? || !IsTruthy(url.value)) && location.Some? ==> r == location.value
    ensures (url.None? || !IsTruthy(url.value)) && location.None? ==> r == NotAvailable
    ensures IsTruthy(r) || location == Some(r)
  {
    if url.Some? && IsTruthy(url.value) then url.value
    else if location.Some? then location.value
    else NotAvailable
  }

  const BaseKeys: seq<ByteString> :=
    ["timestamp", "status_code", "current_url", "redirect_url",
     "module", "controller", "action", "full_action"]

  const RequestDataKeys: seq<ByteString> :=
    ["request_params", "request_method", "http_referer", "user_agent", "ip_address"]

  function BaseRecord(now: ByteString, req: Request, status: Value, url: ByteString): (c: Context)
    ensures KeysOf(c) == BaseKeys
  {
    Entries(BaseKeys, [
      Str(now), Val(status), Str(req.uri), Str(url),
      Str(req.moduleName), Str(req.controller), Str(req.action), Str(req.fullAction)])
  }

  function RequestData(req: Request): (c: Context)
    ensures KeysOf(c) == RequestDataKeys
  {
    Entries(RequestDataKeys, [
      Val(PArray(req.params)), Str(req.httpMethod), Val(req.referer), Val(req.userAgent), Val(req.clientIp)])
  }

  /** The info record's context when nothing throws; `backtrace` is what
      the backtrace builder returned, when backtraces are logged. */
  function Record(s: Settings, now: ByteString, req: Request, resp: Response,
                  statusCode: Option<int>, url: Option<ByteString>,
                  backtrace: Option<Field>): Context
  {
    BaseRecord(now, req, StatusField(statusCode), RedirectUrl(url, resp.location))
    + (if s.logRequestData then RequestData(req) else [])
    + (if backtrace.Some? then [(BacktraceKey, backtrace.value)] else [])
  }

  /** The single record `logRedirect` writes, or the throwable that escapes
      its `catch (\Exception)`. `trace` is the outcome of the backtrace
      builder, consulted only when backtraces are logged. */
  function LogRedirect(s: Settings, now: ByteString, req: Request, resp: Response,
                       statusCode: Option<int>, url: Option<ByteString>,
                       assemblyFault: Option<Throwable>, trace: Outcome<Field>): (r: Run<()>)
    ensures |r.events| <= 1
    ensures r.outcome.Returned? <==> |r.events| == 1
    ensures r.outcome.Raised? ==> r.outcome.thrown.Error?
    ensures assemblyFault.None? && (!s.logBacktrace || trace.Returned?) ==>
      && r.outcome.Returned?
      && r.events[0].level == InfoLevel
      && r.events[0].message == RedirectMessage
      && KeysOf(r.events[0].context) ==
           BaseKeys + (if s.logRequestData then RequestDataKeys else [])
           + (if s.logBacktrace then [BacktraceKey] else [])
      && Lookup(r.events[0].context, "status_code") == Some(Val(StatusField(statusCode)))
      && Lookup(r.events[0].context, "redirect_url") == Some(Str(RedirectUrl(url, resp.location)))
      && (s.logBacktrace ==> Lookup(r.events[0].context, BacktraceKey) == Some(trace.value))
    ensures assemblyFault.Some? && assemblyFault.value.Exception? ==>
      r.events == [Event(ErrorLevel, ErrorPrefix + assemblyFault.value.message, [])]
    ensures assemblyFault.Some? && assemblyFault.value.Error? ==>
      r == Run([], Raised(assemblyFault.value))
    ensures assemblyFault.None? && s.logBacktrace && trace.Raised? && trace.thrown.Exception? ==>
      r.events == [Event(ErrorLevel, ErrorPrefix + trace.thrown.message, [])]
    ensures assemblyFault.None? && s.logBacktrace && trace.Raised? && trace.thrown.Error? ==>
      r == Run([], Raised(trace.thrown))
  {
    var thrown := if assemblyFault.Some? then assemblyFault
                  else if s.logBacktrace && trace.Raised? then Some(trace.thrown)
                  else None;
    match thrown
    case Some(Exception(m)) => Run([Event(ErrorLevel, ErrorPrefix + m, [])], Returned(()))
    case Some(Error(m)) => Run([], Raised(Error(m)))
    case None =>
      var bt := if s.logBacktrace then Some(trace.value) else None;
      var c := Record(s, now, req, resp, statusCode, url, bt);
      RecordNames(s, now, req, resp, statusCode, url, bt);
      RecordFields(s, now, req, resp, statusCode, url, bt);
      Run([Event(InfoLevel, RedirectMessage, c)], Returned(()))
  }

  /** The record's keys: the eight fixed ones, then each switched-on
      section. */
  lemma RecordNames(s: Settings, now: ByteString, req: Request, resp: Response,
                    statusCode: Option<int>, url: Option<ByteString>, backtrace: Option<Field>)
    ensures KeysOf(Record(s, now, req, resp, statusCode, url, backtrace)) ==
      BaseKeys + (if s.logRequestData then RequestDataKeys else [])
      + (if backtrace.Some? then [BacktraceKey] else [])
  {
    var base := BaseRecord(now, req, StatusField(statusCode), RedirectUrl(url, resp.location));
    var extra := if s.logRequestData then RequestData(req) else [];
    var bt: Context := if backtrace.Some? then [(BacktraceKey, backtrace.value)] else [];
    KeysOfAppend(base + extra, bt);
    KeysOfAppend(base, extra);
    assert KeysOf(base) == BaseKeys;
    assert KeysOf(extra) == if s.logRequestData then RequestDataKeys else [];
    assert KeysOf(bt) == if backtrace.Some? then [BacktraceKey] else [];
  }

  /** The values under `status_code`, `redirect_url` and the backtrace key. */
  lemma RecordFields(s: Settings, now: ByteString, req: Request, resp: Response,
                     statusCode: Option<int>, url: Option<ByteString>, backtrace: Option<Field>)
    ensures Lookup(Record(s, now, req, resp, statusCode, url, backtrace), "status_code") ==
      Some(Val(StatusField(statusCode)))
    ensures Lookup(Record(s, now, req, resp, statusCode, url, backtrace), "redirect_url") ==
      Some(Str(RedirectUrl(url, resp.location)))
    ensures backtrace.Some? ==>
      Lookup(Record(s, now, req, resp, statusCode, url, backtrace), BacktraceKey) == Some(backtrace.value)
  {
    var c := Record(s, now, req, resp, statusCode, url, backtrace);
    var base := BaseRecord(now, req, StatusField(statusCode), RedirectUrl(url, resp.location));
    assert c[0] == base[0] && c[1] == base[1] && c[2] == base[2] && c[3] == base[3];
    BaseFields(c, StatusField(statusCode), RedirectUrl(url, resp.location));
    if backtrace.Some? {
      RecordNames(s, now, req, resp, statusCode, url, backtrace);
      BacktraceKeyFresh();
      LastKeyFirst(s.logRequestData, RequestDataKeys, KeysOf(c));
      LookupAt(c, |c| - 1);
    }
  }

  /** A context that opens with the fixed entries answers `status_code` and
      `redirect_url` from them. */
  lemma BaseFields(c: Context, status: Value, url: ByteString)
    requires |c| >= 4 && c[0].0 == BaseKeys[0] && c[2].0 == BaseKeys[2]
    requires c[1] == (BaseKeys[1], Val(status)) && c[3] == (BaseKeys[3], Str(url))
    ensures Lookup(c, "status_code") == Some(Val(status))
    ensures Lookup(c, "redirect_url") == Some(Str(url))
  {
    assert |BaseKeys[0]| == 9 && |BaseKeys[1]| == 11 && |BaseKeys[2]| == 11 && |BaseKeys[3]| == 12;
    LookupAt(c, 1);
    LookupAt(c, 3);
  }

  /** A last key that differs from every fixed key and every key of the
      optional section is used by no earlier entry. */
  lemma LastKeyFirst(withSection: bool, section: seq<ByteString>, ks: seq<ByteString>)
    requires |ks| > 0
    requires ks == BaseKeys + (if withSection then section else []) + [ks[|ks| - 1]]
    requires forall i :: 0 <= i < |BaseKeys| ==> BaseKeys[i] != ks[|ks| - 1]
    requires forall i :: 0 <= i < |section| ==> section[i] != ks[|ks| - 1]
    ensures forall j :: 0 <= j < |ks| - 1 ==> ks[j] != ks[|ks| - 1]
  {
    forall j | 0 <= j < |ks| - 1 ensures ks[j] != ks[|ks| - 1] {
      if j >= |BaseKeys| {
        assert ks[j] == section[j - |BaseKeys|];
      }
    }
  }

  /** The lookup finds the entry at `i` when no earlier entry has its key. */
  lemma {:induction false} LookupAt(c: Context, i: nat)
    requires i < |c|
    requires forall j :: 0 <= j < i ==> c[j].0 != c[i].0
    ensures Lookup(c, c[i].0) == Some(c[i].1)
    decreases i
  {
    if i > 0 {
      LookupAt(c[1..], i - 1);
    }
  }

  /** No two keys of the record coincide, so it is a genuine PHP array and
      no section overwrites another. */
  lemma KeysDistinct()
    ensures forall i, j :: 0 <= i < j < |BaseKeys + RequestDataKeys + [BacktraceKey]| ==>
      (BaseKeys + RequestDataKeys + [BacktraceKey])[i] != (BaseKeys + RequestDataKeys + [BacktraceKey])[j]
  {
    var ks := BaseKeys + RequestDataKeys + [BacktraceKey];
    forall i, j | 0 <= i < j < |ks| ensures ks[i] != ks[j] {
      assert |ks[i]| != |ks[j]| || ks[i][0] != ks[j][0] || ks[i][1] != ks[j][1]
        || ks[i][|ks[i]| - 1] != ks[j][|ks[j]| - 1];
    }
  }

  lemma BacktraceKeyFresh()
    ensures forall i :: 0 <= i < |BaseKeys| ==> BaseKeys[i] != BacktraceKey
    ensures forall i :: 0 <= i < |RequestDataKeys| ==> RequestDataKeys[i] != BacktraceKey
  {
    KeysDistinct();
    var all := BaseKeys + RequestDataKeys + [BacktraceKey];
    assert all[|all| - 1] == BacktraceKey;
    forall i | 0 <= i < |BaseKeys| ensures BaseKeys[i] != BacktraceKey {
      assert all[i] == BaseKeys[i];
    }
    forall i | 0 <= i < |RequestDataKeys| ensures RequestDataKeys[i] != BacktraceKey {
      assert all[|BaseKeys| + i] == RequestDataKeys[i];
    }
  }

  /** `?:` treats `'0'` like an absent url: the header decides. */
  lemma ZeroUrlFallsBack(location: ByteString)
    ensures RedirectUrl(Some("0"), Some(location)) == location
    ensures RedirectUrl(Some(""), None) == NotAvailable
    ensures RedirectUrl(None, None) == NotAvailable
  {
  }

  /** A given status code of 0 is reported like a missing one. */
  lemma ZeroStatusFallsBack()
    ensures StatusField(Some(0)) == StatusField(None) == PString(ViaRedirectMethod)
  {
  }
}
