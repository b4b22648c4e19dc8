# CodeDrop DebugRedirect — a Dafny model

The module is a Magento 2 debugging extension. It logs every HTTP redirect a
store issues, together with the request that caused it and a backtrace of
the code that asked for it. This project models its core in Dafny and proves
properties of the model. The core has four parts.

- **The activation gate and hook decisions.** Every hook runs only when the
  module is enabled and the request is not an admin request while admin
  requests are excluded. A response is logged when its status is one of
  301, 302, 303, 307 and 308. The hooks leave their arguments and results
  unchanged: the before-plugins return `null`, and the front-controller
  logger returns `[$request]`. `aroundMatch` calls its continuation exactly
  once and returns its result as it is.
- **Redirect record assembly.** The record has eight fixed keys, a
  request-data section and a backtrace section, each section switched on by
  a setting. The fallbacks follow PHP `?:` truthiness, so `''` and `'0'`
  count as absent. An `\Exception` from a collaborator becomes one error
  line, or nothing at all in the older class. An `\Error` escapes the
  `catch (\Exception)`.
- **Three backtrace simplifications.**
  - Plugin/ResponseLogger.php drops its own helper frames.
  - Plugin/DebugPlugin.php skips the first two frames.
  - src/Plugin/ResponseLogger.php drops framework and own frames, keeps
    located frames and then keeps the first ten.
- **The argument sanitizer.** Every call argument becomes a tagged
  rendering. Nested arrays are capped at eleven entries plus a marker.
  Strings are truncated by byte length. Six case-insensitive masking rules,
  each equivalent to its `preg_replace` pattern, hide the values of
  sensitive keys.

The configuration helper (src/Helper/Data.php) is modelled as readers over a
map from configuration path to stored string.

## Layout

| file | module | what it holds |
|---|---|---|
| common.dfy | Common | `Option`, `Min`/`Max`, `Take`/`Drop`, an order-preserving filter-map |
| bytes.dfy | Bytes | byte strings and the PHP string primitives used: case folding, `strpos(..) === 0`, `substr` truncation, truthiness, `(int)` casts, `str_replace` |
| php.dfy | Php | PHP values, array keys, `\Exception`/`\Error`, outcomes, `debug_backtrace` frames and the capture limit |
| scan.dfy | Scanning | `preg_replace` as a left-to-right scan with an abstract matcher, and its masking theorem |
| masking.dfy | Masking | the six rules as explicit matchers, their well-formedness, and the chain of passes |
| sanitizer.dfy | Sanitizer, SanitizerExamples | `sanitizeArguments`, `sanitizeArray`, `sanitizeString`, and worked examples |
| config.dfy | Config | src/Helper/Data.php |
| events.dfy | Events | requests, responses, frames, log records, faults and hook runs |
| redirect.dfy | Redirect | the `logRedirect` shared by Plugin/ResponseLogger.php and Plugin/DebugPlugin.php |
| response_logger.dfy | ResponseLogger | Plugin/ResponseLogger.php |
| debug_plugin.dfy | DebugPlugin | Plugin/DebugPlugin.php |
| src_response_logger.dfy | SrcResponseLogger | src/Plugin/ResponseLogger.php |
| front_controller_logger.dfy | FrontControllerLogger | Plugin/FrontControllerLogger.php |

A hook is a pure function of:
- an environment: the settings, the injected request, the clock reading,
  the installation root (`BP`), the call stack at the capture point, and
  which collaborators throw;
- its own arguments.

It returns a `Run`: the records it logged, in order, and how it ended (a
returned value, or the throwable that escaped).

Three behaviours of the code are worth stating plainly:
- `sanitizeString` truncates before it masks, so a mask can swallow the
  `... (truncated)` marker (`SanitizerExamples.TruncatedPasswordSwallowsMarker`).
- `getBacktraceLimit` keeps a negative stored limit; only a value that casts
  to 0 is replaced by 15. `debug_backtrace` then captures no frame at all
  (`Config.NegativeLimitKept`, `Php.Capture`).
- `debug_backtrace` takes its limit as a 32-bit C `int`, so a stored limit
  beyond that range wraps. The clamped `PHP_INT_MAX` of a huge stored limit
  reads as -1 and captures no frame (`Php.WrappedLimits`,
  `ResponseLogger.HugeStoredLimitLogsNoFrame`).

## Model

| member | source | states |
|---|---|---|
| Bytes.IntCast | src/Helper/Data.php:35-39 | the `(int)` cast of a stored string always lies in the 64-bit range |
| Bytes.IntCastOfDecimal | src/Helper/Data.php:35-39 | the decimal text of n casts back to n, clamped to `PHP_INT_MAX` |
| Bytes.IntCastOfNegativeDecimal | src/Helper/Data.php:35-39 | `-` followed by the decimal text of n casts to -n, clamped to `PHP_INT_MIN` |
| Bytes.IntCastOfExponent | src/Helper/Data.php:35-39 | a mantissa with an exponent, `me k`, casts to m times 10 to the k, clamped to `PHP_INT_MAX` |
| Bytes.IntCastOfFraction | src/Helper/Data.php:35-39 | a fraction is cut off toward zero: `m.ddd` casts to m |
| Bytes.FractionTruncates | src/Helper/Data.php:35-39 | scaling down by the number of fraction digits drops exactly the fraction, so a value never rounds up |
| Bytes.ShiftIsProduct | src/Helper/Data.php:35-39 | scaling by an exponent is multiplication by the power of ten |
| Config.BacktraceLimit | src/Helper/Data.php:33-40 | the limit is never 0; it is 15 exactly when the stored value casts to 0 (unset, empty, `'0'`, non-numeric, or a fraction below 1), and the cast value otherwise |
| Config.BacktraceLimitOfExponent | src/Helper/Data.php:33-40 | a limit stored as `me k` with m > 0 reads back as m times 10 to the k, clamped to `PHP_INT_MAX` |
| Config.BacktraceLimitOfDecimal | src/Helper/Data.php:33-40 | a limit stored as the decimal text of n reads back as n (clamped to `PHP_INT_MAX`), or as 15 when n is 0 |
| Config.NegativeLimitKept | src/Helper/Data.php:33-40 | a stored `-n` reads back as -n (clamped to `PHP_INT_MIN`); only zero is replaced by the default |
| Config.UnsetLimitDefault | src/Helper/Data.php:33-40 | with no stored limit the limit is 15 |
| Config.AdminAreaCaseSensitive | src/Helper/Data.php:60-63 | `admin` is the admin area; `Admin` and a missing front name are not |
| Config.PathsDistinct | src/Helper/Data.php:9-13 | the five paths lie under `debug/redirect/` and are pairwise distinct |
| Config.ReadersLocal | src/Helper/Data.php:15-58 | storing any value under any other path leaves every setting as it was |
| Config.FlagReadsOwnPath | src/Helper/Data.php:15-22 | a truthy value stored under the enabled path turns that flag on and changes no other setting |
| Php.Int32Of | Plugin/ResponseLogger.php:100 | the limit the runtime sees lies in the 32-bit range, equals the given limit inside that range, and differs from it by a multiple of 2^32 |
| Php.Capture | Plugin/ResponseLogger.php:100 | with the limit cut to 32 bits, a positive limit captures the innermost min(limit, depth) frames, 0 captures all of them, and a negative limit captures none; so a limit between 1 and 2^31 - 1 captures min(limit, depth) and one between -2^31 and -1 captures none; the capture is always a prefix of the stack |
| Php.WrappedLimits | Plugin/ResponseLogger.php:100 | `PHP_INT_MAX` and 2^31 capture nothing, 2^32 captures every frame, and 2^32 + 5 captures five |
| Scanning.ScanMasks | Plugin/ResponseLogger.php:233-235 | for any matcher meeting the guard conditions, every match left in the scan's output is exactly the replacement |
| Scanning.ScanNoMatch | Plugin/ResponseLogger.php:233-235 | a subject in which the pattern matches nowhere comes out unchanged |
| Scanning.ScanAtFirstMatch | Plugin/ResponseLogger.php:233-235 | the scan copies everything before the leftmost match, writes the replacement, and resumes after the match |
| Masking.HeadLenSpec | Plugin/ResponseLogger.php:228 | the alternatives of a key (`api_key`, `api-key`, `apikey`) find nothing exactly when none matches, and otherwise the length of one that does |
| Masking.RunLenSpec | Plugin/ResponseLogger.php:225 | the greedy value run contains no stop byte and is ended by the stop byte or the end of the string |
| Masking.RunLenIs | Plugin/ResponseLogger.php:225 | a stop-free run ended by the stop byte or the end is exactly what the greedy run measures |
| Masking.SensitiveRuleWellFormed | Plugin/ResponseLogger.php:224-231 | each of the six rules meets the shape conditions under which a replacement can never expose a value |
| Masking.ReplaceAllStep | Plugin/ResponseLogger.php:233-235 | where a rule matches at the start, `preg_replace` writes the replacement and carries on after the match |
| Masking.ReplaceAllNoMatch | Plugin/ResponseLogger.php:233-235 | a string in which one rule matches nowhere is left unchanged by that rule |
| Masking.ReplaceAllMasks | Plugin/ResponseLogger.php:224-235 | after one well-formed rule has been applied, every remaining match of that rule is exactly its replacement text |
| Masking.EachPassMasks | Plugin/ResponseLogger.php:224-235 | each of the six passes leaves no value of its own key unmasked |
| Masking.ApplyRulesNoMatch | Plugin/ResponseLogger.php:233-235 | a string in which no rule matches anywhere passes through all the rules unchanged |
| Masking.ApplyRulesLastMasks | Plugin/ResponseLogger.php:233-235 | the last pass's masking guarantee holds of the whole chain's output |
| Masking.ApplyRulesPrefix | Plugin/ResponseLogger.php:233-235 | applying the rules is applying all but the last, then the last |
| Sanitizer.SanitizeString | Plugin/ResponseLogger.php:216-238 | with sanitizing on, no `secret=` value survives in any logged string: every match of the last rule in the output is its replacement |
| Sanitizer.SanitizeEntry | Plugin/ResponseLogger.php:198-210 | objects become `object(C)`, arrays `array(n)` with n in decimal; an unsanitized string of at most 50 bytes stays as it is and a longer one becomes its first 50 bytes and `...`; a sanitized string is `sanitizeString` of it; scalars pass through |
| Sanitizer.ArrayEntryCount | Plugin/ResponseLogger.php:201 | the count written in `array(n)` casts back to the nested array's size |
| Sanitizer.SanitizeArray | Plugin/ResponseLogger.php:187-214 | the result has min(size, 12) entries under the input's first keys, in order; the first eleven are rendered, and a twelfth, if present, is the truncation marker |
| Sanitizer.SanitizeArgument | Plugin/ResponseLogger.php:140-181 | strings keep their original byte length, with the value `sanitizeString` of them when sanitizing and otherwise cut to 100 bytes plus the marker; arrays keep their original count and their contents are `sanitizeArray` of them (at most 12 entries); a resource keeps its type and a closed resource reads `resource (closed)`; objects keep their class and identity; numbers pass through; booleans become `true`/`false` and null becomes `null` |
| Sanitizer.SanitizeArguments | Plugin/ResponseLogger.php:136-185 | every argument is rendered in place under its own key |
| Sanitizer.UnsanitizedString | Plugin/ResponseLogger.php:166-171 | without sanitizing, a string of at most 100 bytes is kept and a longer one becomes its first 100 bytes plus the marker (115 bytes) |
| Sanitizer.SanitizeStringNoKey | Plugin/ResponseLogger.php:216-238 | a string of at most 100 bytes in which no rule matches is logged unchanged |
| SanitizerExamples.PasswordExample | Plugin/ResponseLogger.php:225 | `password=hunter2&x=1` is logged as `password=***&x=1` |
| SanitizerExamples.TruncatedPasswordSwallowsMarker | Plugin/ResponseLogger.php:219-225 | when a password value runs past byte 100, the mask swallows the truncation marker and only `password=***` is logged |
| SanitizerExamples.UpperCaseKeyLowered | Plugin/ResponseLogger.php:225 | matching ignores case but the replacement writes the key in lower case: `PASSWORD=x` becomes `password=***` |
| SanitizerExamples.TokenInsideLongerKey | Plugin/ResponseLogger.php:229 | `token=` also matches inside `csrf_token=`, so `csrf_token=abc` becomes `csrf_token=***` |
| Redirect.LogRedirect | Plugin/ResponseLogger.php:61-93 | at most one record, and the hook returns exactly when one is written. With no fault it is the info record with the eight fixed keys, then the request-data keys exactly when that flag is on, then `full_backtrace` exactly when backtraces are on, with the status, url and backtrace under their keys. An `\Exception` gives the single error line with its message. An `\Error` escapes with nothing logged |
| Redirect.RecordNames | Plugin/ResponseLogger.php:64-85 | the record's keys are the fixed keys, then each switched-on section's keys, in order |
| Redirect.RecordFields | Plugin/ResponseLogger.php:64-85 | looking up `status_code`, `redirect_url` and `full_backtrace` in the record gives the fallback-resolved status, the resolved url and the backtrace |
| Redirect.KeysDistinct | Plugin/ResponseLogger.php:64-85 | no two keys of the full record coincide, so no section overwrites another |
| Redirect.StatusField | Plugin/ResponseLogger.php:66 | the status is the given code when it is present and non-zero, and `302 (via redirect method)` otherwise; it is never the integer 0 |
| Redirect.RedirectUrl | Plugin/ResponseLogger.php:68 | a truthy url is used; otherwise the `Location` header's value; otherwise `N/A`; the result is truthy or the header's value |
| Redirect.ZeroUrlFallsBack | Plugin/ResponseLogger.php:68 | an explicit url of `'0'` or `''` counts as absent: the header decides, and without one the url is `N/A` |
| Redirect.ZeroStatusFallsBack | Plugin/ResponseLogger.php:66 | a status code of 0 is reported like a missing one, as `302 (via redirect method)` |
| ResponseLogger.ShouldIncludeObject | Plugin/ResponseLogger.php:240-262 | the loop answers true exactly when the class is non-empty (not `''` or `'0'`), an object is present, and the class starts with one of the five listed prefixes |
| ResponseLogger.CatalogObjectIncluded | Plugin/ResponseLogger.php:243-259 | a `Magento\Catalog\Model\Product` object is reported |
| ResponseLogger.FrameworkObjectExcluded | Plugin/ResponseLogger.php:243-259 | a `Magento\Framework\App\Http` object is not reported |
| ResponseLogger.ZeroClassExcluded | Plugin/ResponseLogger.php:251 | a frame whose class is `'0'` never reports its object |
| Events.StripRoot | Plugin/ResponseLogger.php:112 | the path never grows, and a path that does not contain the root is left as it is |
| Events.StripRootUnder | Plugin/ResponseLogger.php:112 | a file under the installation root is reported by its path relative to the root |
| ResponseLogger.FullFrameOf | Plugin/ResponseLogger.php:111-128 | a frame without a file reads `[internal function]`, and one with a file reads it with the root removed. The line is kept or null, and missing names read as empty. Arguments are attached exactly when non-empty, as the sanitized arguments under their own keys. The object is attached exactly when it is wanted |
| ResponseLogger.FullFramesAppend | Plugin/ResponseLogger.php:103-131 | the loop keeps frame order: a split stack yields the outputs of its parts one after the other |
| ResponseLogger.FullFramesSingle | Plugin/ResponseLogger.php:105-109 | a frame is dropped exactly when its class is in the plugin's namespace and its function is `getFullBacktrace` or `logRedirect` |
| ResponseLogger.FullFramesNoOwn | Plugin/ResponseLogger.php:103-131 | without own frames, every captured frame yields its entry in place |
| ResponseLogger.OwnFrameNeedsBoth | Plugin/ResponseLogger.php:105-106 | a frame of the plugin's own class is dropped exactly for those two function names |
| ResponseLogger.FullBacktrace | Plugin/ResponseLogger.php:95-134 | the output is no longer than the stack, nor than the limit when its 32-bit value is positive, and is empty when that value is negative |
| ResponseLogger.HugeStoredLimitLogsNoFrame | Plugin/ResponseLogger.php:100 | a stored limit of `PHP_INT_MAX` or more gives an empty full backtrace |
| ResponseLogger.BeforeSendResponse | Plugin/ResponseLogger.php:25-42 | nothing is logged when inactive or for a non-redirect status. A redirect status with no fault logs one record carrying that status. The detection flag is untouched |
| ResponseLogger.BeforeRedirect | Plugin/ResponseLogger.php:44-59 | the detection flag is set exactly on the active path; nothing is logged when inactive; with no fault one record is logged with the method-redirect status and the resolved url |
| ResponseLogger.SendResponseLogsIffRedirect | Plugin/ResponseLogger.php:25-42 | unless an `\Error` escapes, one record is written exactly when active with a redirect status, and the arguments pass unchanged |
| ResponseLogger.RedirectAlwaysNull | Plugin/ResponseLogger.php:44-59 | unless an `\Error` escapes, the hook returns null and writes exactly one record when active and none otherwise |
| ResponseLogger.RedirectCarriesBacktrace | Plugin/ResponseLogger.php:83-85 | with backtraces on and nothing thrown, the record carries the full backtrace of the stack under `full_backtrace` |
| DebugPlugin.BasicFrameOf | Plugin/DebugPlugin.php:196-202 | a frame without a file reads `[internal function]`, the line is kept or null, and the names are kept or empty |
| DebugPlugin.FullBacktrace | Plugin/DebugPlugin.php:185-212 | the entries are the captured frames after the first two, in order, with no class filter. An `\Exception` becomes the `error` entry with its message. An `\Error` escapes |
| DebugPlugin.ShortFramesAppend | Plugin/DebugPlugin.php:219-229 | the filter keeps frame order |
| DebugPlugin.ShortFramesSingle | Plugin/DebugPlugin.php:222-228 | a frame is kept exactly when it has both a file and a line, as file, line and function |
| DebugPlugin.ShortFramesAllLocated | Plugin/DebugPlugin.php:219-229 | when every frame is located, each yields its entry in place |
| DebugPlugin.SimplifiedBacktrace | Plugin/DebugPlugin.php:214-232 | the output has at most max(0, limit - 2) entries when the limit's 32-bit value is positive, at most max(0, depth - 2) in any case, and none when that value is negative |
| DebugPlugin.SimplifiedKeepsLocated | Plugin/DebugPlugin.php:214-232 | under any limit, when every frame after the first two is located, the simplified backtrace has max(0, captured - 2) entries, and entry i is the short form of frame i + 2 |
| DebugPlugin.BeforeSendResponse | Plugin/DebugPlugin.php:27-42 | nothing is logged when inactive or for a non-redirect status. Unless an `\Error` escapes, a redirect is logged once and the arguments pass unchanged |
| DebugPlugin.BeforeRedirect | Plugin/DebugPlugin.php:44-56 | nothing is logged when inactive; unless an `\Error` escapes, one record when active and null on every path |
| DebugPlugin.TraceExceptionInsideRecord | Plugin/DebugPlugin.php:209-211 | an `\Exception` while building the backtrace is recorded under `full_backtrace` inside the redirect record, not in place of it |
| DebugPlugin.BeforeDispatch | Plugin/DebugPlugin.php:61-82 | the arguments pass unchanged. When active, one debug record with the seven routing keys in order and a simplified backtrace of at most ten captured frames; nothing otherwise |
| DebugPlugin.AfterContext | Plugin/DebugPlugin.php:98-103 | `is_redirect` is whether the status is a redirect status, and `redirect_url` is null exactly when there is no `Location` header |
| DebugPlugin.AfterDispatch | Plugin/DebugPlugin.php:84-107 | the result is returned unchanged on every path; an HTTP response is described by one record when active, and anything else is not logged |
| DebugPlugin.CallBetweenRecords | Plugin/DebugPlugin.php:127-144 | in a before record, a call and an after record, the call is the only call and the two records are the records, in order |
| DebugPlugin.AroundMatch | Plugin/DebugPlugin.php:112-147 | the continuation is called exactly once, with the request, and its result is returned untouched. When inactive nothing is logged. When active the steps are the before record, then the call, then an after record with the action's data or the no-match record |
| DebugPlugin.NoMatchDistinct | Plugin/DebugPlugin.php:134-144 | the after record's message tells a match from no match |
| SrcResponseLogger.ClassFrames | src/Plugin/ResponseLogger.php:97-114 | no surviving entry names a class under `Magento\` or `CodeDrop\DebugRedirect\`, and the output is no longer than the input |
| SrcResponseLogger.ClassFramesAppend | src/Plugin/ResponseLogger.php:97-114 | the filter keeps frame order |
| SrcResponseLogger.ClassFramesSingle | src/Plugin/ResponseLogger.php:99-113 | a frame survives exactly when its class is outside both namespaces and it has a file and a line, as file, line, function and class |
| SrcResponseLogger.GetBacktrace | src/Plugin/ResponseLogger.php:92-117 | the result is the first min(10, n) of the n frames surviving the filter; no entry is a framework or own frame |
| SrcResponseLogger.TenFramesFinal | src/Plugin/ResponseLogger.php:116 | once ten frames survive, deeper frames never change the result |
| SrcResponseLogger.SrcRecordShape | src/Plugin/ResponseLogger.php:64-83 | the record's keys are the fixed keys, then `request_params`, `request_method` and `http_referer` when that flag is on, then `backtrace` when backtraces are on |
| SrcResponseLogger.RedirectUrlAsWritten | src/Plugin/ResponseLogger.php:68 | a truthy url is used; otherwise the header; a falsy url with no header throws the `\Error` of a method call on `false` |
| SrcResponseLogger.Silenced | src/Plugin/ResponseLogger.php:87-89 | the empty `catch (\Exception)` logs nothing; an `\Exception` is swallowed and only an `\Error` escapes |
| SrcResponseLogger.LogWith | src/Plugin/ResponseLogger.php:63-89 | a throwable from the record's collaborators, then from the url, then from the backtrace is silenced in that order; with none, the one info record with the class's own keys is logged |
| SrcResponseLogger.LogRedirectAsWritten | src/Plugin/ResponseLogger.php:61-90 | at most one record, and whatever escapes is an `\Error` with nothing logged. With no header and no truthy url the method throws, even with every collaborator working. A collaborator's throwable is silenced. Otherwise the info record with the class's own keys and the resolved url |
| SrcResponseLogger.MissingLocationRaises | src/Plugin/ResponseLogger.php:68 | a redirect without a `Location` header and without a truthy url makes the method throw, with every collaborator working |
| SrcResponseLogger.LogRedirect | src/Plugin/ResponseLogger.php:61-90 | the method with the header checked: at most one record. An `\Exception` from assembly or from the backtrace is swallowed with no output; only an `\Error` escapes. With no fault there is one info record with the class's own keys and the url falling back to `N/A` |
| SrcResponseLogger.CorrectionAgrees | src/Plugin/ResponseLogger.php:68 | where the header exists or the url is truthy, the corrected method and the method as written agree |
| SrcResponseLogger.BeforeSendResponse | src/Plugin/ResponseLogger.php:25-42 | the hook as written. Nothing is logged when inactive or for a non-redirect status, and the flag is untouched. With a `Location` header and only `\Exception`s it returns null; with no fault the redirect is logged once with the header as its url. An active redirect without a header throws the `\Error` out of the hook |
| SrcResponseLogger.BeforeRedirect | src/Plugin/ResponseLogger.php:44-59 | the hook as written. The detection flag is set exactly on the active path. With a header or a truthy url and only `\Exception`s it returns null; with no fault one record with the resolved url. With neither, the `\Error` escapes |
| SrcResponseLogger.MissingHeaderBreaksHooks | src/Plugin/ResponseLogger.php:25-68 | with every collaborator working, an active 302 response without a `Location` header makes both hooks throw |
| SrcResponseLogger.CheckedBeforeSendResponse | src/Plugin/ResponseLogger.php:25-42 | the hook on the corrected method: with only `\Exception`s among the faults it returns null; with no fault a redirect is logged once |
| SrcResponseLogger.CheckedBeforeRedirect | src/Plugin/ResponseLogger.php:44-59 | the hook on the corrected method: with only `\Exception`s it returns null; with no fault one record with the url falling back to `N/A` |
| SrcResponseLogger.CheckedHooksAgree | src/Plugin/ResponseLogger.php:25-68 | where the header exists (or, for `beforeRedirect`, the url is truthy) the corrected hooks and the hooks as written agree |
| SrcResponseLogger.ExceptionLeavesNoLine | src/Plugin/ResponseLogger.php:87-89 | an `\Exception` while assembling the record leaves no log line at all, and the hook still returns null |
| FrontControllerLogger.LoggedFrames | Plugin/FrontControllerLogger.php:32-34 | the logged frames are the captured frames after the first two, without arguments or objects, no more than limit - 2 when the limit's 32-bit value is positive |
| FrontControllerLogger.BeforeDispatch | Plugin/FrontControllerLogger.php:20-48 | `[$request]` on every path that returns, and on every path when no collaborator throws an `\Error`. Nothing is logged when inactive. When active, the backtrace record comes first and then the request record; a fault stops the logging where it happens |

## Left out

- The logger's storage: records are values in a list, and where they are written is not modelled.
- `date()`: the timestamp is an input (`Env.now`).
- `debug_backtrace` is left out as a runtime primitive. The call stack at the capture point is an input, and only the limit's effect (`Php.Capture`, including its cut to 32 bits) is modelled.
- `get_class`, `spl_object_hash`, `get_resource_type`: class names, object identities and resource kinds are opaque strings. A reported object is kept as its class and identity (`ObjectRef`) rather than as the two separate keys.
- `BP`: the installation root is an input. Stripping it is a replace-all of `root + "/"`.
- Floats are opaque and pass through; `gettype` is reduced to its names.
- `shouldSanitizeSensitiveData` has no reader in src/Helper/Data.php. Whether to sanitize is an input setting.
- Scope resolution of `scopeConfig` (store, website, default) is left out. The store is one map from path to string.
- Framework objects (request, response, router, front controller) are plain records of what their accessors answer. Which accessor throws is reduced to two fault points per hook: assembling the record, and building the backtrace. When both are given, the assembly fault is the one raised.
- The hooks of Plugin/DebugPlugin.php other than `logRedirect` have no `try`, and faults in their collaborators are not modelled.
- A router result that is truthy but not an action object is not modelled: the result is an optional `Action`.
- General regular expressions: only the six fixed patterns are modelled, each as an explicit scanner.
- Bytes.IntCast: the numeric prefix is read exactly, while PHP reads it as a double first. A mantissa beyond 2^53 is therefore not rounded, and a value beyond the double range (about 1.8e308), which PHP reads as infinity and casts to 0, is clamped to `PHP_INT_MAX` here.
- Config.BacktraceLimit: inherits the gap of Bytes.IntCast. A stored limit beyond the double range reads as 15 in PHP but as `PHP_INT_MAX` here.
- Sanitizer.ArrayEntryCount: assumes the nested array has at most `PHP_INT_MAX` entries, as any PHP array does.
- Masking.ApplyRulesLastMasks: the chain proves the masking guarantee for the last rule only. That a later pass never exposes a value hidden by an earlier one is not proved.
- Sanitizer.SanitizeString: promises the masking of `secret=` values only, for the reason given for Masking.ApplyRulesLastMasks.

## Findings

| source | as written | input that shows it | evidently intended | confidence | as-written member | corrected member |
|---|---|---|---|---|---|---|
| src/Plugin/ResponseLogger.php:68 | `$redirectUrl ?: $response->getHeader('Location')->getFieldValue()` calls a method on the `false` that `getHeader` answers when there is no `Location` header. The resulting `\Error` is not caught by `catch (\Exception)` and escapes the plugin. | `beforeSendResponse` on a 302 response without a `Location` header, or `beforeRedirect` with url `'0'` on such a response | fall back to `N/A` when the header is missing, as Plugin/ResponseLogger.php:68 does | not executed | SrcResponseLogger.LogRedirectAsWritten (shown by SrcResponseLogger.MissingLocationRaises and SrcResponseLogger.MissingHeaderBreaksHooks) | SrcResponseLogger.LogRedirect, SrcResponseLogger.CheckedBeforeSendResponse, SrcResponseLogger.CheckedBeforeRedirect (agreement elsewhere: SrcResponseLogger.CorrectionAgrees, SrcResponseLogger.CheckedHooksAgree) |
