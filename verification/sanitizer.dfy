/** How `getFullBacktrace` of Plugin/ResponseLogger.php renders call
    arguments before they are logged: `sanitizeArguments`, `sanitizeArray` and
    `sanitizeString`. Whether sensitive data is sanitized is a setting the
    caller passes in. */
module Sanitizer {
  import opened Common
  import opened Bytes
  import opened Php
  import opened Masking

  const TruncatedMarker: ByteString := "... (truncated)"

  /** `sanitizeString`: cut to 100 bytes plus the marker first, then apply the
      six masking rules in order. The last rule's guarantee holds of every
      result: no `secret=` value survives in what is logged. */
  function SanitizeString(s: ByteString): (r: ByteString)
    ensures Masked(SecretRule, r)
  {
    var t := Truncate(s, 100, TruncatedMarker);
    SensitiveRuleWellFormed(5);
    assert SensitiveRules[|SensitiveRules| - 1] == SecretRule;
    ApplyRulesLastMasks(SensitiveRules, t);
    ApplyRules(SensitiveRules, t)
  }

  /** One entry of a nested array as `sanitizeArray` renders it. */
  datatype Entry = EText(t: ByteString) | ERaw(v: Value)

  function SanitizeEntry(v: Value, sanitize: bool): (e: Entry)
    ensures v.PObject? ==> e == EText("object(" + v.ref.cls + ")")
    ensures v.PArray? ==> e.EText? && |e.t| > 7 && e.t[..6] == "array(" && e.t[|e.t| - 1] == ')'
    ensures v.PString? && !sanitize && |v.s| <= 50 ==> e == EText(v.s)
    ensures v.PString? && !sanitize && |v.s| > 50 ==> e == EText(v.s[..50] + "...")
    ensures v.PString? && sanitize ==> e == EText(SanitizeString(v.s))
    ensures !v.PObject? && !v.PArray? && !v.PString? ==> e == ERaw(v)
  {
    match v
    case PObject(ref) => EText("object(" + ref.cls + ")")
    case PArray(entries) => EText("array(" + DecimalString(|entries|) + ")")
    case PString(s) => EText(if sanitize then SanitizeString(s) else Truncate(s, 50, "..."))
    case _ => ERaw(v)
  }

  /** The count written into `array(n)` reads back, with PHP's `(int)` cast,
      as the nested array's size (a PHP array holds at most `PHP_INT_MAX`
      entries). */
  lemma ArrayEntryCount(entries: PhpArray, sanitize: bool)
    requires |entries| <= LongMax
    ensures var t := SanitizeEntry(PArray(entries), sanitize).t;
      IntCast(t[6..|t| - 1]) == |entries|
  {
    var d := DecimalString(|entries|);
    var t := "array(" + d + ")";
    assert t[6..|t| - 1] == d;
    IntCastOfDecimal(|entries|);
  }

  /** The `foreach` of `sanitizeArray` from the entry whose running `$count`
      is `count`: entries are rendered while the count is at most 10; the next
      one is replaced by the marker and the loop stops. */
  function SanitizeArrayFrom(rest: PhpArray, count: nat, sanitize: bool): (r: seq<(Key, Entry)>)
    requires count <= 11
    ensures |r| == Min(|rest|, 12 - count)
    ensures forall i :: 0 <= i < |r| ==> r[i].0 == rest[i].0
    ensures forall i :: 0 <= i < |r| && count + i <= 10 ==> r[i].1 == SanitizeEntry(rest[i].1, sanitize)
    ensures |rest| > 11 - count ==> r[11 - count].1 == EText(TruncatedMarker)
    decreases |rest|
  {
    if |rest| == 0 then []
    else if count > 10 then [(rest[0].0, EText(TruncatedMarker))]
    else
      var tail := SanitizeArrayFrom(rest[1..], count + 1, sanitize);
      var head := (rest[0].0, SanitizeEntry(rest[0].1, sanitize));
      ConsShifts(head, tail, rest);
      [head] + tail
  }

  /** Index `i` of `[head] + tail` is index `i - 1` of `tail`, and index `i`
      of `rest` is index `i - 1` of `rest[1..]`. */
  lemma ConsShifts<T, U>(head: T, tail: seq<T>, rest: seq<U>)
    requires |rest| > 0
    ensures forall i :: 1 <= i < |[head] + tail| ==> ([head] + tail)[i] == tail[i - 1]
    ensures forall i :: 1 <= i < |rest| ==> rest[1..][i - 1] == rest[i]
  {
  }

  /** `sanitizeArray`: at most 11 rendered entries, then one marker entry under
      the twelfth key when there are more; keys keep their order. */
  function SanitizeArray(a: PhpArray, sanitize: bool): (r: seq<(Key, Entry)>)
    ensures |r| == Min(|a|, 12)
    ensures KeysOf(r) == KeysOf(a)[..|r|]
    ensures forall i :: 0 <= i < |r| && i < 11 ==> r[i].1 == SanitizeEntry(a[i].1, sanitize)
    ensures |a| > 11 ==> r[11].1 == EText(TruncatedMarker)
  {
    SanitizeArrayFrom(a, 0, sanitize)
  }

  /** One call argument as `sanitizeArguments` renders it. */
  datatype Sanitized =
    | SObject(ref: ObjectRef)
    | SArray(count: nat, contents: seq<(Key, Entry)>)
    | SResource(kind: ByteString)
    | SString(length: nat, value: ByteString)
    | SNumber(n: Value)
    | SText(t: ByteString)

  function SanitizeArgument(v: Value, sanitize: bool): (r: Sanitized)
    ensures v.PString? ==> r.SString? && r.length == |v.s|
    ensures v.PString? && sanitize ==> r.value == SanitizeString(v.s)
    ensures v.PString? && !sanitize && |v.s| <= 100 ==> r.value == v.s
    ensures v.PString? && !sanitize && |v.s| > 100 ==> r.value == v.s[..100] + TruncatedMarker
    ensures v.PObject? ==> r == SObject(v.ref)
    ensures v.PArray? ==> r.SArray? && r.count == |v.entries| && |r.contents| <= 12
    ensures v.PArray? ==> r.contents == SanitizeArray(v.entries, sanitize)
    ensures v.PResource? ==> r == SResource(v.kind)
    ensures v.PClosedResource? ==> r == SText("resource (closed)")
    ensures v.PInt? || v.PFloat? ==> r == SNumber(v)
    ensures v.PBool? ==> r == SText(if v.b then "true" else "false")
    ensures v.PNull? ==> r == SText("null")
  {
    match v
    case PObject(ref) => SObject(ref)
    case PArray(entries) => SArray(|entries|, SanitizeArray(entries, sanitize))
    case PResource(kind) => SResource(kind)
    case PString(s) =>
      SString(|s|, if sanitize then SanitizeString(s) else Truncate(s, 100, TruncatedMarker))
    case PInt(_) => SNumber(v)
    case PFloat(_) => SNumber(v)
    case PBool(b) => SText(if b then "true" else "false")
    case PNull => SText("null")
    case PClosedResource => SText(TypeName(v))
  }

  /** `sanitizeArguments`: every argument rendered under its own key. */
  function SanitizeArguments(args: PhpArray, sanitize: bool): (r: seq<(Key, Sanitized)>)
    ensures |r| == |args|
    ensures KeysOf(r) == KeysOf(args)
    ensures forall i :: 0 <= i < |r| ==> r[i].1 == SanitizeArgument(args[i].1, sanitize)
  {
    seq(|args|, i requires 0 <= i < |args| => (args[i].0, SanitizeArgument(args[i].1, sanitize)))
  }

  // ---------------------------------------------------------------------
  // What the rendering promises.
  // ---------------------------------------------------------------------

  /** Without sanitizing, a string argument keeps its bytes up to 100 and is
      marked when it was longer; the recorded length is always the original. */
  lemma UnsanitizedString(s: ByteString)
    ensures var r := SanitizeArgument(PString(s), false);
      && r.length == |s|
      && (|s| <= 100 ==> r.value == s)
      && (|s| > 100 ==> r.value == s[..100] + TruncatedMarker && |r.value| == 115)
  {
  }

  /** A short string in which no rule matches anywhere is logged unchanged. */
  lemma SanitizeStringNoKey(s: ByteString)
    requires |s| <= 100
    requires forall i, q :: 0 <= i < |SensitiveRules| && 0 <= q < |s| ==>
      MatchLen(SensitiveRules[i], s[q..]).None?
    ensures SanitizeString(s) == s
  {
    ApplyRulesNoMatch(SensitiveRules, s);
  }
}

module SanitizerExamples {
  import opened Common
  import opened Bytes
  import opened Scanning
  import opened Masking
  import opened Sanitizer

  /** Rules two to six find nothing in `x`. */
  predicate LaterRulesSilent(x: ByteString)
  {
    forall i, q :: 1 <= i < |SensitiveRules| && 0 <= q < |x| ==> MatchLen(SensitiveRules[i], x[q..]).None?
  }

  lemma LaterRulesKeep(x: ByteString)
    requires LaterRulesSilent(x)
    ensures ApplyRules(SensitiveRules[1..], x) == x
  {
    var rest := SensitiveRules[1..];
    forall i, q | 0 <= i < |rest| && 0 <= q < |x| ensures MatchLen(rest[i], x[q..]).None? {
      assert rest[i] == SensitiveRules[i + 1];
    }
    ApplyRulesNoMatch(rest, x);
  }

  /** Rules two to six, one at a time, find nothing in `x`. */
  predicate SilentFor(p: Pattern, x: ByteString)
  {
    forall q :: 0 <= q < |x| ==> MatchLen(p, x[q..]).None?
  }

  lemma SilentForAll(x: ByteString)
    requires SilentFor(AuthorizationRule, x) && SilentFor(BearerRule, x) && SilentFor(ApiKeyRule, x)
    requires SilentFor(TokenRule, x) && SilentFor(SecretRule, x)
    ensures LaterRulesSilent(x)
  {
    forall i, q | 1 <= i < |SensitiveRules| && 0 <= q < |x|
      ensures MatchLen(SensitiveRules[i], x[q..]).None?
    {
      if i == 1 {
        assert SensitiveRules[i] == AuthorizationRule;
      } else if i == 2 {
        assert SensitiveRules[i] == BearerRule;
      } else if i == 3 {
        assert SensitiveRules[i] == ApiKeyRule;
      } else if i == 4 {
        assert SensitiveRules[i] == TokenRule;
      } else {
        assert SensitiveRules[i] == SecretRule;
      }
    }
  }

  const MaskedValue: ByteString := "password=***&x=1"

  lemma MaskedValueAuthorization() ensures SilentFor(AuthorizationRule, MaskedValue) {
    NoMatchByClash(AuthorizationRule, MaskedValue);
  }
  lemma MaskedValueBearer() ensures SilentFor(BearerRule, MaskedValue) {
    NoMatchByClash(BearerRule, MaskedValue);
  }
  lemma MaskedValueApiKey() ensures SilentFor(ApiKeyRule, MaskedValue) {
    NoMatchByClash(ApiKeyRule, MaskedValue);
  }
  lemma MaskedValueToken() ensures SilentFor(TokenRule, MaskedValue) {
    NoMatchByClash(TokenRule, MaskedValue);
  }
  lemma MaskedValueSecret() ensures SilentFor(SecretRule, MaskedValue) {
    NoMatchByClash(SecretRule, MaskedValue);
  }

  const PasswordInput: ByteString := "password=hunter2&x=1"

  lemma PasswordInputMatch()
    ensures MatchLen(PasswordRule, PasswordInput) == Some(16)
  {
    var s0 := PasswordInput;
    var p := PasswordRule;
    assert s0[..9] == p.heads[0];
    FirstHeadLen(p.heads, s0);
    assert s0[16] == '&';
    forall k | 0 <= k < 7 ensures s0[9..][k] != '&' {
      assert s0[9..][k] == s0[9 + k];
    }
    RunLenIs(s0[9..], '&', 7);
    MatchLenIs(p, s0, 9, 7);
  }

  lemma PasswordTailKept()
    ensures ReplaceAll(PasswordRule, "&x=1") == "&x=1"
  {
    NoMatchByClash(PasswordRule, "&x=1");
    ReplaceAllNoMatch(PasswordRule, "&x=1");
  }

  /** The password rule alone turns the example into its masked form. */
  lemma PasswordPassExample()
    ensures ReplaceAll(PasswordRule, PasswordInput) == MaskedValue
  {
    PasswordInputMatch();
    ReplaceAllStep(PasswordRule, PasswordInput, 16);
    assert PasswordInput[16..] == "&x=1";
    PasswordTailKept();
    MaskedValueSplit();
  }

  lemma MaskedValueSplit()
    ensures PasswordRule.replacement + "&x=1" == MaskedValue
  {
    var r: ByteString := PasswordRule.replacement + "&x=1";
    assert |r| == |MaskedValue|;
    forall k | 0 <= k < |r| ensures r[k] == MaskedValue[k] {
      if k < 12 {
        assert r[k] == PasswordRule.replacement[k];
      }
    }
  }

  /** The documented example: only the password value is hidden, and the
      rest of the query string is kept. */
  lemma PasswordExample()
    ensures SanitizeString("password=hunter2&x=1") == "password=***&x=1"
  {
    var s0 := PasswordInput;
    assert Truncate(s0, 100, TruncatedMarker) == s0;
    assert SensitiveRules[0] == PasswordRule;
    PasswordPassExample();
    MaskedValueAuthorization();
    MaskedValueBearer();
    MaskedValueApiKey();
    MaskedValueToken();
    MaskedValueSecret();
    SilentForAll(MaskedValue);
    LaterRulesKeep(MaskedValue);
  }
  lemma MaskedPasswordAuthorization() ensures SilentFor(AuthorizationRule, PasswordRule.replacement) {
    NoMatchByClash(AuthorizationRule, PasswordRule.replacement);
  }
  lemma MaskedPasswordBearer() ensures SilentFor(BearerRule, PasswordRule.replacement) {
    NoMatchByClash(BearerRule, PasswordRule.replacement);
  }
  lemma MaskedPasswordApiKey() ensures SilentFor(ApiKeyRule, PasswordRule.replacement) {
    NoMatchByClash(ApiKeyRule, PasswordRule.replacement);
  }
  lemma MaskedPasswordToken() ensures SilentFor(TokenRule, PasswordRule.replacement) {
    NoMatchByClash(TokenRule, PasswordRule.replacement);
  }
  lemma MaskedPasswordSecret() ensures SilentFor(SecretRule, PasswordRule.replacement) {
    NoMatchByClash(SecretRule, PasswordRule.replacement);
  }

  /** Truncation happens before masking: when a password value runs past
      byte 100, the mask swallows the truncation marker as well, so the logged
      value is the bare replacement. */
  lemma TruncatedPasswordSwallowsMarker(s: ByteString)
    requires |s| > 100 && s[..9] == "password="
    requires forall k :: 0 <= k < 100 ==> s[k] != '&'
    ensures SanitizeString(s) == "password=***"
  {
    var p := PasswordRule;
    var t := Truncate(s, 100, TruncatedMarker);
    TruncatedMatchesWhole(s);
    ReplaceAllStep(p, t, |t|);
    assert t[|t|..] == [];
    assert ReplaceAll(p, t) == p.replacement;
    assert SensitiveRules[0] == PasswordRule;
    MaskedPasswordAuthorization();
    MaskedPasswordBearer();
    MaskedPasswordApiKey();
    MaskedPasswordToken();
    MaskedPasswordSecret();
    SilentForAll(p.replacement);
    LaterRulesKeep(p.replacement);
  }

  lemma TruncatedMatchesWhole(s: ByteString)
    requires |s| > 100 && s[..9] == "password="
    requires forall k :: 0 <= k < 100 ==> s[k] != '&'
    ensures var t := Truncate(s, 100, TruncatedMarker);
      MatchLen(PasswordRule, t) == Some(|t|)
  {
    var p := PasswordRule;
    var t := Truncate(s, 100, TruncatedMarker);
    assert t[..9] == p.heads[0];
    FirstHeadLen(p.heads, t);
    forall k | 0 <= k < |t| - 9 ensures t[9..][k] != '&' {
      if 9 + k >= 100 {
        assert t[9 + k] == TruncatedMarker[9 + k - 100];
      }
    }
    RunLenIs(t[9..], '&', |t| - 9);
    MatchLenIs(p, t, 9, |t| - 9);
  }

  /** Matching ignores case but the replacement is the lower-case key. */
  lemma UpperCaseKeyLowered()
    ensures ReplaceAll(PasswordRule, "PASSWORD=x") == "password=***"
  {
    var p := PasswordRule;
    var s0: ByteString := "PASSWORD=x";
    UpperCaseKeyMatch();
    ReplaceAllStep(p, s0, 10);
    assert s0[10..] == [];
    assert ReplaceAll(p, s0) == p.replacement + [];
  }

  lemma UpperCaseKeyMatch()
    ensures MatchLen(PasswordRule, "PASSWORD=x") == Some(10)
  {
    var p := PasswordRule;
    var s0: ByteString := "PASSWORD=x";
    forall k | 0 <= k < 9 ensures Fold(s0[k]) == Fold(p.heads[0][k]) {
    }
    HeadMatchesPointwise(p.heads[0], s0);
    FirstHeadLen(p.heads, s0);
    RunLenIs(s0[9..], '&', 1);
    MatchLenIs(p, s0, 9, 1);
  }

  const CsrfInput: ByteString := "csrf_token=abc"

  /** `token=` also matches inside a longer key such as `csrf_token=`. */
  lemma TokenInsideLongerKey()
    ensures ReplaceAll(TokenRule, CsrfInput) == "csrf_token=***"
  {
    var p := TokenRule;
    var m := MatcherOf(p);
    CsrfPrefixUnmatched();
    CsrfTokenMatch();
    ScanAtFirstMatch(m, p.replacement, CsrfInput, 5);
    assert CsrfInput[5 + 9..] == [];
    assert ReplaceAll(p, CsrfInput) == CsrfInput[..5] + p.replacement + [];
    CsrfSplit();
  }

  lemma CsrfPrefixUnmatched()
    ensures forall q :: 0 <= q < 5 ==> MatcherOf(TokenRule)(CsrfInput[q..]).None?
  {
    forall q | 0 <= q < 5 ensures MatchLen(TokenRule, CsrfInput[q..]).None? {
      ClashNoHeadMatch(TokenRule.heads[0], CsrfInput[q..]);
      HeadLenNone(TokenRule.heads, CsrfInput[q..]);
    }
  }

  lemma CsrfTokenMatch()
    ensures MatcherOf(TokenRule)(CsrfInput[5..]) == Some(9)
  {
    var p := TokenRule;
    var x := CsrfInput[5..];
    assert x[..6] == p.heads[0];
    FirstHeadLen(p.heads, x);
    RunLenIs(x[6..], '&', 3);
    MatchLenIs(p, x, 6, 3);
  }

  lemma CsrfSplit()
    ensures CsrfInput[..5] + TokenRule.replacement + [] == "csrf_token=***"
  {
    var r: ByteString := CsrfInput[..5] + TokenRule.replacement + [];
    assert |r| == 14;
    forall k | 0 <= k < 14 ensures r[k] == "csrf_token=***"[k] {
      if k < 5 {
        assert r[k] == CsrfInput[k];
      } else {
        assert r[k] == TokenRule.replacement[k - 5];
      }
    }
  }
}
