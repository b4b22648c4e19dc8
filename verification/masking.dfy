/** The six masking rules of `sanitizeString` (Plugin/ResponseLogger.php),
    each modelled as an explicit scanner equivalent to its `preg_replace`
    call. A rule is a list of case-insensitive literal heads (tried in
    order, which is how PCRE tries an optional separator before skipping
    it), a tail (either a possibly empty run of bytes other than `&`, or a
    run of at least one byte other than a newline), and the literal that
    replaces the whole match. `preg_replace` replaces every non-overlapping
    leftmost match, scanning left to right. */
module Masking {
  import opened Common
  import opened Bytes
  import opened Scanning

  datatype Tail = UpToAmpersand | RestOfLine

  datatype Pattern = Pattern(heads: seq<ByteString>, tail: Tail, replacement: ByteString)

  /** The byte at which the greedy tail stops. */
  function Stop(t: Tail): Byte
  {
    match t
    case UpToAmpersand => '&'
    case RestOfLine => '\n'
  }

  predicate ValidHeads(p: Pattern)
  {
    |p.heads| > 0 && NonEmptyHeads(p.heads)
  }

  /** `lit` matches, ignoring ASCII case, at the start of `s`. */
  predicate HeadMatches(lit: ByteString, s: ByteString)
  {
    |lit| <= |s| && FoldAll(s[..|lit|]) == FoldAll(lit)
  }

  lemma HeadMatchesAt(lit: ByteString, s: ByteString, k: nat)
    requires HeadMatches(lit, s) && k < |lit|
    ensures Fold(s[k]) == Fold(lit[k])
  {
    FoldAllIndex(s[..|lit|], k);
    FoldAllIndex(lit, k);
  }

  lemma HeadMatchesPointwise(lit: ByteString, s: ByteString)
    requires |lit| <= |s|
    requires forall k :: 0 <= k < |lit| ==> Fold(s[k]) == Fold(lit[k])
    ensures HeadMatches(lit, s)
  {
    forall k | 0 <= k < |lit| ensures FoldAll(s[..|lit|])[k] == FoldAll(lit)[k] {
      FoldAllIndex(s[..|lit|], k);
      FoldAllIndex(lit, k);
    }
  }

  predicate NonEmptyHeads(heads: seq<ByteString>)
  {
    forall i :: 0 <= i < |heads| ==> |heads[i]| > 0
  }

  /** The length of the first head that matches at the start of `s` (an
      empty head is never written and would only yield an empty match, so it
      is passed over). */
  function HeadLen(heads: seq<ByteString>, s: ByteString): (r: Option<nat>)
    ensures r.Some? ==> 0 < r.value <= |s|
  {
    if |heads| == 0 then None
    else if |heads[0]| > 0 && HeadMatches(heads[0], s) then Some(|heads[0]|)
    else HeadLen(heads[1..], s)
  }

  /** `HeadLen` finds nothing exactly when no head matches, and otherwise the
      length of a head that does. */
  lemma {:induction false} HeadLenSpec(heads: seq<ByteString>, s: ByteString)
    requires NonEmptyHeads(heads)
    ensures HeadLen(heads, s).None? <==> forall i :: 0 <= i < |heads| ==> !HeadMatches(heads[i], s)
    ensures HeadLen(heads, s).Some? ==>
      exists i :: 0 <= i < |heads| && HeadMatches(heads[i], s) && HeadLen(heads, s).value == |heads[i]|
    decreases |heads|
  {
    if |heads| > 0 && !HeadMatches(heads[0], s) {
      HeadLenSpec(heads[1..], s);
      assert forall i :: 1 <= i < |heads| ==> heads[i] == heads[1..][i - 1];
      if HeadLen(heads, s).Some? {
        var i :| 0 <= i < |heads[1..]| && HeadMatches(heads[1..][i], s) && HeadLen(heads, s).value == |heads[1..][i]|;
        assert heads[i + 1] == heads[1..][i];
      }
    }
  }

  /** Two subjects on which the same heads match get the same head. */
  lemma {:induction false} HeadLenCongruent(heads: seq<ByteString>, s: ByteString, s': ByteString)
    requires forall i :: 0 <= i < |heads| ==> (HeadMatches(heads[i], s) <==> HeadMatches(heads[i], s'))
    ensures HeadLen(heads, s) == HeadLen(heads, s')
    decreases |heads|
  {
    if |heads| > 0 && !(|heads[0]| > 0 && HeadMatches(heads[0], s)) {
      HeadLenCongruent(heads[1..], s, s');
    }
  }

  /** The length of the longest prefix of `s` free of `stop`: what a greedy
      `[^&]*` or `.+` consumes. */
  function RunLen(s: ByteString, stop: Byte): (n: nat)
    ensures n <= |s|
  {
    if |s| == 0 || s[0] == stop then 0 else 1 + RunLen(s[1..], stop)
  }

  /** The run is maximal: free of `stop`, and ended by `stop` or the end. */
  lemma {:induction false} RunLenSpec(s: ByteString, stop: Byte)
    ensures forall k :: 0 <= k < RunLen(s, stop) ==> s[k] != stop
    ensures RunLen(s, stop) < |s| ==> s[RunLen(s, stop)] == stop
    decreases |s|
  {
    if |s| > 0 && s[0] != stop {
      RunLenSpec(s[1..], stop);
      assert forall k :: 1 <= k < |s| ==> s[k] == s[1..][k - 1];
    }
  }

  /** A run free of `stop` and ended by `stop` or the end is what `RunLen`
      measures. */
  lemma {:induction false} RunLenIs(s: ByteString, stop: Byte, n: nat)
    requires n <= |s|
    requires forall k :: 0 <= k < n ==> s[k] != stop
    requires n < |s| ==> s[n] == stop
    ensures RunLen(s, stop) == n
    decreases n
  {
    if n > 0 {
      assert forall k :: 0 <= k < n - 1 ==> s[1..][k] == s[k + 1];
      RunLenIs(s[1..], stop, n - 1);
    }
  }

  lemma {:induction false} HeadLenNone(heads: seq<ByteString>, s: ByteString)
    requires forall i :: 0 <= i < |heads| ==> !HeadMatches(heads[i], s)
    ensures HeadLen(heads, s).None?
    decreases |heads|
  {
    if |heads| > 0 {
      assert forall i :: 1 <= i < |heads| ==> heads[i] == heads[1..][i - 1];
      HeadLenNone(heads[1..], s);
    }
  }

  /** The length of the match of `p` anchored at the start of `s`, if any. */
  function MatchLen(p: Pattern, s: ByteString): (r: Option<nat>)
    ensures r.Some? ==> 0 < r.value <= |s|
  {
    match HeadLen(p.heads, s)
    case None => None
    case Some(h) =>
      var v := RunLen(s[h..], Stop(p.tail));
      if p.tail == RestOfLine && v == 0 then None else Some(h + v)
  }

  function MatcherOf(p: Pattern): Matcher
  {
    x => MatchLen(p, x)
  }

  /** A match is the first matching head followed by the tail's run. */
  lemma MatchLenIs(p: Pattern, s: ByteString, h: nat, v: nat)
    requires HeadLen(p.heads, s) == Some(h)
    requires RunLen(s[h..], Stop(p.tail)) == v
    requires p.tail == UpToAmpersand || v > 0
    ensures MatchLen(p, s) == Some(h + v)
  {
  }

  /** The first head wins when it matches. */
  lemma FirstHeadLen(heads: seq<ByteString>, s: ByteString)
    requires |heads| > 0 && |heads[0]| > 0 && HeadMatches(heads[0], s)
    ensures HeadLen(heads, s) == Some(|heads[0]|)
  {
  }

  lemma MatcherConsumes(p: Pattern)
    ensures Consumes(MatcherOf(p))
  {
  }

  /** `preg_replace` of one rule over the whole string. */
  function ReplaceAll(p: Pattern, s: ByteString): ByteString
  {
    Scan(MatcherOf(p), p.replacement, s)
  }

  /** A match at the start is replaced and the scan resumes after it. */
  lemma ReplaceAllStep(p: Pattern, s: ByteString, n: nat)
    requires MatchLen(p, s) == Some(n)
    ensures ReplaceAll(p, s) == p.replacement + ReplaceAll(p, s[n..])
  {
    MatcherConsumes(p);
    MatchStep(MatcherOf(p), p.replacement, s);
  }

  // ---------------------------------------------------------------------
  // What masking guarantees: every match left in the output is exactly the
  // replacement text, so no value that follows a key survives.
  // ---------------------------------------------------------------------

  predicate Masked(p: Pattern, t: ByteString)
  {
    forall q :: 0 <= q <= |t| && MatchLen(p, t[q..]).Some? ==>
      t[q..q + MatchLen(p, t[q..]).value] == p.replacement
  }

  /** `a` agrees, ignoring case, with `b` wherever both are defined. */
  predicate Compatible(a: ByteString, b: ByteString)
  {
    forall j :: 0 <= j < |a| && j < |b| ==> Fold(a[j]) == Fold(b[j])
  }

  /** No head begins with the byte its tail stops at. */
  predicate HeadsAvoidStop(p: Pattern)
  {
    forall i :: 0 <= i < |p.heads| && |p.heads[i]| > 0 ==> Fold(p.heads[i][0]) != Stop(p.tail)
  }

  /** The replacement is the first matching head followed by `***`, and the
      tail does not stop at `*`. */
  predicate ReplacementShape(p: Pattern)
  {
    && |p.replacement| >= 3
    && p.replacement[|p.replacement| - 3..] == "***"
    && Stop(p.tail) != '*'
    && (forall i :: 0 <= i < |p.heads| ==> |p.heads[i]| <= |p.replacement|)
    && HeadLen(p.heads, p.replacement) == Some(|p.replacement| - 3)
  }

  /** No head can start strictly inside the replacement. */
  predicate NoHeadInside(p: Pattern)
  {
    forall i, k :: 0 <= i < |p.heads| && 1 <= k < |p.replacement| ==>
      !Compatible(p.heads[i], p.replacement[k..])
  }

  /** No head can end inside the start of the replacement or of a head. */
  predicate NoOverlap(p: Pattern)
  {
    && (forall i, d :: 0 <= i < |p.heads| && 1 <= d < |p.heads[i]| ==>
          !Compatible(p.heads[i][d..], p.replacement))
    && (forall i, i', d :: 0 <= i < |p.heads| && 0 <= i' < |p.heads| && 1 <= d < |p.heads[i]| ==>
          !Compatible(p.heads[i][d..], p.heads[i']))
  }

  /** The shape conditions under which a rule's replacement can never expose a
      value. */
  predicate WellFormed(p: Pattern)
  {
    ValidHeads(p) && HeadsAvoidStop(p) && ReplacementShape(p) && NoHeadInside(p) && NoOverlap(p)
  }

  /** A head that matches at the start of `x`, where `x` begins with `b`, is
      compatible with `b`. */
  lemma HeadMatchCompatible(lit: ByteString, x: ByteString, b: ByteString)
    requires HeadMatches(lit, x)
    requires |b| <= |x| && x[..|b|] == b
    ensures Compatible(lit, b)
  {
    forall j | 0 <= j < |lit| && j < |b|
      ensures Fold(lit[j]) == Fold(b[j])
    {
      HeadMatchesAt(lit, x, j);
      assert x[j] == b[j];
    }
  }

  /** No match starts at the stop byte. */
  lemma NoMatchAtStop(p: Pattern, x: ByteString)
    requires NonEmptyHeads(p.heads) && HeadsAvoidStop(p)
    requires |x| > 0 && x[0] == Stop(p.tail)
    ensures MatchLen(p, x).None?
  {
    forall i | 0 <= i < |p.heads| ensures !HeadMatches(p.heads[i], x) {
      if HeadMatches(p.heads[i], x) {
        HeadMatchesAt(p.heads[i], x, 0);
      }
    }
    HeadLenSpec(p.heads, x);
  }

  /** A match runs to the end of the subject or up to the stop byte. */
  lemma MatchEndsAtStop(p: Pattern, x: ByteString)
    requires MatchLen(p, x).Some? && MatchLen(p, x).value < |x|
    ensures x[MatchLen(p, x).value] == Stop(p.tail)
  {
    var h := HeadLen(p.heads, x).value;
    RunLenSpec(x[h..], Stop(p.tail));
  }

  /** The replacement, followed by the stop byte or nothing, is matched exactly. */
  lemma MatchAtReplacement(p: Pattern, r: ByteString)
    requires ReplacementShape(p)
    requires |r| == 0 || r[0] == Stop(p.tail)
    ensures MatchLen(p, p.replacement + r) == Some(|p.replacement|)
  {
    var rep := p.replacement;
    var x := rep + r;
    forall i | 0 <= i < |p.heads|
      ensures HeadMatches(p.heads[i], rep) <==> HeadMatches(p.heads[i], x)
    {
      assert x[..|p.heads[i]|] == rep[..|p.heads[i]|];
    }
    HeadLenCongruent(p.heads, rep, x);
    var h := |rep| - 3;
    var y := x[h..];
    assert y == "***" + r;
    RunLenSpec(y, Stop(p.tail));
    var n := RunLen(y, Stop(p.tail));
    assert y[0] == '*' && y[1] == '*' && y[2] == '*';
    assert |r| > 0 ==> y[3] == Stop(p.tail);
    assert n == 3;
  }

  /** No match starts strictly inside the replacement. */
  lemma InnerNoMatch(p: Pattern, r: ByteString, k: nat)
    requires NonEmptyHeads(p.heads) && NoHeadInside(p)
    requires 1 <= k < |p.replacement|
    ensures MatchLen(p, (p.replacement + r)[k..]).None?
  {
    var x := (p.replacement + r)[k..];
    var b := p.replacement[k..];
    assert x[..|b|] == b;
    forall i | 0 <= i < |p.heads| ensures !HeadMatches(p.heads[i], x) {
      if HeadMatches(p.heads[i], x) {
        HeadMatchCompatible(p.heads[i], x, b);
      }
    }
    HeadLenSpec(p.heads, x);
  }

  /** A head longer than `j` cannot match where a head or the replacement
      matches at `j`: heads overlap neither. */
  lemma LongHeadBlocked(p: Pattern, alt: ByteString, x: ByteString, j: nat, b: ByteString)
    requires NoOverlap(p)
    requires alt in p.heads
    requires 1 <= j < |alt| && j <= |x|
    requires b == p.replacement || b in p.heads
    requires HeadMatches(b, x[j..])
    ensures !HeadMatches(alt, x)
  {
    if HeadMatches(alt, x) {
      forall k | 0 <= k < |alt[j..]| && k < |b|
        ensures Fold(alt[j..][k]) == Fold(b[k])
      {
        HeadMatchesAt(alt, x, j + k);
        HeadMatchesAt(b, x[j..], k);
      }
      assert Compatible(alt[j..], b);
    }
  }

  /** A literal matches itself wherever it has been placed. */
  lemma ReplacementMatchesItself(pre: ByteString, b: ByteString, y: ByteString)
    ensures HeadMatches(b, (pre + b + y)[|pre|..])
  {
    assert (pre + b + y)[|pre|..][..|b|] == b;
  }

  /** Replacing a match at `j` changes no head match at 0: heads no longer
      than `j` see the same bytes, longer ones match in neither string. */
  lemma HeadAfterReplace(p: Pattern, s: ByteString, j: nat, y: ByteString, hd: ByteString, alt: ByteString)
    requires NoOverlap(p)
    requires hd in p.heads && alt in p.heads
    requires 1 <= j < |s| && HeadMatches(hd, s[j..])
    ensures HeadMatches(alt, s) <==> HeadMatches(alt, s[..j] + p.replacement + y)
    ensures HeadMatches(alt, s[..j] + p.replacement + y) ==> |alt| <= j
  {
    var t := s[..j] + p.replacement + y;
    if |alt| <= j {
      assert t[..|alt|] == s[..|alt|];
    } else {
      ReplacementMatchesItself(s[..j], p.replacement, y);
      LongHeadBlocked(p, alt, t, j, p.replacement);
      LongHeadBlocked(p, alt, s, j, hd);
    }
  }

  lemma HeadLenAfterReplace(p: Pattern, s: ByteString, j: nat, y: ByteString, hd: ByteString)
    requires NonEmptyHeads(p.heads) && NoOverlap(p)
    requires hd in p.heads
    requires 1 <= j < |s| && HeadMatches(hd, s[j..])
    ensures HeadLen(p.heads, s) == HeadLen(p.heads, s[..j] + p.replacement + y)
    ensures HeadLen(p.heads, s).Some? ==> HeadLen(p.heads, s).value <= j
  {
    var t := s[..j] + p.replacement + y;
    forall i | 0 <= i < |p.heads|
      ensures HeadMatches(p.heads[i], s) <==> HeadMatches(p.heads[i], t)
      ensures HeadMatches(p.heads[i], t) ==> |p.heads[i]| <= j
    {
      HeadAfterReplace(p, s, j, y, hd, p.heads[i]);
    }
    HeadLenCongruent(p.heads, s, t);
    HeadLenSpec(p.heads, t);
  }

  /** Where no match starts, none starts after a later match (at `j`) has been
      replaced. */
  lemma UnmatchedPrefixStable(p: Pattern, s: ByteString, j: nat, y: ByteString)
    requires NonEmptyHeads(p.heads) && HeadsAvoidStop(p) && NoOverlap(p)
    requires 1 <= j < |s|
    requires MatchLen(p, s).None? && MatchLen(p, s[j..]).Some?
    ensures MatchLen(p, s[..j] + p.replacement + y).None?
  {
    var t := s[..j] + p.replacement + y;
    HeadLenSpec(p.heads, s[j..]);
    var i' :| 0 <= i' < |p.heads| && HeadMatches(p.heads[i'], s[j..]);
    var hd := p.heads[i'];
    HeadLenAfterReplace(p, s, j, y, hd);
    if HeadLen(p.heads, s).Some? {
      var h := HeadLen(p.heads, s).value;
      RunLenSpec(s[h..], Stop(p.tail));
      assert s[h] == Stop(p.tail);
      if h == j {
        HeadMatchesAt(hd, s[j..], 0);
        assert false;
      }
      assert t[h..][0] == s[h];
    }
  }

  /** The rule-specific facts the scanner's masking theorem needs. */
  lemma RuleGuarded(p: Pattern)
    requires WellFormed(p)
    ensures Guarded(MatcherOf(p), p.replacement, Stop(p.tail))
  {
    var m := MatcherOf(p);
    var rep := p.replacement;
    var stop := Stop(p.tail);
    forall x | |x| > 0 && x[0] == stop ensures m(x).None? {
      NoMatchAtStop(p, x);
    }
    forall x | m(x).Some? && m(x).value < |x| ensures x[m(x).value] == stop {
      MatchEndsAtStop(p, x);
    }
    forall r | |r| == 0 || r[0] == stop ensures m(rep + r) == Some(|rep|) {
      MatchAtReplacement(p, r);
    }
    forall r, k | 1 <= k < |rep| ensures m((rep + r)[k..]).None? {
      InnerNoMatch(p, r, k);
    }
    forall s, j, y | 1 <= j < |s| && m(s).None? && m(s[j..]).Some?
      ensures m(s[..j] + rep + y).None?
    {
      UnmatchedPrefixStable(p, s, j, y);
    }
  }

  /** The scanner's masking property, read through `MatchLen`. */
  lemma MaskedFromScan(p: Pattern, t: ByteString)
    requires Scanning.Masked(MatcherOf(p), p.replacement, t)
    ensures Masked(p, t)
  {
    forall q | 0 <= q <= |t| && MatchLen(p, t[q..]).Some?
      ensures t[q..q + MatchLen(p, t[q..]).value] == p.replacement
    {
      assert Scanning.MaskedAt(MatcherOf(p), p.replacement, t, q);
    }
  }

  /** Masking theorem: after one rule has been applied, every remaining match
      of that rule is exactly its replacement text. */
  lemma ReplaceAllMasks(p: Pattern, s: ByteString)
    requires WellFormed(p)
    ensures Masked(p, ReplaceAll(p, s))
  {
    RuleGuarded(p);
    ScanMasks(MatcherOf(p), p.replacement, Stop(p.tail), s);
    MaskedFromScan(p, ReplaceAll(p, s));
  }

  /** A head that is longer than the subject or clashes with it in its first
      two bytes does not match there. */
  lemma ClashNoHeadMatch(lit: ByteString, x: ByteString)
    requires |lit| > |x| || Clash(lit, x)
    ensures !HeadMatches(lit, x)
  {
    if HeadMatches(lit, x) {
      HeadMatchesAt(lit, x, 0);
      if |lit| > 1 {
        HeadMatchesAt(lit, x, 1);
      }
    }
  }

  /** A rule finds no match in `s` when each of its heads is too long for, or
      clashes with, every suffix. */
  lemma NoMatchByClash(p: Pattern, s: ByteString)
    requires forall i, q :: 0 <= i < |p.heads| && 0 <= q < |s| ==>
      |p.heads[i]| > |s| - q || Clash(p.heads[i], s[q..])
    ensures forall q :: 0 <= q < |s| ==> MatchLen(p, s[q..]).None?
  {
    forall q | 0 <= q < |s| ensures MatchLen(p, s[q..]).None? {
      forall i | 0 <= i < |p.heads| ensures !HeadMatches(p.heads[i], s[q..]) {
        ClashNoHeadMatch(p.heads[i], s[q..]);
      }
      HeadLenNone(p.heads, s[q..]);
    }
  }

  /** A string in which the rule matches nowhere is left unchanged. */
  lemma ReplaceAllNoMatch(p: Pattern, s: ByteString)
    requires forall q :: 0 <= q < |s| ==> MatchLen(p, s[q..]).None?
    ensures ReplaceAll(p, s) == s
  {
    ScanNoMatch(MatcherOf(p), p.replacement, s);
  }

  // ---------------------------------------------------------------------
  // The six rules, in the order `sanitizeString` applies them.
  // ---------------------------------------------------------------------

  /** A `password=` key and its value up to the next `&`. */
  const PasswordRule := Pattern(["password="], UpToAmpersand, "password=***")
  /** An `authorization: ` header name and the rest of its line. */
  const AuthorizationRule := Pattern(["authorization: "], RestOfLine, "authorization: ***")
  /** A `bearer ` scheme word and the rest of its line. */
  const BearerRule := Pattern(["bearer "], RestOfLine, "bearer ***")
  /** An API key written with an underscore, a hyphen or no separator, and
      its value up to the next `&`; the replacement always uses the
      underscore spelling. */
  const ApiKeyRule := Pattern(["api_key=", "api-key=", "apikey="], UpToAmpersand, "api_key=***")
  /** A `token=` key, also as the end of a longer key, and its value up to
      the next `&`. */
  const TokenRule := Pattern(["token="], UpToAmpersand, "token=***")
  /** A `secret=` key and its value up to the next `&`. */
  const SecretRule := Pattern(["secret="], UpToAmpersand, "secret=***")

  // ---------------------------------------------------------------------
  // Each rule is well formed, so each single pass masks what it matches.
  // ---------------------------------------------------------------------

  /** `a` and `b` disagree, ignoring case, at their first or second byte. */
  predicate Clash(a: ByteString, b: ByteString)
  {
    || (|a| > 0 && |b| > 0 && Fold(a[0]) != Fold(b[0]))
    || (|a| > 1 && |b| > 1 && Fold(a[1]) != Fold(b[1]))
  }

  lemma ClashNotCompatible(a: ByteString, b: ByteString)
    requires Clash(a, b)
    ensures !Compatible(a, b)
  {
    if |a| > 0 && |b| > 0 && Fold(a[0]) != Fold(b[0]) {
      assert !(Fold(a[0]) == Fold(b[0]));
    }
  }

  /** The overlap conditions, checked on two bytes at a time. */
  predicate ClashFree(p: Pattern)
  {
    && (forall i, k :: 0 <= i < |p.heads| && 1 <= k < |p.replacement| ==>
          Clash(p.heads[i], p.replacement[k..]))
    && (forall i, d :: 0 <= i < |p.heads| && 1 <= d < |p.heads[i]| ==>
          Clash(p.heads[i][d..], p.replacement))
    && (forall i, i', d :: 0 <= i < |p.heads| && 0 <= i' < |p.heads| && 1 <= d < |p.heads[i]| ==>
          Clash(p.heads[i][d..], p.heads[i']))
  }

  lemma WellFormedByClash(p: Pattern)
    requires ValidHeads(p) && HeadsAvoidStop(p) && ReplacementShape(p) && ClashFree(p)
    ensures WellFormed(p)
  {
    forall i, k | 0 <= i < |p.heads| && 1 <= k < |p.replacement|
      ensures !Compatible(p.heads[i], p.replacement[k..])
    {
      ClashNotCompatible(p.heads[i], p.replacement[k..]);
    }
    forall i, d | 0 <= i < |p.heads| && 1 <= d < |p.heads[i]|
      ensures !Compatible(p.heads[i][d..], p.replacement)
    {
      ClashNotCompatible(p.heads[i][d..], p.replacement);
    }
    forall i, i', d | 0 <= i < |p.heads| && 0 <= i' < |p.heads| && 1 <= d < |p.heads[i]|
      ensures !Compatible(p.heads[i][d..], p.heads[i'])
    {
      ClashNotCompatible(p.heads[i][d..], p.heads[i']);
    }
  }

  /** `x` starts with `c`, which occurs (ignoring case) nowhere else in it. */
  predicate LeadOnly(x: ByteString, c: Byte)
  {
    |x| > 0 && x[0] == c && forall d :: 1 <= d < |x| ==> Fold(x[d]) != Fold(c)
  }

  /** Every head starts with the replacement's first byte, which occurs
      (ignoring case) nowhere else in the replacement or in a head. */
  predicate LeadOnlyAtStart(p: Pattern)
  {
    && |p.replacement| > 0
    && LeadOnly(p.replacement, p.replacement[0])
    && (forall i :: 0 <= i < |p.heads| ==> LeadOnly(p.heads[i], p.replacement[0]))
  }

  lemma ClashFreeByLead(p: Pattern)
    requires LeadOnlyAtStart(p)
    ensures ClashFree(p)
  {
    forall i, k | 0 <= i < |p.heads| && 1 <= k < |p.replacement|
      ensures Clash(p.heads[i], p.replacement[k..])
    {
      assert p.replacement[k..][0] == p.replacement[k];
    }
    forall i, d | 0 <= i < |p.heads| && 1 <= d < |p.heads[i]|
      ensures Clash(p.heads[i][d..], p.replacement)
    {
      assert p.heads[i][d..][0] == p.heads[i][d];
    }
    forall i, i', d | 0 <= i < |p.heads| && 0 <= i' < |p.heads| && 1 <= d < |p.heads[i]|
      ensures Clash(p.heads[i][d..], p.heads[i'])
    {
      assert p.heads[i][d..][0] == p.heads[i][d];
    }
  }

  /** A rule whose heads share a lead byte found nowhere else is well formed. */
  lemma WellFormedByLead(p: Pattern)
    requires ValidHeads(p) && HeadsAvoidStop(p) && ReplacementShape(p) && LeadOnlyAtStart(p)
    ensures WellFormed(p)
  {
    ClashFreeByLead(p);
    WellFormedByClash(p);
  }

  lemma PasswordRuleShape()
    ensures ValidHeads(PasswordRule) && HeadsAvoidStop(PasswordRule) && ReplacementShape(PasswordRule)
  {
    assert PasswordRule.replacement[..9] == PasswordRule.heads[0];
  }

  lemma PasswordRuleLead()
    ensures LeadOnlyAtStart(PasswordRule)
  {
    assert LeadOnly(PasswordRule.replacement, 'p');
    assert LeadOnly(PasswordRule.heads[0], 'p');
  }

  lemma PasswordRuleWellFormed()
    ensures WellFormed(PasswordRule)
  {
    PasswordRuleShape();
    PasswordRuleLead();
    WellFormedByLead(PasswordRule);
  }

  lemma BearerRuleShape()
    ensures ValidHeads(BearerRule) && HeadsAvoidStop(BearerRule) && ReplacementShape(BearerRule)
  {
    assert BearerRule.replacement[..7] == BearerRule.heads[0];
  }

  lemma BearerRuleLead()
    ensures LeadOnlyAtStart(BearerRule)
  {
    assert LeadOnly(BearerRule.replacement, 'b');
    assert LeadOnly(BearerRule.heads[0], 'b');
  }

  lemma BearerRuleWellFormed()
    ensures WellFormed(BearerRule)
  {
    BearerRuleShape();
    BearerRuleLead();
    WellFormedByLead(BearerRule);
  }

  lemma ApiKeyRuleShape()
    ensures ValidHeads(ApiKeyRule) && HeadsAvoidStop(ApiKeyRule) && ReplacementShape(ApiKeyRule)
  {
    assert ApiKeyRule.replacement[..8] == ApiKeyRule.heads[0];
  }

  lemma ApiKeyRuleLead()
    ensures LeadOnlyAtStart(ApiKeyRule)
  {
    assert LeadOnly(ApiKeyRule.replacement, 'a');
    assert LeadOnly(ApiKeyRule.heads[0], 'a');
    assert LeadOnly(ApiKeyRule.heads[1], 'a');
    assert LeadOnly(ApiKeyRule.heads[2], 'a');
  }

  lemma ApiKeyRuleWellFormed()
    ensures WellFormed(ApiKeyRule)
  {
    ApiKeyRuleShape();
    ApiKeyRuleLead();
    WellFormedByLead(ApiKeyRule);
  }

  lemma TokenRuleShape()
    ensures ValidHeads(TokenRule) && HeadsAvoidStop(TokenRule) && ReplacementShape(TokenRule)
  {
    assert TokenRule.replacement[..6] == TokenRule.heads[0];
  }

  lemma TokenRuleLead()
    ensures LeadOnlyAtStart(TokenRule)
  {
    assert LeadOnly(TokenRule.replacement, 't');
    assert LeadOnly(TokenRule.heads[0], 't');
  }

  lemma TokenRuleWellFormed()
    ensures WellFormed(TokenRule)
  {
    TokenRuleShape();
    TokenRuleLead();
    WellFormedByLead(TokenRule);
  }

  lemma SecretRuleShape()
    ensures ValidHeads(SecretRule) && HeadsAvoidStop(SecretRule) && ReplacementShape(SecretRule)
  {
    assert SecretRule.replacement[..7] == SecretRule.heads[0];
  }

  lemma SecretRuleLead()
    ensures LeadOnlyAtStart(SecretRule)
  {
    assert LeadOnly(SecretRule.replacement, 's');
    assert LeadOnly(SecretRule.heads[0], 's');
  }

  lemma SecretRuleWellFormed()
    ensures WellFormed(SecretRule)
  {
    SecretRuleShape();
    SecretRuleLead();
    WellFormedByLead(SecretRule);
  }

  lemma AuthorizationRuleShape()
    ensures ValidHeads(AuthorizationRule) && HeadsAvoidStop(AuthorizationRule)
    ensures ReplacementShape(AuthorizationRule)
  {
    assert AuthorizationRule.replacement[..15] == AuthorizationRule.heads[0];
  }

  /** In `authorization: ***` only the `a` at 8 repeats the lead, and the
      byte after it (`t`) differs from the head's second byte (`u`). */
  lemma AuthorizationLeadRepeats(x: ByteString)
    requires x == AuthorizationRule.heads[0] || x == AuthorizationRule.replacement
    ensures forall d :: 1 <= d < |x| ==> Clash(x[d..], AuthorizationRule.heads[0])
    ensures forall d :: 1 <= d < |x| ==> Clash(x[d..], AuthorizationRule.replacement)
  {
    var h := AuthorizationRule.heads[0];
    assert h[0] == 'a' && h[1] == 'u';
    assert AuthorizationRule.replacement[0] == 'a' && AuthorizationRule.replacement[1] == 'u';
    forall d | 1 <= d < |x|
      ensures Clash(x[d..], h) && Clash(x[d..], AuthorizationRule.replacement)
    {
      assert x[d..][0] == x[d];
      if d == 8 {
        assert x[d..][1] == 't';
      } else {
        assert Fold(x[d]) != 'a';
      }
    }
  }

  /** `authorization` repeats its first letter, so the second byte is needed
      to rule out a head starting inside the replacement. */
  lemma AuthorizationRuleClashFree()
    ensures ClashFree(AuthorizationRule)
  {
    var p := AuthorizationRule;
    AuthorizationLeadRepeats(p.heads[0]);
    AuthorizationLeadRepeats(p.replacement);
    forall i, k | 0 <= i < |p.heads| && 1 <= k < |p.replacement|
      ensures Clash(p.heads[i], p.replacement[k..])
    {
      assert Clash(p.replacement[k..], p.heads[0]);
    }
  }

  lemma AuthorizationRuleWellFormed()
    ensures WellFormed(AuthorizationRule)
  {
    AuthorizationRuleShape();
    AuthorizationRuleClashFree();
    WellFormedByClash(AuthorizationRule);
  }

  const SensitiveRules: seq<Pattern> :=
    [PasswordRule, AuthorizationRule, BearerRule, ApiKeyRule, TokenRule, SecretRule]

  /** Apply the rules one after another, each to the previous one's output. */
  function ApplyRules(rules: seq<Pattern>, s: ByteString): ByteString
    decreases |rules|
  {
    if |rules| == 0 then s else ApplyRules(rules[1..], ReplaceAll(rules[0], s))
  }

  lemma SensitiveRuleWellFormed(i: nat)
    requires i < |SensitiveRules|
    ensures WellFormed(SensitiveRules[i])
  {
    if i == 0 {
      assert SensitiveRules[i] == PasswordRule;
      PasswordRuleWellFormed();
    } else if i == 1 {
      assert SensitiveRules[i] == AuthorizationRule;
      AuthorizationRuleWellFormed();
    } else if i == 2 {
      assert SensitiveRules[i] == BearerRule;
      BearerRuleWellFormed();
    } else if i == 3 {
      assert SensitiveRules[i] == ApiKeyRule;
      ApiKeyRuleWellFormed();
    } else if i == 4 {
      assert SensitiveRules[i] == TokenRule;
      TokenRuleWellFormed();
    } else {
      assert SensitiveRules[i] == SecretRule;
      SecretRuleWellFormed();
    }
  }

  /** Each of the six passes, taken on its own, leaves every match of its
      pattern replaced: no value after a sensitive key survives that pass. */
  lemma EachPassMasks(i: nat, s: ByteString)
    requires i < |SensitiveRules|
    ensures Masked(SensitiveRules[i], ReplaceAll(SensitiveRules[i], s))
  {
    SensitiveRuleWellFormed(i);
    ReplaceAllMasks(SensitiveRules[i], s);
  }

  /** A string in which no rule matches anywhere passes through every rule
      unchanged. */
  lemma {:induction false} ApplyRulesNoMatch(rules: seq<Pattern>, s: ByteString)
    requires forall i, q :: 0 <= i < |rules| && 0 <= q < |s| ==> MatchLen(rules[i], s[q..]).None?
    ensures ApplyRules(rules, s) == s
    decreases |rules|
  {
    if |rules| > 0 {
      ReplaceAllNoMatch(rules[0], s);
      assert forall i :: 1 <= i < |rules| ==> rules[i] == rules[1..][i - 1];
      ApplyRulesNoMatch(rules[1..], s);
    }
  }

  /** The last pass's guarantee holds of the whole chain's output. */
  lemma ApplyRulesLastMasks(rules: seq<Pattern>, s: ByteString)
    requires |rules| > 0 && WellFormed(rules[|rules| - 1])
    ensures Masked(rules[|rules| - 1], ApplyRules(rules, s))
  {
    var u := ApplyRulesPrefix(rules, s);
    ReplaceAllMasks(rules[|rules| - 1], u);
  }

  /** Applying a non-empty list of rules is applying all but the last, then
      the last. */
  lemma {:induction false} ApplyRulesPrefix(rules: seq<Pattern>, s: ByteString) returns (u: ByteString)
    requires |rules| > 0
    ensures u == ApplyRules(rules[..|rules| - 1], s)
    ensures ApplyRules(rules, s) == ReplaceAll(rules[|rules| - 1], u)
    decreases |rules|
  {
    if |rules| == 1 {
      u := s;
    } else {
      var v := ReplaceAll(rules[0], s);
      u := ApplyRulesPrefix(rules[1..], v);
      assert rules[1..][..|rules[1..]| - 1] == rules[..|rules| - 1][1..];
      assert rules[1..][|rules[1..]| - 1] == rules[|rules| - 1];
    }
  }
}
