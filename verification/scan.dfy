/** Left-to-right replacement of every non-overlapping leftmost match, the way
    `preg_replace` walks its subject, for an arbitrary anchored matcher. The
    facts proved here depend only on a handful of properties of the matcher,
    so the rule-specific reasoning stays local (see module Masking). */
module Scanning {
  import opened Common
  import opened Bytes

  /** An anchored matcher: the length of the match at the start of its
      argument, if one starts there. */
  type Matcher = ByteString -> Option<nat>

  /** Every match is non-empty and lies inside the subject. */
  ghost predicate Consumes(m: Matcher)
  {
    forall x :: m(x).Some? ==> 0 < m(x).value <= |x|
  }

  /** Copy `s`, replacing each match found while scanning left to right by
      `rep` and resuming right after it. */
  function Scan(m: Matcher, rep: ByteString, s: ByteString): ByteString
    requires Consumes(m)
    decreases |s|
  {
    if |s| == 0 then []
    else match m(s)
      case Some(n) => rep + Scan(m, rep, s[n..])
      case None => [s[0]] + Scan(m, rep, s[1..])
  }

  /** The replacement occupies exactly the match found at `q`. */
  ghost predicate MaskedAt(m: Matcher, rep: ByteString, t: ByteString, q: int)
  {
    0 <= q <= |t| &&
    (m(t[q..]).Some? ==> q + m(t[q..]).value <= |t| && t[q..q + m(t[q..]).value] == rep)
  }

  ghost predicate Masked(m: Matcher, rep: ByteString, t: ByteString)
  {
    forall q :: 0 <= q <= |t| ==> MaskedAt(m, rep, t, q)
  }

  // ---------------------------------------------------------------------
  // What a matcher must satisfy for its replacement to be final.
  // ---------------------------------------------------------------------

  /** No match starts at the byte the greedy tail stops at. */
  ghost predicate StopBlocks(m: Matcher, stop: Byte)
  {
    forall x :: |x| > 0 && x[0] == stop ==> m(x).None?
  }

  /** A match ends at the end of the subject or just before the stop byte. */
  ghost predicate EndsAtStop(m: Matcher, stop: Byte)
  {
    forall x :: m(x).Some? && m(x).value < |x| ==> x[m(x).value] == stop
  }

  /** The replacement, followed by nothing or the stop byte, is itself exactly
      one match. */
  ghost predicate RepMatches(m: Matcher, rep: ByteString, stop: Byte)
  {
    forall r :: (|r| == 0 || r[0] == stop) ==> m(rep + r) == Some(|rep|)
  }

  /** No match starts strictly inside the replacement. */
  ghost predicate RepInert(m: Matcher, rep: ByteString)
  {
    forall r, k :: 1 <= k < |rep| ==> m((rep + r)[k..]).None?
  }

  /** Where no match started, none starts once a later match has been
      replaced. */
  ghost predicate PrefixStable(m: Matcher, rep: ByteString)
  {
    forall s, j, y :: 1 <= j < |s| && m(s).None? && m(s[j..]).Some? ==> m(s[..j] + rep + y).None?
  }

  ghost predicate Guarded(m: Matcher, rep: ByteString, stop: Byte)
  {
    && Consumes(m)
    && StopBlocks(m, stop)
    && EndsAtStop(m, stop)
    && RepMatches(m, rep, stop)
    && RepInert(m, rep)
    && PrefixStable(m, rep)
  }

  // ---------------------------------------------------------------------
  // Structure of the scan.
  // ---------------------------------------------------------------------

  /** The first position of `u` at which a match starts (`|u|` if none). */
  lemma {:induction false} FirstMatchAt(m: Matcher, u: ByteString) returns (j: nat)
    ensures j <= |u|
    ensures forall q :: 0 <= q < j ==> m(u[q..]).None?
    ensures j < |u| ==> m(u[j..]).Some?
    decreases |u|
  {
    if |u| == 0 || m(u).Some? {
      j := 0;
      assert u[0..] == u;
    } else {
      var j' := FirstMatchAt(m, u[1..]);
      j := j' + 1;
      forall q | 0 <= q < j ensures m(u[q..]).None? {
        if q > 0 {
          assert u[q..] == u[1..][q - 1..];
        } else {
          assert u[0..] == u;
        }
      }
      if j' < |u[1..]| {
        assert u[1..][j'..] == u[j..];
      }
    }
  }

  /** A position where no match starts is copied to the output. */
  lemma CopyStep(m: Matcher, rep: ByteString, w: ByteString)
    requires Consumes(m)
    requires |w| > 0 && m(w).None?
    ensures Scan(m, rep, w) == [w[0]] + Scan(m, rep, w[1..])
  {
  }

  /** A match is replaced and the scan resumes right after it. */
  lemma MatchStep(m: Matcher, rep: ByteString, w: ByteString)
    requires Consumes(m)
    requires m(w).Some?
    ensures Scan(m, rep, w) == rep + Scan(m, rep, w[m(w).value..])
  {
  }

  /** The scan copies everything before the first match unchanged. */
  lemma {:induction false} ScanPrefix(m: Matcher, rep: ByteString, u: ByteString, i: nat)
    requires Consumes(m)
    requires i <= |u|
    requires forall q :: 0 <= q < i ==> m(u[q..]).None?
    ensures Scan(m, rep, u) == u[..i] + Scan(m, rep, u[i..])
    decreases i
  {
    if i == 0 {
      assert u[0..] == u;
    } else {
      ScanPrefix(m, rep, u, i - 1);
      var w := u[i - 1..];
      CopyStep(m, rep, w);
      assert w[1..] == u[i..];
      assert u[..i - 1] + [u[i - 1]] == u[..i];
      assert [w[0]] + Scan(m, rep, u[i..]) == [u[i - 1]] + Scan(m, rep, u[i..]);
      AppendAssoc(u[..i - 1], [u[i - 1]], Scan(m, rep, u[i..]));
    }
  }

  lemma AppendAssoc(a: ByteString, b: ByteString, c: ByteString)
    ensures (a + b) + c == a + (b + c)
  {
  }

  /** A subject without any match is returned unchanged. */
  lemma ScanNoMatch(m: Matcher, rep: ByteString, u: ByteString)
    requires Consumes(m)
    requires forall q :: 0 <= q < |u| ==> m(u[q..]).None?
    ensures Scan(m, rep, u) == u
  {
    ScanPrefix(m, rep, u, |u|);
    assert u[..|u|] == u;
  }

  /** Scanning past a first match at `j`: the bytes before it, the
      replacement, then the scan of what follows the match. */
  lemma ScanAtFirstMatch(m: Matcher, rep: ByteString, u: ByteString, j: nat)
    requires Consumes(m)
    requires j < |u|
    requires forall q :: 0 <= q < j ==> m(u[q..]).None?
    requires m(u[j..]).Some?
    ensures Scan(m, rep, u) == u[..j] + rep + Scan(m, rep, u[j + m(u[j..]).value..])
  {
    ScanPrefix(m, rep, u, j);
    var n := m(u[j..]).value;
    assert u[j..][n..] == u[j + n..];
    assert Scan(m, rep, u[j..]) == rep + Scan(m, rep, u[j + n..]);
  }

  // ---------------------------------------------------------------------
  // The masking theorem for a guarded matcher.
  // ---------------------------------------------------------------------

  /** A masked position stays masked behind any prefix. */
  lemma MaskedShift(m: Matcher, rep: ByteString, pre: ByteString, r: ByteString, q: int)
    requires MaskedAt(m, rep, r, q)
    ensures MaskedAt(m, rep, pre + r, |pre| + q)
  {
    var t := pre + r;
    assert t[|pre| + q..] == r[q..];
    if m(r[q..]).Some? {
      var n := m(r[q..]).value;
      assert t[|pre| + q..|pre| + q + n] == r[q..q + n];
    }
  }

  /** The output of a scan resumed at the stop byte starts with it. */
  lemma ScanFromStop(m: Matcher, rep: ByteString, stop: Byte, s: ByteString)
    requires Consumes(m) && StopBlocks(m, stop)
    requires |s| == 0 || s[0] == stop
    ensures |Scan(m, rep, s)| == 0 || Scan(m, rep, s)[0] == stop
  {
    if |s| > 0 {
      assert m(s).None?;
      CopyStep(m, rep, s);
    }
  }

  /** What follows a copied byte: either the rest of the subject unchanged,
      or its bytes up to the next match, the replacement, and more. */
  lemma CopiedShape(m: Matcher, rep: ByteString, s: ByteString) returns (j: nat, y: ByteString)
    requires Consumes(m)
    requires |s| > 0
    ensures 1 <= j <= |s|
    ensures j == |s| ==> [s[0]] + Scan(m, rep, s[1..]) == s
    ensures j < |s| ==> m(s[j..]).Some?
    ensures j < |s| ==> [s[0]] + Scan(m, rep, s[1..]) == s[..j] + rep + y
  {
    var u := s[1..];
    var j' := FirstMatchAt(m, u);
    j := j' + 1;
    if j' == |u| {
      ScanNoMatch(m, rep, u);
      assert [s[0]] + u == s;
      y := [];
    } else {
      y := Scan(m, rep, u[j' + m(u[j'..]).value..]);
      ScanAtFirstMatch(m, rep, u, j');
      ConsPrefix(s, j);
      ConsAppend3(s[0], u[..j'], rep, y);
    }
  }

  lemma ConsPrefix(s: ByteString, j: nat)
    requires 1 <= j <= |s|
    ensures s[..j] == [s[0]] + s[1..][..j - 1]
    ensures s[j..] == s[1..][j - 1..]
  {
  }

  lemma ConsAppend3(c: Byte, a: ByteString, b: ByteString, y: ByteString)
    ensures [c] + (a + b + y) == [c] + a + b + y
  {
  }

  /** The first byte of an unmatched position is still unmatched in the
      output. */
  lemma CopiedStaysUnmatched(m: Matcher, rep: ByteString, s: ByteString)
    requires Consumes(m) && PrefixStable(m, rep)
    requires |s| > 0 && m(s).None?
    ensures m([s[0]] + Scan(m, rep, s[1..])).None?
  {
    var j, y := CopiedShape(m, rep, s);
    if j < |s| {
      assert m(s[..j] + rep + y).None?;
    }
  }

  /** The replacement put in front of the stop byte (or of nothing) is
      masked at its start. */
  lemma MaskedAtFront(m: Matcher, rep: ByteString, stop: Byte, r: ByteString)
    requires RepMatches(m, rep, stop)
    requires |r| == 0 || r[0] == stop
    ensures MaskedAt(m, rep, rep + r, 0)
  {
    assert (rep + r)[0..] == rep + r;
    assert (rep + r)[0..|rep|] == rep;
  }

  /** No match starts inside the replacement. */
  lemma MaskedInsideRep(m: Matcher, rep: ByteString, r: ByteString, q: int)
    requires RepInert(m, rep)
    requires 1 <= q < |rep|
    ensures MaskedAt(m, rep, rep + r, q)
  {
    assert m((rep + r)[q..]).None?;
  }

  /** A match replaced in front of a masked rest leaves a masked output. */
  lemma MaskedAfterMatch(m: Matcher, rep: ByteString, stop: Byte, s: ByteString)
    requires Consumes(m) && StopBlocks(m, stop) && EndsAtStop(m, stop)
    requires RepMatches(m, rep, stop) && RepInert(m, rep)
    requires m(s).Some?
    requires Masked(m, rep, Scan(m, rep, s[m(s).value..]))
    ensures Masked(m, rep, Scan(m, rep, s))
  {
    var r := Scan(m, rep, s[m(s).value..]);
    MatchStep(m, rep, s);
    ScanFromStop(m, rep, stop, s[m(s).value..]);
    forall q | 0 <= q <= |rep + r| ensures MaskedAt(m, rep, rep + r, q) {
      if q == 0 {
        MaskedAtFront(m, rep, stop, r);
      } else if q < |rep| {
        MaskedInsideRep(m, rep, r, q);
      } else {
        assert MaskedAt(m, rep, r, q - |rep|);
        MaskedShift(m, rep, rep, r, q - |rep|);
      }
    }
  }

  /** A byte copied in front of a masked rest leaves a masked output. */
  lemma MaskedAfterCopy(m: Matcher, rep: ByteString, s: ByteString)
    requires Consumes(m) && PrefixStable(m, rep)
    requires |s| > 0 && m(s).None?
    requires Masked(m, rep, Scan(m, rep, s[1..]))
    ensures Masked(m, rep, Scan(m, rep, s))
  {
    var r := Scan(m, rep, s[1..]);
    var t := Scan(m, rep, s);
    CopyStep(m, rep, s);
    forall q | 0 <= q <= |t| ensures MaskedAt(m, rep, t, q) {
      if q == 0 {
        CopiedStaysUnmatched(m, rep, s);
        assert t[0..] == t;
      } else {
        MaskedShift(m, rep, [s[0]], r, q - 1);
      }
    }
  }

  /** Masking theorem: after a guarded replacement, every match left in the
      output is exactly the replacement text. */
  lemma {:induction false} ScanMasks(m: Matcher, rep: ByteString, stop: Byte, s: ByteString)
    requires Guarded(m, rep, stop)
    ensures Masked(m, rep, Scan(m, rep, s))
    decreases |s|
  {
    if |s| == 0 {
      assert Scan(m, rep, s)[0..] == [];
    } else if m(s).Some? {
      ScanMasks(m, rep, stop, s[m(s).value..]);
      MaskedAfterMatch(m, rep, stop, s);
    } else {
      ScanMasks(m, rep, stop, s[1..]);
      MaskedAfterCopy(m, rep, s);
    }
  }
}
