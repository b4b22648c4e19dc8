/** Small generic building blocks shared by the rest of the model. */
module Common {

  datatype Option<+T> = None | Some(value: T)

  function Min(a: int, b: int): int { if a <= b then a else b }

  function Max(a: int, b: int): int { if a <= b then b else a }

  /** The keys of an ordered array of key/value pairs, in order
      (`array_keys`). */
  function KeysOf<K, V>(a: seq<(K, V)>): (ks: seq<K>)
    ensures |ks| == |a|
    ensures forall i :: 0 <= i < |a| ==> ks[i] == a[i].0
  {
    seq(|a|, i requires 0 <= i < |a| => a[i].0)
  }

  lemma KeysOfAppend<K, V>(a: seq<(K, V)>, b: seq<(K, V)>)
    ensures KeysOf(a + b) == KeysOf(a) + KeysOf(b)
  {
  }

  /** `array_slice($s, $n)`, and equally a `foreach` that skips the indexes
      below `n`. */
  function Drop<T>(s: seq<T>, n: nat): (r: seq<T>)
    ensures |r| == Max(0, |s| - n)
    ensures forall i :: 0 <= i < |r| ==> r[i] == s[i + n]
  {
    if |s| <= n then [] else s[n..]
  }

  /** `array_slice($s, 0, $n)`. */
  function Take<T>(s: seq<T>, n: nat): (r: seq<T>)
    ensures |r| == Min(n, |s|)
    ensures r == s[..|r|]
  {
    if |s| <= n then s else s[..n]
  }

  /** The elements of `s` that satisfy `keep`, in their original order, each
      transformed by `f` (the PHP `foreach` + `continue` + `$out[] = ...` idiom). */
  function FilterMap<A, B>(s: seq<A>, keep: A -> bool, f: A -> B): (r: seq<B>)
    ensures |r| <= |s|
    ensures forall j :: 0 <= j < |r| ==>
      exists i :: 0 <= i < |s| && keep(s[i]) && r[j] == f(s[i])
    ensures (forall i :: 0 <= i < |s| ==> !keep(s[i])) ==> r == []
  {
    if |s| == 0 then []
    else
      var rest := FilterMap(s[1..], keep, f);
      if keep(s[0]) then
        var r := [f(s[0])] + rest;
        assert forall j :: 1 <= j < |r| ==> r[j] == rest[j - 1];
        r
      else rest
  }

  /** Filtering distributes over concatenation: relative order is kept. */
  lemma {:induction false} FilterMapAppend<A, B>(a: seq<A>, b: seq<A>, keep: A -> bool, f: A -> B)
    ensures FilterMap(a + b, keep, f) == FilterMap(a, keep, f) + FilterMap(b, keep, f)
    decreases |a|
  {
    if |a| == 0 {
      assert a + b == b;
    } else {
      assert (a + b)[1..] == a[1..] + b;
      FilterMapAppend(a[1..], b, keep, f);
    }
  }

  lemma FilterMapSingle<A, B>(x: A, keep: A -> bool, f: A -> B)
    ensures FilterMap([x], keep, f) == if keep(x) then [f(x)] else []
  {
  }

  /** When every element is kept, the result is the element-wise image. */
  lemma {:induction false} FilterMapAllKept<A, B>(s: seq<A>, keep: A -> bool, f: A -> B)
    requires forall i :: 0 <= i < |s| ==> keep(s[i])
    ensures |FilterMap(s, keep, f)| == |s|
    ensures forall i :: 0 <= i < |s| ==> FilterMap(s, keep, f)[i] == f(s[i])
    decreases |s|
  {
    if |s| > 0 {
      FilterMapAllKept(s[1..], keep, f);
    }
  }
}
