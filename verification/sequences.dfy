/** Sequence helpers shared by the engine and the reference buffer. */
module Sequences {

  function Min(a: int, b: int): (m: int) {
    if a <= b then a else b
  }

  /** The last `min(k, |s|)` elements of `s`, oldest first: what a buffer that
      keeps at most `k` elements and evicts the oldest holds after seeing `s`. */
  function Last<T>(s: seq<T>, k: nat): (r: seq<T>)
    ensures |r| == Min(k, |s|)
  {
    s[|s| - Min(k, |s|)..]
  }

  /** Keeping the last `k` elements early does not change what is kept at the end. */
  lemma LastOfLast<T>(s: seq<T>, t: seq<T>, k: nat)
    ensures Last(Last(s, k) + t, k) == Last(s + t, k)
  {
    var a := |s| - Min(k, |s|);
    assert Last(s, k) + t == (s + t)[a..];
    var u := s + t;
    var v := u[a..];
    if a > 0 {
      assert Min(k, |v|) == k && Min(k, |u|) == k;
    }
    assert Last(v, k) == u[a + |v| - Min(k, |v|)..];
  }

  /** Splitting off the first element of `xs` onto `s`. */
  lemma ConsSplit<T>(s: seq<T>, xs: seq<T>)
    requires xs != []
    ensures (s + [xs[0]]) + xs[1..] == s + xs
  {
  }

  /** Keeping the last `k` of `k + 1` elements drops the first. */
  lemma LastOfFull<T>(s: seq<T>, x: T, k: nat)
    requires |s| == k > 0
    ensures Last(s + [x], k) == s[1..] + [x]
  {
    assert (s + [x])[1..] == s[1..] + [x];
  }
}
