/**
 * A vector addressed modulo its length: indexing with any counter `i`
 * reaches element `i % |inner|`.  The engine keeps its slots in one of these
 * and addresses them with its ever-increasing head and tail counters.
 */
module Wrapping {

  datatype WrappingVec<T> = WrappingVec(inner: seq<T>)

  /** The vector seen through the wrapper (Rust's `Deref`). */
  function Deref<T>(w: WrappingVec<T>): (v: seq<T>) {
    w.inner
  }

  /** Wrapping an existing vector keeps its contents and length. */
  function FromVec<T>(v: seq<T>): (w: WrappingVec<T>)
    ensures Deref(w) == v
    ensures |w.inner| == |v|
  {
    WrappingVec(v)
  }

  /** Collecting an iterator, given as the sequence of items it produces,
      into a vector one item at a time and wrapping that vector. */
  method FromIter<T>(items: seq<T>) returns (w: WrappingVec<T>)
    ensures Deref(w) == items
  {
    var collected: seq<T> := [];
    var i := 0;
    while i < |items|
      invariant 0 <= i <= |items|
      invariant collected == items[..i]
    {
      collected := collected + [items[i]];
      i := i + 1;
    }
    w := FromVec(collected);
  }

  /** Read access with a counter; an empty vector cannot be indexed
      (the remainder by zero panics). */
  function Index<T>(w: WrappingVec<T>, i: nat): (r: T)
    requires |w.inner| > 0
    ensures r in w.inner
    ensures i < |w.inner| ==> r == w.inner[i]
  {
    w.inner[i % |w.inner|]
  }

  /** Write access with a counter: replaces the one element the counter
      addresses and nothing else. */
  function Update<T>(w: WrappingVec<T>, i: nat, v: T): (r: WrappingVec<T>)
    requires |w.inner| > 0
    ensures |r.inner| == |w.inner|
    ensures Index(r, i) == v
    ensures forall j :: 0 <= j < |w.inner| && j != i % |w.inner| ==> r.inner[j] == w.inner[j]
  {
    WrappingVec(w.inner[i % |w.inner| := v])
  }

  /** Two counters less than `n` apart have different remainders modulo `n`. */
  lemma DistinctResidues(a: nat, b: nat, n: nat)
    requires 0 < n && a < b < a + n
    ensures a % n != b % n
  {
    var q, r, d := a / n, a % n, b - a;
    assert a == q * n + r;
    if r + d < n {
      RemainderUnique(b, q, r + d, n);
    } else {
      assert b == (q + 1) * n + (r + d - n);
      RemainderUnique(b, q + 1, r + d - n, n);
    }
  }

  /** A remainder is determined by any quotient-remainder decomposition. */
  lemma RemainderUnique(x: nat, q: int, r: int, n: nat)
    requires 0 < n && 0 <= r < n && x == q * n + r
    ensures x % n == r
  {
    var k := q - x / n;
    assert x == (x / n) * n + x % n;
    assert k * n == x % n - r;
  }

  /** Counters `i` and `i + len` address the same element. */
  lemma IndexWraps<T>(w: WrappingVec<T>, i: nat)
    requires |w.inner| > 0
    ensures Index(w, i + |w.inner|) == Index(w, i)
  {
    var n := |w.inner|;
    assert i == (i / n) * n + i % n;
    assert i + n == (i / n + 1) * n + i % n;
    RemainderUnique(i + n, i / n + 1, i % n, n);
  }

  /** Updating through one counter leaves every counter less than `len` away
      from it (and different from it) untouched. */
  lemma UpdateElsewhere<T>(w: WrappingVec<T>, i: nat, v: T, j: nat)
    requires |w.inner| > 0
    requires i != j && i < j + |w.inner| && j < i + |w.inner|
    ensures Index(Update(w, i, v), j) == Index(w, j)
  {
    if i < j {
      DistinctResidues(i, j, |w.inner|);
    } else {
      DistinctResidues(j, i, |w.inner|);
    }
  }
}
