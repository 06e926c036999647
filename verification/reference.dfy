/**
 * The sequential oracle of src/reference.rs: a plain bounded buffer that
 * appends until it holds `size` elements, then drops the oldest on every
 * write, and hands out (and forgets) everything on a read.
 */
module Reference {
  import opened Wrappers
  import opened Sequences

  datatype BoundedBuffer<T> = BoundedBuffer(size: nat, data: seq<T>)

  /** Construction asserts a positive size; a zero size is the panic path. */
  function New<T>(size: nat): (r: Option<BoundedBuffer<T>>)
    ensures r.Some? <==> size > 0
    ensures r.Some? ==> r.value.size == size && r.value.data == []
  {
    if size > 0 then Some(BoundedBuffer(size, [])) else None
  }

  /** Append if there is room; otherwise rotate left by one and overwrite the
      last element, which drops the oldest and keeps the length at `size`. */
  function Write<T>(b: BoundedBuffer<T>, x: T): (r: BoundedBuffer<T>)
    requires b.size > 0
    ensures r.size == b.size
    ensures |b.data| < b.size ==> r.data == b.data + [x]
    ensures |b.data| == b.size ==> r.data == b.data[1..] + [x]
  {
    if |b.data| < b.size then
      b.(data := b.data + [x])
    else
      var rotated := b.data[1..] + [b.data[0]];
      assert |b.data| == b.size ==> rotated[b.size - 1 := x] == b.data[1..] + [x];
      b.(data := rotated[b.size - 1 := x])
  }

  /** Take everything, oldest first, and leave the buffer empty. */
  function Read<T>(b: BoundedBuffer<T>): (r: (BoundedBuffer<T>, seq<T>))
    ensures r.1 == b.data
    ensures r.0.size == b.size && r.0.data == []
  {
    (b.(data := []), b.data)
  }

  /** Writing a sequence of elements, one after the other. */
  function WriteAll<T>(b: BoundedBuffer<T>, xs: seq<T>): (r: BoundedBuffer<T>)
    requires b.size > 0
    ensures r.size == b.size
    decreases |xs|
  {
    if xs == [] then b else WriteAll(Write(b, xs[0]), xs[1..])
  }

  /** A buffer within its bound keeps the last `size` of everything written. */
  lemma {:induction false} WriteAllKeepsLast<T>(b: BoundedBuffer<T>, xs: seq<T>)
    requires b.size > 0 && |b.data| <= b.size
    ensures WriteAll(b, xs).data == Last(b.data + xs, b.size)
    decreases |xs|
  {
    if xs == [] {
      assert b.data + xs == b.data;
    } else {
      WriteAllKeepsLast(Write(b, xs[0]), xs[1..]);
      WriteAllStep(b, xs);
    }
  }

  /** One step of the induction: the first write's window, then the rest. */
  lemma WriteAllStep<T>(b: BoundedBuffer<T>, xs: seq<T>)
    requires b.size > 0 && |b.data| <= b.size && xs != []
    requires WriteAll(Write(b, xs[0]), xs[1..]).data == Last(Write(b, xs[0]).data + xs[1..], b.size)
    ensures WriteAll(b, xs).data == Last(b.data + xs, b.size)
  {
    var s := b.data + [xs[0]];
    WriteAllUnfold(b, xs);
    WriteKeepsLast(b, xs[0]);
    LastOfLast(s, xs[1..], b.size);
    ConsSplit(b.data, xs);
  }

  lemma WriteAllUnfold<T>(b: BoundedBuffer<T>, xs: seq<T>)
    requires b.size > 0 && xs != []
    ensures WriteAll(b, xs) == WriteAll(Write(b, xs[0]), xs[1..])
  {
  }

  /** A single write keeps the last `size` elements of the history. */
  lemma WriteKeepsLast<T>(b: BoundedBuffer<T>, x: T)
    requires b.size > 0 && |b.data| <= b.size
    ensures Write(b, x).data == Last(b.data + [x], b.size)
    ensures |Write(b, x).data| <= b.size
  {
    if |b.data| == b.size {
      assert b.data[1..] + [x] == (b.data + [x])[1..];
    }
  }

  /** A second read right after a read yields nothing. */
  lemma ReadTwiceYieldsNothing<T>(b: BoundedBuffer<T>)
    ensures Read(Read(b).0).1 == []
    ensures Read(b).1 == b.data
  {
  }
}
