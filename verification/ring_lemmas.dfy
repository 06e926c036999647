/**
 * Invariants of the engine in module Ring: every operation keeps the slot
 * window consistent with the head and tail counters, a drain yields the
 * buffered elements oldest first, and dropping the iterator leaves the
 * rest for the next drain.
 */
module RingLemmas {
  import opened Wrappers
  import opened Wrapping
  import opened TailWord
  import opened Sequences
  import opened Ring

  /** Over a full window, Contents lists exactly the window's elements. */
  lemma {:induction false} ContentsSpec<T>(d: WrappingVec<Option<T>>, from: nat, to: nat)
    requires |d.inner| > 0 && from <= to && AllSome(d, from, to)
    ensures |Contents(d, from, to)| == to - from
    ensures forall i :: 0 <= i < to - from ==> Index(d, from + i) == Some(Contents(d, from, to)[i])
    decreases (to as int) - (from as int)
  {
    if from < to {
      ContentsSpec(d, from + 1, to);
      var rest := Contents(d, from + 1, to);
      assert Index(d, from).Some?;
      assert Contents(d, from, to) == [Index(d, from).value] + rest;
      forall i | 1 <= i < to - from
        ensures Index(d, from + i) == Some(Contents(d, from, to)[i])
      {
        assert Index(d, (from + 1) + (i - 1)) == Some(rest[i - 1]);
      }
    }
  }

  /** Contents is determined element by element. */
  lemma ContentsExt<T>(d: WrappingVec<Option<T>>, from: nat, to: nat, s: seq<T>)
    requires |d.inner| > 0 && from <= to && |s| == to - from
    requires forall i :: 0 <= i < |s| ==> Index(d, from + i) == Some(s[i])
    ensures AllSome(d, from, to)
    ensures Contents(d, from, to) == s
  {
    forall c: nat | from <= c < to ensures Index(d, c).Some? {
      assert Index(d, from + (c - from)) == Some(s[c - from]);
    }
    var r := Contents(d, from, to);
    ContentsSpec(d, from, to);
    forall i | 0 <= i < |s| ensures r[i] == s[i] {
      assert Index(d, from + i) == Some(r[i]);
    }
  }

  /** Updating a slot outside a full window (less than one turn away from
      it) leaves the window and its contents unchanged. */
  lemma ContentsFrame<T>(d: WrappingVec<Option<T>>, a: nat, v: Option<T>, from: nat, to: nat)
    requires |d.inner| > 0 && from <= to && AllSome(d, from, to)
    requires (a < from && to <= a + |d.inner|) || (to <= a && a < from + |d.inner|)
    ensures AllSome(Update(d, a, v), from, to)
    ensures Contents(Update(d, a, v), from, to) == Contents(d, from, to)
  {
    var d' := Update(d, a, v);
    var s := Contents(d, from, to);
    ContentsSpec(d, from, to);
    forall i | 0 <= i < |s| ensures Index(d', from + i) == Some(s[i]) {
      UpdateElsewhere(d, a, v, from + i);
    }
    ContentsExt(d', from, to, s);
  }

  /** A window holds exactly `head - from` elements. */
  lemma WindowLength<T>(rb: RingBuffer<T>, from: nat)
    requires Window(rb, from)
    ensures |Contents(rb.data, from, rb.head)| == rb.head - from <= rb.size
  {
    ContentsSpec(rb.data, from, rb.head);
  }

  /** Writing the head slot of a window that is not full extends it by one. */
  lemma WriteHead<T>(d: WrappingVec<Option<T>>, p: nat, h: nat, size: nat, x: T)
    requires |d.inner| == size + 1 && p <= h < p + size
    requires AllSome(d, p, h) && AllNone(d, h, p + size + 1)
    ensures AllSome(Update(d, h, Some(x)), p, h + 1)
    ensures AllNone(Update(d, h, Some(x)), h + 1, p + size + 1)
    ensures Contents(Update(d, h, Some(x)), p, h + 1) == Contents(d, p, h) + [x]
  {
    var d1 := Update(d, h, Some(x));
    var c0 := Contents(d, p, h);
    ContentsSpec(d, p, h);
    forall c: nat | h + 1 <= c < p + size + 1 ensures Index(d1, c).None? {
      UpdateElsewhere(d, h, Some(x), c);
    }
    forall i | 0 <= i < |c0 + [x]| ensures Index(d1, p + i) == Some((c0 + [x])[i]) {
      if i < |c0| {
        UpdateElsewhere(d, h, Some(x), p + i);
      }
    }
    ContentsExt(d1, p, h + 1, c0 + [x]);
  }

  /** Writing the head slot of a full window and emptying its oldest slot
      moves the window forward by one. */
  lemma WriteHeadEvict<T>(d: WrappingVec<Option<T>>, p: nat, h: nat, size: nat, x: T)
    requires |d.inner| == size + 1 && h == p + size
    requires AllSome(d, p, h) && AllNone(d, h, p + size + 1)
    ensures AllSome(Update(Update(d, h, Some(x)), p, None), p + 1, h + 1)
    ensures AllNone(Update(Update(d, h, Some(x)), p, None), h + 1, p + 1 + size + 1)
    ensures Contents(Update(Update(d, h, Some(x)), p, None), p + 1, h + 1)
            == Last(Contents(d, p, h) + [x], size)
  {
    var d1 := Update(d, h, Some(x));
    var d2 := Update(d1, p, None);
    var c0 := Contents(d, p, h);
    assert AllNone(d2, h + 1, p + 1 + size + 1) by {
      forall c: nat | h + 1 <= c < p + 1 + size + 1 ensures Index(d2, c).None? {
        assert c == p + |d.inner|;
        IndexWraps(d2, p);
      }
    }
    if size == 0 {
      assert Contents(d2, p + 1, h + 1) == [];
    } else {
      EvictContents(d, p, h, size, x);
    }
  }

  lemma EvictContents<T>(d: WrappingVec<Option<T>>, p: nat, h: nat, size: nat, x: T)
    requires |d.inner| == size + 1 && h == p + size && size > 0
    requires AllSome(d, p, h)
    ensures AllSome(Update(Update(d, h, Some(x)), p, None), p + 1, h + 1)
    ensures Contents(Update(Update(d, h, Some(x)), p, None), p + 1, h + 1)
            == Last(Contents(d, p, h) + [x], size)
  {
    var d2 := Update(Update(d, h, Some(x)), p, None);
    var c0 := Contents(d, p, h);
    ContentsSpec(d, p, h);
    var s := c0[1..] + [x];
    forall i | 0 <= i < |s| ensures Index(d2, p + 1 + i) == Some(s[i]) {
      EvictedSlot(d, p, h, size, x, i);
    }
    ContentsExt(d2, p + 1, h + 1, s);
    LastOfFull(c0, x, size);
  }

  /** After the eviction, slot `p + 1 + i` holds the window's element `i + 1`,
      or `x` at the new head. */
  lemma EvictedSlot<T>(d: WrappingVec<Option<T>>, p: nat, h: nat, size: nat, x: T, i: nat)
    requires |d.inner| == size + 1 && h == p + size && size > 0
    requires AllSome(d, p, h) && i < size
    ensures |Contents(d, p, h)| == size
    ensures Index(Update(Update(d, h, Some(x)), p, None), p + 1 + i)
            == Some((Contents(d, p, h)[1..] + [x])[i])
  {
    var d1 := Update(d, h, Some(x));
    var c0 := Contents(d, p, h);
    ContentsSpec(d, p, h);
    UpdateElsewhere(d1, p, None, p + 1 + i);
    if i < size - 1 {
      UpdateElsewhere(d, h, Some(x), p + 1 + i);
      assert Index(d, p + (i + 1)) == Some(c0[i + 1]);
    }
  }

  /** Push into a window that is not full: the tail word is untouched. */
  lemma PushIntoRoom<T>(rb: RingBuffer<T>, x: T)
    requires Window(rb, TailOf(rb).pos) && rb.head - TailOf(rb).pos < rb.size
    ensures Push(rb, x).Done?
    ensures Push(rb, x).state.tail == rb.tail
    ensures Window(Push(rb, x).state, TailOf(rb).pos)
    ensures Abs(Push(rb, x).state) == Abs(rb) + [x]
  {
    WriteHead(rb.data, TailOf(rb).pos, rb.head, rb.size, x);
  }

  /** Push into a full, unlocked window: the oldest element is evicted. */
  lemma PushEvicting<T>(rb: RingBuffer<T>, x: T)
    requires Window(rb, TailOf(rb).pos) && rb.head - TailOf(rb).pos >= rb.size
    requires !TailOf(rb).locked
    ensures Push(rb, x).Done?
    ensures TailOf(Push(rb, x).state) == TailState(false, TailOf(rb).pos + 1)
    ensures Window(Push(rb, x).state, TailOf(rb).pos + 1)
    ensures Abs(Push(rb, x).state) == Last(Abs(rb) + [x], rb.size)
  {
    var p := TailOf(rb).pos;
    var d2 := Update(Update(rb.data, rb.head, Some(x)), p, None);
    var s := rb.(data := d2, head := rb.head + 1, tail := Published(rb.variant, false, p + 1));
    assert Push(rb, x) == Done(s);
    assert TailOf(s) == TailState(false, p + 1);
    WriteHeadEvict(rb.data, p, rb.head, rb.size, x);
    assert Window(s, p + 1);
  }

  /** Push keeps the window consistent, never touches the lock, and makes the
      contents the last `size` of the old contents followed by `x`. */
  lemma PushKeepsWindow<T>(rb: RingBuffer<T>, x: T)
    requires Window(rb, TailOf(rb).pos)
    ensures Push(rb, x).Done? ==>
      && Window(Push(rb, x).state, TailOf(Push(rb, x).state).pos)
      && TailOf(Push(rb, x).state).locked == TailOf(rb).locked
      && Abs(Push(rb, x).state) == Last(Abs(rb) + [x], rb.size)
  {
    if rb.head - TailOf(rb).pos < rb.size {
      PushIntoRoom(rb, x);
      WindowLength(rb, TailOf(rb).pos);
    } else if !TailOf(rb).locked {
      PushEvicting(rb, x);
    }
  }

  /** On an engine at rest, push always completes, into a slot that was
      empty, and the engine stays at rest holding the last `size` elements. */
  lemma PushPreservesValid<T>(rb: RingBuffer<T>, x: T)
    requires Valid(rb)
    ensures Index(rb.data, rb.head).None?
    ensures Push(rb, x).Done?
    ensures Valid(Push(rb, x).state)
    ensures Abs(Push(rb, x).state) == Last(Abs(rb) + [x], rb.size)
    ensures |Abs(Push(rb, x).state)| <= rb.size
  {
    PushKeepsWindow(rb, x);
    WindowLength(Push(rb, x).state, TailOf(Push(rb, x).state).pos);
  }

  /** `read` on an engine at rest starts a drain that holds the lock at the
      tail, sees the whole contents, and has changed no slot. */
  lemma ReadStartsDrain<T>(rb: RingBuffer<T>)
    requires Valid(rb)
    ensures Holding(Read(rb).buffer, Read(rb).iter)
    ensures Contents(Read(rb).buffer.data, Read(rb).iter.currentTail, rb.head) == Abs(rb)
  {
  }

  /** Under a drain that holds the lock, `next` takes the oldest element,
      and the drain keeps holding the lock until it publishes the fixed head. */
  lemma NextTakesOldest<T>(rb: RingBuffer<T>, it: RingIter)
    requires Holding(rb, it) && it.currentTail < it.fixedHead
    ensures var n := Next(rb, it);
      && Draining(n.buffer, n.iter)
      && (it.currentTail + 1 == it.fixedHead ==> Released(n.buffer, n.iter))
      && NextContents(rb, it)
  {
    var n := Next(rb, it);
    var cur, h, d := it.currentTail, rb.head, rb.data;
    var d' := n.buffer.data;
    assert d' == Update(d, cur, None);
    forall c: nat | cur + 1 <= c < cur + rb.size + 1 ensures Index(d', c) == Index(d, c) {
      UpdateElsewhere(d, cur, None, c);
    }
    IndexWraps(d', cur);
    assert Window(n.buffer, cur + 1);
    ContentsFrame(d, cur, None, cur + 1, h);
    assert Index(d, cur).Some?;
  }

  /** What one `next` under a held lock does to the iterator and contents. */
  ghost predicate NextContents<T>(rb: RingBuffer<T>, it: RingIter)
    requires WellFormed(rb)
  {
    var n := Next(rb, it);
    && n.iter == RingIter(it.fixedHead, it.currentTail + 1)
    && n.item.Some?
    && [n.item.value] + Contents(n.buffer.data, n.iter.currentTail, rb.head)
       == Contents(rb.data, it.currentTail, rb.head)
  }

  /** `next` in the middle of a drain leaves it holding the lock. */
  lemma NextStep<T>(rb: RingBuffer<T>, it: RingIter)
    requires Holding(rb, it) && it.currentTail < it.fixedHead
    ensures NextContents(rb, it)
    ensures it.currentTail + 1 < it.fixedHead ==> Holding(Next(rb, it).buffer, Next(rb, it).iter)
  {
    NextTakesOldest(rb, it);
  }

  /** A drain short of its fixed head still holds the lock. */
  lemma StillHolding<T>(rb: RingBuffer<T>, it: RingIter)
    requires Draining(rb, it) && it.currentTail < it.fixedHead
    ensures Holding(rb, it)
  {
  }

  /** One step of Pull under a drain that holds the lock: `next` yields an
      element, and the remaining `k - 1` are pulled from the new state. */
  lemma PullUnfold<T>(rb: RingBuffer<T>, it: RingIter, k: nat)
    requires Holding(rb, it) && 0 < k <= it.fixedHead - it.currentTail
    ensures var n := Next(rb, it);
      var rest := Pull(n.buffer, n.iter, k - 1);
      && n.item.Some?
      && Pull(rb, it, k) == Pulling(rest.buffer, rest.iter, [n.item.value] + rest.items)
  {
    NextTakesOldest(rb, it);
    assert NextContents(rb, it);
  }

  /** Pulling `k` items from a drain that holds the lock keeps the drain
      consistent and moves its cursor by exactly `k`. */
  lemma {:induction false} PullAdvances<T>(rb: RingBuffer<T>, it: RingIter, k: nat)
    requires Holding(rb, it) && k <= it.fixedHead - it.currentTail
    ensures Draining(Pull(rb, it, k).buffer, Pull(rb, it, k).iter)
    ensures Pull(rb, it, k).iter == RingIter(it.fixedHead, it.currentTail + k)
    ensures 0 < k && it.currentTail + k == it.fixedHead ==>
      Released(Pull(rb, it, k).buffer, Pull(rb, it, k).iter)
    ensures 0 < k ==> TailOf(Pull(rb, it, k).buffer).pos == it.currentTail + k
    decreases k
  {
    if k > 0 {
      var n := Next(rb, it);
      NextTakesOldest(rb, it);
      PullUnfold(rb, it, k);
      if k > 1 {
        StillHolding(n.buffer, n.iter);
        PullAdvances(n.buffer, n.iter, k - 1);
      }
    }
  }

  /** Pulling `k` items from a drain that holds the lock yields the oldest
      `k` elements and leaves the rest in place. */
  lemma {:induction false} PullTakesWindow<T>(rb: RingBuffer<T>, it: RingIter, k: nat)
    requires Holding(rb, it) && k <= it.fixedHead - it.currentTail
    ensures PullSplits(rb, it, k)
    decreases k
  {
    if k > 0 {
      NextStep(rb, it);
      var n := Next(rb, it);
      if k > 1 {
        PullTakesWindow(n.buffer, n.iter, k - 1);
      }
      PullStep(rb, it, k);
    }
  }

  /** The items pulled so far followed by what is left in the window are
      the window the drain started with. */
  ghost predicate PullSplits<T>(rb: RingBuffer<T>, it: RingIter, k: nat)
    requires WellFormed(rb)
  {
    var p := Pull(rb, it, k);
    p.items + Contents(p.buffer.data, it.currentTail + k, rb.head)
      == Contents(rb.data, it.currentTail, rb.head)
  }

  lemma PullStep<T>(rb: RingBuffer<T>, it: RingIter, k: nat)
    requires WellFormed(rb) && 0 < k
    requires NextContents(rb, it)
    requires k > 1 ==> PullSplits(Next(rb, it).buffer, Next(rb, it).iter, k - 1)
    ensures PullSplits(rb, it, k)
  {
    var n := Next(rb, it);
    var rest := Pull(n.buffer, n.iter, k - 1);
    var v := n.item.value;
    PullCons(rb, it, k);
    var afterNext := Contents(n.buffer.data, it.currentTail + 1, rb.head);
    var tailEnd := Contents(rest.buffer.data, it.currentTail + k, rb.head);
    if k == 1 {
      assert rest == Pulling(n.buffer, n.iter, []);
    } else {
      assert rest.items + tailEnd == afterNext;
      Prepend(v, rest.items, tailEnd, afterNext);
    }
  }

  /** A `next` that yields an item puts it in front of the remaining pulls. */
  lemma PullCons<T>(rb: RingBuffer<T>, it: RingIter, k: nat)
    requires WellFormed(rb) && 0 < k && Next(rb, it).item.Some?
    ensures var n := Next(rb, it);
      var rest := Pull(n.buffer, n.iter, k - 1);
      Pull(rb, it, k) == Pulling(rest.buffer, rest.iter, [n.item.value] + rest.items)
  {
  }

  lemma Prepend<T>(v: T, a: seq<T>, b: seq<T>, c: seq<T>)
    requires a + b == c
    ensures ([v] + a) + b == [v] + c
  {
  }

  /** Dropping a drain leaves the engine at rest with the iterator's
      position as its tail, unless the code as written is dropping an
      untouched drain of an empty buffer away from position 0. */
  lemma DropRestores<T>(rb: RingBuffer<T>, it: RingIter)
    requires Draining(rb, it)
    requires rb.variant == Corrected || !(Holding(rb, it) && 0 < it.currentTail == it.fixedHead)
    ensures Valid(Drop(rb, it))
    ensures Drop(rb, it).data == rb.data && Drop(rb, it).head == rb.head
    ensures Holding(rb, it) ==> TailOf(Drop(rb, it)).pos == it.currentTail
    ensures Released(rb, it) ==> Drop(rb, it) == rb
  {
  }

  /** As written, a drain of an empty buffer whose tail is past 0 locks the
      tail and nothing unlocks it again. */
  lemma EmptyDrainKeepsLock<T>(rb: RingBuffer<T>)
    requires rb.variant == AsWritten && Valid(rb)
    requires 0 < TailOf(rb).pos == rb.head
    ensures ReadAll(rb).buffer == rb.(tail := -rb.tail)
    ensures TailOf(ReadAll(rb).buffer) == TailState(true, TailOf(rb).pos)
    ensures ReadAll(rb).items == []
  {
  }

  /** A push during a drain that holds a visible lock either spins (buffer
      full) or keeps the drain's window intact; after the drain released
      the lock, push behaves as at rest. */
  lemma PushDuringDrain<T>(rb: RingBuffer<T>, it: RingIter, x: T)
    requires Draining(rb, it)
    requires rb.variant == Corrected || it.currentTail > 0 || Released(rb, it)
    ensures Push(rb, x).Spins? ==>
      Holding(rb, it) && rb.head - it.currentTail == rb.size
    ensures Push(rb, x).Done? ==> Draining(Push(rb, x).state, it)
    ensures Push(rb, x).Done? && Holding(rb, it) && !Released(rb, it) ==>
      Contents(Push(rb, x).state.data, it.currentTail, rb.head + 1)
        == Contents(rb.data, it.currentTail, rb.head) + [x]
  {
    if Released(rb, it) {
      PushPreservesValid(rb, x);
    } else {
      assert TailOf(rb) == TailState(true, it.currentTail);
      PushKeepsWindow(rb, x);
      WindowLength(rb, it.currentTail);
    }
  }

  /** Pulling `k` items and dropping the iterator leaves the engine at rest
      with its tail `k` further on. */
  lemma PullThenDrop<T>(rb: RingBuffer<T>, it: RingIter, k: nat)
    requires Holding(rb, it) && k <= it.fixedHead - it.currentTail
    requires rb.variant == Corrected || it.currentTail < it.fixedHead || it.currentTail == 0
    ensures var p := Pull(rb, it, k);
      var after := Drop(p.buffer, p.iter);
      && Valid(after)
      && after.head == rb.head
      && TailOf(after).pos == it.currentTail + k
      && p.items + Abs(after) == Contents(rb.data, it.currentTail, rb.head)
  {
    PullAdvances(rb, it, k);
    PullTakesWindow(rb, it, k);
    assert PullSplits(rb, it, k);
    var p := Pull(rb, it, k);
    DropSettles(p.buffer, p.iter);
  }

  /** Dropping a drain at rest at its cursor leaves the engine valid with
      its tail at that cursor and the rest of the window as its contents. */
  lemma DropSettles<T>(rb: RingBuffer<T>, it: RingIter)
    requires Draining(rb, it)
    requires Holding(rb, it) || TailOf(rb).pos == it.currentTail
    requires rb.variant == Corrected || !(Holding(rb, it) && 0 < it.currentTail == it.fixedHead)
    ensures Valid(Drop(rb, it)) && Drop(rb, it).head == rb.head
    ensures TailOf(Drop(rb, it)).pos == it.currentTail
    ensures Abs(Drop(rb, it)) == Contents(rb.data, it.currentTail, rb.head)
  {
    DropRestores(rb, it);
  }

  /** Reading at most `k` elements from an engine at rest yields the oldest
      `k` and leaves exactly the others, in order, for the next read. */
  lemma ReadUpToResumes<T>(rb: RingBuffer<T>, k: nat)
    requires Valid(rb) && k <= |Abs(rb)|
    requires rb.variant == Corrected || TailOf(rb).pos < rb.head || TailOf(rb).pos == 0
    ensures ReadUpTo(rb, k).items == Abs(rb)[..k]
    ensures Valid(ReadUpTo(rb, k).buffer)
    ensures Abs(ReadUpTo(rb, k).buffer) == Abs(rb)[k..]
  {
    WindowLength(rb, TailOf(rb).pos);
    ReadStartsDrain(rb);
    var reading := Read(rb);
    PullThenDrop(reading.buffer, reading.iter, k);
    var p := Pull(reading.buffer, reading.iter, k);
    var after := Drop(p.buffer, p.iter);
    assert ReadUpTo(rb, k) == Drained(after, p.items);
    WindowLength(after, TailOf(after).pos);
    assert p.items + Abs(after) == Abs(rb);
  }

  /** Reading everything from an engine at rest yields its contents and
      leaves it empty and at rest. */
  lemma ReadAllEmpties<T>(rb: RingBuffer<T>)
    requires Valid(rb)
    requires rb.variant == Corrected || TailOf(rb).pos < rb.head || TailOf(rb).pos == 0
    ensures ReadAll(rb).items == Abs(rb)
    ensures Valid(ReadAll(rb).buffer)
    ensures Abs(ReadAll(rb).buffer) == []
  {
    WindowLength(rb, TailOf(rb).pos);
    ReadUpToResumes(rb, |Abs(rb)|);
  }
}
