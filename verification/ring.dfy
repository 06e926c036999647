/**
 * The ring buffer engine of src/lib.rs, single-threaded: atomics are plain
 * fields and every compare-and-swap succeeds.  The engine has `size + 1`
 * slots addressed by counter modulo `size + 1`, a head counter, and a packed
 * tail word whose sign is the drain lock.  A drain is a `RingIter` that
 * pulls slots from its current tail up to the head it saw when it started.
 *
 * The `variant` field chooses the lock encoding and the drop rule:
 * AsWritten is the code as written; Corrected locks with `-p - 1` and lets
 * a dropped iterator release a lock it still holds.
 */
module Ring {
  import opened Wrappers
  import opened Wrapping
  import opened TailWord

  datatype Variant = AsWritten | Corrected

  function EncodingOf(v: Variant): (e: Encoding) {
    match v
    case AsWritten => SignOnly
    case Corrected => SignOffset
  }

  datatype RingBuffer<T> = RingBuffer(
    variant: Variant,
    size: nat,
    head: nat,
    tail: int,
    data: WrappingVec<Option<T>>)

  /** A draining iterator: the head it will stop at and the next slot to take. */
  datatype RingIter = RingIter(fixedHead: nat, currentTail: nat)

  /** The outcome of a push: the new state, or a loop that never exits. */
  datatype Step<S> = Done(state: S) | Spins

  datatype Reading<T> = Reading(buffer: RingBuffer<T>, iter: RingIter)
  datatype Pulled<T> = Pulled(buffer: RingBuffer<T>, iter: RingIter, item: Option<T>)
  datatype Pulling<T> = Pulling(buffer: RingBuffer<T>, iter: RingIter, items: seq<T>)
  datatype Drained<T> = Drained(buffer: RingBuffer<T>, items: seq<T>)

  /** The slot store has one slack slot beyond the capacity. */
  predicate WellFormed<T>(rb: RingBuffer<T>) {
    |rb.data.inner| == rb.size + 1
  }

  function TailOf<T>(rb: RingBuffer<T>): (t: TailState) {
    Decode(EncodingOf(rb.variant), rb.tail)
  }

  /** The tail word the engine stores for a lock flag and position. */
  function Published(v: Variant, locked: bool, pos: nat): (raw: int) {
    Encode(EncodingOf(v), TailState(locked, pos))
  }

  // ---------------------------------------------------------------------
  // Slot windows

  predicate AllSome<T>(d: WrappingVec<Option<T>>, from: nat, to: nat)
    requires |d.inner| > 0
  {
    forall c: nat :: from <= c < to ==> Index(d, c).Some?
  }

  predicate AllNone<T>(d: WrappingVec<Option<T>>, from: nat, to: nat)
    requires |d.inner| > 0
  {
    forall c: nat :: from <= c < to ==> Index(d, c).None?
  }

  /** Slots with counters in `[from, head)` are full, and the rest of one turn
      of the ring, `[head, from + size + 1)`, is empty. */
  predicate Window<T>(rb: RingBuffer<T>, from: nat) {
    && WellFormed(rb)
    && from <= rb.head <= from + rb.size
    && AllSome(rb.data, from, rb.head)
    && AllNone(rb.data, rb.head, from + rb.size + 1)
  }

  /** The engine at rest: unlocked, with its window starting at the tail. */
  predicate Valid<T>(rb: RingBuffer<T>) {
    !TailOf(rb).locked && Window(rb, TailOf(rb).pos)
  }

  /** The elements stored in counters `[from, to)`, oldest first. */
  function Contents<T>(d: WrappingVec<Option<T>>, from: nat, to: nat): (s: seq<T>)
    requires |d.inner| > 0
    ensures |s| <= if from <= to then to - from else 0
    decreases (to as int) - (from as int)
  {
    if from >= to then []
    else
      var rest := Contents(d, from + 1, to);
      match Index(d, from)
      case Some(v) => [v] + rest
      case None => rest
  }

  /** What the buffer holds, oldest first. */
  function Abs<T>(rb: RingBuffer<T>): (s: seq<T>)
    requires WellFormed(rb)
  {
    Contents(rb.data, TailOf(rb).pos, rb.head)
  }

  /** A live drain that still holds the lock: the tail word is the locked
      encoding of the iterator's position, and the window starts there. */
  predicate Holding<T>(rb: RingBuffer<T>, it: RingIter) {
    && rb.tail == Published(rb.variant, true, it.currentTail)
    && it.currentTail <= it.fixedHead <= rb.head
    && Window(rb, it.currentTail)
  }

  /** A drain that has published its final, unlocked tail. */
  predicate Released<T>(rb: RingBuffer<T>, it: RingIter) {
    && it.currentTail == it.fixedHead
    && Valid(rb)
    && it.fixedHead <= TailOf(rb).pos
  }

  predicate Draining<T>(rb: RingBuffer<T>, it: RingIter) {
    Holding(rb, it) || Released(rb, it)
  }

  // ---------------------------------------------------------------------
  // Operations

  /** `RingBuffer::new`: head and tail 0, `size + 1` empty slots. */
  function New<T>(variant: Variant, size: nat): (rb: RingBuffer<T>)
    ensures rb.head == 0 && rb.tail == 0 && rb.size == size
    ensures |Deref(rb.data)| == size + 1
    ensures forall i :: 0 <= i < |Deref(rb.data)| ==> Deref(rb.data)[i] == None
    ensures Valid(rb) && Abs(rb) == []
  {
    var empty: Option<T> := None;
    RingBuffer(variant, size, 0, 0, FromVec(seq(size + 1, _ => empty)))
  }

  /** `push`: write the head slot, publish head + 1, then make room.  If the
      old occupancy `head - pos` is below `size` nothing else happens; if the
      tail is locked the loop retries forever; otherwise the tail advances
      by one and the evicted slot is emptied. */
  function Push<T>(rb: RingBuffer<T>, x: T): (r: Step<RingBuffer<T>>)
    requires WellFormed(rb)
    requires TailOf(rb).pos <= rb.head
    ensures r.Spins? <==> rb.head - TailOf(rb).pos >= rb.size && TailOf(rb).locked
    ensures r.Done? ==>
      && WellFormed(r.state)
      && r.state.head == rb.head + 1
      && r.state.size == rb.size && r.state.variant == rb.variant
    ensures r.Done? && rb.head - TailOf(rb).pos < rb.size ==>
      r.state.tail == rb.tail && Index(r.state.data, rb.head) == Some(x)
    ensures r.Done? && rb.head - TailOf(rb).pos >= rb.size ==>
      && r.state.tail == rb.tail + 1
      && TailOf(r.state) == TailState(false, TailOf(rb).pos + 1)
      && Index(r.state.data, TailOf(rb).pos) == None
    ensures r.Done? && 0 < rb.size && rb.head - TailOf(rb).pos <= rb.size ==>
      Index(r.state.data, rb.head) == Some(x)
    ensures r.Done? ==> forall j :: 0 <= j < |rb.data.inner| ==>
      (j != rb.head % (rb.size + 1) &&
       (rb.head - TailOf(rb).pos < rb.size || j != TailOf(rb).pos % (rb.size + 1)))
      ==> r.state.data.inner[j] == rb.data.inner[j]
  {
    var t := TailOf(rb);
    var written := rb.(data := Update(rb.data, rb.head, Some(x)), head := rb.head + 1);
    if rb.head - t.pos < rb.size then
      Done(written)
    else if t.locked then
      Spins
    else
      var evicted := Update(written.data, t.pos, None);
      assert 0 < rb.size && rb.head - t.pos <= rb.size ==> Index(evicted, rb.head) == Some(x) by {
        if 0 < rb.size && rb.head - t.pos <= rb.size {
          UpdateElsewhere(written.data, t.pos, None, rb.head);
        }
      }
      Done(written.(tail := Published(rb.variant, false, t.pos + 1), data := evicted))
  }

  /** `read`: lock the tail where it is and snapshot the head.  Under the
      code as written this negates the tail word, which leaves 0 as 0. */
  function Read<T>(rb: RingBuffer<T>): (r: Reading<T>)
    requires !TailOf(rb).locked
    ensures r.iter == RingIter(rb.head, TailOf(rb).pos)
    ensures r.buffer == rb.(tail := r.buffer.tail)
    ensures rb.variant == AsWritten ==> r.buffer.tail == -rb.tail
    ensures rb.variant == AsWritten && rb.tail == 0 ==> r.buffer == rb
    ensures rb.variant == Corrected ==> TailOf(r.buffer) == TailState(true, TailOf(rb).pos)
  {
    var t := TailOf(rb);
    Reading(rb.(tail := Published(rb.variant, true, t.pos)), RingIter(rb.head, t.pos))
  }

  /** `RingIter::next`: nothing once the iterator reaches its fixed head;
      otherwise take the slot, advance, and publish the new tail, locked
      unless it has reached the fixed head. */
  function Next<T>(rb: RingBuffer<T>, it: RingIter): (r: Pulled<T>)
    requires WellFormed(rb)
    ensures WellFormed(r.buffer) && r.buffer.head == rb.head
    ensures r.buffer.size == rb.size && r.buffer.variant == rb.variant
    ensures r.iter.fixedHead == it.fixedHead
    ensures it.currentTail == it.fixedHead <==> r == Pulled(rb, it, None)
    ensures it.currentTail != it.fixedHead ==>
      && r.iter.currentTail == it.currentTail + 1
      && r.item == Index(rb.data, it.currentTail)
      && Index(r.buffer.data, it.currentTail) == None
      && (forall j :: 0 <= j < |rb.data.inner| && j != it.currentTail % |rb.data.inner| ==>
            r.buffer.data.inner[j] == rb.data.inner[j])
      && TailOf(r.buffer) == TailState(r.iter.currentTail != it.fixedHead, r.iter.currentTail)
      && (rb.variant == AsWritten ==>
            r.buffer.tail == if r.iter.currentTail == it.fixedHead
                             then r.iter.currentTail else -(r.iter.currentTail as int))
  {
    if it.currentTail == it.fixedHead then
      Pulled(rb, it, None)
    else
      var item := Index(rb.data, it.currentTail);
      var next := it.currentTail + 1;
      var store := if next == it.fixedHead then Published(rb.variant, false, next)
                   else Published(rb.variant, true, next);
      Pulled(rb.(data := Update(rb.data, it.currentTail, None), tail := store),
             RingIter(it.fixedHead, next), item)
  }

  /** Dropping the iterator.  As written it stores its position, unlocked,
      only when it stopped short of the fixed head; the corrected rule also
      releases a lock the drain still holds. */
  function Drop<T>(rb: RingBuffer<T>, it: RingIter): (r: RingBuffer<T>)
    ensures r == rb.(tail := r.tail)
    ensures it.currentTail < it.fixedHead ==> r.tail == it.currentTail
    ensures rb.variant == AsWritten && it.currentTail >= it.fixedHead ==> r == rb
    ensures rb.variant == Corrected ==> !TailOf(r).locked
  {
    var release := match rb.variant
      case AsWritten => it.currentTail < it.fixedHead
      case Corrected => it.currentTail < it.fixedHead || TailOf(rb).locked;
    if release then rb.(tail := Published(rb.variant, false, it.currentTail)) else rb
  }

  /** Pulling at most `k` items from the iterator, stopping at the first
      `None` it yields (`take(k)` followed by a consumer). */
  function Pull<T>(rb: RingBuffer<T>, it: RingIter, k: nat): (r: Pulling<T>)
    requires WellFormed(rb)
    ensures WellFormed(r.buffer) && r.buffer.head == rb.head
    ensures r.buffer.size == rb.size && r.buffer.variant == rb.variant
    ensures r.iter.fixedHead == it.fixedHead
    ensures |r.items| <= k
    decreases k
  {
    if k == 0 then Pulling(rb, it, [])
    else
      var p := Next(rb, it);
      match p.item
      case None => Pulling(p.buffer, p.iter, [])
      case Some(v) =>
        var rest := Pull(p.buffer, p.iter, k - 1);
        Pulling(rest.buffer, rest.iter, [v] + rest.items)
  }

  /** `read()`, then at most `k` items, then the iterator is dropped. */
  function ReadUpTo<T>(rb: RingBuffer<T>, k: nat): (r: Drained<T>)
    requires WellFormed(rb) && !TailOf(rb).locked
    ensures WellFormed(r.buffer) && r.buffer.head == rb.head
    ensures r.buffer.size == rb.size && r.buffer.variant == rb.variant
    ensures |r.items| <= k
  {
    var reading := Read(rb);
    var pulled := Pull(reading.buffer, reading.iter, k);
    Drained(Drop(pulled.buffer, pulled.iter), pulled.items)
  }

  /** `read().collect()`: every element between the tail and the head. */
  function ReadAll<T>(rb: RingBuffer<T>): (r: Drained<T>)
    requires WellFormed(rb) && !TailOf(rb).locked && TailOf(rb).pos <= rb.head
    ensures WellFormed(r.buffer) && r.buffer.head == rb.head
    ensures r.buffer.size == rb.size && r.buffer.variant == rb.variant
    ensures |r.items| <= rb.head - TailOf(rb).pos
  {
    ReadUpTo(rb, rb.head - TailOf(rb).pos)
  }
}
