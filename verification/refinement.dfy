/**
 * The engine against its oracle.  A run is a sequence of operations, each a
 * push or a full drain (`read().collect()`), applied to the engine and to the
 * bounded buffer of src/reference.rs side by side.  The main theorem says the
 * two produce the same outputs; the counterexamples at the end show where the
 * code as written leaves that theorem.
 */
module Refinement {
  import opened Wrappers
  import opened Sequences
  import opened TailWord
  import opened Wrapping
  import opened Ring
  import opened RingLemmas
  import Reference

  datatype Op<T> = Put(x: T) | Drain

  /** What one operation hands back to its caller. */
  datatype Output<T> = Written | Yielded(items: seq<T>)

  /** A run completes with one output per operation, or a push never
      returns, or the run reaches a state outside the model (a drain started
      while the tail word is negative, where the code reinterprets a negative
      tail as an unsigned position). */
  datatype Outcome<T> = Completed(outputs: seq<Output<T>>) | Hangs | Unmodelled

  function Then<T>(o: Output<T>, rest: Outcome<T>): (r: Outcome<T>)
    ensures r.Completed? <==> rest.Completed?
    ensures r.Completed? ==> r.outputs == [o] + rest.outputs
  {
    match rest
    case Completed(os) => Completed([o] + os)
    case _ => rest
  }

  /** Runs `ops` on the reference buffer. */
  function RunOracle<T>(b: Reference.BoundedBuffer<T>, ops: seq<Op<T>>): (outs: seq<Output<T>>)
    requires b.size > 0
    ensures |outs| == |ops|
    ensures forall i :: 0 <= i < |ops| ==> (outs[i].Written? <==> ops[i].Put?)
    decreases |ops|
  {
    if ops == [] then []
    else match ops[0]
      case Put(x) => [Written] + RunOracle(Reference.Write(b, x), ops[1..])
      case Drain =>
        var (b', items) := Reference.Read(b);
        [Yielded(items)] + RunOracle(b', ops[1..])
  }

  /** Runs `ops` on the engine. */
  function RunEngine<T>(rb: RingBuffer<T>, ops: seq<Op<T>>): (r: Outcome<T>)
    requires WellFormed(rb)
    ensures r.Completed? ==> |r.outputs| == |ops|
    ensures r.Completed? ==> forall i :: 0 <= i < |ops| ==> (r.outputs[i].Written? <==> ops[i].Put?)
    decreases |ops|
  {
    if ops == [] then Completed([])
    else if TailOf(rb).pos > rb.head then Unmodelled
    else match ops[0]
      case Put(x) =>
        (match Push(rb, x)
         case Spins => Hangs
         case Done(next) => Then(Written, RunEngine(next, ops[1..])))
      case Drain =>
        if TailOf(rb).locked then Unmodelled
        else
          var d := ReadAll(rb);
          Then(Yielded(d.items), RunEngine(d.buffer, ops[1..]))
  }

  /** The engine at rest stands for the reference buffer holding its contents. */
  ghost predicate Refines<T>(rb: RingBuffer<T>, b: Reference.BoundedBuffer<T>) {
    && Valid(rb)
    && b.size == rb.size && b.size > 0
    && Abs(rb) == b.data
  }

  /** Along the oracle's run, no drain finds the buffer empty, except while
      `atZero` holds: the engine's tail is still at 0, as in a fresh engine
      before its first push, where a drain of nothing changes nothing. */
  ghost predicate NoEmptyDrain<T>(b: Reference.BoundedBuffer<T>, ops: seq<Op<T>>, atZero: bool)
    requires b.size > 0
    decreases |ops|
  {
    ops == [] ||
    match ops[0]
    case Put(x) => NoEmptyDrain(Reference.Write(b, x), ops[1..], false)
    case Drain =>
      && (|b.data| > 0 || atZero)
      && NoEmptyDrain(Reference.Read(b).0, ops[1..], atZero && |b.data| == 0)
  }

  /** Knowing the tail is at 0 only ever admits more runs. */
  lemma {:induction false} NoEmptyDrainAnyTail<T>(b: Reference.BoundedBuffer<T>, ops: seq<Op<T>>, atZero: bool)
    requires b.size > 0 && NoEmptyDrain(b, ops, false)
    ensures NoEmptyDrain(b, ops, atZero)
    decreases |ops|
  {
    if ops != [] && ops[0].Drain? {
      NoEmptyDrainAnyTail(Reference.Read(b).0, ops[1..], atZero && |b.data| == 0);
    }
  }

  /** A push on the engine is a write on the oracle. */
  lemma PutRefines<T>(rb: RingBuffer<T>, b: Reference.BoundedBuffer<T>, x: T)
    requires Refines(rb, b)
    ensures TailOf(rb).pos <= rb.head
    ensures Push(rb, x).Done?
    ensures Refines(Push(rb, x).state, Reference.Write(b, x))
  {
    WindowLength(rb, TailOf(rb).pos);
    PushPreservesValid(rb, x);
    Reference.WriteKeepsLast(b, x);
  }

  /** A full drain on the engine is a read on the oracle, unless the code as
      written drains an empty buffer whose tail is not 0. */
  lemma DrainRefines<T>(rb: RingBuffer<T>, b: Reference.BoundedBuffer<T>)
    requires Refines(rb, b)
    requires rb.variant == Corrected || |b.data| > 0 || TailOf(rb).pos == 0
    ensures TailOf(rb).pos <= rb.head && !TailOf(rb).locked
    ensures ReadAll(rb).items == Reference.Read(b).1
    ensures Refines(ReadAll(rb).buffer, Reference.Read(b).0)
  {
    WindowLength(rb, TailOf(rb).pos);
    ReadAllEmpties(rb);
  }

  /** The engine and the oracle agree on every run that starts in agreement,
      for the corrected engine always and for the code as written whenever no
      drain meets an empty buffer while the tail is past 0. */
  lemma {:induction false} RunRefinesOracle<T>(rb: RingBuffer<T>, b: Reference.BoundedBuffer<T>, ops: seq<Op<T>>)
    requires Refines(rb, b)
    requires rb.variant == Corrected || NoEmptyDrain(b, ops, TailOf(rb).pos == 0)
    ensures RunEngine(rb, ops) == Completed(RunOracle(b, ops))
    decreases |ops|
  {
    if ops != [] {
      match ops[0]
      case Put(x) =>
        PutRefines(rb, b, x);
        var next := Push(rb, x).state;
        if rb.variant == AsWritten {
          NoEmptyDrainAnyTail(Reference.Write(b, x), ops[1..], TailOf(next).pos == 0);
        }
        RunRefinesOracle(next, Reference.Write(b, x), ops[1..]);
        assert RunEngine(rb, ops) == Then(Written, RunEngine(next, ops[1..]));
      case Drain =>
        DrainRefines(rb, b);
        var d := ReadAll(rb);
        if rb.variant == AsWritten {
          if TailOf(rb).pos == 0 && |b.data| == 0 {
            WindowLength(rb, 0);
            WindowLength(d.buffer, TailOf(d.buffer).pos);
            assert TailOf(d.buffer).pos == 0;
          } else {
            NoEmptyDrainAnyTail(Reference.Read(b).0, ops[1..], TailOf(d.buffer).pos == 0);
          }
        }
        RunRefinesOracle(d.buffer, Reference.Read(b).0, ops[1..]);
        assert RunEngine(rb, ops) == Then(Yielded(d.items), RunEngine(d.buffer, ops[1..]));
    }
  }

  /** A new engine refines a new reference buffer of the same capacity. */
  lemma FreshRunsAgree<T>(v: Variant, size: nat, ops: seq<Op<T>>)
    requires size > 0
    requires v == Corrected || NoEmptyDrain(Reference.BoundedBuffer(size, []), ops, true)
    ensures Reference.New<T>(size).Some?
    ensures RunEngine(New(v, size), ops) == Completed(RunOracle(Reference.New(size).value, ops))
  {
    RunRefinesOracle(New(v, size), Reference.New(size).value, ops);
  }

  /** As written, a reader polling a fresh engine before the first push
      drains nothing, changes nothing, and the run still matches the oracle. */
  lemma PollBeforePushAgrees<T>(a: T)
    ensures NoEmptyDrain(Reference.BoundedBuffer(1, []), [Drain, Put(a)], true)
    ensures RunEngine(New(AsWritten, 1), [Drain, Put(a)])
      == Completed(RunOracle(Reference.BoundedBuffer(1, []), [Drain, Put(a)]))
  {
    var b := Reference.BoundedBuffer(1, []);
    assert [Drain, Put(a)][1..] == [Put(a)] && [Put(a)][1..] == [];
    assert NoEmptyDrain(Reference.Write(Reference.Read(b).0, a), [], false);
    FreshRunsAgree(AsWritten, 1, [Drain, Put(a)]);
  }

  // ---------------------------------------------------------------------
  // Pushes and a drain

  /** Pushing `xs` one after the other, stopping at a push that never returns. */
  function Fill<T>(rb: RingBuffer<T>, xs: seq<T>): (r: Step<RingBuffer<T>>)
    requires WellFormed(rb) && TailOf(rb).pos <= rb.head
    ensures r.Done? ==> WellFormed(r.state) && r.state.head == rb.head + |xs|
    decreases |xs|
  {
    if xs == [] then Done(rb)
    else match Push(rb, xs[0])
      case Spins => Spins
      case Done(next) => Fill(next, xs[1..])
  }

  /** Pushes into an engine at rest never block, and it keeps the newest
      `size` of everything it was given. */
  lemma {:induction false} FillKeepsLast<T>(rb: RingBuffer<T>, xs: seq<T>)
    requires Valid(rb)
    ensures TailOf(rb).pos <= rb.head
    ensures Fill(rb, xs).Done?
    ensures Valid(Fill(rb, xs).state)
    ensures Abs(Fill(rb, xs).state) == Last(Abs(rb) + xs, rb.size)
    decreases |xs|
  {
    WindowLength(rb, TailOf(rb).pos);
    if xs == [] {
      assert Abs(rb) + xs == Abs(rb);
    } else {
      PushPreservesValid(rb, xs[0]);
      var next := Push(rb, xs[0]).state;
      WindowLength(next, TailOf(next).pos);
      FillKeepsLast(next, xs[1..]);
      FillStep(rb, xs, next);
    }
  }

  lemma FillStep<T>(rb: RingBuffer<T>, xs: seq<T>, next: RingBuffer<T>)
    requires Valid(rb) && xs != [] && Push(rb, xs[0]) == Done(next)
    requires Valid(next) && Abs(next) == Last(Abs(rb) + [xs[0]], rb.size) && next.size == rb.size
    requires Fill(next, xs[1..]).Done? && Valid(Fill(next, xs[1..]).state)
    requires Abs(Fill(next, xs[1..]).state) == Last(Abs(next) + xs[1..], rb.size)
    ensures Fill(rb, xs) == Fill(next, xs[1..])
    ensures Abs(Fill(rb, xs).state) == Last(Abs(rb) + xs, rb.size)
  {
    WindowLength(next, TailOf(next).pos);
    LastOfLast(Abs(rb) + [xs[0]], xs[1..], rb.size);
    ConsSplit(Abs(rb), xs);
  }

  /** A fresh engine given `xs` is at rest holding the newest `size` of them;
      given nothing, it is still the fresh engine. */
  lemma FillFresh<T>(v: Variant, size: nat, xs: seq<T>)
    ensures Fill(New(v, size), xs).Done?
    ensures Valid(Fill(New(v, size), xs).state)
    ensures Abs(Fill(New(v, size), xs).state) == Last(xs, size)
    ensures xs == [] ==> Fill(New(v, size), xs).state == New(v, size)
  {
    var rb0: RingBuffer<T> := New(v, size);
    FillKeepsLast(rb0, xs);
    assert Abs(rb0) + xs == xs;
  }

  /** Draining an engine at rest that holds `s`: when `s` is empty under the
      code as written, the tail must be 0. */
  lemma DrainHolding<T>(rb: RingBuffer<T>, s: seq<T>)
    requires Valid(rb) && Abs(rb) == s
    requires rb.variant == Corrected || s != [] || TailOf(rb).pos == 0
    ensures !TailOf(rb).locked && TailOf(rb).pos <= rb.head
    ensures ReadAll(rb).items == s
    ensures Valid(ReadAll(rb).buffer) && Abs(ReadAll(rb).buffer) == []
  {
    WindowLength(rb, TailOf(rb).pos);
    ReadAllEmpties(rb);
  }

  /** First in, first out: a fresh engine given `xs` and then drained yields
      the newest `size` elements of `xs` in the order they were pushed, under
      either variant. */
  lemma FillThenDrain<T>(v: Variant, size: nat, xs: seq<T>)
    requires size > 0
    ensures Fill(New(v, size), xs).Done?
    ensures var rb := Fill(New(v, size), xs).state;
      && !TailOf(rb).locked && TailOf(rb).pos <= rb.head
      && ReadAll(rb).items == Last(xs, size)
      && Valid(ReadAll(rb).buffer) && Abs(ReadAll(rb).buffer) == []
  {
    FillFresh(v, size, xs);
    var rb := Fill(New(v, size), xs).state;
    assert xs != [] ==> |Last(xs, size)| > 0;
    DrainHolding(rb, Last(xs, size));
  }

  /** While the tail is locked, pushes fill the free room and the first push
      beyond it never returns. */
  lemma {:induction false} LockedPushesHang<T>(rb: RingBuffer<T>, ops: seq<Op<T>>)
    requires WellFormed(rb) && TailOf(rb).locked
    requires TailOf(rb).pos <= rb.head <= TailOf(rb).pos + rb.size
    requires forall i :: 0 <= i < |ops| ==> ops[i].Put?
    requires rb.head - TailOf(rb).pos + |ops| > rb.size
    ensures RunEngine(rb, ops) == Hangs
    decreases |ops|
  {
    var x := ops[0].x;
    if rb.head - TailOf(rb).pos < rb.size {
      var next := Push(rb, x).state;
      LockedPushesHang(next, ops[1..]);
      assert RunEngine(rb, ops) == Then(Written, RunEngine(next, ops[1..]));
    }
  }

  // ---------------------------------------------------------------------
  // Concrete runs

  /** Capacity 3, five pushes, one drain: the three newest come out. */
  lemma KeepsNewestThree<T>(v: Variant, a: T, b: T, c: T, d: T, e: T)
    ensures var rb := Fill(New(v, 3), [a, b, c, d, e]);
      && rb.Done? && !TailOf(rb.state).locked && TailOf(rb.state).pos <= rb.state.head
      && ReadAll(rb.state).items == [c, d, e]
  {
    FillThenDrain(v, 3, [a, b, c, d, e]);
    assert Last([a, b, c, d, e], 3) == [c, d, e];
  }

  /** A drain that takes only the first two of three leaves the third behind,
      and the next drain yields it. */
  lemma PartialDrainResumes<T>(v: Variant, a: T, b: T, c: T)
    ensures Fill(New(v, 3), [a, b, c]).Done?
    ensures var rb := Fill(New(v, 3), [a, b, c]).state;
      && !TailOf(rb).locked
      && ReadUpTo(rb, 2).items == [a, b]
      && Valid(ReadUpTo(rb, 2).buffer)
      && ReadAll(ReadUpTo(rb, 2).buffer).items == [c]
  {
    var rb0: RingBuffer<T> := New(v, 3);
    FillKeepsLast(rb0, [a, b, c]);
    var rb := Fill(rb0, [a, b, c]).state;
    assert Abs(rb0) + [a, b, c] == [a, b, c];
    assert Abs(rb) == [a, b, c];
    WindowLength(rb, TailOf(rb).pos);
    ReadUpToResumes(rb, 2);
    var rest := ReadUpTo(rb, 2).buffer;
    assert Abs(rest) == [c];
    WindowLength(rest, TailOf(rest).pos);
    ReadAllEmpties(rest);
  }

  /** As written, an empty drain at a nonzero tail leaves the tail locked:
      capacity 2, push, drain, drain, then three pushes, the last of which
      never returns, while the oracle completes the same run. */
  lemma EmptyDrainHangs<T>(a: T, b: T, c: T, d: T)
    ensures var ops := [Put(a), Drain, Drain, Put(b), Put(c), Put(d)];
      && RunEngine(New(AsWritten, 2), ops) == Hangs
      && RunOracle(Reference.BoundedBuffer(2, []), ops)
         == [Written, Yielded([a]), Yielded([]), Written, Written, Written]
  {
    var ops := [Put(a), Drain, Drain, Put(b), Put(c), Put(d)];
    var rb0: RingBuffer<T> := New(AsWritten, 2);
    PushIntoRoom(rb0, a);
    var rb1 := Push(rb0, a).state;
    assert Abs(rb0) == [];
    assert Abs(rb1) == [a];
    WindowLength(rb1, TailOf(rb1).pos);
    ReadAllEmpties(rb1);
    var rb2 := ReadAll(rb1).buffer;
    WindowLength(rb2, TailOf(rb2).pos);
    EmptyDrainKeepsLock(rb2);
    var rb3 := ReadAll(rb2).buffer;
    LockedPushesHang(rb3, ops[3..]);
    assert RunEngine(rb2, ops[2..]) == Then(Yielded([]), RunEngine(rb3, ops[3..]));
    assert RunEngine(rb1, ops[1..]) == Then(Yielded([a]), RunEngine(rb2, ops[2..]));
    assert RunEngine(rb0, ops) == Then(Written, RunEngine(rb1, ops[1..]));
    OracleEmptyDrain(a, b, c, d);
  }

  lemma OracleEmptyDrain<T>(a: T, b: T, c: T, d: T)
    ensures var ops := [Put(a), Drain, Drain, Put(b), Put(c), Put(d)];
      RunOracle(Reference.BoundedBuffer(2, []), ops)
        == [Written, Yielded([a]), Yielded([]), Written, Written, Written]
  {
    var ops := [Put(a), Drain, Drain, Put(b), Put(c), Put(d)];
    var b0: Reference.BoundedBuffer<T> := Reference.BoundedBuffer(2, []);
    var b1 := Reference.Write(b0, a);
    assert b1.data == [a];
    var b2 := Reference.Read(b1).0;
    var b3 := Reference.Write(b2, b);
    var b4 := Reference.Write(b3, c);
    var tail := RunOracle(b4, ops[5..]);
    assert RunOracle(b3, ops[4..]) == [Written] + tail;
    assert RunOracle(b2, ops[3..]) == [Written, Written] + tail;
    assert RunOracle(b2, ops[2..]) == [Yielded([]), Written, Written] + tail;
    assert ops[1..][1..] == ops[2..];
    assert RunOracle(b1, ops[1..]) == [Yielded([a]), Yielded([]), Written, Written] + tail;
    assert RunOracle(b0, ops) == [Written, Yielded([a]), Yielded([]), Written, Written] + tail;
  }

  /** The corrected engine completes the run of EmptyDrainHangs with the
      oracle's outputs. */
  lemma CorrectedEmptyDrainCompletes<T>(a: T, b: T, c: T, d: T)
    ensures var ops := [Put(a), Drain, Drain, Put(b), Put(c), Put(d)];
      RunEngine(New(Corrected, 2), ops)
        == Completed([Written, Yielded([a]), Yielded([]), Written, Written, Written])
  {
    var ops := [Put(a), Drain, Drain, Put(b), Put(c), Put(d)];
    FreshRunsAgree(Corrected, 2, ops);
    OracleEmptyDrain(a, b, c, d);
  }

  /** As written, a drain that starts at tail 0 publishes no lock: capacity
      1, push a, start a drain, push b and c.  Those pushes evict the slots
      the drain owns, the drain then yields c, pushed after it started, and
      leaves an engine that is not at rest. */
  lemma ZeroLockLost<T>(a: T, b: T, c: T)
    ensures var rb1 := Push(New(AsWritten, 1), a).state;
      var r := Read(rb1);
      && r.buffer == rb1 && Abs(rb1) == [a] && r.iter == RingIter(1, 0)
      && Push(rb1, b).Done? && Push(Push(rb1, b).state, c).Done?
      && var n := Next(Push(Push(rb1, b).state, c).state, r.iter);
         n.item == Some(c) && !Valid(n.buffer)
  {
  }

  /** With the corrected lock, the same push during that drain waits. */
  lemma CorrectedZeroLockHolds<T>(a: T, b: T)
    ensures var rb1 := Push(New(Corrected, 1), a).state;
      var r := Read(rb1);
      && TailOf(r.buffer) == TailState(true, 0)
      && Push(r.buffer, b).Spins?
  {
  }
}
