# Lock-free ring buffer: a sequential Dafny model

This project models the ring buffer engine of `src/lib.rs`: a bounded buffer
that a writer pushes into and a reader drains. When the buffer is full, a push
evicts the oldest element. The engine keeps `size + 1` optional slots,
addressed modulo `size + 1` by two ever-growing counters. `head` is the next
slot to write. The signed `tail` word holds the oldest element's position in
its magnitude and the drain lock in its sign. A drain is a `RingIter`: `read`
locks the tail and snapshots the head, `next` takes one slot at a time, and
dropping the iterator publishes where it stopped.

The model is single-threaded. Each atomic is a plain field, and every
compare-and-swap succeeds. Each operation is a pure function from state to
state:

- `Ring.New`, `Ring.Push`, `Ring.Read`, `Ring.Next`, `Ring.Drop`;
- `Ring.Pull`, `Ring.ReadUpTo` and `Ring.ReadAll`, for `take(k)` and
  `collect()` on the iterator.

A push whose loop can never exit returns `Spins` instead of a state. The slot
store is the modulo-indexed vector of `src/wrapping_vec.rs` (module
`Wrapping`). The tail word's packing is module `TailWord`.

The oracle is the sequential `BoundedBuffer` of `src/reference.rs` (module
`Reference`). Module `Refinement` runs a sequence of pushes and full drains on
both and proves that they produce the same outputs. The engine is said to be
at rest (`Ring.Valid`) when it is unlocked and the slots in `[tail, head)`
are full and all others empty. Its contents (`Ring.Abs`) are those slots,
oldest first.

Every engine state carries a `variant`:

- `AsWritten` is the code exactly as written. Locking negates the tail word,
  and dropping the iterator publishes the tail only when the drain stopped
  short of its snapshot.
- `Corrected` locks position `p` as `-p - 1` and also releases the lock when
  the iterator is dropped while still holding it.

All other logic is shared between the two. The two differences are the two
entries under "## Findings".

The `-p - 1` encoding is the corrected variant's own choice. Unlike plain
negation, it is a bijection between tail words and (lock, position) pairs, so
a lock at position 0 is visible (`TailWord.DecodeEncodeOffset`).

## Model

| member | source | states |
|---|---|---|
| Wrapping.FromVec | src/wrapping_vec.rs:8-20 | Wrapping a vector keeps its contents and length, and `Deref` exposes that same vector |
| Wrapping.FromIter | src/wrapping_vec.rs:22-26 | Collecting the items of an iterator, one at a time, gives a wrapper whose vector is exactly those items in order |
| Wrapping.Index | src/wrapping_vec.rs:34-36 | Indexing needs a non-empty vector; the result is an element of the vector, and an index below the length reads that element |
| Wrapping.IndexWraps | src/wrapping_vec.rs:34-36 | Counters `i` and `i + len` address the same element |
| Wrapping.Update | src/wrapping_vec.rs:43-46 | Writing through a counter keeps the length, makes the counter read back the new value, and leaves every other position unchanged |
| Wrapping.UpdateElsewhere | src/wrapping_vec.rs:43-46 | A write through counter `i` is invisible through any counter `j` within one turn of `i` |
| TailWord.Decode | src/lib.rs:38-45 | A tail word is locked exactly when it is negative. An unlocked word is its own position. A locked word's position is its magnitude (`tail.abs()`), or the magnitude minus 1 under the offset encoding |
| TailWord.Encode | src/lib.rs:92-97 | Encoding a (lock, position) pair always keeps the position and keeps the lock, except for a locked position 0 under the sign-only encoding; an unlocked pair is stored as the bare position |
| TailWord.EncodeDecode | src/lib.rs:38-45 | Every tail word, in either encoding, is the encoding of what it decodes to |
| TailWord.DecodeEncodeSignOnly | src/lib.rs:59 | Under negation as the lock, a pair round-trips if and only if it is not "locked at 0" |
| TailWord.SignOnlyLosesLockAtZero | src/lib.rs:59 | Negating the word 0 stores the unlocked word 0, so the lock is lost |
| Ring.New | src/lib.rs:19-26 | A new engine has head 0, tail 0 and `size + 1` empty slots, and is at rest with no contents |
| Ring.Push | src/lib.rs:28-54 | Push never returns exactly when the old occupancy is at least `size` and the tail is locked. Otherwise head grows by 1 and the tail changes only when full: then it advances by one, unlocked, and the evicted slot is emptied. With `size > 0` and occupancy at most `size`, the head slot holds the pushed value. Every slot other than the head slot and, when full, the evicted slot is unchanged |
| Ring.Read | src/lib.rs:56-69 | Read changes only the tail word. The iterator snapshots the head and the old tail. As written the word is negated, and the buffer is unchanged at tail 0; the corrected variant records a visible lock |
| Ring.Next | src/lib.rs:81-100 | Next yields nothing and changes nothing exactly at the fixed head. Otherwise it takes the current slot, leaves it empty and advances by one, then publishes the new position: locked before the fixed head (as written `-new`), unlocked `+new` at it. Every other slot is unchanged |
| Ring.Drop | src/lib.rs:103-110 | Drop changes only the tail word. It stores the iterator's position when that is short of the fixed head, and as written does nothing otherwise |
| Ring.Pull | src/lib.rs:81-100 | Pulling at most `k` items keeps the head, size and well-formedness and yields at most `k` items |
| Ring.ReadUpTo | src/lib.rs:56-110 | `read()`, at most `k` calls of `next`, then dropping the iterator: keeps the head, size and well-formedness and yields at most `k` items |
| Ring.ReadAll | src/lib.rs:56-110 | A full drain keeps the head and yields at most `head - tail` items |
| RingLemmas.ContentsSpec | src/lib.rs:29-34 | Over a full window, the contents list the slots' values in counter order |
| RingLemmas.WindowLength | src/lib.rs:40 | In a consistent window, occupancy `head - tail` is at most `size` and equals the number of stored elements |
| RingLemmas.PushIntoRoom | src/lib.rs:36-41 | A push into room keeps the tail and appends the value to the contents |
| RingLemmas.PushEvicting | src/lib.rs:43-51 | A push into a full, unlocked buffer advances the tail by one and keeps the newest `size` elements |
| RingLemmas.PushKeepsWindow | src/lib.rs:28-54 | A completed push keeps the slot window consistent from the new tail, never changes the lock flag, and leaves the newest `size` of the old contents plus the value |
| RingLemmas.PushPreservesValid | src/lib.rs:28-54 | At rest the head slot is empty and push completes, stays at rest, keeps the newest `size` of the old contents plus the value, and keeps occupancy within `size` |
| RingLemmas.ReadStartsDrain | src/lib.rs:56-69 | Read on an engine at rest starts a drain whose window is the whole contents |
| RingLemmas.NextTakesOldest | src/lib.rs:81-100 | Under a held lock, next yields the oldest element and keeps the rest in order, and the drain is released once it reaches its fixed head |
| RingLemmas.PullAdvances | src/lib.rs:81-100 | Pulling `k` items of a held drain advances the iterator by exactly `k` and keeps the drain consistent |
| RingLemmas.PullTakesWindow | src/lib.rs:81-100 | The items pulled followed by what remains are exactly the drain's window |
| RingLemmas.DropRestores | src/lib.rs:103-110 | Dropping a drain leaves the engine at rest with its tail at the iterator's position, slots and head untouched |
| RingLemmas.EmptyDrainKeepsLock | src/lib.rs:56-110 | As written, a full drain of an empty buffer with tail above 0 negates the tail and leaves it locked, yielding nothing |
| RingLemmas.PushDuringDrain | src/lib.rs:36-53 | A push during a drain with a visible lock spins only when full, and otherwise appends after the drain's window without touching it |
| RingLemmas.PullThenDrop | src/lib.rs:81-110 | Pulling `k` items and dropping the iterator leaves the engine at rest, `k` further on, and the pulled items followed by the rest are the old window |
| RingLemmas.ReadUpToResumes | src/lib.rs:56-110 | A drain of the first `k` elements yields them in order and leaves exactly the others for the next drain |
| RingLemmas.ReadAllEmpties | src/lib.rs:56-110 | A full drain yields the contents in order and leaves the engine at rest and empty |
| Reference.New | src/reference.rs:7-13 | Construction succeeds exactly for a positive size and starts empty |
| Reference.Write | src/reference.rs:15-22 | A write keeps the size. Below the bound it appends the value; at the bound it drops the oldest element, shifts the rest left and puts the value last |
| Reference.WriteKeepsLast | src/reference.rs:15-22 | Within the bound, a write keeps the newest `size` elements of the data plus the value, so the length stays at most `size` |
| Reference.WriteAllKeepsLast | src/reference.rs:15-22 | After any writes the buffer holds the newest `size` elements of everything written, oldest first |
| Reference.Read | src/reference.rs:24-26 | Read returns all elements in order and leaves the buffer empty |
| Reference.ReadTwiceYieldsNothing | src/reference.rs:24-26 | A read right after a read returns nothing |
| Refinement.RunOracle | src/reference.rs:15-26 | A run on the oracle gives one output per operation, and a write acknowledgement exactly where the operation is a write |
| Refinement.RunEngine | src/lib.rs:28-110 | A completed engine run gives one output per operation, with a write acknowledgement exactly at each push |
| Refinement.PutRefines | src/lib.rs:28-54 | A push on an engine that matches the oracle completes and matches the oracle's write |
| Refinement.DrainRefines | src/lib.rs:56-110 | A full drain yields what the oracle's read returns and leaves the two in agreement: always for the corrected engine, and as written unless the buffer is empty with tail above 0 |
| Refinement.RunRefinesOracle | src/lib.rs:28-110 | Engine and oracle agree on every run that starts in agreement: always for the corrected engine, and as written whenever no drain meets an empty buffer while the tail is past 0 (a drain of nothing at tail 0 is admitted) |
| Refinement.FreshRunsAgree | src/lib.rs:19-26 | A new engine and a new oracle of the same capacity produce the same outputs under those conditions, polls of the fresh engine before its first push included |
| Refinement.PollBeforePushAgrees | src/lib.rs:56-110 | As written, draining a fresh engine of capacity 1 and then pushing matches the oracle, and the run is admitted by the main theorem |
| Refinement.Fill | src/lib.rs:28-54 | Pushing a sequence that completes advances the head by its length |
| Refinement.FillKeepsLast | src/lib.rs:28-54 | Pushes into an engine at rest never block, keep it at rest, and keep the newest `size` of everything pushed |
| Refinement.FillThenDrain | src/lib.rs:28-99 | A fresh engine given `xs` and then drained yields the newest `min(n, size)` elements in push order, under either variant |
| Refinement.LockedPushesHang | src/lib.rs:43-45 | While the tail is locked, pushes beyond the free room never return |
| Refinement.KeepsNewestThree | src/lib.rs:28-99 | Capacity 3 with five pushes drains to the last three |
| Refinement.PartialDrainResumes | src/lib.rs:103-110 | A drain stopped after two of three elements leaves the third for the next drain |
| Refinement.OracleEmptyDrain | src/reference.rs:15-26 | The oracle's outputs for the push/drain/drain/push run of the second finding |
| Refinement.EmptyDrainHangs | src/lib.rs:103-110 | As written, that run ends in a push that never returns |
| Refinement.CorrectedEmptyDrainCompletes | src/lib.rs:103-110 | The corrected engine completes that run with the oracle's outputs |
| Refinement.ZeroLockLost | src/lib.rs:59 | As written, pushes during a drain begun at tail 0 evict the drain's slots; the drain then yields an element pushed after it started and leaves the engine inconsistent |
| Refinement.CorrectedZeroLockHolds | src/lib.rs:59 | Under the corrected lock the same push sees the lock and waits |

## Left out

- Concurrency: thread interleavings, memory orderings, and failed compare-and-swap retries. They cannot be stated sequentially. Every atomic is a plain field and every compare-and-swap succeeds.
- `UnsafeCell` and the raw-pointer slot access. Slots are a plain sequence of options.
- The `rand` crate import and the `it_works` placeholder test. They carry no logic.
- Machine integers. Counters are unbounded, so `usize`/`isize` wrap-around is not modelled.
- Ring.Read: requires the tail to be unlocked. On a negative tail the code would store `-tail`, which is non-negative again, so a second `read` while a drain is live silently releases that drain's lock (src/lib.rs:59). It would also cast the negative tail to `usize` (src/lib.rs:66), producing a huge position. `Refinement.RunEngine` reports such a drain as `Unmodelled`.
- Ring.Push: requires the decoded tail not to exceed the head. Otherwise `head - |tail|` underflows, which panics in a debug build. `Refinement.RunEngine` reports it as `Unmodelled`.
- Ring.ReadAll: models `collect()` as `head - tail` calls of `next`. The final call, which returns `None`, changes nothing, so it is not modelled.
- Wrapping.FromIter: the iterator is given as the sequence of items it yields. The engine's `new` builds its slots through `Wrapping.FromVec`, which is equivalent.
- Refinement.RunRefinesOracle: for the code as written, excludes runs in which a drain meets an empty buffer while the tail is past 0 (second finding). An empty drain at tail 0 is admitted. The tail is known to be 0 only until the first push, and after a push the buffer cannot be empty at tail 0, so nothing else is lost.
- Refinement.FreshRunsAgree: for the code as written, excludes runs in which a drain meets an empty buffer after the first push (second finding).
- RingLemmas.ReadUpToResumes: for the code as written, excludes a drain of an empty buffer with a tail above 0 (second finding).
- RingLemmas.ReadAllEmpties: for the code as written, excludes a drain of an empty buffer with a tail above 0 (second finding).
- RingLemmas.PullThenDrop: for the code as written, excludes an empty drain with a tail above 0 (second finding).
- Refinement.DrainRefines: for the code as written, excludes a drain of an empty buffer with a tail above 0 (second finding).
- RingLemmas.DropRestores: for the code as written, excludes an empty drain with a tail above 0 (second finding).
- RingLemmas.PushDuringDrain: for the code as written, excludes a drain that began at tail 0 and still holds the lock (first finding).
- Refinement.FillThenDrain: requires a positive capacity, as the oracle does. With capacity 0, every push evicts at once, and the code as written then locks on the first drain after a push (second finding).

## Findings

| source | as written | input that shows it | evidently intended | confidence | as-written member | corrected member |
|---|---|---|---|---|---|---|
| src/lib.rs:59 | `read` locks by storing `-tail`, and `-0 == 0`, so a drain that starts at tail 0 publishes no lock and pushes keep evicting the slots it owns | capacity 1: push a, start a drain, push b, push c, then `next` yields c, which was pushed after the drain started, and leaves the engine outside its invariant | the lock is visible at every position, for example stored as `-tail - 1`, so that a full push waits for the drain | not executed | Refinement.ZeroLockLost | RingLemmas.PushDuringDrain |
| src/lib.rs:103-110 | `drop` publishes the tail only when `current_tail < fixed_head`, so a drain of an empty buffer with tail above 0 leaves the negated tail in place | capacity 2: push a, drain, drain, push b, push c, push d; the last push spins forever, while the oracle completes | dropping the iterator always leaves the tail unlocked | not executed | Refinement.EmptyDrainHangs | Refinement.CorrectedEmptyDrainCompletes |
