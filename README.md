# Hedgehog, modelled in Dafny

Hedgehog is a linearizability-testing harness. Each of `thread_count` threads
performs `events_per_thread` operations on a concurrent system. For each
operation it records an `Invoke` event and then a `Ret` event in a shared
queue. The drained queue is assembled into a history, and the history is
checked against a sequential model of the system.

This project models the sequential core of that harness:

- `rust_types.dfy` (module `RustTypes`): `Option`, the `u32`/`u64` ranges,
  and the `usize`/`isize` bounds the Rust code relies on.
- `history.dfy` (module `History`, src/lib.rs): the history `Hist`. It is a
  circular doubly-linked list stored in a vector of nodes, with the begin/end
  sentinel at index 0 and a never-linked second sentinel at index 1. The
  module also holds the cursor `Iter` and the `Checker` constructor. The
  cursor is the class `EventIter` here, because the name `Iter` is taken by
  the method `Hist.Iter` that creates one. `Hist` is a class whose `events`
  field the methods rewrite in place. Its
  invariant `Valid` states the link structure exactly: node 0 → 2 → 3 → … →
  last → 0, with `prev` as the inverse. `Contents` is the sequence of
  pushed events.
- `runner.dfy` (module `Runners`, src/runner.rs): the queue capacity of
  `Runner::new`, and the assembly loop of `produce_history`. The loop is an
  imperative method over the drained queue (a sequence of `(event, tid)`
  entries). It keeps the per-thread `pending` vector and back-patches each
  `Invoke`'s `ret_event`. It is proved against a declarative specification,
  `Assembled`, which sets each invocation's `ret_event` to the history
  position of the next event of the same thread. Lemmas about `Assembled`
  show that:
  - every patched `ret_event` names a later `Ret` of the same thread;
  - distinct invocations name distinct returns;
  - a complete run patches every invocation.
- `bitvec.dfy` (module `BitVecs`, src/bitvec.rs): the bit vector packed
  into 64-bit blocks, with its incrementally maintained XOR hash. The class
  invariant is "hash == XOR of all blocks".
- `test_kvs.dfy`, `test_flurry.dfy`, `test_counter.dfy` (modules `TestKvs`,
  `TestFlurry`, `TestCounter`, src/bin/): the three sequential
  specifications `Model::initial` / `Model::apply`. They are pure
  state-transition functions. The persistent red-black tree map is modelled
  as a Dafny `map`.

Some modelling decisions:

- Debug-build semantics are assumed. Arithmetic that would overflow panics,
  and the `debug_assert`s of `produce_history` are active. Both become
  preconditions or proof obligations.
- A `u64` block of the bit vector is modelled as its 64 bits, least
  significant first:
  - masking with `1 << k` is indexing at `k`;
  - `u64::MAX` is 64 `true` bits and 0 is 64 `false` bits;
  - `^` is bitwise inequality.
- `get_mut_from_eid` returns a mutable reference. It is modelled as a read,
  `GetMutFromEid`, plus the write made through the reference, `WriteEid`.
- A `Vec` never holds more than `isize::MAX` elements. So `push_back` needs
  room below that bound, and no position it returns equals
  `INVALID = usize::MAX`.

## Model

| member | source | states |
|---|---|---|
| BitVecs.Zero | src/bitvec.rs:13 | the block 0 has 64 bits, all clear |
| BitVecs.Ones | src/bitvec.rs:18 | the block `u64::MAX` has 64 bits, all set |
| BitVecs.Xor | src/bitvec.rs:36 | a bit of `a ^ b` is set exactly when the bits of `a` and `b` differ |
| BitVecs.XorAllIsParity | src/bitvec.rs:46-50 | a bit of the XOR of all blocks is set exactly when the number of blocks with that bit set (`CountSet`) is odd |
| BitVecs.FlattenIndex | src/bitvec.rs:28-32 | bit `i` of the blocks laid end to end is bit `i % 64` of block `i / 64` |
| BitVecs.XorAllUpdate | src/bitvec.rs:36-42 | replacing block `i` by `b` changes the XOR of all blocks to old XOR ^ old block ^ `b`, which is the update `set` applies to `hash` |
| BitVecs.XorAllRepeat | src/bitvec.rs:18-23 | `count` copies of a block XOR to 0 when `count` is even and to the block when it is odd |
| BitVecs.BlockCount | src/bitvec.rs:19 | `(len + 63) / 64` is the least number of 64-bit blocks that holds `len` bits |
| BitVecs.SetBit | src/bitvec.rs:37-41 | the bit or-in / and-not mask sets bit `k` to `val` and leaves every other bit of the block unchanged |
| BitVecs.SetBitIdempotent | src/bitvec.rs:37-41 | setting a bit twice to the same value equals setting it once; setting it to its current value leaves the block unchanged |
| BitVecs.XorCancel | src/bitvec.rs:36-42 | XOR-ing a block out and back in leaves the hash unchanged |
| BitVecs.BitVec.New | src/bitvec.rs:10-15 | no blocks, hash 0, invariant established |
| BitVecs.BitVec.FromElem | src/bitvec.rs:17-26 | `ceil(len/64)` blocks, all `u64::MAX` when `val` and all 0 otherwise; the hash follows the parity of the block count; the invariant holds; every bit reads back as `val`; `len + 63` must not overflow `usize` |
| BitVecs.BitVec.Set | src/bitvec.rs:34-43 | needs block `i / 64` to exist (the `unwrap`); rewrites exactly that block's bit `i % 64`; the hash becomes old hash ^ old block ^ new block, so the invariant is kept; afterwards `get(i) == val` and every other bit reads as before |
| BitVecs.BitVec.Get | src/bitvec.rs:28-32 | needs block `i / 64` to exist (the index panic); the result is bit `i % 64` of that block, which is bit `i` of the blocks laid end to end |
| BitVecs.BitVec.HashValue | src/bitvec.rs:46-50 | the value written to the hasher equals the XOR of all blocks; each of its bits is set exactly when an odd number of blocks have that bit set |
| BitVecs.EqualBlocksHashEqually | src/bitvec.rs:3-7 | two valid vectors with equal blocks hash equally, so the derived `Eq` and the `Hash` impl agree |
| BitVecs.SetTwice | src/bitvec.rs:34-43 | `set(i, val)` twice leaves the blocks and the hash exactly as one `set(i, val)` does |
| History.LinksAreInverse | src/lib.rs:51-72 | in the ring 0 → 2 → … → n-1 → 0, successor and predecessor are inverse and never lead to node 1 |
| History.Hist.LinksRoundTrip | src/lib.rs:51-72 | under the invariant, for every linked node `events[events[i].next].prev == i` and `events[events[i].prev].next == i` |
| History.Hist.Contents | src/lib.rs:27-29 | the pushed events are the events of nodes 2, 3, … in order |
| History.Hist.WithCapacity | src/lib.rs:35-49 | `cap + 2` must not overflow `usize`; exactly two sentinel nodes with no event and `next == prev == 0`; the invariant holds and `len() == 0` |
| History.Hist.Len | src/lib.rs:101-103 | `len()` is the number of pushed events |
| History.Hist.PushBack | src/lib.rs:51-72 | returns the old `events.len()`; the new node has the event, `next == 0` and `prev ==` the old last node; sentinel 0's `prev` and the old last node's `next` become the new position; the invariant is kept; the contents gain the event at the end, so `len()` grows by one |
| History.Hist.GetMutFromEid | src/lib.rs:74-77 | needs `eid` in range and `ev` to be `Some` (the two `unwrap`s); under the invariant `eid` is then a pushed position and the result is that event |
| History.Hist.WriteEid | src/lib.rs:74-77 | writing through the returned reference changes only that node's event and keeps the invariant |
| History.Hist.Iter | src/lib.rs:79-81 | a cursor at eid 0 over this history |
| History.EventIter.constructor | src/lib.rs:80 | a cursor at eid 0 |
| History.EventIter.Next | src/lib.rs:117-123 | the cursor moves to the successor node; it yields that node's event, or `None` when it reaches the sentinel |
| History.CollectEvents | src/lib.rs:126-133 | iterating from eid 0 yields exactly the pushed events in push order and then stops at the sentinel |
| History.Checker.constructor | src/lib.rs:149-157 | `lin` holds `hist.len() / 2` bits, all false |
| History.Checker.CheckLinearizability | src/lib.rs:159-161 | always returns `true` |
| Runners.NewRunner | src/runner.rs:48-55 | the queue capacity is `thread_count * events_per_thread * 2` when that fits in `usize`; otherwise the multiplication panics (`None`) |
| Runners.FirstOfThread | src/runner.rs:111-116 | the first queue index `>= k` of an event of the thread, or none |
| Runners.LastOfThread | src/runner.rs:108-113 | the last queue index of an event of the thread, or none |
| Runners.Assembled | src/runner.rs:101-123 | the history has one event per queued event, in queue order |
| Runners.FirstOfThreadAppend | src/runner.rs:111-116 | appending an event only adds its own index as a thread's first event beyond the old end |
| Runners.NoLaterIffLast | src/runner.rs:111-116 | an event has no later event of its thread exactly when it is its thread's last event |
| Runners.AssembleInvoke | src/runner.rs:103-110 | an `Invoke` for a thread with no open call appends `Invoke { ret_event: INVALID }` and changes nothing else |
| Runners.AssembleRetEntry | src/runner.rs:111-121 | after a `Ret`, only the thread's open invocation changes: its `ret_event` becomes the `Ret`'s position |
| Runners.AssembleRet | src/runner.rs:111-121 | a `Ret` for a thread with an open call appends the `Ret` and patches exactly that invocation, which held `INVALID`, with the `Ret`'s position |
| Runners.OpenAppend | src/runner.rs:101-123 | after an append, the appended event is its thread's last event, and its thread is open exactly when it is an `Invoke` |
| Runners.PendingAfterInvoke | src/runner.rs:108-109 | storing the new position in `pending[tid]` keeps `pending` equal to the open invocations' positions |
| Runners.PendingAfterRet | src/runner.rs:113-120 | resetting `pending[tid]` to `INVALID` keeps `pending` equal to the open invocations' positions |
| Runners.NextOfInvokeIsRet | src/runner.rs:111-118 | in a well-formed queue the next event of an invoking thread is a `Ret` |
| Runners.RetEventsNameLaterRets | src/runner.rs:104-116 | every patched `ret_event` is beyond its invocation's position and within the history, and names a `Ret` of the same thread |
| Runners.ClosedQueueFullyPatched | src/runner.rs:101-123 | when no thread is left with an open call, no invocation keeps `INVALID` |
| Runners.RetEventsInjective | src/runner.rs:111-120 | no two invocations are patched with the same return |
| Runners.ThreadEvents | src/runner.rs:101-123 | the in-order filter of the queue to thread `tid`: no longer than the queue, and every entry has thread `tid` |
| Runners.ThreadEventsMembers | src/runner.rs:101-123 | every entry of a thread's events is a queued event, and every queued event of that thread is among them |
| Runners.LastIsLastOfThreadEvents | src/runner.rs:113 | a thread has a last queue event exactly when it has events, and that event is the last of them |
| Runners.OpenIffOdd | src/runner.rs:108-114 | for an alternating thread, an open call means an odd number of events |
| Runners.ThreadEventsAppend | src/runner.rs:101-123 | appending an event extends only its own thread's events |
| Runners.WellFormedIffAlternating | src/runner.rs:108-114 | the two `debug_assert`s hold throughout exactly when every thread id is below `thread_count` and each thread alternates `Invoke`, `Ret`, … starting with `Invoke` |
| Runners.ThreadTotalAppend | src/runner.rs:101-123 | appending an event adds one to the event total of the threads below `m` when its thread is among them |
| Runners.ThreadTotalIsLength | src/runner.rs:101-123 | when every thread id is below `m`, the per-thread event counts add up to the queue length |
| Runners.ThreadTotalOfCompleteRun | src/runner.rs:70-80 | in a complete run, threads `0 .. m-1` record `2 * m * events_per_thread` events |
| Runners.CompleteRunFillsQueue | src/runner.rs:48-80 | a complete run records exactly the capacity `Runner::new` gives the queue, satisfies both `debug_assert`s, and leaves no open call |
| Runners.AppendEvent | src/runner.rs:102-122 | one loop iteration: the `debug_assert`s and the `unreachable!` hold for a well-formed queue; the event is pushed, on a `Ret` the pending invocation's `ret_event` becomes the `Ret`'s position, the history's contents become `Assembled` of the longer queue, and `pending` again lists the open invocations' positions |
| Runners.ProduceHistory | src/runner.rs:90-125 | `pending` starts as `thread_count` copies of `INVALID`; each queued event is pushed once, so `hist.len()` equals the queue length; both `debug_assert`s and the `unreachable!` hold; the history is new (`Runner::new`'s capacity plus 2 must fit in `usize` for `Hist::with_capacity`), valid, and its contents are exactly `Assembled(queue)` |
| TestKvs.Initial | src/bin/test_kvs.rs:27-31 | the empty map; every `Get` on it returns `None` and leaves it unchanged |
| TestKvs.Apply | src/bin/test_kvs.rs:33-48 | `Get(k)` returns the binding of `k` (or `None`) and leaves the state unchanged; `Set(k, v)` binds `k` to `v`, keeps all other bindings and returns `None`; `Rm(k)` removes exactly `k`, keeps all other bindings and returns `None` |
| TestKvs.GetAfterSet | src/bin/test_kvs.rs:35-41 | `Get(k)` right after `Set(k, v)` returns `Some(v)` |
| TestKvs.RmAbsentUnchanged | src/bin/test_kvs.rs:43-45 | removing an absent key leaves the map equal |
| TestKvs.GetAfterRm | src/bin/test_kvs.rs:35-45 | `Get(k)` right after `Rm(k)` returns `None` |
| TestKvs.WritesAreLocal | src/bin/test_kvs.rs:33-48 | a `Set` or `Rm` of one key does not change what `Get` returns for another key |
| TestFlurry.Initial | src/bin/test_flurry.rs:21-25 | the empty map; every `Get` on it returns `None` |
| TestFlurry.Apply | src/bin/test_flurry.rs:27-42 | `Get(k)` returns the binding and leaves the state unchanged; `Set(k, v)` binds `k` to `v`, keeps other bindings and returns `None`; `Rm(k)` removes exactly `k` and returns `None` |
| TestFlurry.GetAfterSet | src/bin/test_flurry.rs:29-36 | `Get(k)` right after `Set(k, v)` returns `Some(v)` |
| TestFlurry.RmAbsentUnchanged | src/bin/test_flurry.rs:37-40 | removing an absent key leaves the map equal |
| TestFlurry.GetAfterRm | src/bin/test_flurry.rs:29-40 | `Get(k)` right after `Rm(k)` returns `None` |
| TestFlurry.WritesAreLocal | src/bin/test_flurry.rs:27-42 | a `Set` or `Rm` of one key does not change what `Get` returns for another key |
| TestCounter.Initial | src/bin/test_counter.rs:29-31 | `inner == 0` |
| TestCounter.Apply | src/bin/test_counter.rs:33-43 | `Incr` needs `inner < u32::MAX` (the addition panics on overflow), yields `inner + 1` and returns `None`; `Read` returns `Some(inner)` and leaves the state unchanged |
| TestCounter.IncrTimes | src/bin/test_counter.rs:35-40 | `n` increments add exactly `n` to the counter |
| TestCounter.ReadAfterIncrs | src/bin/test_counter.rs:29-41 | `n` increments from `initial` followed by `Read` return `Some(n)` |

## Left out

- `Runner::run` (src/runner.rs:57-88) is not modelled: scoped threads, the spin-start flag, the lock-free queue and the sleeps. The model starts from the drained queue. `CompleteRun` describes the queue a run leaves: each thread records `events_per_thread` calls, each an `Invoke` and then a `Ret`, interleaved arbitrarily.
- `Runners.NewRunner`: the panic of the external queue type on capacity 0 is not modelled, because that type's code is not part of this model.
- `Runners.ProduceHistory` needs the queue to satisfy the two `debug_assert`s (`WellFormed`). A release build skips those checks, and the model does not cover it.
- Release-build wrap-around of `usize`/`u32` arithmetic is not modelled. Overflow is treated as the debug-build panic: `Runner::new`'s product yields `None`, and every other overflow (`cap + 2`, `len + 63`, `inner + 1`) is excluded by a precondition.
- The `System` impls (`KvSystem`, `FlurrySystem`, `CounterSystem`) are not modelled. They wrap an external store, a concurrent hash map and an atomic counter.
- The random operation distributions and every `main` function are left out: they depend on the RNG, on printing, timing or tracing, or on the memory watchdog.
- `Hist::lift` / `unlift` (src/lib.rs:83-99) are left out. They are private and never called, and what they were meant to do cannot be recovered from their bodies.
- `Checker`'s unused `calls` and `cache` fields are not modelled. The external bit vector type behind `lin` is modelled as a sequence of bools.
- The internals of the persistent red-black tree are not modelled. It is abstracted as a Dafny `map`.
- `Hist::with_capacity`'s capacity only reserves memory. Allocation is not modelled.
- The queue's capacity bounds how many events it can hold: a push into a full queue panics through `unwrap`. The model carries this as `|queue| <= runner.capacity` on `Runners.ProduceHistory`.
- History.Hist.WithCapacity: the allocator's capacity-overflow panic, which happens when `cap + 2` nodes need more than `isize::MAX` bytes, is not modelled. Only the `usize` overflow of `cap + 2` is excluded.
- BitVecs: a `u64` block is its 64 bits, not a machine integer. The model states the bitwise operations bit by bit rather than as arithmetic on `u64`.
- `TestCounter.Apply`: the counter model's `Incr` at `u32::MAX` panics. The model excludes that case by its precondition rather than modelling the panic.
