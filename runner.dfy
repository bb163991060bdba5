/** The sequential part of src/runner.rs: sizing the event queue and turning
    the drained queue of per-thread `Invoke`/`Ret` events into a history in
    which every invocation names the position of its return. */
module Runners {
  import opened RustTypes
  import opened History

  /** `runner::Event<M>`: an event as a thread records it in the queue. */
  datatype QEvent<Op, Value> = QInvoke(op: Op, tid: u32) | QRet(val: Value, tid: u32)

  /** `INVALID = usize::MAX`: "no position". */
  const INVALID: nat := USIZE_MAX

  /** The sequential state of a `Runner`: the queue's capacity and the run's
      dimensions. The system under test and the queue itself are concurrent
      and are not part of this model. */
  datatype Runner = Runner(capacity: nat, threadCount: u32, eventsPerThread: u32)

  /** `Runner::new`: the queue holds an `Invoke` and a `Ret` for each of the
      `events_per_thread` operations of each of the `thread_count` threads.
      The product is computed in `usize`; on overflow it panics (`None`). */
  function NewRunner(threadCount: u32, eventsPerThread: u32): (r: Option<Runner>)
    ensures r.Some? <==> threadCount as int * eventsPerThread as int * 2 <= USIZE_MAX
    ensures r.Some? ==> r.value.threadCount == threadCount && r.value.eventsPerThread == eventsPerThread
    ensures r.Some? ==> r.value.capacity == 2 * (threadCount as int * eventsPerThread as int)
  {
    var cap := threadCount as int * eventsPerThread as int * 2;
    if cap <= USIZE_MAX then Some(Runner(cap, threadCount, eventsPerThread)) else None
  }

  /** The first index `>= k` of an event of thread `tid`. */
  function FirstOfThread<Op, Value>(q: seq<QEvent<Op, Value>>, tid: u32, k: nat): (r: Option<nat>)
    ensures r.Some? ==> k <= r.value < |q| && q[r.value].tid == tid
    ensures r.Some? ==> forall m :: k <= m < r.value ==> q[m].tid != tid
    ensures r.None? ==> forall m :: k <= m < |q| ==> q[m].tid != tid
    decreases |q| - k
  {
    if k >= |q| then None
    else if q[k].tid == tid then Some(k)
    else FirstOfThread(q, tid, k + 1)
  }

  /** The index of the last event of thread `tid`. */
  function LastOfThread<Op, Value>(p: seq<QEvent<Op, Value>>, tid: u32): (r: Option<nat>)
    ensures r.Some? ==> r.value < |p| && p[r.value].tid == tid
    ensures r.Some? ==> forall m :: r.value < m < |p| ==> p[m].tid != tid
    ensures r.None? ==> forall m :: 0 <= m < |p| ==> p[m].tid != tid
  {
    if |p| == 0 then None
    else if p[|p| - 1].tid == tid then Some(|p| - 1)
    else LastOfThread(p[..|p| - 1], tid)
  }

  /** Thread `tid` has invoked an operation in `p` whose return is not in `p`. */
  predicate Open<Op, Value>(p: seq<QEvent<Op, Value>>, tid: u32)
  {
    LastOfThread(p, tid).Some? && p[LastOfThread(p, tid).value].QInvoke?
  }

  /** The queue a run produces: every thread id is below `threadCount`, and
      each thread records an `Invoke` exactly when it has no open call, so
      its events alternate `Invoke`, `Ret`, ... starting with `Invoke`. The
      two `debug_assert`s of `produce_history` demand this. */
  predicate WellFormed<Op, Value>(q: seq<QEvent<Op, Value>>, threadCount: u32)
  {
    forall i :: 0 <= i < |q| ==> WellFormedAt(q, threadCount, i)
  }

  /** The condition `WellFormed` puts on the event at index `i`. */
  predicate WellFormedAt<Op, Value>(q: seq<QEvent<Op, Value>>, threadCount: u32, i: nat)
    requires i < |q|
  {
    q[i].tid < threadCount && (q[i].QInvoke? <==> !Open(q[..i], q[i].tid))
  }

  /** The history position of the return matching the invocation at queue
      index `j`: the position of the next event of the same thread, or
      `INVALID` if the thread records nothing after it. */
  function RetEventOf<Op, Value>(q: seq<QEvent<Op, Value>>, j: nat): nat
    requires j < |q|
  {
    match FirstOfThread(q, q[j].tid, j + 1)
    case Some(k) => k + 2
    case None => INVALID
  }

  /** The history event for queue index `j`. */
  function EntryOf<Op, Value>(q: seq<QEvent<Op, Value>>, j: nat): Event<Op, Value>
    requires j < |q|
  {
    match q[j]
    case QInvoke(op, _) => Invoke(op, RetEventOf(q, j))
    case QRet(val, _) => Ret(val)
  }

  /** The events of the history assembled from queue `q`, in queue order. */
  function Assembled<Op, Value>(q: seq<QEvent<Op, Value>>): (h: seq<Event<Op, Value>>)
    ensures |h| == |q|
    ensures forall j :: 0 <= j < |q| ==> h[j] == EntryOf(q, j)
  {
    seq(|q|, j requires 0 <= j < |q| => EntryOf(q, j))
  }

  /** Appending an event to the queue only adds its index as the first
      event of its thread beyond the old end. */
  lemma {:induction false} FirstOfThreadAppend<Op, Value>(p: seq<QEvent<Op, Value>>, e: QEvent<Op, Value>, tid: u32, k: nat)
    requires k <= |p|
    ensures FirstOfThread(p + [e], tid, k) ==
      if FirstOfThread(p, tid, k).Some? then FirstOfThread(p, tid, k)
      else if e.tid == tid then Some(|p|) else None
    decreases |p| - k
  {
    if k < |p| {
      assert (p + [e])[k] == p[k];
      if p[k].tid != tid {
        FirstOfThreadAppend(p, e, tid, k + 1);
      }
    }
  }

  /** An event has no later event of its thread exactly when it is its
      thread's last event. */
  lemma NoLaterIffLast<Op, Value>(p: seq<QEvent<Op, Value>>, j: nat)
    requires j < |p|
    ensures FirstOfThread(p, p[j].tid, j + 1).None? <==> LastOfThread(p, p[j].tid) == Some(j)
  {
    var t := p[j].tid;
    var l := LastOfThread(p, t);
    var f := FirstOfThread(p, t, j + 1);
    if f.None? {
      assert p[j].tid == t;
      assert l.Some?;
      assert l.value == j;
    }
  }

  /** The step the loop takes on an `Invoke` of a thread with no open call:
      the history grows by one unpatched invocation, nothing else changes. */
  lemma AssembleInvoke<Op, Value>(p: seq<QEvent<Op, Value>>, e: QEvent<Op, Value>)
    requires e.QInvoke? && !Open(p, e.tid)
    ensures Assembled(p + [e]) == Assembled(p) + [Invoke(e.op, INVALID)]
  {
    var q := p + [e];
    forall m | 0 <= m < |p|
      ensures EntryOf(q, m) == EntryOf(p, m)
    {
      assert q[m] == p[m];
      FirstOfThreadAppend(p, e, p[m].tid, m + 1);
      if p[m].QInvoke? && FirstOfThread(p, p[m].tid, m + 1).None? && e.tid == p[m].tid {
        NoLaterIffLast(p, m);
        assert false;
      }
    }
    assert FirstOfThread(q, e.tid, |p| + 1).None?;
    assert Assembled(q) == Assembled(p) + [Invoke(e.op, INVALID)];
  }

  /** Appending a `Ret` of a thread whose open call is at index `j` patches
      the entry at `j` and no other. */
  lemma AssembleRetEntry<Op, Value>(p: seq<QEvent<Op, Value>>, e: QEvent<Op, Value>, j: nat, m: nat)
    requires e.QRet? && LastOfThread(p, e.tid) == Some(j) && p[j].QInvoke?
    requires m < |p|
    ensures EntryOf(p + [e], m) == if m == j then Invoke(p[j].op, |p| + 2) else EntryOf(p, m)
  {
    var q := p + [e];
    assert q[m] == p[m];
    FirstOfThreadAppend(p, e, p[m].tid, m + 1);
    NoLaterIffLast(p, m);
  }

  /** The step the loop takes on a `Ret` of a thread with an open call at
      index `j`: the history grows by the return, and the invocation at `j`,
      unpatched so far, now names the return's position. */
  lemma AssembleRet<Op, Value>(p: seq<QEvent<Op, Value>>, e: QEvent<Op, Value>)
    requires e.QRet? && Open(p, e.tid)
    ensures var j := LastOfThread(p, e.tid).value;
      && Assembled(p)[j] == Invoke(p[j].op, INVALID)
      && Assembled(p + [e]) == (Assembled(p) + [Ret(e.val)])[j := Invoke(p[j].op, |p| + 2)]
  {
    var q := p + [e];
    var j := LastOfThread(p, e.tid).value;
    NoLaterIffLast(p, j);
    var want := (Assembled(p) + [Ret(e.val)])[j := Invoke(p[j].op, |p| + 2)];
    forall m | 0 <= m < |q|
      ensures Assembled(q)[m] == want[m]
    {
      if m < |p| {
        AssembleRetEntry(p, e, j, m);
      }
    }
  }

  /** `pending[t]` is the position of thread `t`'s open invocation, or
      `INVALID` when it has none. */
  predicate PendingMatches<Op, Value>(pending: seq<nat>, p: seq<QEvent<Op, Value>>, threadCount: u32)
  {
    && |pending| == threadCount as int
    && forall t: u32 :: t < threadCount ==>
         pending[t] == if Open(p, t) then LastOfThread(p, t).value + 2 else INVALID
  }

  /** Appending an event makes it its thread's last event and leaves every
      other thread's last event, and whether it is open, as it was. */
  lemma OpenAppend<Op, Value>(p: seq<QEvent<Op, Value>>, e: QEvent<Op, Value>, t: u32)
    ensures LastOfThread(p + [e], t) == if e.tid == t then Some(|p|) else LastOfThread(p, t)
    ensures Open(p + [e], t) == if e.tid == t then e.QInvoke? else Open(p, t)
  {
    assert (p + [e])[..|p|] == p;
    if e.tid != t && LastOfThread(p, t).Some? {
      assert (p + [e])[LastOfThread(p, t).value] == p[LastOfThread(p, t).value];
    }
  }

  /** After an `Invoke` the thread's pending entry is the invocation's position. */
  lemma PendingAfterInvoke<Op, Value>(pending: seq<nat>, p: seq<QEvent<Op, Value>>, e: QEvent<Op, Value>, threadCount: u32)
    requires PendingMatches(pending, p, threadCount)
    requires e.QInvoke? && e.tid < threadCount
    ensures PendingMatches(pending[e.tid := |p| + 2], p + [e], threadCount)
  {
    forall t: u32 | t < threadCount
      ensures pending[e.tid := |p| + 2][t] ==
        if Open(p + [e], t) then LastOfThread(p + [e], t).value + 2 else INVALID
    {
      OpenAppend(p, e, t);
    }
  }

  /** After a `Ret` the thread has no pending entry. */
  lemma PendingAfterRet<Op, Value>(pending: seq<nat>, p: seq<QEvent<Op, Value>>, e: QEvent<Op, Value>, threadCount: u32)
    requires PendingMatches(pending, p, threadCount)
    requires e.QRet? && e.tid < threadCount
    ensures PendingMatches(pending[e.tid := INVALID], p + [e], threadCount)
  {
    forall t: u32 | t < threadCount
      ensures pending[e.tid := INVALID][t] ==
        if Open(p + [e], t) then LastOfThread(p + [e], t).value + 2 else INVALID
    {
      OpenAppend(p, e, t);
    }
  }

  /** In a well-formed queue the event right after an `Invoke` in its own
      thread is that thread's `Ret`. */
  lemma NextOfInvokeIsRet<Op, Value>(q: seq<QEvent<Op, Value>>, threadCount: u32, j: nat)
    requires WellFormed(q, threadCount)
    requires j < |q| && q[j].QInvoke?
    requires FirstOfThread(q, q[j].tid, j + 1).Some?
    ensures q[FirstOfThread(q, q[j].tid, j + 1).value].QRet?
  {
    var t := q[j].tid;
    var k := FirstOfThread(q, t, j + 1).value;
    var p := q[..k];
    assert p[j] == q[j];
    assert p[j].tid == t;
    assert LastOfThread(p, t) == Some(j);
    assert Open(p, t);
    assert WellFormedAt(q, threadCount, k);
  }

  /** Every patched invocation names a later position of the history, and
      the event there is a return of the same thread. */
  lemma RetEventsNameLaterRets<Op, Value>(q: seq<QEvent<Op, Value>>, threadCount: u32)
    requires WellFormed(q, threadCount)
    requires |q| + 2 < ISIZE_MAX
    ensures forall j :: 0 <= j < |q| && Assembled(q)[j].Invoke? && Assembled(q)[j].retEvent != INVALID ==>
      var r := Assembled(q)[j].retEvent;
      && j + 2 < r < |q| + 2
      && Assembled(q)[r - 2].Ret?
      && q[r - 2].tid == q[j].tid
  {
    forall j | 0 <= j < |q| && Assembled(q)[j].Invoke? && Assembled(q)[j].retEvent != INVALID
      ensures var r := Assembled(q)[j].retEvent;
        && j + 2 < r < |q| + 2
        && Assembled(q)[r - 2].Ret?
        && q[r - 2].tid == q[j].tid
    {
      NextOfInvokeIsRet(q, threadCount, j);
    }
  }

  /** When no thread is left with an open call, as after a complete run,
      every invocation has been patched. */
  lemma ClosedQueueFullyPatched<Op, Value>(q: seq<QEvent<Op, Value>>, threadCount: u32)
    requires WellFormed(q, threadCount)
    requires |q| + 2 < ISIZE_MAX
    requires forall t: u32 :: !Open(q, t)
    ensures forall j :: 0 <= j < |q| && Assembled(q)[j].Invoke? ==> Assembled(q)[j].retEvent != INVALID
  {
    forall j | 0 <= j < |q| && Assembled(q)[j].Invoke?
      ensures Assembled(q)[j].retEvent != INVALID
    {
      NoLaterIffLast(q, j);
      assert !Open(q, q[j].tid);
    }
  }

  /** No two invocations are patched with the same return. */
  lemma RetEventsInjective<Op, Value>(q: seq<QEvent<Op, Value>>, j1: nat, j2: nat)
    requires j1 < j2 < |q|
    requires Assembled(q)[j1].Invoke? && Assembled(q)[j2].Invoke?
    requires Assembled(q)[j1].retEvent != INVALID
    ensures Assembled(q)[j1].retEvent != Assembled(q)[j2].retEvent
  {
    var f1 := FirstOfThread(q, q[j1].tid, j1 + 1);
    var f2 := FirstOfThread(q, q[j2].tid, j2 + 1);
    if f2.Some? && q[j2].tid == q[j1].tid {
      assert f1.value <= j2;
    }
  }

  /** The events of thread `tid`, in queue order. */
  function ThreadEvents<Op, Value>(q: seq<QEvent<Op, Value>>, tid: u32): (s: seq<QEvent<Op, Value>>)
    ensures |s| <= |q|
    ensures forall k :: 0 <= k < |s| ==> s[k].tid == tid
  {
    if |q| == 0 then []
    else ThreadEvents(q[..|q| - 1], tid) + (if q[|q| - 1].tid == tid then [q[|q| - 1]] else [])
  }

  /** `ThreadEvents` keeps exactly the queued events of thread `tid`. */
  lemma {:induction false} ThreadEventsMembers<Op, Value>(q: seq<QEvent<Op, Value>>, tid: u32)
    ensures forall k :: 0 <= k < |ThreadEvents(q, tid)| ==> ThreadEvents(q, tid)[k] in q
    ensures forall i :: 0 <= i < |q| && q[i].tid == tid ==> q[i] in ThreadEvents(q, tid)
  {
    if |q| > 0 {
      var p := q[..|q| - 1];
      ThreadEventsMembers(p, tid);
      assert forall i :: 0 <= i < |p| ==> p[i] == q[i];
    }
  }

  /** A thread's events alternate `Invoke`, `Ret`, `Invoke`, ... */
  predicate Alternates<Op, Value>(s: seq<QEvent<Op, Value>>)
  {
    forall k :: 0 <= k < |s| ==> (s[k].QInvoke? <==> k % 2 == 0)
  }

  /** Every thread id is below `threadCount` and every thread alternates. */
  predicate Alternating<Op, Value>(q: seq<QEvent<Op, Value>>, threadCount: u32)
  {
    && (forall i :: 0 <= i < |q| ==> q[i].tid < threadCount)
    && (forall t: u32 :: Alternates(ThreadEvents(q, t)))
  }

  /** A thread's last event in the queue is the last of its events. */
  lemma {:induction false} LastIsLastOfThreadEvents<Op, Value>(p: seq<QEvent<Op, Value>>, t: u32)
    ensures LastOfThread(p, t).Some? <==> ThreadEvents(p, t) != []
    ensures LastOfThread(p, t).Some? ==>
      p[LastOfThread(p, t).value] == ThreadEvents(p, t)[|ThreadEvents(p, t)| - 1]
  {
    if |p| > 0 && p[|p| - 1].tid != t {
      LastIsLastOfThreadEvents(p[..|p| - 1], t);
      var l := LastOfThread(p, t);
      if l.Some? {
        assert p[..|p| - 1][l.value] == p[l.value];
      }
    }
  }

  /** For an alternating thread, an open call means an odd number of events. */
  lemma OpenIffOdd<Op, Value>(p: seq<QEvent<Op, Value>>, t: u32)
    requires Alternates(ThreadEvents(p, t))
    ensures Open(p, t) <==> |ThreadEvents(p, t)| % 2 == 1
  {
    LastIsLastOfThreadEvents(p, t);
  }

  /** The events of each thread after appending `e`. */
  lemma ThreadEventsAppend<Op, Value>(p: seq<QEvent<Op, Value>>, e: QEvent<Op, Value>, t: u32)
    ensures ThreadEvents(p + [e], t) == ThreadEvents(p, t) + (if e.tid == t then [e] else [])
  {
    assert (p + [e])[..|p|] == p;
  }

  /** `WellFormed` is exactly "each thread alternates `Invoke`, `Ret`,
      starting with `Invoke`, and uses a valid thread id". */
  lemma {:induction false} WellFormedIffAlternating<Op, Value>(q: seq<QEvent<Op, Value>>, threadCount: u32)
    ensures WellFormed(q, threadCount) <==> Alternating(q, threadCount)
  {
    if |q| > 0 {
      var p, e := q[..|q| - 1], q[|q| - 1];
      assert q == p + [e];
      WellFormedIffAlternating(p, threadCount);
      forall i | 0 <= i < |p|
        ensures q[..i] == p[..i] && q[i] == p[i]
      {
      }
      assert WellFormed(q, threadCount) <==> WellFormed(p, threadCount) && WellFormedAt(q, threadCount, |p|) by {
        if WellFormed(q, threadCount) {
          assert forall i :: 0 <= i < |p| ==> WellFormedAt(q, threadCount, i) ==> WellFormedAt(p, threadCount, i);
        }
        if WellFormed(p, threadCount) && WellFormedAt(q, threadCount, |p|) {
          assert forall i :: 0 <= i < |p| ==> WellFormedAt(p, threadCount, i) ==> WellFormedAt(q, threadCount, i);
        }
      }
      forall t: u32
        ensures ThreadEvents(q, t) == ThreadEvents(p, t) + (if e.tid == t then [e] else [])
      {
        ThreadEventsAppend(p, e, t);
      }
      var n := |ThreadEvents(p, e.tid)|;
      assert ThreadEvents(q, e.tid)[n] == e;
      if Alternating(q, threadCount) {
        forall t: u32
          ensures Alternates(ThreadEvents(p, t))
        {
          assert Alternates(ThreadEvents(q, t));
          assert ThreadEvents(p, t) == ThreadEvents(q, t)[..|ThreadEvents(p, t)|];
        }
        assert forall i :: 0 <= i < |p| ==> p[i] == q[i];
      }
      if Alternating(p, threadCount) {
        OpenIffOdd(p, e.tid);
        if Alternating(q, threadCount) {
          assert e.tid < threadCount;
          assert Alternates(ThreadEvents(q, e.tid));
        }
        if WellFormedAt(q, threadCount, |p|) {
          forall t: u32
            ensures Alternates(ThreadEvents(q, t))
          {
            assert Alternates(ThreadEvents(p, t));
          }
        }
      }
    }
  }

  /** The queue of a complete run: each of the `threadCount` threads
      records `eventsPerThread` calls, each an `Invoke` followed by its
      `Ret`, in any interleaving with the other threads. */
  predicate CompleteRun<Op, Value>(q: seq<QEvent<Op, Value>>, threadCount: u32, eventsPerThread: u32)
  {
    && Alternating(q, threadCount)
    && forall t: u32 :: t < threadCount ==> |ThreadEvents(q, t)| == 2 * eventsPerThread as int
  }

  /** The number of events of threads `0 .. m - 1`. */
  function ThreadTotal<Op, Value>(q: seq<QEvent<Op, Value>>, m: nat): nat
    requires m <= U32_MAX + 1
  {
    if m == 0 then 0 else ThreadTotal(q, m - 1) + |ThreadEvents(q, (m - 1) as u32)|
  }

  lemma {:induction false} ThreadTotalAppend<Op, Value>(p: seq<QEvent<Op, Value>>, e: QEvent<Op, Value>, m: nat)
    requires m <= U32_MAX + 1
    ensures ThreadTotal(p + [e], m) == ThreadTotal(p, m) + (if (e.tid as int) < m then 1 else 0)
  {
    if m > 0 {
      ThreadTotalAppend(p, e, m - 1);
      ThreadEventsAppend(p, e, (m - 1) as u32);
    }
  }

  lemma {:induction false} ThreadTotalEmpty<Op, Value>(q: seq<QEvent<Op, Value>>, m: nat)
    requires m <= U32_MAX + 1 && q == []
    ensures ThreadTotal(q, m) == 0
  {
    if m > 0 {
      ThreadTotalEmpty(q, m - 1);
    }
  }

  /** When every thread id is below `m`, the threads' events add up to the
      whole queue. */
  lemma {:induction false} ThreadTotalIsLength<Op, Value>(q: seq<QEvent<Op, Value>>, m: nat)
    requires m <= U32_MAX + 1
    requires forall i :: 0 <= i < |q| ==> (q[i].tid as int) < m
    ensures ThreadTotal(q, m) == |q|
  {
    if q == [] {
      ThreadTotalEmpty(q, m);
    } else {
      var p, e := q[..|q| - 1], q[|q| - 1];
      assert q == p + [e];
      ThreadTotalIsLength(p, m);
      ThreadTotalAppend(p, e, m);
    }
  }

  lemma MulStep(m: nat, k: int)
    requires m > 0
    ensures (m - 1) * k + k == m * k
  {
  }

  lemma {:induction false} ThreadTotalOfCompleteRun<Op, Value>(q: seq<QEvent<Op, Value>>, threadCount: u32, eventsPerThread: u32, m: nat)
    requires CompleteRun(q, threadCount, eventsPerThread)
    requires m <= threadCount as int
    ensures ThreadTotal(q, m) == 2 * (m * eventsPerThread as int)
  {
    if m > 0 {
      ThreadTotalOfCompleteRun(q, threadCount, eventsPerThread, m - 1);
      var t := (m - 1) as u32;
      assert |ThreadEvents(q, t)| == 2 * eventsPerThread as int;
      MulStep(m, eventsPerThread as int);
    }
  }

  /** A complete run fills the queue `Runner::new` sized to the last slot,
      satisfies what `produce_history` demands of its input, and leaves no
      thread with an open call, so every invocation gets patched. */
  lemma CompleteRunFillsQueue<Op, Value>(q: seq<QEvent<Op, Value>>, threadCount: u32, eventsPerThread: u32)
    requires CompleteRun(q, threadCount, eventsPerThread)
    requires NewRunner(threadCount, eventsPerThread).Some?
    ensures |q| == NewRunner(threadCount, eventsPerThread).value.capacity
    ensures WellFormed(q, threadCount)
    ensures forall t: u32 :: !Open(q, t)
  {
    ThreadTotalIsLength(q, threadCount as int);
    ThreadTotalOfCompleteRun(q, threadCount, eventsPerThread, threadCount as int);
    WellFormedIffAlternating(q, threadCount);
    forall t: u32
      ensures !Open(q, t)
    {
      OpenIffOdd(q, t);
      if t < threadCount {
        assert |ThreadEvents(q, t)| % 2 == 0;
      }
    }
  }

  /** One iteration of the loop of `Runner::produce_history`: pushes `e`
      and, on a `Ret`, patches the thread's pending `Invoke` with the
      `Ret`'s position through `get_mut_from_eid`. */
  method AppendEvent<Op, Value>(hist: Hist<Op, Value>, pending: seq<nat>, ghost p: seq<QEvent<Op, Value>>,
                                e: QEvent<Op, Value>, threadCount: u32) returns (pending': seq<nat>)
    requires hist.Valid() && |hist.events| == |p| + 2 && |p| + 3 < ISIZE_MAX
    requires hist.Contents() == Assembled(p)
    requires PendingMatches(pending, p, threadCount)
    requires e.tid < threadCount && (e.QInvoke? <==> !Open(p, e.tid))
    modifies hist
    ensures hist.Valid() && |hist.events| == |p| + 3
    ensures hist.Contents() == Assembled(p + [e])
    ensures PendingMatches(pending', p + [e], threadCount)
  {
    match e {
      case QInvoke(op, tid) =>
        var pos := hist.PushBack(Invoke(op, INVALID));
        assert pending[tid] == INVALID;  // debug_assert_eq!
        PendingAfterInvoke(pending, p, e, threadCount);
        pending' := pending[tid := pos];
        AssembleInvoke(p, e);
      case QRet(val, tid) =>
        var pos := hist.PushBack(Ret(val));
        var inv := pending[tid];
        assert inv != INVALID;  // debug_assert_ne!
        AssembleRet(p, e);
        var ev := hist.GetMutFromEid(inv);
        if ev.Invoke? {
          hist.WriteEid(inv, ev.(retEvent := pos));
        } else {
          assert false;  // unreachable!()
        }
        PendingAfterRet(pending, p, e, threadCount);
        pending' := pending[tid := INVALID];
    }
  }

  /** The post-run loop of `Runner::produce_history`: every queued event is
      pushed once, and on each `Ret` the pending `Invoke` of that thread is
      patched with the `Ret`'s position through `get_mut_from_eid`. */
  method ProduceHistory<Op, Value>(runner: Runner, queue: seq<QEvent<Op, Value>>) returns (hist: Hist<Op, Value>)
    requires WellFormed(queue, runner.threadCount)
    requires |queue| <= runner.capacity
    requires |queue| + 2 < ISIZE_MAX
    requires runner.capacity + 2 <= USIZE_MAX
    ensures fresh(hist)
    ensures hist.Valid()
    ensures hist.Len() == |queue|
    ensures hist.Contents() == Assembled(queue)
  {
    hist := new Hist.WithCapacity(runner.capacity);
    var pending: seq<nat> := seq(runner.threadCount as int, _ => INVALID);
    var i := 0;
    while i < |queue|
      invariant 0 <= i <= |queue|
      invariant fresh(hist)
      invariant hist.Valid() && |hist.events| == i + 2
      invariant hist.Contents() == Assembled(queue[..i])
      invariant PendingMatches(pending, queue[..i], runner.threadCount)
    {
      assert queue[..i + 1] == queue[..i] + [queue[i]];
      assert WellFormedAt(queue, runner.threadCount, i);
      pending := AppendEvent(hist, pending, queue[..i], queue[i], runner.threadCount);
      i := i + 1;
    }
    assert queue[..|queue|] == queue;
  }
}
