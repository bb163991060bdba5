/** The sequential specification of src/bin/test_counter.rs: a `u32`
    counter that can be incremented and read. */
module TestCounter {
  import opened RustTypes

  /** `CounterOp`. */
  datatype CounterOp = Incr | Read

  /** `CounterModel`. */
  datatype CounterModel = CounterModel(inner: u32)

  /** `CounterModel::initial`: the counter at zero. */
  function Initial(): (m: CounterModel)
    ensures m.inner == 0
  {
    CounterModel(0)
  }

  /** `CounterModel::apply`. `self.inner + 1` panics on overflow, so an
      `Incr` needs room below `u32::MAX`. */
  function Apply(m: CounterModel, op: CounterOp): (r: (CounterModel, Option<u32>))
    requires op.Incr? ==> (m.inner as int) < U32_MAX
    ensures op.Incr? ==> r.0.inner as int == m.inner as int + 1 && r.1 == None
    ensures op.Read? ==> r.0 == m && r.1 == Some(m.inner)
  {
    match op
    case Incr => (CounterModel(m.inner + 1), None)
    case Read => (m, Some(m.inner))
  }

  /** The state after `n` increments from `m`. */
  function IncrTimes(m: CounterModel, n: nat): (r: CounterModel)
    requires m.inner as int + n <= U32_MAX
    ensures r.inner as int == m.inner as int + n
    decreases n
  {
    if n == 0 then m else Apply(IncrTimes(m, n - 1), Incr).0
  }

  /** `n` increments from the initial state followed by a read return `n`. */
  lemma {:induction false} ReadAfterIncrs(n: nat)
    requires n <= U32_MAX
    ensures Apply(IncrTimes(Initial(), n), Read).1 == Some(n as u32)
  {
  }
}
