/** The sequential specification of src/bin/test_flurry.rs: a persistent map
    from `u64` keys to `u64` values. */
module TestFlurry {
  import opened RustTypes

  /** `FlurryOp`. */
  datatype FlurryOp = Get(key: u64) | Set(key: u64, val: u64) | Rm(key: u64)

  /** `FlurryModel`: the persistent red-black tree map, as a map. */
  datatype FlurryModel = FlurryModel(inner: map<u64, u64>)

  /** `FlurryModel::initial`: the empty map, so every key reads as unbound. */
  function Initial(): (m: FlurryModel)
    ensures m.inner == map[]
    ensures forall k: u64 :: Apply(m, Get(k)) == (m, None)
  {
    FlurryModel(map[])
  }

  /** `FlurryModel::apply`: the state after `op` and the value it returns. */
  function Apply(m: FlurryModel, op: FlurryOp): (r: (FlurryModel, Option<u64>))
    ensures op.Get? ==> r.0 == m && r.1 == (if op.key in m.inner then Some(m.inner[op.key]) else None)
    ensures op.Set? ==> && r.1 == None
                        && op.key in r.0.inner && r.0.inner[op.key] == op.val
                        && r.0.inner.Keys == m.inner.Keys + {op.key}
                        && (forall k :: k in m.inner && k != op.key ==> r.0.inner[k] == m.inner[k])
    ensures op.Rm? ==> && r.1 == None
                       && r.0.inner.Keys == m.inner.Keys - {op.key}
                       && (forall k :: k in r.0.inner ==> r.0.inner[k] == m.inner[k])
  {
    match op
    case Get(k) => (m, if k in m.inner then Some(m.inner[k]) else None)
    case Set(k, v) => (FlurryModel(m.inner[k := v]), None)
    case Rm(k) => (FlurryModel(m.inner - {k}), None)
  }

  /** `Get(k)` right after `Set(k, v)` reads `v` back. */
  lemma GetAfterSet(m: FlurryModel, k: u64, v: u64)
    ensures Apply(Apply(m, Set(k, v)).0, Get(k)).1 == Some(v)
  {
  }

  /** Removing an absent key leaves the map as it was. */
  lemma RmAbsentUnchanged(m: FlurryModel, k: u64)
    requires k !in m.inner
    ensures Apply(m, Rm(k)).0 == m
  {
  }

  /** `Get(k)` right after `Rm(k)` reads nothing. */
  lemma GetAfterRm(m: FlurryModel, k: u64)
    ensures Apply(Apply(m, Rm(k)).0, Get(k)).1 == None
  {
  }

  /** A `Set` or `Rm` of one key is invisible to a `Get` of another. */
  lemma WritesAreLocal(m: FlurryModel, op: FlurryOp, k: u64)
    requires !op.Get? && op.key != k
    ensures Apply(Apply(m, op).0, Get(k)).1 == Apply(m, Get(k)).1
  {
  }
}
