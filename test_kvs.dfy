/** The sequential specification of src/bin/test_kvs.rs: a persistent map
    from string keys to string values. */
module TestKvs {
  import opened RustTypes

  /** `KvOp`. */
  datatype KvOp = Get(key: string) | Set(key: string, val: string) | Rm(key: string)

  /** `KvModel`: the persistent red-black tree map, as a map. */
  datatype KvModel = KvModel(inner: map<string, string>)

  /** `KvModel::initial`: the empty map, so every key reads as unbound. */
  function Initial(): (m: KvModel)
    ensures m.inner == map[]
    ensures forall k: string :: Apply(m, Get(k)) == (m, None)
  {
    KvModel(map[])
  }

  /** `KvModel::apply`: the state after `op` and the value it returns. */
  function Apply(m: KvModel, op: KvOp): (r: (KvModel, Option<string>))
    ensures op.Get? ==> r.0 == m && r.1 == (if op.key in m.inner then Some(m.inner[op.key]) else None)
    ensures op.Set? ==> && r.1 == None
                        && op.key in r.0.inner && r.0.inner[op.key] == op.val
                        && r.0.inner.Keys == m.inner.Keys + {op.key}
                        && (forall k :: k in m.inner && k != op.key ==> r.0.inner[k] == m.inner[k])
    ensures op.Rm? ==> && r.1 == None
                       && r.0.inner.Keys == m.inner.Keys - {op.key}
                       && (forall k :: k in r.0.inner ==> r.0.inner[k] == m.inner[k])
  {
    match op
    case Get(k) => (m, if k in m.inner then Some(m.inner[k]) else None)
    case Set(k, v) => (KvModel(m.inner[k := v]), None)
    case Rm(k) => (KvModel(m.inner - {k}), None)
  }

  /** `Get(k)` right after `Set(k, v)` reads `v` back. */
  lemma GetAfterSet(m: KvModel, k: string, v: string)
    ensures Apply(Apply(m, Set(k, v)).0, Get(k)).1 == Some(v)
  {
  }

  /** Removing an absent key leaves the map as it was. */
  lemma RmAbsentUnchanged(m: KvModel, k: string)
    requires k !in m.inner
    ensures Apply(m, Rm(k)).0 == m
  {
  }

  /** `Get(k)` right after `Rm(k)` reads nothing. */
  lemma GetAfterRm(m: KvModel, k: string)
    ensures Apply(Apply(m, Rm(k)).0, Get(k)).1 == None
  {
  }

  /** A `Set` or `Rm` of one key is invisible to a `Get` of another. */
  lemma WritesAreLocal(m: KvModel, op: KvOp, k: string)
    requires !op.Get? && op.key != k
    ensures Apply(Apply(m, op).0, Get(k)).1 == Apply(m, Get(k)).1
  {
  }
}
