/** The bit vector of src/bitvec.rs: bits packed into 64-bit blocks, with the
    XOR of all blocks kept up to date incrementally so that hashing is O(1).

    A `u64` block is modelled by its 64 bits, least significant first: bit
    `k` of the sequence is `(block >> k) & 1`. Masking with `1 << k` becomes
    indexing at `k`, `u64::MAX` is all `true`, 0 is all `false`, and `^` is
    the bitwise inequality of two blocks. */
module BitVecs {
  import opened RustTypes

  const BLOCK_BITS: nat := 64

  type Block = seq<bool>

  predicate IsBlock(b: Block)
  {
    |b| == BLOCK_BITS
  }

  predicate AllBlocks(s: seq<Block>)
  {
    forall j :: 0 <= j < |s| ==> IsBlock(s[j])
  }

  /** The block 0. */
  function Zero(): (z: Block)
    ensures IsBlock(z)
    ensures forall k :: 0 <= k < BLOCK_BITS ==> !z[k]
  {
    seq(BLOCK_BITS, _ => false)
  }

  /** The block `u64::MAX`. */
  function Ones(): (z: Block)
    ensures IsBlock(z)
    ensures forall k :: 0 <= k < BLOCK_BITS ==> z[k]
  {
    seq(BLOCK_BITS, _ => true)
  }

  /** `a ^ b`: a bit of the result is set exactly when the bits differ. */
  function Xor(a: Block, b: Block): (r: Block)
    requires IsBlock(a) && IsBlock(b)
    ensures IsBlock(r)
    ensures forall k :: 0 <= k < BLOCK_BITS ==> r[k] == (a[k] != b[k])
  {
    seq(BLOCK_BITS, k requires 0 <= k < BLOCK_BITS => a[k] != b[k])
  }

  /** The XOR of all blocks of `s`; 0 for no blocks. */
  function XorAll(s: seq<Block>): (r: Block)
    requires AllBlocks(s)
    ensures IsBlock(r)
  {
    if s == [] then Zero() else Xor(s[0], XorAll(s[1..]))
  }

  /** The number of blocks of `s` whose bit `k` is set. */
  function CountSet(s: seq<Block>, k: nat): (n: nat)
    requires AllBlocks(s) && k < BLOCK_BITS
    ensures n <= |s|
  {
    if s == [] then 0 else (if s[0][k] then 1 else 0) + CountSet(s[1..], k)
  }

  /** A bit of the XOR of all blocks is set exactly when that bit is set in
      an odd number of blocks. */
  lemma {:induction false} XorAllIsParity(s: seq<Block>, k: nat)
    requires AllBlocks(s) && k < BLOCK_BITS
    ensures XorAll(s)[k] == (CountSet(s, k) % 2 == 1)
  {
    if s != [] {
      XorAllIsParity(s[1..], k);
    }
  }

  /** The bits of the vector in index order: the blocks laid end to end. */
  function Flatten(s: seq<Block>): (r: seq<bool>)
    requires AllBlocks(s)
    ensures |r| == |s| * BLOCK_BITS
  {
    if s == [] then [] else s[0] + Flatten(s[1..])
  }

  /** Bit `i` of the laid-out blocks is bit `i % 64` of block `i / 64`. */
  lemma {:induction false} FlattenIndex(s: seq<Block>, i: nat)
    requires AllBlocks(s) && i < |s| * BLOCK_BITS
    ensures Flatten(s)[i] == s[i / BLOCK_BITS][i % BLOCK_BITS]
  {
    if i >= BLOCK_BITS {
      FlattenIndex(s[1..], i - BLOCK_BITS);
      assert (i - BLOCK_BITS) / BLOCK_BITS == i / BLOCK_BITS - 1;
      assert (i - BLOCK_BITS) % BLOCK_BITS == i % BLOCK_BITS;
    }
  }

  /** Replacing one block changes the XOR of all blocks by XOR-ing the old
      block out and the new one in: the update `set` performs on `hash`. */
  lemma {:induction false} XorAllUpdate(s: seq<Block>, i: nat, b: Block)
    requires AllBlocks(s) && i < |s| && IsBlock(b)
    ensures AllBlocks(s[i := b])
    ensures XorAll(s[i := b]) == Xor(Xor(XorAll(s), s[i]), b)
  {
    var t := s[i := b];
    if i == 0 {
      assert t[1..] == s[1..];
    } else {
      assert t[1..] == s[1..][i - 1 := b];
      XorAllUpdate(s[1..], i - 1, b);
    }
    assert XorAll(t) == Xor(Xor(XorAll(s), s[i]), b);
  }

  /** `count` copies of `block` XOR to `block` when `count` is odd and to 0
      when it is even: the value `from_elem` stores as the hash. */
  lemma {:induction false} XorAllRepeat(block: Block, count: nat)
    requires IsBlock(block)
    ensures AllBlocks(seq(count, _ => block))
    ensures XorAll(seq(count, _ => block)) == if count % 2 == 0 then Zero() else block
  {
    if count > 0 {
      var s := seq(count, _ => block);
      assert s[1..] == seq(count - 1, _ => block);
      XorAllRepeat(block, count - 1);
    }
  }

  /** Number of 64-bit blocks `from_elem` allocates for `len` bits:
      `(len + 63) / 64`, the least count that holds `len` bits. */
  function BlockCount(len: nat): (count: nat)
    ensures count * BLOCK_BITS >= len
    ensures count == 0 || (count - 1) * BLOCK_BITS < len
  {
    (len + 63) / 64
  }

  /** `*block | (1 << k)` when `val`, `*block & !(1 << k)` otherwise. */
  function SetBit(b: Block, k: nat, val: bool): (r: Block)
    requires IsBlock(b) && k < BLOCK_BITS
    ensures IsBlock(r)
    ensures r[k] == val
    ensures forall j :: 0 <= j < BLOCK_BITS && j != k ==> r[j] == b[j]
  {
    if val then b[k := true] else b[k := false]
  }

  /** Setting a bit a second time to the same value changes nothing, and
      setting it to the value it has leaves the block as it was. */
  lemma SetBitIdempotent(b: Block, k: nat, val: bool)
    requires IsBlock(b) && k < BLOCK_BITS
    ensures SetBit(SetBit(b, k, val), k, val) == SetBit(b, k, val)
    ensures b[k] == val ==> SetBit(b, k, val) == b
  {
  }

  /** XOR-ing a block out and back in, as a repeated `set` does, leaves the
      hash unchanged. */
  lemma XorCancel(h: Block, b: Block)
    requires IsBlock(h) && IsBlock(b)
    ensures Xor(Xor(h, b), b) == h
  {
    assert forall k :: 0 <= k < BLOCK_BITS ==> Xor(Xor(h, b), b)[k] == h[k];
  }

  class BitVec {
    /** `inner: Vec<u64>`: bit `i` lives in bit `i % 64` of block `i / 64`. */
    var inner: seq<Block>
    /** `hash: u64`: the cached XOR of all blocks. */
    var hash: Block

    /** The invariant every operation keeps: the cache is the XOR of the blocks. */
    ghost predicate Valid()
      reads this
    {
      AllBlocks(inner) && hash == XorAll(inner)
    }

    /** `BitVec::new`: no blocks, hash 0. */
    constructor New()
      ensures Valid()
      ensures inner == [] && hash == Zero()
    {
      inner := [];
      hash := Zero();
    }

    /** `BitVec::from_elem(val, len)`: enough blocks for `len` bits, each
        `u64::MAX` or 0, and the hash taken from the parity of the block
        count. `len + 63` is computed in `usize`, which must not overflow. */
    constructor FromElem(val: bool, len: nat)
      requires len + 63 <= USIZE_MAX
      ensures Valid()
      ensures |inner| == BlockCount(len)
      ensures forall j :: 0 <= j < |inner| ==> inner[j] == if val then Ones() else Zero()
      ensures hash == if |inner| % 2 == 0 then Zero() else if val then Ones() else Zero()
      ensures forall i :: 0 <= i < |inner| * BLOCK_BITS ==> Get(i) == val
    {
      var block := if val then Ones() else Zero();
      var count := (len + 63) / 64;
      inner := seq(count, _ => block);
      hash := if count % 2 == 0 then Zero() else block;
      XorAllRepeat(block, count);
    }

    /** `BitVec::get(i)`: bit `i % 64` of block `i / 64`, that is, bit `i` of
        the blocks laid end to end; indexing panics unless that block exists. */
    function Get(i: nat): (b: bool)
      reads this
      requires Valid()
      requires i / BLOCK_BITS < |inner|
      ensures i < |Flatten(inner)| && b == Flatten(inner)[i]
    {
      FlattenIndex(inner, i);
      inner[i / BLOCK_BITS][i % BLOCK_BITS]
    }

    /** `BitVec::set(i, val)`: rewrites one bit of one block in place and
        XORs the old block out of, and the new block into, the hash. */
    method Set(i: nat, val: bool)
      requires Valid()
      requires i / BLOCK_BITS < |inner|
      modifies this
      ensures Valid()
      ensures |inner| == old(|inner|)
      ensures inner == old(inner)[i / BLOCK_BITS := SetBit(old(inner[i / BLOCK_BITS]), i % BLOCK_BITS, val)]
      ensures hash == Xor(Xor(old(hash), old(inner[i / BLOCK_BITS])), inner[i / BLOCK_BITS])
      ensures Get(i) == val
      ensures forall j :: 0 <= j < |inner| * BLOCK_BITS && j != i ==> Get(j) == old(Get(j))
    {
      var b := inner[i / BLOCK_BITS];
      hash := Xor(hash, b);
      var nb := SetBit(b, i % BLOCK_BITS, val);
      inner := inner[i / BLOCK_BITS := nb];
      hash := Xor(hash, nb);
      XorAllUpdate(old(inner), i / BLOCK_BITS, nb);
      forall j | 0 <= j < |inner| * BLOCK_BITS && j != i
        ensures Get(j) == old(Get(j))
      {
        if j / BLOCK_BITS == i / BLOCK_BITS {
          assert j % BLOCK_BITS != i % BLOCK_BITS;
        }
      }
    }

    /** `impl Hash for BitVec`: the one value written to the hasher is the
        cached `hash`, which is the XOR of the blocks. */
    function HashValue(): (h: Block)
      reads this
      requires Valid()
      ensures h == XorAll(inner)
      ensures forall k :: 0 <= k < BLOCK_BITS ==> h[k] == (CountSet(inner, k) % 2 == 1)
    {
      forall k | 0 <= k < BLOCK_BITS
        ensures hash[k] == (CountSet(inner, k) % 2 == 1)
      {
        XorAllIsParity(inner, k);
      }
      hash
    }
  }

  /** Two valid bit vectors with the same blocks write the same hash value,
      so the derived equality and the hash agree. */
  lemma EqualBlocksHashEqually(a: BitVec, b: BitVec)
    requires a.Valid() && b.Valid()
    requires a.inner == b.inner
    ensures a.HashValue() == b.HashValue()
  {
  }

  /** Calling `set(i, val)` twice leaves the blocks and the hash exactly as
      after the first call. */
  method SetTwice(v: BitVec, i: nat, val: bool)
    requires v.Valid() && i / BLOCK_BITS < |v.inner|
    modifies v
    ensures v.Valid()
    ensures v.inner == old(v.inner)[i / BLOCK_BITS := SetBit(old(v.inner[i / BLOCK_BITS]), i % BLOCK_BITS, val)]
    ensures v.hash == Xor(Xor(old(v.hash), old(v.inner[i / BLOCK_BITS])), v.inner[i / BLOCK_BITS])
  {
    v.Set(i, val);
    ghost var once, onceHash := v.inner, v.hash;
    v.Set(i, val);
    SetBitIdempotent(old(v.inner[i / BLOCK_BITS]), i % BLOCK_BITS, val);
    assert v.inner == once;
    XorCancel(onceHash, once[i / BLOCK_BITS]);
  }
}
