/** The index of the buffer cache as a value: hash chains, the recency ring, and what a block logically holds. */
module CacheIndex {
  import opened Options
  import opened Blocks

  const NBUF: nat := 256
  const HASH_SIZE: nat := 64

  /** A buffer. `key` is None while its device pointer is null. */
  datatype Buf = Buf(key: Option<Key>, dirty: bool, refcnt: nat, pins: nat, data: seq<Byte>)

  /** hash_block: the address of the device descriptor over 16, exclusive-or the block number, modulo 64. */
  function Hash(devices: seq<Device>, key: Key): (h: nat)
    requires key.dev < |devices|
    ensures h < HASH_SIZE
  {
    ((devices[key.dev].addr / 16 % HASH_SIZE) as bv6 ^ (key.blk % HASH_SIZE) as bv6) as nat
  }

  ghost predicate NoDuplicates(s: seq<nat>) {
    forall i, j :: 0 <= i < j < |s| ==> s[i] != s[j]
  }

  /** A list without an element of it. */
  function Without(s: seq<nat>, x: nat): seq<nat> {
    if s == [] then [] else if s[0] == x then s[1..] else [s[0]] + Without(s[1..], x)
  }

  lemma {:induction false} WithoutKeeps(s: seq<nat>, x: nat)
    requires NoDuplicates(s)
    ensures NoDuplicates(Without(s, x))
    ensures forall y :: y in Without(s, x) <==> y in s && y != x
  {
    if s != [] {
      var tail := s[1..];
      assert forall y :: y in s <==> y == s[0] || y in tail;
      assert s[0] !in tail;
      if s[0] != x {
        WithoutKeeps(tail, x);
        ConsDistinct(s[0], Without(tail, x));
      }
    }
  }

  lemma ConsDistinct(x: nat, s: seq<nat>)
    requires NoDuplicates(s) && x !in s
    ensures NoDuplicates([x] + s) && NoDuplicates(s + [x])
    ensures forall y :: y in [x] + s <==> y == x || y in s
    ensures forall y :: y in s + [x] <==> y == x || y in s
  {
    assert forall k :: 0 <= k < |s| ==> s[k] in s;
  }

  /** Every buffer is in the ring exactly once. */
  ghost predicate Ring(lru: seq<nat>) {
    NoDuplicates(lru) && forall i: nat :: i in lru <==> i < NBUF
  }

  lemma RingMoves(lru: seq<nat>, i: nat)
    requires Ring(lru) && i < NBUF
    ensures Ring([i] + Without(lru, i)) && Ring(Without(lru, i) + [i])
  {
    WithoutKeeps(lru, i);
    ConsDistinct(i, Without(lru, i));
  }

  /** A block has at most one buffer. */
  ghost predicate OneEach(bufs: seq<Buf>) {
    forall i, j :: 0 <= i < |bufs| && 0 <= j < |bufs| && bufs[i].key.Some? && bufs[i].key == bufs[j].key ==> i == j
  }

  /** The chains hold each indexed buffer once, in the chain of its own hash. */
  ghost predicate Chained(devices: seq<Device>, bufs: seq<Buf>, chains: seq<seq<nat>>) {
    && |chains| == HASH_SIZE
    && (forall h :: 0 <= h < HASH_SIZE ==> NoDuplicates(chains[h]))
    && (forall h :: 0 <= h < HASH_SIZE ==> AllIn(devices, bufs, chains[h], h))
    && (forall h, i :: 0 <= h < HASH_SIZE && 0 <= i < |bufs| && InChain(devices, bufs[i], h) ==> i in chains[h])
  }

  ghost predicate AllIn(devices: seq<Device>, bufs: seq<Buf>, chain: seq<nat>, h: nat) {
    forall i :: i in chain ==> i < |bufs| && InChain(devices, bufs[i], h)
  }

  ghost predicate InChain(devices: seq<Device>, b: Buf, h: nat) {
    b.key.Some? && b.key.value.dev < |devices| && Hash(devices, b.key.value) == h
  }

  /** Sizes, device numbers and counters are in order. */
  ghost predicate Shaped(devices: seq<Device>, bufs: seq<Buf>, disk: seq<seq<Byte>>) {
    && |bufs| == NBUF && |disk| == |devices|
    && (forall d :: 0 <= d < |devices| ==> devices[d].blockSize > 0 && BSIZE % devices[d].blockSize == 0)
    && (forall i :: 0 <= i < NBUF ==> |bufs[i].data| == BSIZE)
    && (forall i :: 0 <= i < NBUF && bufs[i].key.Some? ==> OnDisk(disk, bufs[i].key.value))
    && (forall i :: 0 <= i < NBUF && bufs[i].key.None? ==> !bufs[i].dirty && bufs[i].refcnt == 0 && bufs[i].pins == 0)
  }

  /** A buffer that is neither dirty nor edited behind the cache's back shows what is on the disk. */
  ghost predicate Clean(bufs: seq<Buf>, disk: seq<seq<Byte>>, edited: set<nat>) {
    forall i: nat :: i < |bufs| && bufs[i].key.Some? && OnDisk(disk, bufs[i].key.value) && !bufs[i].dirty && i !in edited ==>
      bufs[i].data == BlockOf(disk, bufs[i].key.value)
  }

  ghost predicate Coherent(devices: seq<Device>, bufs: seq<Buf>, chains: seq<seq<nat>>, lru: seq<nat>,
                           disk: seq<seq<Byte>>, edited: set<nat>) {
    && Shaped(devices, bufs, disk)
    && Ring(lru)
    && OneEach(bufs)
    && Chained(devices, bufs, chains)
    && Clean(bufs, disk, edited)
    && (forall i :: i in edited ==> i < NBUF && bufs[i].key.Some?)
  }

  ghost predicate Holds(bufs: seq<Buf>, i: int, key: Key) {
    0 <= i < |bufs| && bufs[i].key == Some(key)
  }

  /** What a block logically holds: the data of its buffer if it has one, else what is on the disk. */
  ghost function Logical(bufs: seq<Buf>, disk: seq<seq<Byte>>, key: Key): seq<Byte>
    requires OnDisk(disk, key)
  {
    if exists i :: Holds(bufs, i, key) then (var i :| Holds(bufs, i, key); bufs[i].data) else BlockOf(disk, key)
  }

  lemma LogicalCached(bufs: seq<Buf>, disk: seq<seq<Byte>>, key: Key, i: nat)
    requires OneEach(bufs) && Holds(bufs, i, key) && OnDisk(disk, key)
    ensures Logical(bufs, disk, key) == bufs[i].data
  {
  }

  lemma LogicalUncached(bufs: seq<Buf>, disk: seq<seq<Byte>>, key: Key)
    requires OnDisk(disk, key) && forall i :: !Holds(bufs, i, key)
    ensures Logical(bufs, disk, key) == BlockOf(disk, key)
  {
  }

  /** Every block logically holds what it held before. */
  ghost predicate SameBlocks(bufs: seq<Buf>, disk: seq<seq<Byte>>, bufs': seq<Buf>, disk': seq<seq<Byte>>) {
    && (forall k :: OnDisk(disk', k) <==> OnDisk(disk, k))
    && (forall k :: OnDisk(disk, k) && OnDisk(disk', k) ==> Logical(bufs', disk', k) == Logical(bufs, disk, k))
  }

  lemma SameBlocksTrans(b0: seq<Buf>, d0: seq<seq<Byte>>, b1: seq<Buf>, d1: seq<seq<Byte>>, b2: seq<Buf>,
                        d2: seq<seq<Byte>>)
    requires SameBlocks(b0, d0, b1, d1) && SameBlocks(b1, d1, b2, d2)
    ensures SameBlocks(b0, d0, b2, d2)
  {
    hide Logical;
    hide OnDisk;
  }

  // ---------------------------------------------------------------- changes of one buffer

  /** A change that keeps keys and data, and writes to the disk at most what buffers hold. */
  lemma SameData(bufs: seq<Buf>, disk: seq<seq<Byte>>, bufs': seq<Buf>, disk': seq<seq<Byte>>)
    requires OneEach(bufs) && |bufs'| == |bufs|
    requires forall i :: 0 <= i < |bufs| ==> bufs'[i].key == bufs[i].key && bufs'[i].data == bufs[i].data
    requires forall k :: OnDisk(disk', k) <==> OnDisk(disk, k)
    requires forall k :: OnDisk(disk, k) && OnDisk(disk', k) && (forall i :: !Holds(bufs, i, k)) ==>
               BlockOf(disk', k) == BlockOf(disk, k)
    ensures OneEach(bufs') && SameBlocks(bufs, disk, bufs', disk')
  {
    hide OnDisk;
    hide BlockOf;
    forall k | OnDisk(disk, k)
      ensures Logical(bufs', disk', k) == Logical(bufs, disk, k)
    {
      if i :| Holds(bufs, i, k) {
        assert Holds(bufs', i, k);
        LogicalCached(bufs, disk, k, i);
        LogicalCached(bufs', disk', k, i);
      } else {
        assert forall i :: Holds(bufs', i, k) ==> Holds(bufs, i, k);
        LogicalUncached(bufs, disk, k);
        LogicalUncached(bufs', disk', k);
      }
    }
  }

  /** Dropping a buffer that shows what is on the disk. */
  lemma DropClean(bufs: seq<Buf>, disk: seq<seq<Byte>>, i: nat, b: Buf)
    requires OneEach(bufs) && i < |bufs| && b.key.None?
    requires bufs[i].key.Some? ==> OnDisk(disk, bufs[i].key.value) && bufs[i].data == BlockOf(disk, bufs[i].key.value)
    ensures OneEach(bufs[i := b]) && SameBlocks(bufs, disk, bufs[i := b], disk)
  {
    hide OnDisk;
    hide BlockOf;
    var bufs' := bufs[i := b];
    forall k | OnDisk(disk, k)
      ensures Logical(bufs', disk, k) == Logical(bufs, disk, k)
    {
      if j :| Holds(bufs, j, k) {
        LogicalCached(bufs, disk, k, j);
        if j == i {
          assert forall x :: !Holds(bufs', x, k);
          LogicalUncached(bufs', disk, k);
        } else {
          assert Holds(bufs', j, k);
          LogicalCached(bufs', disk, k, j);
        }
      } else {
        assert forall x :: Holds(bufs', x, k) ==> Holds(bufs, x, k);
        LogicalUncached(bufs, disk, k);
        LogicalUncached(bufs', disk, k);
      }
    }
  }

  /** Filling an unused buffer with a block that has none. */
  lemma FillClean(bufs: seq<Buf>, disk: seq<seq<Byte>>, i: nat, b: Buf)
    requires OneEach(bufs) && i < |bufs| && bufs[i].key.None? && b.key.Some?
    requires OnDisk(disk, b.key.value) && b.data == BlockOf(disk, b.key.value)
    requires forall x :: !Holds(bufs, x, b.key.value)
    ensures OneEach(bufs[i := b]) && SameBlocks(bufs, disk, bufs[i := b], disk)
  {
    hide OnDisk;
    hide BlockOf;
    var bufs' := bufs[i := b];
    forall x, y | 0 <= x < |bufs'| && 0 <= y < |bufs'| && bufs'[x].key.Some? && bufs'[x].key == bufs'[y].key
      ensures x == y
    {
      assert x != i ==> !Holds(bufs, x, b.key.value);
      assert y != i ==> !Holds(bufs, y, b.key.value);
    }
    forall k | OnDisk(disk, k)
      ensures Logical(bufs', disk, k) == Logical(bufs, disk, k)
    {
      if k == b.key.value {
        assert Holds(bufs', i, k);
        LogicalCached(bufs', disk, k, i);
        LogicalUncached(bufs, disk, k);
      } else if j :| Holds(bufs, j, k) {
        assert Holds(bufs', j, k);
        LogicalCached(bufs, disk, k, j);
        LogicalCached(bufs', disk, k, j);
      } else {
        assert forall x :: Holds(bufs', x, k) ==> Holds(bufs, x, k);
        LogicalUncached(bufs, disk, k);
        LogicalUncached(bufs', disk, k);
      }
    }
  }

  /** Editing the data of a buffer changes its own block only. */
  lemma EditOne(bufs: seq<Buf>, disk: seq<seq<Byte>>, i: nat, data: seq<Byte>)
    requires OneEach(bufs) && i < |bufs| && bufs[i].key.Some?
    ensures var bufs' := bufs[i := bufs[i].(data := data)];
            && OneEach(bufs')
            && forall k :: OnDisk(disk, k) ==>
                 Logical(bufs', disk, k) == if k == bufs[i].key.value then data else Logical(bufs, disk, k)
  {
    hide OnDisk;
    hide BlockOf;
    var bufs' := bufs[i := bufs[i].(data := data)];
    forall k | OnDisk(disk, k)
      ensures Logical(bufs', disk, k) == if k == bufs[i].key.value then data else Logical(bufs, disk, k)
    {
      if j :| Holds(bufs, j, k) {
        assert Holds(bufs', j, k);
        LogicalCached(bufs, disk, k, j);
        LogicalCached(bufs', disk, k, j);
      } else {
        assert !Holds(bufs, i, k);
        assert forall x :: Holds(bufs', x, k) ==> Holds(bufs, x, k);
        LogicalUncached(bufs, disk, k);
        LogicalUncached(bufs', disk, k);
      }
    }
  }
}
