/** The buffer cache: 256 buffers over block devices, each call one step, devices that do not fail. */
module BufferCache {
  import opened Options
  import opened Arithmetic
  import opened Blocks
  import opened CacheIndex

  predicate InUse(b: Buf) {
    b.refcnt > 0 || b.pins > 0
  }

  /** What a client has edited and not yet written it still holds, so no edit can be lost. */
  ghost predicate NothingLost(bufs: seq<Buf>, edited: set<nat>) {
    forall i: nat :: i in edited && i < |bufs| ==> InUse(bufs[i]) || bufs[i].dirty
  }

  /** The block belongs to the device, or to any if none is given. */
  predicate Targets(dev: Option<nat>, key: Key) {
    dev.None? || key.dev == dev.value
  }

  /** No client has edited the buffer of the block without writing it. */
  ghost predicate Unedited(bufs: seq<Buf>, edited: set<nat>, key: Key) {
    forall i :: i in edited ==> !Holds(bufs, i, key)
  }

  function Unused(data: seq<Byte>): Buf {
    Buf(None, false, 0, 0, data)
  }

  /** The buffer that is nearest to the back of the ring among those not in use. */
  ghost predicate Victim(bufs: seq<Buf>, lru: seq<nat>, i: nat) {
    exists p :: 0 <= p < |lru| && lru[p] == i && i < |bufs| && !InUse(bufs[i])
                && forall q :: p < q < |lru| && lru[q] < |bufs| ==> InUse(bufs[lru[q]])
  }

  /** The same buffers, but for some that nobody used and that are empty now. */
  ghost predicate OnlyDropped(bufs: seq<Buf>, bufs': seq<Buf>) {
    && |bufs'| == |bufs|
    && forall j :: 0 <= j < |bufs| ==> bufs'[j] == bufs[j] || (!InUse(bufs[j]) && bufs'[j] == Unused(bufs[j].data))
  }

  // ---------------------------------------------------------------- what the steps keep

  lemma ChainedDrop(devices: seq<Device>, bufs: seq<Buf>, chains: seq<seq<nat>>, i: nat, b: Buf)
    requires Chained(devices, bufs, chains) && i < |bufs| && b.key.None?
    requires bufs[i].key.Some? && bufs[i].key.value.dev < |devices|
    ensures var h := Hash(devices, bufs[i].key.value);
            Chained(devices, bufs[i := b], chains[h := Without(chains[h], i)])
  {
    hide Hash;
    var g := Hash(devices, bufs[i].key.value);
    WithoutKeeps(chains[g], i);
    var bufs', chains' := bufs[i := b], chains[g := Without(chains[g], i)];
    forall h, j: nat | 0 <= h < HASH_SIZE
      ensures j in chains'[h] <==> j < |bufs'| && InChain(devices, bufs'[j], h)
    {
      assert j in chains[h] <==> j < |bufs| && InChain(devices, bufs[j], h);
    }
  }

  lemma ChainedFill(devices: seq<Device>, bufs: seq<Buf>, chains: seq<seq<nat>>, i: nat, b: Buf)
    requires Chained(devices, bufs, chains) && i < |bufs| && bufs[i].key.None? && b.key.Some?
             && b.key.value.dev < |devices|
    ensures var h := Hash(devices, b.key.value);
            Chained(devices, bufs[i := b], chains[h := [i] + chains[h]])
  {
    hide Hash;
    var g := Hash(devices, b.key.value);
    assert i in chains[g] <==> InChain(devices, bufs[i], g);
    ConsDistinct(i, chains[g]);
    var bufs', chains' := bufs[i := b], chains[g := [i] + chains[g]];
    forall h, j: nat | 0 <= h < HASH_SIZE
      ensures j in chains'[h] <==> j < |bufs'| && InChain(devices, bufs'[j], h)
    {
      assert j in chains[h] <==> j < |bufs| && InChain(devices, bufs[j], h);
    }
  }

  lemma ChainedSame(devices: seq<Device>, bufs: seq<Buf>, chains: seq<seq<nat>>, bufs': seq<Buf>)
    requires Chained(devices, bufs, chains) && |bufs'| == |bufs|
    requires forall i :: 0 <= i < |bufs| ==> bufs'[i].key == bufs[i].key
    ensures Chained(devices, bufs', chains)
  {
    hide Hash;
    forall h, j: nat | 0 <= h < HASH_SIZE
      ensures j in chains[h] <==> j < |bufs'| && InChain(devices, bufs'[j], h)
    {
      assert j in chains[h] <==> j < |bufs| && InChain(devices, bufs[j], h);
    }
  }

  /** After a block was written its buffer is clean, and every other buffer is as clean as before. */
  lemma CleanStored(bufs: seq<Buf>, disk: seq<seq<Byte>>, disk': seq<seq<Byte>>, edited: set<nat>, i: nat)
    requires Clean(bufs, disk, edited) && OneEach(bufs) && i < |bufs| && bufs[i].key.Some?
    requires forall k :: OnDisk(disk', k) <==> OnDisk(disk, k)
    requires OnDisk(disk, bufs[i].key.value)
    requires forall k :: OnDisk(disk, k) && OnDisk(disk', k) ==>
               BlockOf(disk', k) == if k == bufs[i].key.value then bufs[i].data else BlockOf(disk, k)
    ensures Clean(bufs, disk', edited) && Clean(bufs[i := bufs[i].(dirty := false)], disk', edited - {i})
  {
    hide OnDisk;
    hide BlockOf;
  }

  /** The disk where the block of a key has been written, or not. */
  ghost predicate Written(disk: seq<seq<Byte>>, disk': seq<seq<Byte>>, key: Key, data: seq<Byte>) {
    && |disk'| == |disk|
    && (forall k :: OnDisk(disk', k) <==> OnDisk(disk, k))
    && (forall k :: OnDisk(disk, k) && OnDisk(disk', k) ==>
          BlockOf(disk', k) == if k == key then data else BlockOf(disk, k))
  }

  /** Writing the data of a buffer to its block. */
  lemma WriteBack(devices: seq<Device>, bufs: seq<Buf>, chains: seq<seq<nat>>, lru: seq<nat>,
                  disk: seq<seq<Byte>>, disk': seq<seq<Byte>>, edited: set<nat>, i: nat)
    requires Coherent(devices, bufs, chains, lru, disk, edited) && i < NBUF && bufs[i].key.Some?
    requires Written(disk, disk', bufs[i].key.value, bufs[i].data)
    ensures var bufs' := bufs[i := bufs[i].(dirty := false)];
            Coherent(devices, bufs', chains, lru, disk', edited - {i}) && SameBlocks(bufs, disk, bufs', disk')
  {
    hide OnDisk;
    hide BlockOf;
    hide Hash;
    hide Ring;
    hide SameBlocks;
    hide Logical;
    var bufs' := bufs[i := bufs[i].(dirty := false)];
    CleanStored(bufs, disk, disk', edited, i);
    hide Clean;
    ChainedSame(devices, bufs, chains, bufs');
    hide Chained;
    forall k | OnDisk(disk, k) && OnDisk(disk', k) && forall x :: !Holds(bufs, x, k)
      ensures BlockOf(disk', k) == BlockOf(disk, k)
    {
      assert Holds(bufs, i, bufs[i].key.value);
    }
    SameData(bufs, disk, bufs', disk');
  }

  /** Taking a clean buffer that nobody uses out of the index. */
  lemma DropKeeps(devices: seq<Device>, bufs: seq<Buf>, chains: seq<seq<nat>>, lru: seq<nat>,
                  disk: seq<seq<Byte>>, edited: set<nat>, i: nat)
    requires Coherent(devices, bufs, chains, lru, disk, edited) && i < NBUF && bufs[i].key.Some?
    ensures var bufs', h := bufs[i := Unused(bufs[i].data)], Hash(devices, bufs[i].key.value);
            && Coherent(devices, bufs', chains[h := Without(chains[h], i)], lru, disk, edited - {i})
            && (!bufs[i].dirty && i !in edited ==> SameBlocks(bufs, disk, bufs', disk))
  {
    hide OnDisk;
    hide BlockOf;
    hide Hash;
    hide Ring;
    hide SameBlocks;
    hide Logical;
    KeyOnDevice(devices, disk, bufs[i].key.value);
    ChainedDrop(devices, bufs, chains, i, Unused(bufs[i].data));
    hide Chained;
    if !bufs[i].dirty && i !in edited {
      DropClean(bufs, disk, i, Unused(bufs[i].data));
    }
  }

  lemma KeyOnDevice(devices: seq<Device>, disk: seq<seq<Byte>>, key: Key)
    requires |disk| == |devices| && OnDisk(disk, key)
    ensures key.dev < |devices|
  {
  }

  class Cache {
    const devices: seq<Device>
    var bufs: seq<Buf>
    /** The chains through qnext, and the ring from the front to the back. */
    var chains: seq<seq<nat>>
    var lru: seq<nat>
    /** The bytes of each device. */
    var disk: seq<seq<Byte>>
    /** The buffers whose data a client changed after the last bwrite. */
    ghost var edited: set<nat>

    ghost predicate Valid()
      reads this
    {
      Coherent(devices, bufs, chains, lru, disk, edited)
    }

    /** bcache_init, with memory for every buffer. */
    constructor (devices: seq<Device>, disk: seq<seq<Byte>>)
      requires |disk| == |devices|
      requires forall d :: 0 <= d < |devices| ==> devices[d].blockSize > 0 && BSIZE % devices[d].blockSize == 0
      ensures Valid() && this.devices == devices && this.disk == disk && edited == {}
      ensures forall i :: 0 <= i < NBUF ==> bufs[i] == Unused(bufs[i].data)
    {
      this.devices, this.disk := devices, disk;
      bufs := seq(NBUF, _ => Unused(seq(BSIZE, _ => 0)));
      chains := seq(HASH_SIZE, _ => []);
      edited := {};
      var ring: seq<nat> := [];
      for i := 0 to NBUF
        invariant NoDuplicates(ring) && forall x: nat :: x in ring <==> x < i
      {
        ConsDistinct(i, ring);
        ring := [i] + ring;
      }
      lru := ring;
    }

    // -------------------------------------------------------------- device transfers

    /** blk_read. */
    method BlkRead(dev: nat, sector: nat, count: nat) returns (data: seq<Byte>)
      requires dev < |devices| == |disk| && (sector + count) * devices[dev].blockSize <= |disk[dev]|
      requires sector * devices[dev].blockSize <= (sector + count) * devices[dev].blockSize
      ensures data == disk[dev][sector * devices[dev].blockSize..(sector + count) * devices[dev].blockSize]
    {
      data := disk[dev][sector * devices[dev].blockSize..(sector + count) * devices[dev].blockSize];
    }

    /** blk_write. */
    method BlkWrite(dev: nat, sector: nat, count: nat, data: seq<Byte>)
      requires dev < |devices| == |disk| && sector * devices[dev].blockSize + |data| <= |disk[dev]|
      requires |data| == count * devices[dev].blockSize
      modifies this`disk
      ensures disk == Overwrite(old(disk), dev, sector * devices[dev].blockSize, data)
    {
      var at := sector * devices[dev].blockSize;
      disk := disk[dev := disk[dev][..at] + data + disk[dev][at + |data|..]];
    }

    method LoadBlock(key: Key) returns (data: seq<Byte>)
      requires key.dev < |devices| == |disk| && devices[key.dev].blockSize > 0
               && BSIZE % devices[key.dev].blockSize == 0
      requires OnDisk(disk, key)
      ensures data == BlockOf(disk, key)
    {
      var size := devices[key.dev].blockSize;
      SectorsCover(key.blk, size);
      data := BlkRead(key.dev, FirstSector(key.blk, size), SectorCount(size));
    }

    method StoreBlock(key: Key, data: seq<Byte>)
      requires key.dev < |devices| == |disk| && devices[key.dev].blockSize > 0
               && BSIZE % devices[key.dev].blockSize == 0
      requires OnDisk(disk, key) && |data| == BSIZE
      modifies this`disk
      ensures |disk| == |devices| && forall k :: OnDisk(disk, k) <==> OnDisk(old(disk), k)
      ensures forall k :: OnDisk(disk, k) && OnDisk(old(disk), k) ==>
                BlockOf(disk, k) == if k == key then data else BlockOf(old(disk), k)
    {
      var size := devices[key.dev].blockSize;
      SectorsCover(key.blk, size);
      CountTimes(size);
      OverwriteBlock(disk, key, data);
      BlkWrite(key.dev, FirstSector(key.blk, size), SectorCount(size), data);
    }

    // -------------------------------------------------------------- index and ring

    /** bcache_lookup: the buffer of a block, found by its own chain. */
    method Lookup(key: Key) returns (i: Option<nat>)
      requires Valid() && key.dev < |devices|
      ensures i.Some? ==> Holds(bufs, i.value, key)
      ensures i.None? ==> forall x :: !Holds(bufs, x, key)
    {
      hide Hash;
      var chain := chains[Hash(devices, key)];
      var p := 0;
      while p < |chain|
        invariant 0 <= p <= |chain|
        invariant forall q :: 0 <= q < p ==> chain[q] < |bufs| && bufs[chain[q]].key != Some(key)
      {
        assert chain[p] in chain;
        if bufs[chain[p]].key == Some(key) {
          return Some(chain[p]);
        }
        p := p + 1;
      }
      forall x | 0 <= x < |bufs|
        ensures bufs[x].key != Some(key)
      {
        if x in chain {
          var q :| 0 <= q < |chain| && chain[q] == x;
        } else {
          assert !InChain(devices, bufs[x], Hash(devices, key));
        }
      }
      i := None;
    }

    method MoveToFront(i: nat)
      requires Ring(lru) && i < NBUF
      modifies this`lru
      ensures Ring(lru) && lru == [i] + Without(old(lru), i)
    {
      RingMoves(lru, i);
      lru := [i] + Without(lru, i);
    }

    /** Write a buffer to its block. */
    method Flush(i: nat)
      requires Valid() && i < NBUF && bufs[i].key.Some?
      modifies this`disk, this`bufs, this`edited
      ensures Valid() && SameBlocks(old(bufs), old(disk), bufs, disk)
      ensures bufs == old(bufs)[i := old(bufs)[i].(dirty := false)] && edited == old(edited) - {i}
      ensures Written(old(disk), disk, bufs[i].key.value, bufs[i].data)
    {
      hide OnDisk;
      hide BlockOf;
      hide SameBlocks;
      KeyOnDevice(devices, disk, bufs[i].key.value);
      StoreBlock(bufs[i].key.value, bufs[i].data);
      WriteBack(devices, bufs, chains, lru, old(disk), disk, edited, i);
      bufs := bufs[i := bufs[i].(dirty := false)];
      edited := edited - {i};
    }

    /** What bcache_evict and bcache_invalidate do to a buffer that nobody uses. */
    method Drop(i: nat)
      requires Valid() && i < NBUF && !InUse(bufs[i])
      modifies this`disk, this`bufs, this`edited, this`chains
      ensures Valid() && edited == old(edited) - {i}
      ensures bufs == old(bufs)[i := Unused(old(bufs)[i].data)]
      ensures i !in old(edited) || old(bufs)[i].dirty ==> SameBlocks(old(bufs), old(disk), bufs, disk)
      ensures forall k :: OnDisk(disk, k) <==> OnDisk(old(disk), k)
      ensures forall k :: OnDisk(disk, k) && OnDisk(old(disk), k) && old(bufs)[i].key != Some(k) ==>
                BlockOf(disk, k) == BlockOf(old(disk), k)
    {
      hide OnDisk;
      hide BlockOf;
      hide SameBlocks;
      hide Hash;
      hide Coherent;
      BufShape(devices, bufs, chains, lru, disk, edited, i);
      SameBlocksSelf(bufs, disk);
      if bufs[i].dirty {
        Flush(i);
      }
      ghost var bufs1, disk1 := bufs, disk;
      if bufs[i].key.Some? {
        var h := Hash(devices, bufs[i].key.value);
        DropKeeps(devices, bufs, chains, lru, disk, edited, i);
        chains := chains[h := Without(chains[h], i)];
      } else {
        DropUnused(devices, bufs, chains, lru, disk, edited, i);
      }
      bufs := bufs[i := Unused(bufs[i].data)];
      edited := edited - {i};
      if i !in old(edited) || old(bufs)[i].dirty {
        SameBlocksTrans(old(bufs), old(disk), bufs1, disk1, bufs, disk);
      }
    }

    /** bcache_evict: the unused buffer nearest to the back of the ring; none exactly if all are in use. */
    method Evict() returns (i: Option<nat>)
      requires Valid()
      modifies this`disk, this`bufs, this`edited, this`chains
      ensures Valid()
      ensures i.None? ==> forall j :: 0 <= j < NBUF ==> InUse(bufs[j])
      ensures i.None? ==> bufs == old(bufs) && disk == old(disk) && chains == old(chains) && edited == old(edited)
      ensures i.Some? ==> i.value < NBUF && Victim(old(bufs), lru, i.value)
      ensures i.Some? ==>
                bufs == old(bufs)[i.value := Unused(old(bufs)[i.value].data)] && edited == old(edited) - {i.value}
      ensures NothingLost(old(bufs), old(edited)) ==> SameBlocks(old(bufs), old(disk), bufs, disk)
      ensures forall k :: OnDisk(disk, k) <==> OnDisk(old(disk), k)
      ensures i.Some? ==> forall k :: OnDisk(disk, k) && OnDisk(old(disk), k) && old(bufs)[i.value].key != Some(k) ==>
                BlockOf(disk, k) == BlockOf(old(disk), k)
    {
      hide OnDisk;
      hide BlockOf;
      hide SameBlocks;
      hide Hash;
      hide Coherent;
      SameBlocksSelf(bufs, disk);
      RingOf(devices, bufs, chains, lru, disk, edited);
      var p := |lru|;
      while p > 0
        invariant 0 <= p <= |lru|
        invariant forall q :: p <= q < |lru| ==> lru[q] < |bufs| && InUse(bufs[lru[q]])
      {
        p := p - 1;
        assert lru[p] in lru;
        if !InUse(bufs[lru[p]]) {
          assert Victim(bufs, lru, lru[p]);
          Drop(lru[p]);
          return Some(lru[p]);
        }
      }
      forall j: nat | j < NBUF
        ensures InUse(bufs[j])
      {
        assert j in lru;
      }
      i := None;
    }

    // -------------------------------------------------------------- the calls

    /** bread: a buffer with what the block logically holds, held once more; none exactly if the block has no
        buffer and every buffer is in use. Whatever was in use stays. */
    method Bread(key: Key) returns (i: Option<nat>)
      requires Valid() && key.dev < |devices| && OnDisk(disk, key)
      modifies this
      ensures Valid()
      ensures forall k :: OnDisk(disk, k) <==> OnDisk(old(disk), k)
      ensures i.None? <==> (forall x :: !Holds(old(bufs), x, key)) && forall j :: 0 <= j < NBUF ==> InUse(old(bufs)[j])
      ensures i.None? ==> bufs == old(bufs) && disk == old(disk) && edited == old(edited)
      ensures i.Some? ==> Holds(bufs, i.value, key) && bufs[i.value].data == Logical(old(bufs), old(disk), key)
      ensures i.Some? ==>
                bufs[i.value].refcnt == 1 + (if Holds(old(bufs), i.value, key) then old(bufs)[i.value].refcnt else 0)
      ensures i.Some? ==>
                bufs == old(bufs)[i.value := bufs[i.value]]
                && bufs[i.value].pins == (if Holds(old(bufs), i.value, key) then old(bufs)[i.value].pins else 0)
      ensures i.Some? && !Holds(old(bufs), i.value, key) ==>
                !InUse(old(bufs)[i.value]) && Victim(old(bufs), old(lru), i.value) && i.value !in edited
      ensures i.Some? ==> lru == [i.value] + Without(old(lru), i.value) && edited <= old(edited)
      ensures NothingLost(old(bufs), old(edited)) ==>
                SameBlocks(old(bufs), old(disk), bufs, disk) && NothingLost(bufs, edited)
    {
      hide OnDisk;
      hide BlockOf;
      hide SameBlocks;
      hide Hash;
      hide Coherent;
      hide Logical;
      hide Ring;
      RingOf(devices, bufs, chains, lru, disk, edited);
      SameBlocksSelf(bufs, disk);
      i := Lookup(key);
      if i.Some? {
        HeldData(devices, bufs, chains, lru, disk, edited, i.value, key);
        CountChanged(devices, bufs, chains, lru, disk, edited, i.value, bufs[i.value].refcnt + 1, bufs[i.value].pins);
        bufs := bufs[i.value := bufs[i.value].(refcnt := bufs[i.value].refcnt + 1)];
        ghost var ring := lru;
        MoveToFront(i.value);
        RingChanged(devices, bufs, chains, ring, lru, disk, edited);
        return;
      }
      UncachedData(bufs, disk, key);
      i := Evict();
      if i.None? {
        return;
      }
      var h := Hash(devices, key);
      ghost var bufs1, ring := bufs, lru;
      var data := ReadFor(key);
      BufShape(devices, bufs, chains, lru, disk, edited, i.value);
      assert forall x :: Holds(bufs, x, key) ==> Holds(old(bufs), x, key);
      FillKeeps(devices, bufs, chains, lru, disk, edited, i.value, key, data);
      bufs := bufs[i.value := Buf(Some(key), false, 1, 0, data)];
      chains := chains[h := [i.value] + chains[h]];
      RingOf(devices, bufs, chains, lru, disk, edited);
      MoveToFront(i.value);
      RingChanged(devices, bufs, chains, ring, lru, disk, edited);
      if NothingLost(old(bufs), old(edited)) {
        SameBlocksTrans(old(bufs), old(disk), bufs1, disk, bufs, disk);
      }
    }

    /** The transfer of bread. */
    method ReadFor(key: Key) returns (data: seq<Byte>)
      requires Valid() && key.dev < |devices| && OnDisk(disk, key)
      ensures data == BlockOf(disk, key)
    {
      hide BlockOf;
      hide OnDisk;
      data := LoadBlock(key);
    }

    /** bwrite: the block logically holds what it did; with `sync` the disk holds it too. */
    method Bwrite(i: nat, sync: bool) returns (ok: bool)
      requires Valid() && i < NBUF
      modifies this`disk, this`bufs, this`edited
      ensures Valid() && SameBlocks(old(bufs), old(disk), bufs, disk)
      ensures ok <==> old(bufs)[i].key.Some?
      ensures !ok ==> bufs == old(bufs) && disk == old(disk) && edited == old(edited)
      ensures ok ==> bufs == old(bufs)[i := old(bufs)[i].(dirty := !sync)] && edited == old(edited) - {i}
      ensures ok && !sync ==> disk == old(disk)
      ensures ok && sync ==> Written(old(disk), disk, bufs[i].key.value, bufs[i].data)
    {
      hide OnDisk;
      hide BlockOf;
      hide SameBlocks;
      hide Hash;
      hide Coherent;
      SameBlocksSelf(bufs, disk);
      RingOf(devices, bufs, chains, lru, disk, edited);
      if bufs[i].key.None? {
        return false;
      }
      MarkDirty(devices, bufs, chains, lru, disk, edited, i);
      ghost var bufs1, disk1 := bufs[i := bufs[i].(dirty := true)], disk;
      bufs := bufs[i := bufs[i].(dirty := true)];
      edited := edited - {i};
      if sync {
        Flush(i);
        SameBlocksTrans(old(bufs), old(disk), bufs1, disk1, bufs, disk);
      }
      ok := true;
    }

    /** A client changes the data of a buffer it holds: its own block changes, and no other. */
    method Edit(i: nat, data: seq<Byte>)
      requires Valid() && i < NBUF && bufs[i].key.Some? && InUse(bufs[i]) && |data| == BSIZE
      modifies this`bufs, this`edited
      ensures Valid() && bufs == old(bufs)[i := old(bufs)[i].(data := data)] && edited == old(edited) + {i}
      ensures forall k :: OnDisk(disk, k) ==>
                Logical(bufs, disk, k) == if Some(k) == bufs[i].key then data else Logical(old(bufs), disk, k)
    {
      hide OnDisk;
      hide BlockOf;
      hide Hash;
      hide Logical;
      EditOne(bufs, disk, i, data);
      ChainedSame(devices, bufs, chains, bufs[i := bufs[i].(data := data)]);
      bufs := bufs[i := bufs[i].(data := data)];
      edited := edited + {i};
    }

    /** brelse: a buffer that nobody holds any more goes to the back of the ring, where it is the first to be
        taken. */
    method Brelse(i: nat)
      requires Valid() && i < NBUF && bufs[i].refcnt > 0
      modifies this`bufs, this`lru
      ensures Valid() && SameBlocks(old(bufs), disk, bufs, disk)
      ensures bufs == old(bufs)[i := old(bufs)[i].(refcnt := old(bufs)[i].refcnt - 1)]
      ensures lru == if bufs[i].refcnt == 0 then Without(old(lru), i) + [i] else old(lru)
      ensures !InUse(bufs[i]) ==> Victim(bufs, lru, i)
    {
      hide OnDisk;
      hide BlockOf;
      hide SameBlocks;
      hide Hash;
      hide Coherent;
      hide Ring;
      RingOf(devices, bufs, chains, lru, disk, edited);
      BufShape(devices, bufs, chains, lru, disk, edited, i);
      CountChanged(devices, bufs, chains, lru, disk, edited, i, bufs[i].refcnt - 1, bufs[i].pins);
      bufs := bufs[i := bufs[i].(refcnt := bufs[i].refcnt - 1)];
      if bufs[i].refcnt == 0 {
        RingMoves(lru, i);
        RingChanged(devices, bufs, chains, lru, Without(lru, i) + [i], disk, edited);
        lru := Without(lru, i) + [i];
        assert lru[|lru| - 1] == i;
      }
    }

    method Bpin(i: nat)
      requires Valid() && i < NBUF && bufs[i].key.Some?
      modifies this`bufs
      ensures Valid() && SameBlocks(old(bufs), disk, bufs, disk)
      ensures bufs == old(bufs)[i := old(bufs)[i].(pins := old(bufs)[i].pins + 1)]
    {
      hide OnDisk;
      hide BlockOf;
      hide SameBlocks;
      hide Hash;
      hide Coherent;
      RingOf(devices, bufs, chains, lru, disk, edited);
      CountChanged(devices, bufs, chains, lru, disk, edited, i, bufs[i].refcnt, bufs[i].pins + 1);
      bufs := bufs[i := bufs[i].(pins := bufs[i].pins + 1)];
    }

    /** bunpin: one pin less, if there is one. */
    method Bunpin(i: nat)
      requires Valid() && i < NBUF && bufs[i].key.Some?
      modifies this`bufs
      ensures Valid() && SameBlocks(old(bufs), disk, bufs, disk)
      ensures bufs == old(bufs)[i := old(bufs)[i].(pins := if old(bufs)[i].pins > 0 then old(bufs)[i].pins - 1 else 0)]
    {
      hide OnDisk;
      hide BlockOf;
      hide SameBlocks;
      hide Hash;
      hide Coherent;
      RingOf(devices, bufs, chains, lru, disk, edited);
      var pins := if bufs[i].pins > 0 then bufs[i].pins - 1 else 0;
      CountChanged(devices, bufs, chains, lru, disk, edited, i, bufs[i].refcnt, pins);
      if bufs[i].pins > 0 {
        bufs := bufs[i := bufs[i].(pins := bufs[i].pins - 1)];
      } else {
        assert bufs[i := bufs[i].(pins := 0)] == bufs;
      }
    }

    /** bsync: no block changes logically; afterwards the disk holds what every block of the device (or of all
        devices) logically holds, except where a client has edited a buffer and not written it. */
    method Bsync(dev: Option<nat>)
      requires Valid()
      modifies this`disk, this`bufs, this`edited
      ensures Valid() && SameBlocks(old(bufs), old(disk), bufs, disk)
      ensures OnlyCleaned(old(bufs), bufs) && edited <= old(edited)
      ensures NothingLost(old(bufs), old(edited)) ==> NothingLost(bufs, edited)
      ensures forall k :: OnDisk(disk, k) && Targets(dev, k) && Unedited(bufs, edited, k) ==>
                BlockOf(disk, k) == Logical(bufs, disk, k)
    {
      hide OnDisk;
      hide BlockOf;
      hide SameBlocks;
      hide Hash;
      hide Coherent;
      hide Logical;
      SameBlocksSelf(bufs, disk);
      for i := 0 to NBUF
        invariant Valid() && SameBlocks(old(bufs), old(disk), bufs, disk)
        invariant OnlyCleaned(old(bufs), bufs) && edited <= old(edited)
        invariant NothingLost(old(bufs), old(edited)) ==> NothingLost(bufs, edited)
        invariant forall j :: 0 <= j < i && j < |bufs| && bufs[j].key.Some? && Targets(dev, bufs[j].key.value) ==>
                    !bufs[j].dirty
      {
        BufShape(devices, bufs, chains, lru, disk, edited, i);
        if bufs[i].dirty && bufs[i].key.Some? && (dev.None? || bufs[i].key.value.dev == dev.value) {
          ghost var bufs1, disk1 := bufs, disk;
          Flush(i);
          SameBlocksTrans(old(bufs), old(disk), bufs1, disk1, bufs, disk);
        }
      }
      RingOf(devices, bufs, chains, lru, disk, edited);
      forall k | OnDisk(disk, k) && Targets(dev, k) && Unedited(bufs, edited, k)
        ensures BlockOf(disk, k) == Logical(bufs, disk, k)
      {
        SyncedBlock(devices, bufs, chains, lru, disk, edited, k);
      }
    }

    /** bcache_invalidate: no block changes logically, and only buffers in use remain for the device. */
    method Invalidate(dev: nat)
      requires Valid() && dev < |devices|
      modifies this`disk, this`bufs, this`edited, this`chains
      ensures Valid() && OnlyDropped(old(bufs), bufs) && edited <= old(edited)
      ensures forall i :: 0 <= i < NBUF && bufs[i].key.Some? && bufs[i].key.value.dev == dev ==> InUse(bufs[i])
      ensures forall i :: 0 <= i < NBUF && !(old(bufs)[i].key.Some? && old(bufs)[i].key.value.dev == dev) ==>
                bufs[i] == old(bufs)[i]
      ensures NothingLost(old(bufs), old(edited)) ==>
                SameBlocks(old(bufs), old(disk), bufs, disk) && NothingLost(bufs, edited)
    {
      hide OnDisk;
      hide BlockOf;
      hide SameBlocks;
      hide Hash;
      hide Coherent;
      hide Logical;
      SameBlocksSelf(bufs, disk);
      RingOf(devices, bufs, chains, lru, disk, edited);
      for i := 0 to NBUF
        invariant Valid() && |bufs| == |old(bufs)| == NBUF && OnlyDropped(old(bufs), bufs) && edited <= old(edited)
        invariant forall j :: 0 <= j < i && bufs[j].key.Some? && bufs[j].key.value.dev == dev ==> InUse(bufs[j])
        invariant forall j :: i <= j < NBUF ==> bufs[j] == old(bufs)[j]
        invariant forall j :: 0 <= j < NBUF && !(old(bufs)[j].key.Some? && old(bufs)[j].key.value.dev == dev) ==>
                    bufs[j] == old(bufs)[j]
        invariant NothingLost(old(bufs), old(edited)) ==>
                    SameBlocks(old(bufs), old(disk), bufs, disk) && NothingLost(bufs, edited)
      {
        if bufs[i].key.Some? && bufs[i].key.value.dev == dev && !InUse(bufs[i]) {
          ghost var bufs1, disk1 := bufs, disk;
          Drop(i);
          if NothingLost(old(bufs), old(edited)) {
            SameBlocksTrans(old(bufs), old(disk), bufs1, disk1, bufs, disk);
          }
        }
      }
    }
  }

  /** The same buffers, some of them no longer dirty. */
  ghost predicate OnlyCleaned(bufs: seq<Buf>, bufs': seq<Buf>) {
    |bufs'| == |bufs| && forall i :: 0 <= i < |bufs| ==> bufs'[i] == bufs[i] || bufs'[i] == bufs[i].(dirty := false)
  }

  lemma HeldData(devices: seq<Device>, bufs: seq<Buf>, chains: seq<seq<nat>>, lru: seq<nat>,
                 disk: seq<seq<Byte>>, edited: set<nat>, i: nat, key: Key)
    requires Coherent(devices, bufs, chains, lru, disk, edited) && Holds(bufs, i, key) && OnDisk(disk, key)
    ensures Logical(bufs, disk, key) == bufs[i].data
  {
    LogicalCached(bufs, disk, key, i);
  }

  lemma UncachedData(bufs: seq<Buf>, disk: seq<seq<Byte>>, key: Key)
    requires OnDisk(disk, key) && forall x :: !Holds(bufs, x, key)
    ensures Logical(bufs, disk, key) == BlockOf(disk, key)
  {
    LogicalUncached(bufs, disk, key);
  }

  /** Counters say nothing about contents. */
  lemma CountChanged(devices: seq<Device>, bufs: seq<Buf>, chains: seq<seq<nat>>, lru: seq<nat>,
                     disk: seq<seq<Byte>>, edited: set<nat>, i: nat, refcnt: nat, pins: nat)
    requires Coherent(devices, bufs, chains, lru, disk, edited) && i < NBUF && bufs[i].key.Some?
    ensures var bufs' := bufs[i := bufs[i].(refcnt := refcnt, pins := pins)];
            Coherent(devices, bufs', chains, lru, disk, edited) && SameBlocks(bufs, disk, bufs', disk)
  {
    hide OnDisk;
    hide BlockOf;
    hide Hash;
    hide Ring;
    hide SameBlocks;
    hide Logical;
    var bufs' := bufs[i := bufs[i].(refcnt := refcnt, pins := pins)];
    ChainedSame(devices, bufs, chains, bufs');
    SameData(bufs, disk, bufs', disk);
  }

  lemma MarkDirty(devices: seq<Device>, bufs: seq<Buf>, chains: seq<seq<nat>>, lru: seq<nat>,
                  disk: seq<seq<Byte>>, edited: set<nat>, i: nat)
    requires Coherent(devices, bufs, chains, lru, disk, edited) && i < NBUF && bufs[i].key.Some?
    ensures var bufs' := bufs[i := bufs[i].(dirty := true)];
            Coherent(devices, bufs', chains, lru, disk, edited - {i}) && SameBlocks(bufs, disk, bufs', disk)
  {
    hide OnDisk;
    hide BlockOf;
    hide Hash;
    hide Ring;
    hide SameBlocks;
    hide Logical;
    var bufs' := bufs[i := bufs[i].(dirty := true)];
    ChainedSame(devices, bufs, chains, bufs');
    SameData(bufs, disk, bufs', disk);
  }

  lemma RingChanged(devices: seq<Device>, bufs: seq<Buf>, chains: seq<seq<nat>>, lru: seq<nat>, lru': seq<nat>,
                    disk: seq<seq<Byte>>, edited: set<nat>)
    requires Coherent(devices, bufs, chains, lru, disk, edited) && Ring(lru')
    ensures Coherent(devices, bufs, chains, lru', disk, edited)
  {
  }

  lemma FillKeeps(devices: seq<Device>, bufs: seq<Buf>, chains: seq<seq<nat>>, lru: seq<nat>,
                  disk: seq<seq<Byte>>, edited: set<nat>, i: nat, key: Key, data: seq<Byte>)
    requires Coherent(devices, bufs, chains, lru, disk, edited) && i < NBUF && bufs[i].key.None?
    requires OnDisk(disk, key) && data == BlockOf(disk, key) && key.dev < |devices| && forall x :: !Holds(bufs, x, key)
    ensures var bufs', h := bufs[i := Buf(Some(key), false, 1, 0, data)], Hash(devices, key);
            && Coherent(devices, bufs', chains[h := [i] + chains[h]], lru, disk, edited)
            && SameBlocks(bufs, disk, bufs', disk)
  {
    hide OnDisk;
    hide BlockOf;
    hide Hash;
    hide Ring;
    hide SameBlocks;
    hide Logical;
    FillClean(bufs, disk, i, Buf(Some(key), false, 1, 0, data));
    ChainedFill(devices, bufs, chains, i, Buf(Some(key), false, 1, 0, data));
  }

  /** A block whose buffer is neither dirty nor edited is on the disk as it logically is. */
  lemma SyncedBlock(devices: seq<Device>, bufs: seq<Buf>, chains: seq<seq<nat>>, lru: seq<nat>,
                    disk: seq<seq<Byte>>, edited: set<nat>, key: Key)
    requires Coherent(devices, bufs, chains, lru, disk, edited) && OnDisk(disk, key)
    requires forall i :: Holds(bufs, i, key) ==> i !in edited && !bufs[i].dirty
    ensures BlockOf(disk, key) == Logical(bufs, disk, key)
  {
    hide OnDisk;
    hide BlockOf;
    hide Hash;
    if i :| Holds(bufs, i, key) {
      LogicalCached(bufs, disk, key, i);
    } else {
      LogicalUncached(bufs, disk, key);
    }
  }

  lemma BufShape(devices: seq<Device>, bufs: seq<Buf>, chains: seq<seq<nat>>, lru: seq<nat>,
                 disk: seq<seq<Byte>>, edited: set<nat>, i: nat)
    requires Coherent(devices, bufs, chains, lru, disk, edited) && i < NBUF
    ensures |bufs| == NBUF && |chains| == HASH_SIZE && |bufs[i].data| == BSIZE
    ensures bufs[i].dirty || InUse(bufs[i]) ==> bufs[i].key.Some?
    ensures bufs[i].key.Some? ==> bufs[i].key.value.dev < |devices|
  {
    hide Hash;
  }

  lemma RingOf(devices: seq<Device>, bufs: seq<Buf>, chains: seq<seq<nat>>, lru: seq<nat>,
               disk: seq<seq<Byte>>, edited: set<nat>)
    requires Coherent(devices, bufs, chains, lru, disk, edited)
    ensures Ring(lru) && |bufs| == NBUF
  {
  }

  lemma SameBlocksSelf(bufs: seq<Buf>, disk: seq<seq<Byte>>)
    ensures SameBlocks(bufs, disk, bufs, disk)
  {
  }

  /** A buffer without a block only loses counters that are zero anyway. */
  lemma DropUnused(devices: seq<Device>, bufs: seq<Buf>, chains: seq<seq<nat>>, lru: seq<nat>,
                   disk: seq<seq<Byte>>, edited: set<nat>, i: nat)
    requires Coherent(devices, bufs, chains, lru, disk, edited) && i < NBUF && bufs[i].key.None?
    ensures bufs[i := Unused(bufs[i].data)] == bufs && i !in edited && edited - {i} == edited
    ensures SameBlocks(bufs, disk, bufs, disk)
  {
    assert bufs[i] == Unused(bufs[i].data);
  }

  lemma CountTimes(size: nat)
    requires size > 0 && BSIZE % size == 0
    ensures SectorCount(size) * size == BSIZE
  {
    Parts(BSIZE, size);
  }
}
