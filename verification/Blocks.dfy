/** Block devices under the buffer cache: sectors, the block ranges laid over them, and the disk as an array of
    blocks. */
module Blocks {
  import opened Arithmetic

  type Byte = bv8

  const BSIZE: nat := 4096

  /** A device: where its descriptor lives, and the size of its sectors. */
  datatype Device = Device(addr: nat, blockSize: nat)

  datatype Key = Key(dev: nat, blk: nat)

  /** The first sector of a block, and the number of sectors of a block. */
  function FirstSector(blk: nat, blockSize: nat): nat
    requires blockSize > 0
  {
    blk * BSIZE / blockSize
  }

  function SectorCount(blockSize: nat): nat
    requires blockSize > 0
  {
    BSIZE / blockSize
  }

  /** Distinct blocks use disjoint sectors, whatever the size of a sector. */
  lemma SectorsDisjoint(a: nat, b: nat, blockSize: nat)
    requires blockSize > 0 && a < b
    ensures FirstSector(a, blockSize) + SectorCount(blockSize) <= FirstSector(b, blockSize)
  {
    DivSum(a * BSIZE, BSIZE, blockSize);
    QuotientAtMost(a * BSIZE + BSIZE, b * BSIZE, blockSize);
  }

  /** The sectors of a block cover its bytes exactly if the size of a sector divides that of a block. */
  lemma SectorsCover(blk: nat, blockSize: nat)
    requires blockSize > 0
    ensures FirstSector(blk, blockSize) * blockSize == blk * BSIZE
            && (FirstSector(blk, blockSize) + SectorCount(blockSize)) * blockSize == (blk + 1) * BSIZE
            <==> blk * BSIZE % blockSize == 0 && BSIZE % blockSize == 0
    ensures BSIZE % blockSize == 0 ==> blk * BSIZE % blockSize == 0
  {
    var f, c := FirstSector(blk, blockSize), SectorCount(blockSize);
    assert BSIZE == c * blockSize + BSIZE % blockSize;
    assert blk * BSIZE == f * blockSize + blk * BSIZE % blockSize;
    assert (f + c) * blockSize == f * blockSize + c * blockSize;
    if BSIZE % blockSize == 0 {
      MultipleDivides(blk, c, blockSize);
    }
  }

  lemma MultipleDivides(n: nat, c: nat, d: nat)
    requires d > 0 && BSIZE == c * d
    ensures n * BSIZE % d == 0
  {
    assert n * BSIZE == (n * c) * d;
    ModOfMultiple(n * c, d);
  }

  // ---------------------------------------------------------------- the disk as an array of blocks

  predicate OnDisk(disk: seq<seq<Byte>>, key: Key) {
    key.dev < |disk| && (key.blk + 1) * BSIZE <= |disk[key.dev]|
  }

  function BlockOf(disk: seq<seq<Byte>>, key: Key): (b: seq<Byte>)
    requires OnDisk(disk, key)
    ensures |b| == BSIZE
  {
    disk[key.dev][key.blk * BSIZE..(key.blk + 1) * BSIZE]
  }

  /** Device d with its bytes from `at` on overwritten. */
  function Overwrite(disk: seq<seq<Byte>>, d: nat, at: nat, data: seq<Byte>): seq<seq<Byte>>
    requires d < |disk| && at + |data| <= |disk[d]|
  {
    disk[d := disk[d][..at] + data + disk[d][at + |data|..]]
  }

  /** Writing one block changes that block and no other. */
  lemma OverwriteBlock(disk: seq<seq<Byte>>, key: Key, data: seq<Byte>)
    requires OnDisk(disk, key) && |data| == BSIZE
    ensures var disk' := Overwrite(disk, key.dev, key.blk * BSIZE, data);
            && (forall k :: OnDisk(disk', k) <==> OnDisk(disk, k))
            && (forall k :: OnDisk(disk, k) ==> BlockOf(disk', k) == if k == key then data else BlockOf(disk, k))
  {
    var at := key.blk * BSIZE;
    var disk' := Overwrite(disk, key.dev, at, data);
    var bytes, bytes' := disk[key.dev], disk'[key.dev];
    assert |bytes'| == |bytes|;
    forall k | OnDisk(disk, k)
      ensures BlockOf(disk', k) == if k == key then data else BlockOf(disk, k)
    {
      if k.dev == key.dev {
        var b := k.blk * BSIZE;
        assert k.blk < key.blk ==> b + BSIZE <= at;
        assert k.blk > key.blk ==> at + BSIZE <= b;
        assert forall j :: 0 <= j < BSIZE ==> bytes'[b + j] == if k.blk == key.blk then data[j] else bytes[b + j];
      }
    }
  }
}
