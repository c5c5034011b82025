/** The contents of physical memory, and what an address space shows of it. */
module PhysicalMemory {
  import opened Options
  import opened FrameAllocator
  import opened PageTree

  type Byte = bv8

  /** The contents of the managed frames. */
  class Ram {
    var data: map<nat, seq<Byte>>

    ghost predicate Covers(managed: set<nat>)
      reads this
    {
      managed <= data.Keys && forall f :: f in data ==> |data[f]| == FrameAllocator.PAGE_SIZE
    }

    /** Fills one frame with zeros. */
    method Clear(f: nat, ghost managed: set<nat>)
      requires Covers(managed)
      modifies this
      ensures Covers(managed) && data == old(data)[f := ZeroPage()]
    {
      data := data[f := ZeroPage()];
    }
  }

  function ZeroPage(): (z: seq<Byte>)
    ensures |z| == FrameAllocator.PAGE_SIZE && forall i :: 0 <= i < |z| ==> z[i] == 0
  {
    seq(FrameAllocator.PAGE_SIZE, _ => 0)
  }

  /** What a load from an address gives, if the address is translated to memory. */
  function ReadByte(data: map<nat, seq<Byte>>, flat: map<nat, Pte>, v: nat): Option<Byte> {
    var page := AlignDown(v);
    if page in flat && flat[page].addr in data && v - page < |data[flat[page].addr]|
    then Some(data[flat[page].addr][v - page])
    else None
  }
}
