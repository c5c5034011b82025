/** The physical page allocator: one stack of free frames per zone. */
module FrameAllocator {
  const PAGE_SIZE: nat := 4096
  /** Physical addresses have 52 bits. */
  const PHYS_END: nat := 0x10_0000_0000_0000
  const DMA_LIMIT: nat := 0x1000000
  const DMA32_LIMIT: nat := 0x1_0000_0000
  const ZONE_DMA: int := 0
  const ZONE_DMA32: int := 1
  const ZONE_NORMAL: int := 2
  const ZONE_COUNT: int := 3

  function ZoneOf(addr: nat): (z: int)
    ensures 0 <= z < ZONE_COUNT
  {
    if addr < DMA_LIMIT then ZONE_DMA else if addr < DMA32_LIMIT then ZONE_DMA32 else ZONE_NORMAL
  }

  predicate Aligned(addr: nat) {
    addr % PAGE_SIZE == 0
  }

  function AlignDown(addr: nat): (r: nat)
    ensures Aligned(r) && r <= addr < r + PAGE_SIZE
  {
    addr - addr % PAGE_SIZE
  }

  function AlignUp(addr: nat): (r: nat)
    ensures Aligned(r) && addr <= r < addr + PAGE_SIZE
  {
    AlignDown(addr + PAGE_SIZE - 1)
  }

  ghost predicate NoDuplicates(s: seq<nat>) {
    forall i, j :: 0 <= i < j < |s| ==> s[i] != s[j]
  }

  ghost function InZone(frames: set<nat>, z: int): set<nat> {
    set f | f in frames && ZoneOf(f) == z
  }

  lemma InZoneAdd(frames: set<nat>, addr: nat, z: int)
    requires addr !in frames
    ensures |InZone(frames + {addr}, z)| == |InZone(frames, z)| + if ZoneOf(addr) == z then 1 else 0
  {
    assert InZone(frames + {addr}, z) == InZone(frames, z) + if ZoneOf(addr) == z then {addr} else {};
  }

  lemma NextFrame(first: nat, i: nat, f: nat)
    requires Aligned(first)
    ensures Aligned(first + i * PAGE_SIZE)
    ensures Aligned(f) && first <= f < first + (i + 1) * PAGE_SIZE <==>
              (Aligned(f) && first <= f < first + i * PAGE_SIZE) || f == first + i * PAGE_SIZE
  {
  }

  /** The aligned addresses below the frames counted off are those of the frames that fit the region. */
  lemma FramesThatFit(base: nat, length: nat, f: nat)
    requires AlignUp(base) - base < length && Aligned(f)
    ensures var first := AlignUp(base);
            var count := AlignDown(length - (first - base)) / PAGE_SIZE;
            first <= f < first + count * PAGE_SIZE <==> base <= f && f + PAGE_SIZE <= base + length
  {
  }

  class Frames {
    /** The free stack of each zone, top first, with the page counters the zone keeps. */
    var stacks: seq<seq<nat>>
    var freePages: seq<nat>
    var totalPages: seq<nat>
    /** Every frame handed to the allocator, and the ones it currently has. */
    ghost var managed: set<nat>
    ghost var free: set<nat>

    ghost predicate Valid()
      reads this
    {
      && |stacks| == |freePages| == |totalPages| == ZONE_COUNT
      && free <= managed
      && (forall f :: f in managed ==> f != 0 && Aligned(f) && f < PHYS_END)
      && (forall z :: 0 <= z < ZONE_COUNT ==> NoDuplicates(stacks[z]) && freePages[z] == |stacks[z]|)
      && (forall z :: 0 <= z < ZONE_COUNT ==> totalPages[z] == |InZone(managed, z)|)
      && (forall z, f :: 0 <= z < ZONE_COUNT ==> (f in stacks[z] <==> f in free && ZoneOf(f) == z))
    }

    constructor ()
      ensures Valid() && managed == {} && free == {}
    {
      stacks, freePages, totalPages := [[], [], []], [0, 0, 0], [0, 0, 0];
      managed, free := {}, {};
      new;
      assert forall z :: InZone({}, z) == {};
    }

    method AddPage(addr: nat)
      requires Valid() && Aligned(addr) && addr != 0 && addr < PHYS_END && addr !in managed
      modifies this
      ensures Valid()
      ensures managed == old(managed) + {addr} && free == old(free) + {addr}
    {
      var z := ZoneOf(addr);
      stacks := stacks[z := [addr] + stacks[z]];
      totalPages := totalPages[z := totalPages[z] + 1];
      freePages := freePages[z := freePages[z] + 1];
      forall y | 0 <= y < ZONE_COUNT {
        InZoneAdd(managed, addr, y);
      }
      managed, free := managed + {addr}, free + {addr};
    }

    /** pmm_add_region: the whole pages inside the region become free frames, and nothing else. */
    method AddRegion(base: nat, length: nat)
      requires Valid()
      requires forall f :: f in managed ==> f + PAGE_SIZE <= base || base + length <= f
      requires AlignUp(base) != 0 && base + length <= PHYS_END
      modifies this
      ensures Valid()
      ensures forall f: nat :: f in managed <==>
                f in old(managed) || (Aligned(f) && base <= f && f + PAGE_SIZE <= base + length)
      ensures forall f: nat :: f in free <==>
                f in old(free) || (Aligned(f) && base <= f && f + PAGE_SIZE <= base + length)
    {
      hide Frames.Valid;
      hide Aligned;
      var first := AlignUp(base);
      var lost := first - base;
      if lost >= length {
        return;
      }
      var usable := AlignDown(length - lost);
      var count := usable / PAGE_SIZE;
      for i := 0 to count
        invariant Valid()
        invariant forall f: nat :: f in managed <==>
                    f in old(managed) || (Aligned(f) && first <= f < first + i * PAGE_SIZE)
        invariant forall f: nat :: f in free <==>
                    f in old(free) || (Aligned(f) && first <= f < first + i * PAGE_SIZE)
      {
        NextFrame(first, i, first + i * PAGE_SIZE);
        AddPage(first + i * PAGE_SIZE);
        forall f: nat
          ensures Aligned(f) && first <= f < first + (i + 1) * PAGE_SIZE <==>
                    (Aligned(f) && first <= f < first + i * PAGE_SIZE) || f == first + i * PAGE_SIZE
        {
          NextFrame(first, i, f);
        }
      }
      forall f: nat | Aligned(f)
        ensures first <= f < first + count * PAGE_SIZE <==> base <= f && f + PAGE_SIZE <= base + length
      {
        FramesThatFit(base, length, f);
      }
    }

    /** pmm_alloc_page_zone: the top of the zone's stack, or 0. */
    method AllocZone(z: int) returns (addr: nat)
      requires Valid()
      modifies this
      ensures Valid() && managed == old(managed)
      ensures addr != 0 ==> addr in old(free) && ZoneOf(addr) == z && free == old(free) - {addr}
      ensures addr == 0 ==> free == old(free) && forall f :: f in free ==> ZoneOf(f) != z
      ensures addr != 0 ==> addr == old(stacks)[z][0] && stacks == old(stacks)[z := old(stacks)[z][1..]]
    {
      if z < 0 || z >= ZONE_COUNT || stacks[z] == [] {
        return 0;
      }
      addr := stacks[z][0];
      assert addr in stacks[z];
      stacks := stacks[z := stacks[z][1..]];
      freePages := freePages[z := freePages[z] - 1];
      free := free - {addr};
    }

    /** pmm_alloc_page: any free frame, taken from the highest zone that has one. */
    method Alloc() returns (addr: nat)
      requires Valid()
      modifies this
      ensures Valid() && managed == old(managed)
      ensures addr == 0 <==> old(free) == {}
      ensures addr == 0 ==> free == old(free)
      ensures addr != 0 ==> addr in old(free) && free == old(free) - {addr}
      ensures addr != 0 ==> addr in managed && Aligned(addr) && addr < PHYS_END
      ensures addr != 0 ==> forall f :: f in old(free) ==> ZoneOf(f) <= ZoneOf(addr)
    {
      addr := AllocZone(ZONE_NORMAL);
      if addr == 0 {
        addr := AllocZone(ZONE_DMA32);
        if addr == 0 {
          addr := AllocZone(ZONE_DMA);
        }
      }
    }

    /** pmm_alloc_page_flags: a frame a device with 24 or 32 address bits can reach, if asked for. */
    method AllocFlags(dma: bool, dma32: bool) returns (addr: nat)
      requires Valid()
      modifies this
      ensures Valid() && managed == old(managed)
      ensures addr == 0 ==> free == old(free)
      ensures addr != 0 ==> addr in old(free) && free == old(free) - {addr}
      ensures dma ==> addr < DMA_LIMIT
      ensures !dma && dma32 ==> addr < DMA32_LIMIT
      ensures addr == 0 ==> forall f :: f in free ==>
                (dma ==> f >= DMA_LIMIT) && (!dma ==> dma32 && f >= DMA32_LIMIT)
    {
      if dma {
        addr := AllocZone(ZONE_DMA);
      } else if dma32 {
        addr := AllocZone(ZONE_DMA32);
        if addr == 0 {
          addr := AllocZone(ZONE_DMA);
        }
      } else {
        addr := Alloc();
      }
    }

    /** pmm_free_page: push the frame on the stack of its own zone; 0 and unaligned addresses are ignored. */
    method Free(addr: nat)
      requires Valid()
      requires addr != 0 && Aligned(addr) ==> addr in managed && addr !in free
      modifies this
      ensures Valid() && managed == old(managed)
      ensures free == old(free) + (if addr != 0 && Aligned(addr) then {addr} else {})
      ensures addr != 0 && Aligned(addr) ==>
                stacks == old(stacks)[ZoneOf(addr) := [addr] + old(stacks)[ZoneOf(addr)]]
    {
      if addr == 0 || !Aligned(addr) {
        return;
      }
      var z := ZoneOf(addr);
      stacks := stacks[z := [addr] + stacks[z]];
      freePages := freePages[z := freePages[z] + 1];
      free := free + {addr};
    }
  }
}
