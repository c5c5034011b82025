/** An address space: the area list over the page tables over the frame allocator. */
module AddressSpace {
  import opened Options
  import opened FrameAllocator
  import opened PageTree
  import opened PageTables
  import opened Areas
  import opened AreaForms
  import opened FrameOwners
  import opened AddressSpaceSteps

  class VmSpace {
    const frames: Frames
    const pages: MmuContext
    var areas: seq<Area>
    var totalSize: nat
    var areaCount: nat

    ghost function ViewOf(list: seq<Area>): View
      reads pages, frames
    {
      View(list, pages.flat, pages.place.Keys, frames.free, frames.managed)
    }

    /** The tables and the frames are in order for this list of areas. */
    ghost predicate Backed(list: seq<Area>)
      reads pages, frames
    {
      pages.frames == frames && pages.Valid() && Owners(ViewOf(list))
    }

    /** What also holds of a space whose frames are shared with another: no claim about owners. */
    ghost predicate Shape()
      reads this, pages, frames
    {
      && pages.frames == frames && pages.Valid()
      && Listed(areas)
      && areaCount == |areas|
      && totalSize == TotalSize(areas)
    }

    ghost predicate Valid()
      reads this, pages, frames
    {
      && Backed(areas)
      && Listed(areas)
      && PhysMapped(areas, pages.flat)
      && areaCount == |areas|
      && totalSize == TotalSize(areas)
    }

    /** vmm_create_space over fresh page tables. */
    constructor (frames: Frames, pages: MmuContext)
      requires pages.frames == frames && pages.Valid() && pages.flat == map[]
      ensures Valid() && this.frames == frames && this.pages == pages && areas == []
    {
      this.frames, this.pages := frames, pages;
      areas, totalSize, areaCount := [], 0, 0;
    }

    // -------------------------------------------------------------- single pages

    /** Translate a page to a free frame; tables for it come from free frames too. */
    method BackPage(v: nat, access: Access) returns (ok: bool, ghost f: nat)
      requires pages.frames == frames && pages.Valid() && IsPage(v)
      modifies pages, frames
      ensures pages.Valid() && frames.managed == old(frames.managed) && old(pages.place).Keys <= pages.place.Keys
      ensures TakenFrom(old(frames.free), frames.free, pages.place.Keys - old(pages.place).Keys, if ok then {f} else {})
      ensures Spent(old(frames.free), frames.free, 4)
      ensures ok ==> pages.flat == old(pages.flat)[v := Pte(f, ArchFlags(access, pages.globalPages))]
      ensures !ok ==> pages.flat == old(pages.flat) && Short(old(frames.free), FrameAllocator.PAGE_SIZE)
    {
      hide Sound;
      hide Frames.Valid;
      hide Spent;
      hide Short;
      hide EntryAddr;
      hide Grants;
      AlignedSelf(v);
      ghost var free0, tables0 := frames.free, pages.place.Keys;
      f := 0;
      var g := frames.Alloc();
      if g == 0 {
        NoneSpent();
        return false, f;
      }
      f := g;
      EntryAddrOfFrame(g);
      SpentOne(free0, g);
      ok := pages.MapPage(v, g, access);
      SpentTrans(free0, free0 - {g}, frames.free, 1, 3);
      GrownTaken(free0, frames.free, tables0, pages.place.Keys, g);
      if !ok {
        SpentShort(free0, 4);
        SpentLess(free0, frames.free, g, 4);
        frames.Free(g);
      }
    }

    /** Back one page of an anonymous area with a fresh frame. */
    method MapFresh(ghost list: seq<Area>, v: nat, access: Access) returns (ok: bool)
      requires Backed(list) && IsPage(v) && HasKind(list, v, Anon) && v !in pages.flat
      modifies pages, frames
      ensures Backed(list) && Conserved(old(ViewOf(list)), ViewOf(list))
      ensures old(pages.place).Keys <= pages.place.Keys
      ensures ok ==>
                v in pages.flat
                && pages.flat == old(pages.flat)[v := Pte(pages.flat[v].addr, ArchFlags(access, pages.globalPages))]
      ensures ok ==> pages.flat[v].addr in old(frames.free)
      ensures Spent(old(frames.free), frames.free, 4)
      ensures !ok ==> pages.flat == old(pages.flat) && Short(old(frames.free), FrameAllocator.PAGE_SIZE)
    {
      hide Sound;
      hide Frames.Valid;
      hide Owners;
      hide Conserved;
      hide AttrOf;
      hide Spent;
      hide Short;
      hide TakenFrom;
      ghost var w0 := ViewOf(list);
      ghost var f;
      ok, f := BackPage(v, access);
      PageBacked(w0, ViewOf(list), v, Pte(f, ArchFlags(access, pages.globalPages)), ok);
    }

    /** Take the translation of one page of an anonymous area away and give its frame back. */
    method ReturnPage(ghost list: seq<Area>, v: nat)
      requires Backed(list) && IsPage(v) && HasKind(list, v, Anon)
      modifies pages, frames
      ensures Backed(list) && Conserved(old(ViewOf(list)), ViewOf(list))
      ensures pages.place == old(pages.place) && pages.flat == old(pages.flat) - {v}
      ensures frames.free == old(frames.free) + (if v in old(pages.flat) then {old(pages.flat)[v].addr} else {})
    {
      hide Sound;
      hide Frames.Valid;
      hide Owners;
      hide Conserved;
      hide AttrOf;
      ghost var w0 := ViewOf(list);
      AlignedSelf(v);
      ConservedSame(w0);
      if v in pages.flat {
        PageReturned(w0, v);
        OwnedShape(w0, frames, v);
      }
      var p := pages.VirtToPhys(v);
      if p != 0 {
        frames.Free(p);
      }
      var ok := pages.UnmapPage(v);
      assert v !in w0.flat ==> w0.flat - {v} == w0.flat;
      assert ViewOf(list) == if v in w0.flat then w0.(flat := w0.flat - {v}, free := w0.free + {w0.flat[v].addr}) else w0;
    }

    // -------------------------------------------------------------- ranges of pages

    /** The clean-up loop of vmm_map_region_internal for anonymous memory. */
    method ReturnPages(ghost list: seq<Area>, from: nat, to: nat)
      requires Backed(list) && Aligned(from) && Aligned(to) && from <= to <= USER_END && AllKind(list, from, to, Anon)
      modifies pages, frames
      ensures Backed(list) && Conserved(old(ViewOf(list)), ViewOf(list))
      ensures pages.place == old(pages.place) && pages.flat == old(pages.flat) - Pages(from, to)
    {
      hide Sound;
      hide Frames.Valid;
      hide Owners;
      hide Conserved;
      hide AttrOf;
      ghost var w0 := ViewOf(list);
      var v := from;
      PagesEmpty(from);
      ConservedSame(w0);
      while v < to
        invariant from <= v <= to && Aligned(v)
        invariant Backed(list) && Conserved(w0, ViewOf(list))
        invariant pages.place == old(pages.place) && pages.flat == old(pages.flat) - Pages(from, v)
      {
        ghost var w1 := ViewOf(list);
        PagesExtend(from, v);
        ReturnPage(list, v);
        ConservedTrans(w0, w1, ViewOf(list));
        v := v + PageTree.PAGE_SIZE;
      }
    }

    /** The eager loop of vmm_map_region_internal: back every page of the range, or undo everything. */
    method MapAnonPages(ghost list: seq<Area>, from: nat, to: nat, access: Access) returns (ok: bool)
      requires Backed(list) && Aligned(from) && Aligned(to) && from <= to <= USER_END && AllKind(list, from, to, Anon)
      requires forall v :: v in pages.flat ==> v < from || to <= v
      modifies pages, frames
      ensures Backed(list) && Conserved(old(ViewOf(list)), ViewOf(list))
      ensures old(pages.place).Keys <= pages.place.Keys
      ensures SameOutside(old(pages.flat), pages.flat, from, to)
      ensures ok ==> Used(old(frames.free), frames.free, to - from)
      ensures ok ==> BackedPages(pages.flat, from, to, ArchFlags(access, pages.globalPages))
      ensures !ok ==> pages.flat == old(pages.flat) && Short(old(frames.free), to - from)
      ensures !ok ==> frames.free == old(frames.free) - (pages.place.Keys - old(pages.place).Keys)
    {
      hide Sound;
      hide Frames.Valid;
      hide Owners;
      hide Conserved;
      hide AttrOf;
      hide Spent;
      hide Short;
      hide SameOutside;
      hide Progress;
      hide Used;
      hide BackedPages;
      ghost var w0, flags := ViewOf(list), ArchFlags(access, pages.globalPages);
      var v := from;
      NothingBacked(w0.flat, from, flags);
      ProgressStart(w0, from);
      while v < to
        invariant from <= v <= to && Aligned(v) && Backed(list)
        invariant Progress(w0, ViewOf(list), from, v) && BackedPages(pages.flat, from, v, flags)
      {
        ghost var w1 := ViewOf(list);
        NextPage(v, to);
        StillUntranslated(w0, w1, from, v);
        ok := MapFresh(list, v, access);
        if !ok {
          ProgressFails(w0, w1, from, v, to);
          ProgressSame(w0, w1, ViewOf(list), from, v);
          UndoAnon(list, w0, from, v);
          OutsideSelf(w0.flat, from, to);
          return false;
        }
        ProgressStep(w0, w1, ViewOf(list), from, v);
        BackedStep(w1.flat, pages.flat, from, v, flags);
        v := v + PageTree.PAGE_SIZE;
      }
      ProgressEnds(w0, ViewOf(list), from, to);
      ok := true;
    }

    /** The clean-up after a page in the middle of a range could not be backed. */
    method UndoAnon(ghost list: seq<Area>, ghost w0: View, from: nat, v: nat)
      requires Backed(list) && Aligned(from) && Aligned(v) && from <= v <= USER_END && AllKind(list, from, v, Anon)
      requires Owners(w0) && UpTo(w0, ViewOf(list), from, v) && forall u :: u in w0.flat ==> u < from || v <= u
      modifies pages, frames
      ensures Backed(list) && Conserved(w0, ViewOf(list)) && pages.flat == w0.flat && pages.place == old(pages.place)
      ensures frames.free == w0.free - (pages.place.Keys - w0.tables)
    {
      hide Sound;
      hide Frames.Valid;
      hide Owners;
      hide Conserved;
      hide AttrOf;
      hide SameOutside;
      hide Spent;
      ghost var w1 := ViewOf(list);
      FlatPages(pages);
      RangeCleared(w0.flat, w1.flat, from, v);
      ReturnPages(list, from, v);
      ConservedTrans(w0, w1, ViewOf(list));
      OnlyTablesTaken(w0, ViewOf(list));
    }

    /** Translate one page of a physical mapping. */
    method MapPhysPage(ghost list: seq<Area>, v: nat, phys: nat, access: Access) returns (ok: bool)
      requires Backed(list) && IsPage(v) && PhysOf(list, v) == Some(phys)
      modifies pages, frames
      ensures Backed(list) && Conserved(old(ViewOf(list)), ViewOf(list))
      ensures old(pages.place).Keys <= pages.place.Keys
      ensures ok ==> pages.flat == old(pages.flat)[v := Pte(EntryAddr(phys), ArchFlags(access, pages.globalPages))]
      ensures Spent(old(frames.free), frames.free, 4)
      ensures !ok ==> pages.flat == old(pages.flat) && Short(old(frames.free), FrameAllocator.PAGE_SIZE)
    {
      hide Sound;
      hide Frames.Valid;
      hide Owners;
      hide Conserved;
      hide AttrOf;
      hide PhysOf;
      hide Spent;
      hide Short;
      hide EntryAddr;
      ghost var w0 := ViewOf(list);
      AlignedSelf(v);
      ok := pages.MapPage(v, phys, access);
      SpentMore(w0.free, frames.free, 3, 4);
      if !ok {
        SpentShort(w0.free, 3);
      }
      PhysTranslated(w0, ViewOf(list), v, Pte(EntryAddr(phys), ArchFlags(access, pages.globalPages)), ok);
    }

    /** Take the translation of one page of a physical mapping away. */
    method UnmapPhysPage(ghost list: seq<Area>, v: nat)
      requires Backed(list) && IsPage(v) && PhysOf(list, v).Some?
      modifies pages
      ensures Backed(list) && Conserved(old(ViewOf(list)), ViewOf(list))
      ensures pages.place == old(pages.place) && pages.flat == old(pages.flat) - {v}
    {
      hide Sound;
      hide Frames.Valid;
      hide Owners;
      hide Conserved;
      ghost var w0 := ViewOf(list);
      AlignedSelf(v);
      var ok := pages.UnmapPage(v);
      assert pages.flat - {v} == w0.flat - {v};
      SharedPageChanged(w0, v, pages.flat);
    }

    method UnmapPhysPages(ghost list: seq<Area>, from: nat, to: nat)
      requires Backed(list) && Aligned(from) && Aligned(to) && from <= to <= USER_END
      requires forall v: nat :: from <= v < to ==> PhysOf(list, v).Some?
      modifies pages
      ensures Backed(list) && Conserved(old(ViewOf(list)), ViewOf(list))
      ensures pages.place == old(pages.place) && pages.flat == old(pages.flat) - Pages(from, to)
    {
      hide Sound;
      hide Frames.Valid;
      hide Owners;
      hide Conserved;
      hide AttrOf;
      ghost var w0 := ViewOf(list);
      var v := from;
      PagesEmpty(from);
      ConservedSame(w0);
      while v < to
        invariant from <= v <= to && Aligned(v)
        invariant Backed(list) && Conserved(w0, ViewOf(list))
        invariant pages.place == old(pages.place) && pages.flat == old(pages.flat) - Pages(from, v)
      {
        ghost var w1 := ViewOf(list);
        PagesExtend(from, v);
        UnmapPhysPage(list, v);
        ConservedTrans(w0, w1, ViewOf(list));
        v := v + PageTree.PAGE_SIZE;
      }
    }

    /** The loop of vmm_map_region_internal for physical mappings: translate every page, or undo everything. */
    method MapPhysPages(ghost list: seq<Area>, from: nat, to: nat, phys: nat, access: Access) returns (ok: bool)
      requires Backed(list) && Aligned(from) && Aligned(to) && from <= to <= USER_END
      requires ShowsPhys(list, from, to, phys)
      requires forall v :: v in pages.flat ==> v < from || to <= v
      modifies pages, frames
      ensures Backed(list) && Conserved(old(ViewOf(list)), ViewOf(list))
      ensures old(pages.place).Keys <= pages.place.Keys
      ensures SameOutside(old(pages.flat), pages.flat, from, to)
      ensures ok ==> Used(old(frames.free), frames.free, to - from)
      ensures ok ==> PhysPages(pages.flat, from, to, phys, ArchFlags(access, pages.globalPages))
      ensures !ok ==> pages.flat == old(pages.flat) && Short(old(frames.free), to - from)
      ensures !ok ==> frames.free == old(frames.free) - (pages.place.Keys - old(pages.place).Keys)
    {
      hide Sound;
      hide Frames.Valid;
      hide Owners;
      hide Conserved;
      hide AttrOf;
      hide EntryAddr;
      hide Spent;
      hide Short;
      hide SameOutside;
      hide Progress;
      hide Used;
      hide PhysPages;
      ghost var w0, flags := ViewOf(list), ArchFlags(access, pages.globalPages);
      var v := from;
      NothingShown(w0.flat, from, phys, flags);
      ProgressStart(w0, from);
      while v < to
        invariant from <= v <= to && Aligned(v) && Backed(list)
        invariant Progress(w0, ViewOf(list), from, v) && PhysPages(pages.flat, from, v, phys, flags)
      {
        ghost var w1 := ViewOf(list);
        NextPage(v, to);
        StillUntranslated(w0, w1, from, v);
        ok := MapPhysPage(list, v, phys + (v - from), access);
        if !ok {
          ProgressFails(w0, w1, from, v, to);
          ProgressSame(w0, w1, ViewOf(list), from, v);
          UndoPhys(list, w0, from, v);
          OutsideSelf(w0.flat, from, to);
          return false;
        }
        ProgressStep(w0, w1, ViewOf(list), from, v);
        PhysStep(w1.flat, pages.flat, from, v, phys, flags);
        v := v + PageTree.PAGE_SIZE;
      }
      ProgressEnds(w0, ViewOf(list), from, to);
      ok := true;
    }

    /** The clean-up after a page in the middle of a range could not be translated. */
    method UndoPhys(ghost list: seq<Area>, ghost w0: View, from: nat, v: nat)
      requires Backed(list) && Aligned(from) && Aligned(v) && from <= v <= USER_END
      requires forall u: nat :: from <= u < v ==> PhysOf(list, u).Some?
      requires Owners(w0) && UpTo(w0, ViewOf(list), from, v) && forall u :: u in w0.flat ==> u < from || v <= u
      modifies pages, frames
      ensures Backed(list) && Conserved(w0, ViewOf(list)) && pages.flat == w0.flat && pages.place == old(pages.place)
      ensures frames.free == w0.free - (pages.place.Keys - w0.tables)
    {
      hide Sound;
      hide Frames.Valid;
      hide Owners;
      hide Conserved;
      hide AttrOf;
      hide SameOutside;
      hide Spent;
      ghost var w1 := ViewOf(list);
      FlatPages(pages);
      RangeCleared(w0.flat, w1.flat, from, v);
      UnmapPhysPages(list, from, v);
      ConservedTrans(w0, w1, ViewOf(list));
      OnlyTablesTaken(w0, ViewOf(list));
    }

    // -------------------------------------------------------------- regions

    /** The overlap test of vmm_map_region_internal. */
    method Overlaps(from: nat, to: nat) returns (found: bool)
      requires from < to
      ensures found <==> !Clear(areas, from, to)
    {
      var i := 0;
      while i < |areas|
        invariant 0 <= i <= |areas|
        invariant Clear(areas[..i], from, to)
      {
        if !(to <= areas[i].start || from >= areas[i].end) {
          return true;
        }
        i := i + 1;
      }
      assert areas[..i] == areas;
      found := false;
    }

    /** Give the pages of a new area what its kind and its allocation flags ask for. */
    method Populate(ghost list: seq<Area>, a: Area) returns (ok: bool)
      requires Backed(list) && WellFormed(a) && a.end <= USER_END
      requires forall v: nat :: Contains(a, v) ==> AttrOf(list, v) == Some(AttrIn(a, v))
      requires forall v :: v in pages.flat ==> !Contains(a, v)
      modifies pages, frames
      ensures Backed(list) && Conserved(old(ViewOf(list)), ViewOf(list))
      ensures old(pages.place).Keys <= pages.place.Keys
      ensures ok ==> Used(old(frames.free), frames.free, Size(a))
      ensures SameOutside(old(pages.flat), pages.flat, a.start, a.end)
      ensures ok ==> Populated(a, old(pages.flat), pages.flat, pages.globalPages)
                     && AsAsked(a, old(pages.flat), pages.flat)
      ensures !ok ==> pages.flat == old(pages.flat)
      ensures !ok ==> frames.free == old(frames.free) - (pages.place.Keys - old(pages.place).Keys)
      ensures !ok ==> Short(old(frames.free), Size(a)) && (a.kind.Phys? || Eager(a))
    {
      hide Sound;
      hide Frames.Valid;
      hide Owners;
      hide Conserved;
      hide AttrOf;
      hide Short;
      hide Used;
      hide AsAsked;
      ConservedSame(ViewOf(list));
      UsedNothing(frames.free, Size(a));
      ok := true;
      if a.kind.Phys? {
        ok := MapPhysPages(list, a.start, a.end, a.phys, ToAccess(a.flags));
      } else if Eager(a) {
        ok := MapAnonPages(list, a.start, a.end, ToAccess(a.flags));
      }
      if ok {
        PopulatedAsAsked(a, old(pages.flat), pages.flat, pages.globalPages);
      }
    }

    /** vmm_insert_area. */
    method InsertArea(a: Area)
      requires Sorted(areas) && WellFormed(a) && Clear(areas, a.start, a.end)
      modifies this`areas
      ensures areas == Insert(old(areas), a)
    {
      if areas == [] || a.start < areas[0].start {
        areas := [a] + areas;
        return;
      }
      var prev := 0;
      while prev + 1 < |areas| && areas[prev + 1].start < a.start
        invariant 0 <= prev < |areas| && areas[prev].start < a.start
        invariant areas == old(areas)
      {
        prev := prev + 1;
      }
      assert forall k :: 0 <= k < prev ==> areas[k].end <= areas[prev].start;
      InsertAfter(areas, a, prev);
      areas := areas[..prev + 1] + [a] + areas[prev + 1..];
    }

    /** The second half of vmm_map_region_internal: the descriptor is allocated, the pages are not. */
    method Install(a: Area) returns (ok: bool)
      requires Listed(areas) && areaCount == |areas| && totalSize == TotalSize(areas) && PhysMapped(areas, pages.flat)
      requires WellFormed(a) && a.end <= USER_END && Clear(areas, a.start, a.end)
      requires Backed(Insert(areas, a)) && a.node !in Nodes(areas) && DistinctNodes(areas)
      requires forall v :: v in pages.flat ==> !Contains(a, v)
      modifies this, pages, frames
      ensures Valid() && Conserved(old(ViewOf(Insert(areas, a))), ViewOf(areas))
      ensures old(pages.place).Keys <= pages.place.Keys
      ensures ok ==> Used(old(frames.free), frames.free, Size(a))
      ensures SameOutside(old(pages.flat), pages.flat, a.start, a.end)
      ensures ok ==> areas == Insert(old(areas), a) && Populated(a, old(pages.flat), pages.flat, pages.globalPages)
                     && AsAsked(a, old(pages.flat), pages.flat)
      ensures !ok ==> areas == old(areas) && pages.flat == old(pages.flat)
      ensures !ok ==> Short(old(frames.free), Size(a)) && (a.kind.Phys? || Eager(a))
    {
      hide Sound;
      hide Frames.Valid;
      hide Owners;
      hide Conserved;
      hide AttrOf;
      hide Short;
      hide Used;
      hide Insert;
      hide TotalSize;
      hide Populated;
      hide AsAsked;
      ghost var list, flat0 := Insert(areas, a), pages.flat;
      ghost var w1 := ViewOf(list);
      InsertKeeps(areas, a);
      ok := Populate(list, a);
      ghost var w2 := ViewOf(list);
      if ok {
        InsertArea(a);
        totalSize := totalSize + (a.end - a.start);
        areaCount := areaCount + 1;
        InsertListed(old(areas), a);
        PhysStillMapped(old(areas), a, flat0, pages.flat, pages.globalPages);
      } else {
        TakeBackArea(w2, areas, a);
        NodeShape(frames, a.node);
        frames.Free(a.node);
        ConservedTrans(w1, w2, ViewOf(areas));
      }
    }

    /** vmm_map_region_internal from the allocation of the descriptor on. */
    method MapClear(from: nat, to: nat, flags: VmFlags, kind: Kind, alloc: AllocFlags, phys: nat)
      returns (ok: bool, ghost a: Area)
      requires Valid() && Aligned(from) && Aligned(to) && from < to <= USER_END && Clear(areas, from, to)
      modifies this, pages, frames
      ensures Valid() && Conserved(old(ViewOf(areas)), ViewOf(areas))
      ensures old(pages.place).Keys <= pages.place.Keys
      ensures a == Area(from, to, flags, kind, alloc, phys, a.node)
      ensures ok ==> areas == Insert(old(areas), a)
      ensures ok ==> Used(old(frames.free), frames.free, Size(a) + BYTES_PER_FRAME)
      ensures ok ==> Populated(a, old(pages.flat), pages.flat, pages.globalPages)
                     && AsAsked(a, old(pages.flat), pages.flat)
      ensures SameOutside(old(pages.flat), pages.flat, from, to)
      ensures !ok ==> areas == old(areas) && pages.flat == old(pages.flat)
      ensures !ok ==> TooFewFrames(old(frames.free), a)
    {
      hide Sound;
      hide Frames.Valid;
      hide Owners;
      hide Conserved;
      hide AttrOf;
      hide Short;
      hide Used;
      hide TooFewFrames;
      hide Insert;
      hide TotalSize;
      hide Populated;
      hide AsAsked;
      hide Clear;
      hide PhysMapped;
      hide SameOutside;
      ghost var w0 := ViewOf(areas);
      ConservedSame(w0);
      a := Area(from, to, flags, kind, alloc, phys, 0);
      var node := frames.Alloc();
      if node == 0 {
        NoFrames(a);
        OutsideSelf(pages.flat, from, to);
        return false, a;
      }
      var area := Area(from, to, flags, kind, alloc, phys, node);
      a := area;
      AreaInserted(w0, area);
      NodeApart(w0, node);
      NoTranslationInClear(w0, from, to);
      ghost var w1 := ViewOf(Insert(areas, area));
      ok := Install(area);
      ConservedTrans(w0, w1, ViewOf(areas));
      if ok {
        UsedWithDescriptor(w0.free, node, frames.free, Size(area));
      } else {
        ShortWithDescriptor(w0.free, node, area);
      }
    }

    /** vmm_map_region. On success the range has exactly the requested attributes; on failure nothing has
        changed but the tables that were built on the way. */
    method MapRegion(virt: nat, size: nat, flags: VmFlags, kind: Kind, alloc: AllocFlags, phys: nat)
      returns (ok: bool, ghost a: Area)
      requires Valid() && AlignUp(virt + size) <= USER_END
      modifies this, pages, frames
      ensures Valid() && Conserved(old(ViewOf(areas)), ViewOf(areas))
      ensures old(pages.place).Keys <= pages.place.Keys
      ensures a.start == AlignDown(virt) && a.end == AlignUp(virt + size) && a.flags == flags && a.kind == kind
              && a.alloc == alloc && a.phys == phys
      ensures ok ==> a.start < a.end && Clear(old(areas), a.start, a.end) && areas == Insert(old(areas), a)
      ensures ok ==> Used(old(frames.free), frames.free, Size(a) + BYTES_PER_FRAME)
      ensures ok ==> Populated(a, old(pages.flat), pages.flat, pages.globalPages)
                     && AsAsked(a, old(pages.flat), pages.flat)
      ensures SameOutside(old(pages.flat), pages.flat, a.start, a.end)
      ensures !ok ==> areas == old(areas) && pages.flat == old(pages.flat)
      ensures !ok ==> frames.free == old(frames.free) - (pages.place.Keys - old(pages.place).Keys)
      ensures !ok ==> a.start == a.end || !Clear(old(areas), a.start, a.end) || TooFewFrames(old(frames.free), a)
    {
      hide Sound;
      hide Frames.Valid;
      hide Owners;
      hide Conserved;
      hide AttrOf;
      hide Used;
      hide TooFewFrames;
      hide Insert;
      hide TotalSize;
      hide Populated;
      hide AsAsked;
      hide PhysMapped;
      hide Clear;
      hide Listed;
      ghost var w0 := ViewOf(areas);
      ConservedSame(w0);
      OnlyTablesTaken(w0, w0);
      var from, to := AlignDown(virt), AlignUp(virt + size);
      a := Area(from, to, flags, kind, alloc, phys, 0);
      if from == to {
        return false, a;
      }
      var overlap := Overlaps(from, to);
      if overlap {
        return false, a;
      }
      ok, a := MapClear(from, to, flags, kind, alloc, phys);
      if !ok {
        OnlyTablesTaken(w0, ViewOf(areas));
      }
    }

    /** vmm_find_area: the first area that contains the address. */
    method FindArea(v: nat) returns (i: Option<nat>)
      ensures i.Some? ==> i.value < |areas| && Contains(areas[i.value], v)
      ensures i.Some? ==> forall k :: 0 <= k < i.value ==> !Contains(areas[k], v)
      ensures i.None? ==> forall k :: 0 <= k < |areas| ==> !Contains(areas[k], v)
    {
      var k := 0;
      while k < |areas|
        invariant 0 <= k <= |areas|
        invariant forall j :: 0 <= j < k ==> !Contains(areas[j], v)
      {
        if areas[k].start <= v < areas[k].end {
          return Some(k);
        }
        k := k + 1;
      }
      i := None;
    }

    /** Give back the frame behind one page; its translation stays for the moment. */
    method FreePage(ghost w: View, ghost from: nat, v: nat)
      requires pages.frames == frames && pages.Valid() && frames.managed == w.managed && w.flat == pages.flat
      requires w.tables == pages.place.Keys && Owners(w)
      requires frames.free == w.free + FramesIn(pages.flat, from, v) && from <= v && IsPage(v)
      requires AllKind(w.areas, from, v + PageTree.PAGE_SIZE, Anon)
      modifies frames
      ensures pages.Valid() && frames.managed == w.managed
      ensures frames.free == w.free + FramesIn(pages.flat, from, v + PageTree.PAGE_SIZE)
    {
      hide Sound;
      hide Frames.Valid;
      hide Owners;
      hide AttrOf;
      AlignedSelf(v);
      FlatPages(pages);
      FramesExtend(pages.flat, from, v);
      PagesReturned(w, from, v + PageTree.PAGE_SIZE);
      var mapped := pages.IsMapped(v);
      if mapped {
        var p := pages.VirtToPhys(v);
        NotYetReturned(w, from, v);
        NodeShape(frames, p);
        if p != 0 {
          frames.Free(p);
        }
      }
    }

    /** Give back the frames behind the pages of a range. */
    method FreeBacking(from: nat, to: nat)
      requires Backed(areas) && Aligned(from) && Aligned(to) && from <= to <= USER_END && AllKind(areas, from, to, Anon)
      modifies frames
      ensures pages.Valid() && frames.managed == old(frames.managed)
      ensures frames.free == old(frames.free) + FramesIn(pages.flat, from, to)
    {
      hide Sound;
      hide Frames.Valid;
      hide Owners;
      hide AttrOf;
      hide HasKind;
      ghost var w0 := ViewOf(areas);
      var v := from;
      FlatPages(pages);
      FramesExtend(pages.flat, from, from);
      while v < to
        invariant from <= v <= to && Aligned(v)
        invariant pages.Valid() && frames.managed == w0.managed
        invariant frames.free == w0.free + FramesIn(pages.flat, from, v)
      {
        FreePage(w0, from, v);
        v := v + PageTree.PAGE_SIZE;
      }
    }

    /** Take the translations of a whole area away, and the frames behind them if they are its own. */
    method ReleasePages(i: nat)
      requires Backed(areas) && Listed(areas) && i < |areas|
      modifies pages, frames
      ensures Backed(areas) && Conserved(old(ViewOf(areas)), ViewOf(areas)) && pages.place == old(pages.place)
      ensures pages.flat == old(pages.flat) - Pages(areas[i].start, areas[i].end)
      ensures forall v :: v in pages.flat ==> !Contains(areas[i], v)
    {
      hide Sound;
      hide Frames.Valid;
      hide Owners;
      hide Conserved;
      hide AttrOf;
      ghost var w0 := ViewOf(areas);
      var a := areas[i];
      KindInArea(areas, i);
      FlatPages(pages);
      OutsideIsMinusPages(pages.flat, a.start, a.end);
      AlignedSize(a);
      if a.kind.Anon? {
        PagesReturned(w0, a.start, a.end);
        FreeBacking(a.start, a.end);
      } else {
        PagesDropped(w0, a.start, a.end);
      }
      pages.UnmapRange(a.start, a.end - a.start);
    }

    /** The branch of vmm_unmap_region_internal for an exact match. */
    method UnmapArea(i: nat)
      requires Valid() && i < |areas|
      modifies this, pages, frames
      ensures Valid() && Conserved(old(ViewOf(areas)), ViewOf(areas)) && pages.place == old(pages.place)
      ensures areas == Remove(old(areas), i)
      ensures pages.flat == old(pages.flat) - Pages(old(areas)[i].start, old(areas)[i].end)
      ensures old(areas)[i].node in frames.free
    {
      hide Sound;
      hide Frames.Valid;
      hide Owners;
      hide Conserved;
      hide AttrOf;
      hide TotalSize;
      hide PhysMapped;
      ghost var w0 := ViewOf(areas);
      var a := areas[i];
      RemoveListed(areas, i, w0.flat);
      ReleasePages(i);
      ghost var w1 := ViewOf(areas);
      AreaRemoved(w1, i);
      NodeShape(frames, a.node);
      totalSize := totalSize - (a.end - a.start);
      areaCount := areaCount - 1;
      areas := areas[..i] + areas[i + 1..];
      frames.Free(a.node);
      ConservedTrans(w0, w1, ViewOf(areas));
    }

    /** vmm_unmap_region: it succeeds exactly on the range of one whole area, and changes nothing else. */
    method UnmapRegion(virt: nat, size: nat) returns (ok: bool, ghost at: nat)
      requires Valid()
      modifies this, pages, frames
      ensures Valid() && Conserved(old(ViewOf(areas)), ViewOf(areas)) && pages.place == old(pages.place)
      ensures ok ==> AreaGone(old(areas), areas, at, AlignDown(virt), AlignUp(virt + size))
      ensures ok ==> pages.flat == old(pages.flat) - Pages(AlignDown(virt), AlignUp(virt + size))
      ensures ok ==> old(areas)[at].node in frames.free
      ensures !ok ==> NoneSpans(old(areas), AlignDown(virt), AlignUp(virt + size))
      ensures !ok ==> areas == old(areas) && pages.flat == old(pages.flat) && frames.free == old(frames.free)
    {
      hide Sound;
      hide Frames.Valid;
      hide Owners;
      hide Conserved;
      hide AttrOf;
      hide TotalSize;
      ConservedSame(ViewOf(areas));
      var from, to := AlignDown(virt), AlignUp(virt + size);
      var i := 0;
      while i < |areas|
        invariant 0 <= i <= |areas|
        invariant Clear(areas[..i], from, to)
      {
        if !(to <= areas[i].start || from >= areas[i].end) {
          if from == areas[i].start && to == areas[i].end {
            RemoveListed(areas, i, pages.flat);
            UnmapArea(i);
            return true, i;
          }
          NoSpan(areas, i, from, to);
          return false, i;
        }
        i := i + 1;
      }
      assert areas[..i] == areas;
      ClearNoSpan(areas, from, to);
      ok, at := false, 0;
    }

    // -------------------------------------------------------------- split and merge

    /** vmm_split_region: it fails exactly when no area straddles the page or no frame is left. */
    method SplitRegion(addr: nat) returns (ok: bool, ghost i: nat, ghost node: nat)
      requires Valid()
      modifies this`areas, this`areaCount, frames
      ensures Valid() && Conserved(old(ViewOf(areas)), ViewOf(areas))
      ensures ok <==> Straddled(old(areas), AlignDown(addr)) && old(frames.free) != {}
      ensures ok ==> WasSplit(old(areas), areas, i, AlignDown(addr), node)
      ensures ok ==> areas == AreaForms.SplitRegion(old(areas), Cut(AlignDown(addr), node))
      ensures ok ==> node in old(frames.free) && frames.free == old(frames.free) - {node}
      ensures !ok ==> areas == old(areas) && frames.free == old(frames.free)
    {
      hide Sound;
      hide Frames.Valid;
      hide Owners;
      hide Conserved;
      hide AttrOf;
      hide TotalSize;
      hide PhysMapped;
      ghost var w0 := ViewOf(areas);
      ConservedSame(w0);
      i, node := 0, 0;
      var page := AlignDown(addr);
      var found := FindArea(page);
      if found.None? {
        return false, i, node;
      }
      var k := found.value;
      if page == areas[k].start || page >= areas[k].end {
        return false, i, node;
      }
      i := k;
      var f := frames.Alloc();
      if f == 0 {
        return false, i, node;
      }
      node := f;
      var a := areas[k];
      AreaSplit(w0, k, page, f);
      SplitByAddress(areas, k, Cut(page, f));
      areas := areas[..k]
        + [a.(end := page), Area(page, a.end, a.flags, a.kind, a.alloc, if a.kind.Phys? then a.phys + (page - a.start) else 0, f)]
        + areas[k + 1..];
      areaCount := areaCount + 1;
      SplitListed(w0.areas, areas, k, page, f, pages.flat);
      ok := true;
    }

    /** Join areas i and i + 1 in the pass of vmm_merge_regions. */
    method JoinAreas(i: nat)
      requires Valid() && i + 1 < |areas| && CanMerge(areas[i], areas[i + 1])
      modifies this`areas, this`areaCount, frames
      ensures Valid() && Conserved(old(ViewOf(areas)), ViewOf(areas))
      ensures areas == JoinAt(old(areas), i) && |areas| == |old(areas)| - 1
    {
      hide Sound;
      hide Frames.Valid;
      hide Owners;
      hide Conserved;
      hide AttrOf;
      hide TotalSize;
      hide PhysMapped;
      ghost var w0 := ViewOf(areas);
      var gone := areas[i + 1].node;
      AreaJoined(w0, i);
      JoinListed(areas, i, pages.flat);
      NodeShape(frames, gone);
      areas := areas[..i] + [areas[i].(end := areas[i + 1].end)] + areas[i + 2..];
      frames.Free(gone);
      areaCount := areaCount - 1;
    }

    /** vmm_merge_regions: the list becomes its maximal form, with the same meaning for every address. */
    method MergeRegions() returns (merged: nat)
      requires Valid()
      modifies this`areas, this`areaCount, frames
      ensures Valid() && Conserved(old(ViewOf(areas)), ViewOf(areas)) && totalSize == old(totalSize)
      ensures areas == Merge(old(areas)) && Maximal(areas) && SameMeaning(areas, old(areas))
      ensures merged == |old(areas)| - |areas|
    {
      hide Sound;
      hide Frames.Valid;
      hide Owners;
      hide Conserved;
      hide AttrOf;
      hide TotalSize;
      hide PhysMapped;
      hide CanMerge;
      hide Merge;
      hide Listed;
      hide Sorted;
      hide SameMeaning;
      hide Maximal;
      hide JoinAt;
      hide LeftToMerge;
      ghost var w0 := ViewOf(areas);
      ConservedSame(w0);
      ListedSorted(areas);
      MergeKeeps(areas);
      merged := 0;
      var i := 0;
      MergeStart(areas);
      while i + 1 < |areas|
        invariant 0 <= i && (i == 0 || i < |areas|)
        invariant Valid() && Conserved(w0, ViewOf(areas))
        invariant LeftToMerge(w0.areas, areas, i)
        invariant merged + |areas| == |w0.areas|
        decreases |areas| - i
      {
        MergeGoesOn(w0.areas, areas, i);
        if CanMerge(areas[i], areas[i + 1]) {
          ghost var w1 := ViewOf(areas);
          JoinAreas(i);
          merged := merged + 1;
          ConservedTrans(w0, w1, ViewOf(areas));
        } else {
          i := i + 1;
        }
      }
      MergeEnd(w0.areas, areas, i);
    }

    // -------------------------------------------------------------- munmap

    /** The first split in the loop of sys_munmap: an area that starts at us. */
    method IsolateFront(i: nat, us: nat) returns (ok: bool, k: nat)
      requires Valid() && i < |areas| && Aligned(us) && areas[i].start <= us < areas[i].end
      modifies this`areas, this`areaCount, frames
      ensures Valid() && Conserved(old(ViewOf(areas)), ViewOf(areas)) && SameMeaning(areas, old(areas))
      ensures ok ==> Spanned(areas, k, us, old(areas)[i].end)
      ensures ok && us == old(areas)[i].start ==> frames.free == old(frames.free)
      ensures ok ==> |frames.free| >= |old(frames.free)| - 1
      ensures !ok ==> old(frames.free) == {}
    {
      hide Sound;
      hide Frames.Valid;
      hide Owners;
      hide Conserved;
      hide AttrOf;
      hide TotalSize;
      hide PhysMapped;
      hide AreaForms.SplitRegion;
      hide SplitAt;
      ghost var w0 := ViewOf(areas);
      ConservedSame(w0);
      AlignedRange(us, us);
      ok, k := true, i;
      if us > areas[i].start {
        var split, j, node := SplitRegion(us);
        if !split {
          return false, 0;
        }
        SameArea(w0.areas, i, j, us);
        SplitListed(w0.areas, areas, i, us, node, pages.flat);
        var found := FindArea(us);
        k := found.value;
        SameArea(areas, i + 1, k, us);
      }
    }

    /** The second split in the loop of sys_munmap: area k ends at ue. */
    method IsolateBack(k: nat, ue: nat) returns (ok: bool)
      requires Valid() && k < |areas| && Aligned(ue) && areas[k].start < ue <= areas[k].end
      modifies this`areas, this`areaCount, frames
      ensures Valid() && Conserved(old(ViewOf(areas)), ViewOf(areas)) && SameMeaning(areas, old(areas))
      ensures ok ==> Spanned(areas, k, old(areas)[k].start, ue)
      ensures !ok ==> old(frames.free) == {}
    {
      hide Sound;
      hide Frames.Valid;
      hide Owners;
      hide Conserved;
      hide AttrOf;
      hide TotalSize;
      hide PhysMapped;
      hide AreaForms.SplitRegion;
      hide SplitAt;
      ghost var w0 := ViewOf(areas);
      ConservedSame(w0);
      AlignedRange(ue, ue);
      ok := true;
      if ue < areas[k].end {
        var split, j, node := SplitRegion(ue);
        if !split {
          return false;
        }
        SameArea(w0.areas, k, j, ue);
        SplitListed(w0.areas, areas, k, ue, node, pages.flat);
      }
    }

    /** The body of the loop of sys_munmap for the area at the cursor. */
    method MunmapArea(i: nat, start: nat, end: nat) returns (ok: bool, ue: nat)
      requires Valid() && i < |areas| && Aligned(start) && Aligned(end) && start < areas[i].end
               && areas[i].start < end && start < end
      modifies this, pages, frames
      ensures Valid() && Conserved(old(ViewOf(areas)), ViewOf(areas)) && pages.place == old(pages.place)
      ensures ue == if old(areas)[i].end < end then old(areas)[i].end else end
      ensures ok ==> frames.free != {}
      ensures ok ==> var us := if old(areas)[i].start > start then old(areas)[i].start else start;
                     Cleared(old(areas), areas, us, ue) && pages.flat == old(pages.flat) - Pages(us, ue)
      ensures !ok ==> SameMeaning(areas, old(areas)) && pages.flat == old(pages.flat) && |old(frames.free)| <= 1
      ensures !ok && old(areas)[i].start >= start ==> old(frames.free) == {}
    {
      hide Sound;
      hide Frames.Valid;
      hide Owners;
      hide Conserved;
      hide AttrOf;
      hide TotalSize;
      hide PhysMapped;
      hide SameMeaning;
      hide Cleared;
      hide Pages;
      ghost var w0 := ViewOf(areas);
      var us := if areas[i].start > start then areas[i].start else start;
      ue := if areas[i].end < end then areas[i].end else end;
      AlignedRange(us, ue);
      var front, k := IsolateFront(i, us);
      if !front {
        return false, ue;
      }
      ghost var w1 := ViewOf(areas);
      var back := IsolateBack(k, ue);
      SameMeaningTrans(w0.areas, w1.areas, areas);
      ConservedTrans(w0, w1, ViewOf(areas));
      if !back {
        return false, ue;
      }
      ghost var w2 := ViewOf(areas);
      assert Spanned(areas, k, us, ue);
      ghost var at;
      ok, at := UnmapRegion(us, ue - us);
      ConservedTrans(w0, w2, ViewOf(areas));
      ClearedAfterSame(w0.areas, w2.areas, areas, us, ue);
    }

    /** sys_munmap. On success exactly the pages of [addr, roundup(addr + len)) have lost their attributes and
        their translations. With two frames to spare it can only fail on its arguments; a failure stops the
        work at `reached`. */
    method Munmap(addr: nat, len: nat) returns (ok: bool, ghost reached: nat)
      requires Valid() && AlignUp(addr + len) <= USER_END
      modifies this, pages, frames
      ensures Valid() && Conserved(old(ViewOf(areas)), ViewOf(areas)) && pages.place == old(pages.place)
      ensures len == 0 || !Aligned(addr) ==> !ok && areas == old(areas) && pages.flat == old(pages.flat)
      ensures ok ==> reached == AlignUp(addr + len)
      ensures addr <= reached <= AlignUp(addr + len)
      ensures Cleared(old(areas), areas, addr, reached) && pages.flat == old(pages.flat) - Pages(addr, reached)
      ensures |old(frames.free)| >= 2 ==> (ok <==> len != 0 && Aligned(addr))
    {
      hide Sound;
      hide Frames.Valid;
      hide Owners;
      hide Conserved;
      hide AttrOf;
      hide TotalSize;
      hide PhysMapped;
      hide Cleared;
      hide Pages;
      ghost var w0 := ViewOf(areas);
      ConservedSame(w0);
      NothingCleared(areas, pages.flat, addr);
      if len == 0 || !Aligned(addr) {
        return false, addr;
      }
      var end := AlignUp(addr + len);
      var cur := addr;
      while cur < end
        invariant addr <= cur <= end && Aligned(cur)
        invariant Valid() && Conserved(w0, ViewOf(areas)) && pages.place == old(pages.place)
        invariant Cleared(w0.areas, areas, addr, cur) && pages.flat == w0.flat - Pages(addr, cur)
        invariant frames.free == w0.free || frames.free != {}
        invariant cur == addr ==> frames.free == w0.free
      {
        var found := FindArea(cur);
        ghost var w1 := ViewOf(areas);
        if found.None? {
          NothingAt(w0.areas, areas, addr, cur);
          NothingMappedAt(w1, cur);
          PagesSkip(w0.flat, addr, cur);
          cur := cur + PageTree.PAGE_SIZE;
        } else {
          StartsAtCursor(w0.areas, areas, found.value, addr, cur);
          var done, ue := MunmapArea(found.value, addr, end);
          ConservedTrans(w0, w1, ViewOf(areas));
          if !done {
            ClearedBeforeSame(w0.areas, w1.areas, areas, addr, cur);
            return false, cur;
          }
          ClearedTrans(w0.areas, w1.areas, areas, addr, cur, ue);
          PagesJoin(w0.flat, addr, cur, ue);
          cur := ue;
        }
      }
      ok, reached := true, cur;
    }

    // -------------------------------------------------------------- allocation

    /** vmm_alloc_region: the lowest place that fits. The overlap test of the mapping step never fires. */
    method AllocRegion(size: nat, flags: VmFlags, alloc: AllocFlags) returns (at: nat, ghost a: Area)
      requires Valid() && flags.user && AlignUp(size) <= USER_SEARCH_END - USER_SEARCH_START
      requires forall i :: 0 <= i < |areas| ==> areas[i].end <= USER_SEARCH_END
      modifies this, pages, frames
      ensures Valid() && Conserved(old(ViewOf(areas)), ViewOf(areas))
      ensures old(pages.place).Keys <= pages.place.Keys
      ensures at != 0 ==>
                a.start == at && a.end == at + AlignUp(size) && a.flags == flags && a.kind == Anon && a.alloc == alloc
                && a.phys == 0
      ensures at != 0 ==> at < a.end && LowestFit(old(areas), at, AlignUp(size)) && areas == Insert(old(areas), a)
      ensures at != 0 ==> Populated(a, old(pages.flat), pages.flat, pages.globalPages)
                          && AsAsked(a, old(pages.flat), pages.flat)
                          && SameOutside(old(pages.flat), pages.flat, a.start, a.end)
      ensures at == 0 ==> areas == old(areas) && pages.flat == old(pages.flat)
      ensures at == 0 ==> frames.free == old(frames.free) - (pages.place.Keys - old(pages.place).Keys)
      ensures at == 0 ==> size == 0 || NoFit(old(areas), AlignUp(size)) || TooFewFrames(old(frames.free), a)
      ensures at == 0 && size > 0 ==>
                a.end - a.start == AlignUp(size) && a.flags == flags && a.kind == Anon && a.alloc == alloc
    {
      hide Sound;
      hide Frames.Valid;
      hide Owners;
      hide Conserved;
      hide AttrOf;
      hide Short;
      hide TooFewFrames;
      hide TotalSize;
      hide PhysMapped;
      hide Insert;
      hide Populated;
      hide AsAsked;
      ghost var w0 := ViewOf(areas);
      ConservedSame(w0);
      OnlyTablesTaken(w0, w0);
      WindowBelow(areas);
      a := Area(0, AlignUp(size), flags, Anon, alloc, 0, 0);
      var found := FindFree(areas, size, true);
      if found == 0 {
        return 0, a;
      }
      FoundAligned(found, size);
      var ok;
      ok, a := MapRegion(found, size, flags, Anon, alloc, 0);
      at := if ok then found else 0;
    }

    /** vmm_free_region: it succeeds exactly when an area starts at the address. */
    method FreeRegion(virt: nat) returns (ok: bool, ghost i: nat)
      requires Valid()
      modifies this, pages, frames
      ensures Valid() && Conserved(old(ViewOf(areas)), ViewOf(areas)) && pages.place == old(pages.place)
      ensures ok <==> exists k :: 0 <= k < |old(areas)| && old(areas)[k].start == virt
      ensures ok ==> i < |old(areas)| && AreaGone(old(areas), areas, i, virt, old(areas)[i].end)
                     && pages.flat == old(pages.flat) - Pages(virt, old(areas)[i].end)
      ensures !ok ==> areas == old(areas) && pages.flat == old(pages.flat) && frames.free == old(frames.free)
    {
      hide Sound;
      hide Frames.Valid;
      hide Owners;
      hide Conserved;
      hide AttrOf;
      hide TotalSize;
      hide PhysMapped;
      hide Cleared;
      ConservedSame(ViewOf(areas));
      StartContained(areas);
      var found := FindArea(virt);
      if found.None? || areas[found.value].start != virt {
        return false, 0;
      }
      var a := areas[found.value];
      AlignedRange(a.start, a.end);
      assert Spanned(areas, found.value, a.start, a.end);
      ok, i := UnmapRegion(virt, a.end - a.start);
    }
  }
}
