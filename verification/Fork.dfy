/** Forking an address space with copy-on-write, and what the child can do afterwards. */
module Fork {
  import opened Options
  import opened FrameAllocator
  import opened PageTree
  import opened PageTables
  import opened Areas
  import opened AreaForms
  import opened FrameOwners
  import opened AddressSpaceSteps
  import opened AddressSpace
  import opened PhysicalMemory

  // ---------------------------------------------------------------- the snapshot

  /** The child's list is the parent's up to the frames of the descriptors. */
  ghost predicate CopiedList(areas: seq<Area>, copy: seq<Area>) {
    |copy| == |areas| && forall i :: 0 <= i < |areas| ==> copy[i] == areas[i].(node := copy[i].node)
  }

  /** What a page of the child is translated to, given the areas it has inherited so far. */
  ghost predicate InheritedAt(areas: seq<Area>, flat: map<nat, Pte>, copy: map<nat, Pte>, v: nat) {
    if HasKind(areas, v, Anon) then
      Lookup(copy, v) == if v in flat then Some(SharedEntry(flat[v], true)) else None
    else
      v in copy ==> PhysOf(areas, v).Some? && copy[v].addr == EntryAddr(PhysOf(areas, v).value) && !copy[v].flags.cow
  }

  ghost predicate Inherited(areas: seq<Area>, flat: map<nat, Pte>, copy: map<nat, Pte>) {
    forall v: nat :: InheritedAt(areas, flat, copy, v)
  }

  /** What one more area adds. */
  ghost predicate AreaInherited(a: Area, flat: map<nat, Pte>, before: map<nat, Pte>, after: map<nat, Pte>) {
    && SameOutside(before, after, a.start, a.end)
    && (forall v: nat :: Contains(a, v) ==>
          if a.kind.Anon? then Lookup(after, v) == if v in flat then Some(SharedEntry(flat[v], true)) else None
          else v in after ==> a.kind.Phys? && after[v].addr == EntryAddr(a.phys + (v - a.start)) && !after[v].flags.cow)
  }

  lemma InheritStep(areas: seq<Area>, i: nat, flat: map<nat, Pte>, before: map<nat, Pte>, after: map<nat, Pte>)
    requires Sorted(areas) && i < |areas|
    requires Inherited(areas[..i], flat, before) && AreaInherited(areas[i], flat, before, after)
    ensures Inherited(areas[..i + 1], flat, after)
  {
    var next := areas[..i + 1];
    forall v: nat
      ensures InheritedAt(next, flat, after, v)
    {
      assert InheritedAt(areas[..i], flat, before, v);
      assert next == areas[..i] + [areas[i]];
      AttrOfConcat(areas[..i], [areas[i]], v);
      assert [areas[i]][1..] == [];
      if Contains(areas[i], v) {
        AttrOfSome(areas[..i], v);
        assert forall k :: 0 <= k < i ==> areas[..i][k].end <= areas[i].start;
      } else {
        assert Lookup(after, v) == Lookup(before, v);
      }
    }
  }

  /** Before anything is inherited there is nothing in the child's part of the range. */
  lemma NothingInherited(areas: seq<Area>, i: nat, flat: map<nat, Pte>, before: map<nat, Pte>)
    requires Sorted(areas) && i < |areas| && Inherited(areas[..i], flat, before)
    ensures forall v: nat :: Contains(areas[i], v) ==> v !in before
  {
    forall v: nat | Contains(areas[i], v)
      ensures v !in before
    {
      assert InheritedAt(areas[..i], flat, before, v);
      AttrOfSome(areas[..i], v);
      assert forall k :: 0 <= k < i ==> areas[..i][k].end <= areas[i].start;
    }
  }

  lemma {:induction false} CopyMeansSame(areas: seq<Area>, copy: seq<Area>)
    requires CopiedList(areas, copy)
    ensures SameMeaning(copy, areas)
  {
    if areas != [] {
      CopyMeansSame(areas[1..], copy[1..]);
      forall v: nat
        ensures AttrOf(copy, v) == AttrOf(areas, v)
      {
        assert AttrOf(copy[1..], v) == AttrOf(areas[1..], v);
      }
    }
  }

  /** Right after the fork the child reads what the parent reads at every anonymous address. */
  lemma ChildReadsTheSame(areas: seq<Area>, flat: map<nat, Pte>, copy: map<nat, Pte>, data: map<nat, seq<Byte>>, v: nat)
    requires Inherited(areas, flat, copy) && HasKind(areas, AlignDown(v), Anon)
    ensures ReadByte(data, copy, v) == ReadByte(data, flat, v)
  {
    assert InheritedAt(areas, flat, copy, AlignDown(v));
  }

  lemma {:induction false} InsertLast(areas: seq<Area>, a: Area)
    requires forall k :: 0 <= k < |areas| ==> areas[k].start <= a.start
    ensures Insert(areas, a) == areas + [a]
  {
    if areas != [] {
      InsertLast(areas[1..], a);
      assert [areas[0]] + (areas[1..] + [a]) == areas + [a];
    }
  }

  // ---------------------------------------------------------------- the list grows

  /** Appending the copy of the next area. */
  lemma CopyStep(areas: seq<Area>, i: nat, copy: seq<Area>, node: nat)
    requires Listed(areas) && i < |areas| && CopiedList(areas[..i], copy)
    ensures var a := areas[i].(node := node);
            && Sorted(copy) && Clear(copy, a.start, a.end) && WellFormed(a)
            && Insert(copy, a) == copy + [a] && CopiedList(areas[..i + 1], copy + [a])
            && Listed(copy + [a]) && TotalSize(copy + [a]) == TotalSize(copy) + (a.end - a.start)
  {
    var a := areas[i].(node := node);
    assert WellFormed(areas[i]);
    CopySorted(areas, i, copy);
    InsertLast(copy, a);
    TotalSizeConcat(copy, [a]);
    TotalSizeOne(a);
    var r := copy + [a];
    forall k | 0 <= k < |r|
      ensures r[k] == areas[k].(node := r[k].node)
    {
      assert k < i ==> areas[..i][k] == areas[k];
    }
  }

  lemma CopySorted(areas: seq<Area>, i: nat, copy: seq<Area>)
    requires Listed(areas) && i < |areas| && CopiedList(areas[..i], copy)
    ensures Sorted(copy) && forall k :: 0 <= k < |copy| ==>
              copy[k].end <= areas[i].start && copy[k].start <= areas[i].start
  {
    forall k | 0 <= k < |copy|
      ensures copy[k].start == areas[k].start && copy[k].end == areas[k].end && WellFormed(copy[k])
    {
      assert copy[k] == areas[..i][k].(node := copy[k].node) && WellFormed(areas[k]);
    }
  }

  /** The pages of physical mappings are translated to their addresses, with what the areas ask for. */
  ghost predicate Remapped(a: Area, flat: map<nat, Pte>, to: nat) {
    forall v :: v in Pages(a.start, to) ==>
      v in flat && flat[v].addr == EntryAddr(a.phys + (v - a.start)) && Permits(a.flags, flat[v].flags)
  }

  ghost predicate AllRemapped(areas: seq<Area>, flat: map<nat, Pte>) {
    forall i :: 0 <= i < |areas| && areas[i].kind.Phys? ==> Remapped(areas[i], flat, areas[i].end)
  }

  lemma RemappedStep(a: Area, mid: map<nat, Pte>, after: map<nat, Pte>, v: nat)
    requires Remapped(a, mid, v) && a.start <= v && Aligned(v) && v in after && after == mid[v := after[v]]
    requires after[v].addr == EntryAddr(a.phys + (v - a.start)) && Permits(a.flags, after[v].flags)
    ensures Remapped(a, after, v + PageTree.PAGE_SIZE)
  {
    hide EntryAddr;
    hide Permits;
    PagesExtend(a.start, v);
  }

  lemma RemappedMore(areas: seq<Area>, i: nat, before: map<nat, Pte>, after: map<nat, Pte>)
    requires Sorted(areas) && i < |areas| && SameOutside(before, after, areas[i].start, areas[i].end)
    requires AllRemapped(areas[..i], before) && (areas[i].kind.Phys? ==> Remapped(areas[i], after, areas[i].end))
    ensures AllRemapped(areas[..i + 1], after)
  {
    hide EntryAddr;
    hide Permits;
    var now := areas[..i + 1];
    forall k | 0 <= k < |now| && now[k].kind.Phys?
      ensures Remapped(now[k], after, now[k].end)
    {
      if k < i {
        assert now[k] == areas[..i][k] && now[k].end <= areas[i].start;
        forall v | v in Pages(now[k].start, now[k].end)
          ensures Lookup(after, v) == Lookup(before, v)
        {
        }
      }
    }
  }

  // ---------------------------------------------------------------- fork

  /** The loop of vmm_fork_space over a physical mapping; it does not look at failures. */
  method ShareMapping(pages: MmuContext, a: Area)
    requires pages.Valid() && WellFormed(a) && a.end <= USER_END && a.kind.Phys?
    requires forall v :: v in pages.flat ==> !Contains(a, v)
    modifies pages, pages.frames
    ensures pages.Valid() && pages.frames.managed == old(pages.frames.managed)
            && pages.frames.free <= old(pages.frames.free)
    ensures AreaInherited(a, map[], old(pages.flat), pages.flat)
    ensures pages.frames.free != {} ==> Remapped(a, pages.flat, a.end)
    ensures Grown(old(pages.place), pages.place, old(pages.frames.free), pages.frames.free)
  {
    hide Sound;
    hide Frames.Valid;
    hide EntryAddr;
    hide Remapped;
    hide Spent;
    NoneRemapped(a, pages.flat);
    var access := ToAccess(a.flags);
    var v, phys := a.start, a.phys;
    while v < a.end
      invariant a.start <= v <= a.end && Aligned(v) && phys == a.phys + (v - a.start)
      invariant pages.Valid() && pages.frames.managed == old(pages.frames.managed)
                && pages.frames.free <= old(pages.frames.free)
      invariant AreaInherited(a, map[], old(pages.flat), pages.flat)
      invariant pages.frames.free != {} ==> Remapped(a, pages.flat, v)
      invariant Grown(old(pages.place), pages.place, old(pages.frames.free), pages.frames.free)
    {
      AlignedSelf(v);
      ghost var flat, place, free := pages.flat, pages.place, pages.frames.free;
      var ok := pages.MapPage(v, phys, access);
      GrownTrans(old(pages.place), place, pages.place, old(pages.frames.free), free, pages.frames.free);
      if pages.frames.free != {} {
        RemappedStep(a, flat, pages.flat, v);
      }
      v, phys := v + PageTree.PAGE_SIZE, phys + PageTree.PAGE_SIZE;
    }
  }

  lemma NoneRemapped(a: Area, flat: map<nat, Pte>)
    ensures Remapped(a, flat, a.start)
  {
    hide EntryAddr;
  }

  lemma GrownNothing(place: map<nat, seq<nat>>, free: set<nat>)
    ensures Grown(place, place, free, free)
  {
  }

  /** The frames that the child took: for tables, and one for the descriptor of each of its areas. */
  ghost predicate ForkTook(free: set<nat>, free': set<nat>, tables: set<nat>, tables': set<nat>, areas: seq<Area>) {
    && tables <= tables' && TakenFrom(free, free', tables' - tables, Nodes(areas)) && DistinctNodes(areas)
  }

  lemma ForkTookMore(free: set<nat>, free1: set<nat>, free2: set<nat>, tables: set<nat>, place1: map<nat, seq<nat>>,
                     place2: map<nat, seq<nat>>, areas: seq<Area>, a: Area)
    requires ForkTook(free, free1, tables, place1.Keys, areas) && a.node in free1
    requires Grown(place1, place2, free1 - {a.node}, free2) && free1 !! place1.Keys
    ensures ForkTook(free, free2, tables, place2.Keys, areas + [a])
  {
    var nodes := Nodes(areas);
    assert Nodes(areas + [a]) == nodes + {a.node} by {
      forall n
        ensures n in Nodes(areas + [a]) <==> n in nodes + {a.node}
      {
        if n in nodes {
          var b :| b in areas && b.node == n;
          assert b in areas + [a];
        }
        if n == a.node {
          assert (areas + [a])[|areas|] == a;
        }
      }
    }
    forall i, j | 0 <= i < j < |areas + [a]|
      ensures (areas + [a])[i].node != (areas + [a])[j].node
    {
      assert areas[i] in areas && areas[i].node in nodes;
    }
    assert place2.Keys - tables == (place1.Keys - tables) + (place2.Keys - place1.Keys);
  }

  /** The translations of one area for the child. */
  method ShareArea(parent: VmSpace, child: VmSpace, i: nat) returns (ok: bool)
    requires parent.Shape() && child.pages.Valid() && child != parent && child.pages != parent.pages
    requires child.frames == parent.frames && child.pages.frames == child.frames && i < |parent.areas|
    requires Inherited(parent.areas[..i], parent.pages.flat, child.pages.flat)
    modifies child.pages, child.frames
    ensures parent.Shape() && child.pages.Valid()
    ensures child.frames.managed == old(child.frames.managed) && child.frames.free <= old(child.frames.free)
    ensures Grown(old(child.pages.place), child.pages.place, old(child.frames.free), child.frames.free)
    ensures ok ==> Inherited(parent.areas[..i + 1], parent.pages.flat, child.pages.flat)
    ensures ok && child.frames.free != {} && AllRemapped(parent.areas[..i], old(child.pages.flat)) ==>
              AllRemapped(parent.areas[..i + 1], child.pages.flat)
    ensures !ok ==> child.frames.free == {}
  {
    hide Sound;
    hide Frames.Valid;
    hide AttrOf;
    hide TotalSize;
    hide Inherited;
    hide EntryAddr;
    hide AllRemapped;
    hide Remapped;
    hide Grown;
    GrownNothing(child.pages.place, child.frames.free);
    var a := parent.areas[i];
    ghost var before := child.pages.flat;
    NothingInherited(parent.areas, i, parent.pages.flat, before);
    assert WellFormed(a);
    AlignedSize(a);
    ok := true;
    if a.kind.Anon? {
      ok := child.pages.CopyRange(parent.pages, a.start, a.end - a.start, true);
      if !ok {
        return;
      }
    } else if a.kind.Phys? {
      ShareMapping(child.pages, a);
    }
    InheritStep(parent.areas, i, parent.pages.flat, before, child.pages.flat);
    if child.frames.free != {} && AllRemapped(parent.areas[..i], before) {
      RemappedMore(parent.areas, i, before, child.pages.flat);
    }
  }

  /** vmm_fork_space, given the empty space of the child. */
  method ForkInto(parent: VmSpace, child: VmSpace) returns (ok: bool)
    requires parent.Shape() && child.Shape() && child != parent && child.pages != parent.pages
    requires child.frames == parent.frames && child.areas == [] && child.pages.flat == map[]
    modifies child, child.pages, child.frames
    ensures parent.Shape() && child.pages.Valid()
    ensures child.frames.managed == old(child.frames.managed) && child.frames.free <= old(child.frames.free)
    ensures ok ==> child.Shape() && CopiedList(parent.areas, child.areas)
    ensures ok ==> Inherited(parent.areas, parent.pages.flat, child.pages.flat)
    ensures ok && child.frames.free != {} ==> AllRemapped(parent.areas, child.pages.flat)
    ensures ok ==> ForkTook(old(child.frames.free), child.frames.free, old(child.pages.place).Keys,
                            child.pages.place.Keys, child.areas)
    ensures !ok ==> child.frames.free == {}
  {
    hide Sound;
    hide Frames.Valid;
    hide AttrOf;
    hide TotalSize;
    hide Inherited;
    hide AllRemapped;
    hide CopiedList;
    hide Insert;
    hide Grown;
    hide ForkTook;
    TookNothing(child.frames.free, child.pages.place.Keys);
    EmptyCopy(parent.areas, parent.pages.flat);
    var i := 0;
    while i < |parent.areas|
      invariant 0 <= i <= |parent.areas|
      invariant parent.Shape() && child.Shape()
      invariant child.frames.managed == old(child.frames.managed) && child.frames.free <= old(child.frames.free)
      invariant CopiedList(parent.areas[..i], child.areas)
      invariant Inherited(parent.areas[..i], parent.pages.flat, child.pages.flat)
      invariant child.frames.free != {} ==> AllRemapped(parent.areas[..i], child.pages.flat)
      invariant ForkTook(old(child.frames.free), child.frames.free, old(child.pages.place).Keys,
                         child.pages.place.Keys, child.areas)
    {
      ghost var free1, place1, areas1 := child.frames.free, child.pages.place, child.areas;
      var node := child.frames.Alloc();
      if node == 0 {
        return false;
      }
      var a := parent.areas[i].(node := node);
      CopyStep(parent.areas, i, child.areas, node);
      child.InsertArea(a);
      ok := ShareArea(parent, child, i);
      if !ok {
        return false;
      }
      ForkTookMore(old(child.frames.free), free1, child.frames.free, old(child.pages.place).Keys, place1,
                   child.pages.place, areas1, a);
      child.totalSize := child.totalSize + (a.end - a.start);
      child.areaCount := child.areaCount + 1;
      i := i + 1;
    }
    assert parent.areas[..i] == parent.areas;
    ok := true;
  }

  lemma TookNothing(free: set<nat>, tables: set<nat>)
    ensures ForkTook(free, free, tables, tables, [])
  {
    assert Nodes([]) == {} && tables - tables == {};
  }

  lemma EmptyCopy(areas: seq<Area>, flat: map<nat, Pte>)
    ensures CopiedList(areas[..0], []) && Inherited(areas[..0], flat, map[]) && AllRemapped(areas[..0], map[])
  {
  }

  // ---------------------------------------------------------------- page faults

  /** The error code of a page fault. */
  datatype Fault = Fault(present: bool, write: bool, exec: bool, user: bool)

  /** Marked entries belong to managed frames. */
  ghost predicate CowManaged(flat: map<nat, Pte>, managed: set<nat>) {
    forall v :: v in flat && flat[v].flags.cow ==> flat[v].addr in managed
  }

  /** The page has a private copy of its frame in f, and may be written. */
  ghost predicate CowBroken(page: nat, f: nat, flat: map<nat, Pte>, flat': map<nat, Pte>,
                            data: map<nat, seq<Byte>>, data': map<nat, seq<Byte>>) {
    && page in flat && flat[page].addr in data
    && flat' == flat[page := Pte(f, flat[page].flags.(writable := true, cow := false))]
    && data' == data[f := data[flat[page].addr]]
  }

  /** mmu_break_cow: a marked page gets a frame of its own with the same contents. */
  method BreakCow(pages: MmuContext, ram: Ram, v: nat) returns (ok: bool, ghost f: nat)
    requires pages.Valid() && v < USER_END && ram.Covers(pages.frames.managed)
             && CowManaged(pages.flat, pages.frames.managed)
    modifies pages`tables, pages`flat, pages.frames, ram
    ensures pages.Valid() && ram.Covers(pages.frames.managed) && pages.frames.managed == old(pages.frames.managed)
    ensures var page := AlignDown(v);
            if page in old(pages.flat) && old(pages.flat)[page].flags.cow && old(pages.frames.free) != {} then
              && ok && f in old(pages.frames.free) && pages.frames.free == old(pages.frames.free) - {f}
              && CowBroken(page, f, old(pages.flat), pages.flat, old(ram.data), ram.data)
            else
              && pages.flat == old(pages.flat) && ram.data == old(ram.data)
              && pages.frames.free == old(pages.frames.free)
              && (ok <==> page in pages.flat && !pages.flat[page].flags.cow)
  {
    hide Sound;
    hide Frames.Valid;
    f := 0;
    PathOfPage(v);
    var e, leaf := pages.EntryOf(v);
    if e.None? {
      return false, f;
    }
    if !e.value.flags.cow {
      return true, f;
    }
    var g := pages.frames.Alloc();
    if g == 0 {
      return false, f;
    }
    f := g;
    EntryAddrOfFrame(g);
    ram.data := ram.data[g := ram.data[e.value.addr]];
    pages.SetLeaf(leaf.value, AlignDown(v), Pte(EntryAddr(g), e.value.flags.(writable := true, cow := false)));
    ok := true;
  }

  /** A write fault on a marked page of some area. */
  ghost predicate IsCowFault(areas: seq<Area>, flat: map<nat, Pte>, v: nat, fault: Fault) {
    var page := AlignDown(v);
    AttrOf(areas, v).Some? && fault.present && fault.write && page in flat && flat[page].flags.cow
  }

  /** A fault on an untranslated page of a lazy anonymous area. */
  ghost predicate IsLazyFault(areas: seq<Area>, flat: map<nat, Pte>, v: nat) {
    HasKind(areas, v, Anon) && AttrOf(areas, v).value.alloc.lazy && AlignDown(v) !in flat
  }

  /** The lazy branch of vmm_handle_page_fault: a zeroed frame for the page. */
  method MapZeroPage(pages: MmuContext, ram: Ram, page: nat, access: Access) returns (ok: bool, ghost f: nat)
    requires pages.Valid() && IsPage(page) && ram.Covers(pages.frames.managed)
    modifies pages, pages.frames, ram
    ensures pages.Valid() && ram.Covers(pages.frames.managed) && pages.frames.managed == old(pages.frames.managed)
    ensures old(pages.place).Keys <= pages.place.Keys
    ensures TakenFrom(old(pages.frames.free), pages.frames.free, pages.place.Keys - old(pages.place).Keys,
                      if ok then {f} else {})
    ensures ok ==> ram.data == old(ram.data)[f := ZeroPage()]
                   && pages.flat == old(pages.flat)[page := Pte(f, ArchFlags(access, pages.globalPages))]
    ensures ok ==> Grants(access, pages.globalPages, pages.flat[page].flags)
    ensures !ok ==> pages.flat == old(pages.flat) && Short(old(pages.frames.free), FrameAllocator.PAGE_SIZE)
    ensures !ok ==> ram.data == old(ram.data) || (f in pages.frames.free && ram.data == old(ram.data)[f := ZeroPage()])
  {
    hide Sound;
    hide Frames.Valid;
    hide Spent;
    hide Grants;
    hide Short;
    hide EntryAddr;
    hide TakenFrom;
    hide Ram.Covers;
    hide ZeroPage;
    f := 0;
    ghost var tables, free := pages.place.Keys, pages.frames.free;
    var g := pages.frames.Alloc();
    if g == 0 {
      NoneSpent();
      NoneTaken(free, tables);
      return false, f;
    }
    f := g;
    PageOfPage(page);
    EntryAddrOfFrame(g);
    ram.Clear(g, pages.frames.managed);
    SpentOne(free, g);
    ok := pages.MapPage(page, g, access);
    SpentTrans(free, free - {g}, pages.frames.free, 1, 3);
    GrownTaken(free, pages.frames.free, tables, pages.place.Keys, g);
    if !ok {
      SpentShort(free, 4);
      pages.frames.Free(g);
    }
  }

  lemma NoneTaken(free: set<nat>, tables: set<nat>)
    ensures TakenFrom(free, free, tables - tables, {})
  {
    assert tables - tables == {};
  }

  /** The page of the address is backed with a zeroed frame, with what its area asks for. */
  ghost predicate LazyBacked(areas: seq<Area>, v: nat, f: nat, flat: map<nat, Pte>, flat': map<nat, Pte>,
                             data: map<nat, seq<Byte>>, data': map<nat, seq<Byte>>, globalPages: bool) {
    var page := AlignDown(v);
    && AttrOf(areas, v).Some? && page !in flat && page in flat'
    && flat' == flat[page := Pte(f, ArchFlags(ToAccess(AttrOf(areas, v).value.flags), globalPages))]
    && Permits(AttrOf(areas, v).value.flags, flat'[page].flags)
    && data' == data[f := ZeroPage()]
  }

  /** vmm_handle_page_fault: it breaks copy-on-write, or backs a lazy page with zeros, or changes nothing and
      fails. */
  method HandleFault(space: VmSpace, ram: Ram, v: nat, fault: Fault) returns (ok: bool, ghost f: nat)
    requires space.Shape() && v < USER_END && ram.Covers(space.frames.managed)
             && CowManaged(space.pages.flat, space.frames.managed)
    modifies space.pages, space.frames, ram
    ensures space.Shape() && ram.Covers(space.frames.managed)
    ensures space.frames.managed == old(space.frames.managed) && old(space.pages.place).Keys <= space.pages.place.Keys
    ensures TakenFrom(old(space.frames.free), space.frames.free,
                      space.pages.place.Keys - old(space.pages.place).Keys, if ok then {f} else {})
    ensures IsCowFault(space.areas, old(space.pages.flat), v, fault) ==> (ok <==> old(space.frames.free) != {})
    ensures ok && IsCowFault(space.areas, old(space.pages.flat), v, fault) ==>
              CowBroken(AlignDown(v), f, old(space.pages.flat), space.pages.flat, old(ram.data), ram.data)
    ensures IsLazyFault(space.areas, old(space.pages.flat), v) ==>
              ok || Short(old(space.frames.free), FrameAllocator.PAGE_SIZE)
    ensures ok && !IsCowFault(space.areas, old(space.pages.flat), v, fault) ==>
              && IsLazyFault(space.areas, old(space.pages.flat), v)
              && LazyBacked(space.areas, v, f, old(space.pages.flat), space.pages.flat, old(ram.data), ram.data,
                            space.pages.globalPages)
    ensures !ok ==> space.pages.flat == old(space.pages.flat)
    ensures !ok ==> ram.data == old(ram.data)
                    || (IsLazyFault(space.areas, space.pages.flat, v) && f in space.frames.free
                        && ram.data == old(ram.data)[f := ZeroPage()])
  {
    hide Sound;
    hide Frames.Valid;
    hide AttrOf;
    hide TotalSize;
    hide Short;
    hide Grants;
    f := 0;
    AttrOfSome(space.areas, v);
    var found := space.FindArea(v);
    if found.None? {
      return false, f;
    }
    var a := space.areas[found.value];
    KindInArea(space.areas, found.value);
    var page := AlignDown(v);
    PathOfPage(v);
    PageOfPage(page);
    var e, leaf := space.pages.EntryOf(page);
    if fault.present && fault.write && e.Some? {
      if e.value.flags.cow {
        ok, f := BreakCow(space.pages, ram, page);
        return;
      }
      if !a.flags.write {
        return false, f;
      }
    }
    if e.None? && a.kind.Anon? && a.alloc.lazy {
      ok, f := MapZeroPage(space.pages, ram, page, ToAccess(a.flags));
      return;
    }
    ok := false;
  }

  // ---------------------------------------------------------------- isolation of the parent from the child

  /** Frames in `kept` are neither free nor writable through `flat`. */
  ghost predicate Isolated(kept: set<nat>, flat: map<nat, Pte>, free: set<nat>) {
    kept !! free && forall v :: v in flat && flat[v].flags.writable ==> flat[v].addr !in kept
  }

  /** One step of a running child: a store that the processor lets through or not, or any page fault. */
  datatype Event = Store(v: nat, b: Byte, user: bool) | Trap(v: nat, fault: Fault)

  /** The processor lets a store through, of the program or of the kernel for it. */
  predicate MayStore(flags: Flags, user: bool) {
    flags.present && flags.writable && (user ==> flags.user)
  }

  /** A store goes through if the page is translated and writable, and open to the program if it is the program that
      stores; a store to device memory leaves the frames alone. */
  method StoreByte(pages: MmuContext, ram: Ram, v: nat, b: Byte, user: bool)
    requires pages.Valid() && v < USER_END && ram.Covers(pages.frames.managed)
    modifies ram
    ensures ram.Covers(pages.frames.managed)
    ensures var page := AlignDown(v);
            if page in pages.flat && MayStore(pages.flat[page].flags, user) && pages.flat[page].addr in old(ram.data) then
              ram.data == old(ram.data)[pages.flat[page].addr := old(ram.data)[pages.flat[page].addr][v - page := b]]
            else
              ram.data == old(ram.data)
  {
    hide Sound;
    hide Frames.Valid;
    var e, leaf := pages.EntryOf(v);
    if e.Some? && MayStore(e.value.flags, user) && e.value.addr in ram.data {
      var frame := e.value.addr;
      ram.data := ram.data[frame := ram.data[frame][v - AlignDown(v) := b]];
    }
  }

  /** The translations of the child, the memory and the free frames at one moment. */
  datatype Moment = Moment(flat: map<nat, Pte>, data: map<nat, seq<Byte>>, free: set<nat>)

  /** What a store does: one byte of the frame of its page if the processor lets it through. */
  ghost predicate Stored(m: Moment, m': Moment, v: nat, b: Byte, user: bool) {
    var page := AlignDown(v);
    && m'.flat == m.flat && m'.free == m.free
    && m'.data == if page in m.flat && MayStore(m.flat[page].flags, user) && m.flat[page].addr in m.data
                     && v - page < |m.data[m.flat[page].addr]|
                  then m.data[m.flat[page].addr := m.data[m.flat[page].addr][v - page := b]]
                  else m.data
  }

  /** What a page fault does: a private copy of a shared page, a zeroed frame for a lazy one, or no translation changes. */
  ghost predicate Trapped(areas: seq<Area>, m: Moment, m': Moment, v: nat, fault: Fault, globalPages: bool) {
    if IsCowFault(areas, m.flat, v, fault) && m.free != {} then
      exists f :: f in m.free && CowBroken(AlignDown(v), f, m.flat, m'.flat, m.data, m'.data)
    else if IsLazyFault(areas, m.flat, v) && !Short(m.free, FrameAllocator.PAGE_SIZE) then
      exists f :: f in m.free && LazyBacked(areas, v, f, m.flat, m'.flat, m.data, m'.data, globalPages)
    else
      (m'.flat == m.flat && m'.data == m.data) || IsLazyFault(areas, m.flat, v)
  }

  ghost predicate Happened(areas: seq<Area>, m: Moment, m': Moment, e: Event, globalPages: bool) {
    match e
    case Store(v, b, user) => Stored(m, m', v, b, user)
    case Trap(v, fault) => Trapped(areas, m, m', v, fault, globalPages)
  }

  ghost predicate AllHappened(areas: seq<Area>, trace: seq<Moment>, events: seq<Event>, n: nat, globalPages: bool) {
    && n <= |events| && |trace| == n + 1
    && forall i :: 0 <= i < n ==> Happened(areas, trace[i], trace[i + 1], events[i], globalPages)
  }

  ghost function Now(space: VmSpace, ram: Ram): Moment
    reads space, space.pages, space.frames, ram
  {
    Moment(space.pages.flat, ram.data, space.frames.free)
  }

  /** One event. */
  method Happen(child: VmSpace, ram: Ram, e: Event, ghost kept: set<nat>)
    requires child.Shape() && ram.Covers(child.frames.managed) && CowManaged(child.pages.flat, child.frames.managed)
    requires Isolated(kept, child.pages.flat, child.frames.free) && e.v < USER_END
    modifies child.pages, child.frames, ram
    ensures child.Shape() && ram.Covers(child.frames.managed) && CowManaged(child.pages.flat, child.frames.managed)
    ensures Isolated(kept, child.pages.flat, child.frames.free)
    ensures child.frames.managed == old(child.frames.managed) && child.frames.free <= old(child.frames.free)
    ensures forall f :: f in kept && f in old(ram.data) ==> f in ram.data && ram.data[f] == old(ram.data)[f]
    ensures Happened(child.areas, old(Now(child, ram)), Now(child, ram), e, child.pages.globalPages)
  {
    hide Sound;
    hide Frames.Valid;
    hide AttrOf;
    hide TotalSize;
    hide Short;
    hide Listed;
    hide IsLazyFault;
    if e.Store? {
      StoreByte(child.pages, ram, e.v, e.b, e.user);
    } else {
      ghost var m, tables := Now(child, ram), child.pages.place.Keys;
      var ok, f := HandleFault(child, ram, e.v, e.fault);
      FaultTook(m.free, child.frames.free, child.pages.place.Keys - tables, f, ok);
    }
  }

  lemma FaultTook(free: set<nat>, free': set<nat>, tables: set<nat>, f: nat, ok: bool)
    requires TakenFrom(free, free', tables, if ok then {f} else {})
    ensures free' <= free && (ok ==> f in free)
  {
    if ok {
      assert f in {f};
    }
  }

  /** Every event of the run happened as it should, and no run of the child, whatever it stores and whatever faults it
      takes, touches a kept frame. */
  method RunChild(child: VmSpace, ram: Ram, events: seq<Event>, ghost kept: set<nat>)
    returns (ghost trace: seq<Moment>)
    requires child.Shape() && ram.Covers(child.frames.managed) && CowManaged(child.pages.flat, child.frames.managed)
    requires Isolated(kept, child.pages.flat, child.frames.free)
    requires forall i :: 0 <= i < |events| ==> events[i].v < USER_END
    modifies child.pages, child.frames, ram
    ensures child.Shape() && ram.Covers(child.frames.managed)
    ensures child.frames.managed == old(child.frames.managed) && child.frames.free <= old(child.frames.free)
    ensures forall f :: f in kept && f in old(ram.data) ==> f in ram.data && ram.data[f] == old(ram.data)[f]
    ensures AllHappened(child.areas, trace, events, |events|, child.pages.globalPages)
    ensures trace[0] == old(Now(child, ram)) && trace[|events|] == Now(child, ram)
  {
    hide Sound;
    hide Frames.Valid;
    hide AttrOf;
    hide TotalSize;
    hide Listed;
    hide Happened;
    hide Isolated;
    hide CowManaged;
    trace := [Now(child, ram)];
    var i := 0;
    while i < |events|
      invariant 0 <= i <= |events|
      invariant child.Shape() && ram.Covers(child.frames.managed) && CowManaged(child.pages.flat, child.frames.managed)
      invariant Isolated(kept, child.pages.flat, child.frames.free)
      invariant child.frames.managed == old(child.frames.managed) && child.frames.free <= old(child.frames.free)
      invariant forall f :: f in kept && f in old(ram.data) ==> f in ram.data && ram.data[f] == old(ram.data)[f]
      invariant AllHappened(child.areas, trace, events, i, child.pages.globalPages)
      invariant trace[0] == old(Now(child, ram)) && trace[i] == Now(child, ram)
    {
      Happen(child, ram, events[i], kept);
      trace := trace + [Now(child, ram)];
      i := i + 1;
    }
  }

  /** Physical mappings show device memory, not managed frames. */
  ghost predicate PhysOutside(areas: seq<Area>, managed: set<nat>) {
    forall v: nat :: PhysOf(areas, v).Some? ==> EntryAddr(PhysOf(areas, v).value) !in managed
  }

  lemma ForkIsolates(w: View, copy: map<nat, Pte>, free: set<nat>)
    requires Owners(w) && PhysOutside(w.areas, w.managed) && Inherited(w.areas, w.flat, copy) && free <= w.free
    ensures Isolated(Data(w), copy, free) && CowManaged(copy, w.managed) && Data(w) <= w.managed
  {
    hide AttrOf;
    DataApart(w);
    forall v | v in copy
      ensures copy[v].flags.writable ==> copy[v].addr !in Data(w)
      ensures copy[v].flags.cow ==> copy[v].addr in w.managed
    {
      assert InheritedAt(w.areas, w.flat, copy, v);
      if HasKind(w.areas, v, Anon) {
        assert OwnsPage(w, v);
      }
    }
  }

  lemma FewerFree(w: View, free: set<nat>)
    requires Owners(w) && free <= w.free
    ensures Owners(w.(free := free))
  {
    hide AttrOf;
    var w' := w.(free := free);
    forall v | v in w'.flat && HasKind(w'.areas, v, Anon)
      ensures OwnsPage(w', v)
    {
      assert OwnsPage(w, v);
    }
  }

  lemma SameBytes(w: View, data: map<nat, seq<Byte>>, data': map<nat, seq<Byte>>, v: nat)
    requires forall f :: f in Data(w) && f in data ==> f in data' && data'[f] == data[f]
    requires Data(w) <= data.Keys && HasKind(w.areas, AlignDown(v), Anon)
    ensures ReadByte(data', w.flat, v) == ReadByte(data, w.flat, v)
  {
    assert AlignDown(v) in w.flat ==> w.flat[AlignDown(v)].addr in Data(w);
  }

  /** Whatever a child does after a fork, the parent reads at every anonymous address what it read before. */
  method ForkAndRun(parent: VmSpace, child: VmSpace, ram: Ram, events: seq<Event>)
    returns (ok: bool, ghost trace: seq<Moment>)
    requires parent.Valid() && child.Shape() && child != parent && child.pages != parent.pages
    requires child.frames == parent.frames && child.areas == [] && child.pages.flat == map[]
    requires ram.Covers(parent.frames.managed) && PhysOutside(parent.areas, parent.frames.managed)
    requires forall i :: 0 <= i < |events| ==> events[i].v < USER_END
    modifies child, child.pages, child.frames, ram
    ensures parent.Valid()
    ensures forall v: nat {:trigger ReadByte(ram.data, parent.pages.flat, v)} :: HasKind(parent.areas, AlignDown(v), Anon) ==>
              ReadByte(ram.data, parent.pages.flat, v) == old(ReadByte(ram.data, parent.pages.flat, v))
    ensures ok ==> AllHappened(child.areas, trace, events, |events|, child.pages.globalPages)
    ensures ok ==> Inherited(parent.areas, parent.pages.flat, trace[0].flat) && trace[0].data == old(ram.data)
                   && trace[|events|] == Now(child, ram)
  {
    hide Sound;
    hide Frames.Valid;
    hide AttrOf;
    hide TotalSize;
    hide Owners;
    hide Inherited;
    hide PhysOutside;
    hide PhysMapped;
    hide ReadByte;
    hide HasKind;
    hide AllHappened;
    hide AllRemapped;
    hide ForkTook;
    trace := [];
    ghost var w := parent.ViewOf(parent.areas);
    ok := ForkInto(parent, child);
    FewerFree(w, parent.frames.free);
    DataCovered(w, ram.data);
    if ok {
      ForkIsolates(w, child.pages.flat, child.frames.free);
      trace := RunChild(child, ram, events, Data(w));
      FewerFree(w, parent.frames.free);
    }
    forall v: nat | HasKind(parent.areas, AlignDown(v), Anon)
      ensures ReadByte(ram.data, parent.pages.flat, v) == old(ReadByte(ram.data, parent.pages.flat, v))
    {
      SameBytes(w, old(ram.data), ram.data, v);
    }
  }

  /** The entries of the parent stay writable: a store of the parent is seen by the child exactly where the two
      still share the frame. */
  lemma ParentStoreSeen(data: map<nat, seq<Byte>>, flat: map<nat, Pte>, copy: map<nat, Pte>, v: nat, b: Byte)
    requires AlignDown(v) in flat && AlignDown(v) in copy && flat[AlignDown(v)].addr in data
    requires |data[flat[AlignDown(v)].addr]| == FrameAllocator.PAGE_SIZE
    ensures var page := AlignDown(v); var f := flat[page].addr;
            ReadByte(data[f := data[f][v - page := b]], copy, v)
            == if copy[page].addr == f then Some(b) else ReadByte(data, copy, v)
  {
  }

  /** So right after a fork every store of the parent to an anonymous page shows up in the child. */
  lemma ForkSharesStores(areas: seq<Area>, flat: map<nat, Pte>, copy: map<nat, Pte>, data: map<nat, seq<Byte>>,
                         v: nat, b: Byte)
    requires Inherited(areas, flat, copy) && HasKind(areas, AlignDown(v), Anon)
    requires AlignDown(v) in flat && flat[AlignDown(v)].addr in data
    requires |data[flat[AlignDown(v)].addr]| == FrameAllocator.PAGE_SIZE
    ensures var page := AlignDown(v); var f := flat[page].addr;
            ReadByte(data[f := data[f][v - page := b]], copy, v) == Some(b)
  {
    assert InheritedAt(areas, flat, copy, AlignDown(v));
    ParentStoreSeen(data, flat, copy, v, b);
  }

  lemma DataCovered(w: View, data: map<nat, seq<Byte>>)
    requires Owners(w) && w.managed <= data.Keys
    ensures Data(w) <= data.Keys
  {
    DataApart(w);
  }
}
