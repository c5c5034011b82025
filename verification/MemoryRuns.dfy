/** Runs of calls on the page tables and on an address space. */
module MemoryRuns {
  import opened Options
  import opened FrameAllocator
  import opened PageTree
  import opened PageTables
  import opened Areas
  import opened AreaForms
  import opened FrameOwners
  import opened AddressSpaceSteps
  import opened AddressSpace
  import opened PhysicalMemory
  import opened Fork

  // ---------------------------------------------------------------- page tables

  datatype MmuCall = MapCall(v: nat, phys: nat, access: Access) | UnmapCall(v: nat) | RemapCall(v: nat, to: nat)

  predicate InUserHalf(c: MmuCall) {
    c.v < USER_END && (c.RemapCall? ==> c.to < USER_END)
  }

  /** What a call does to a flat page map, given whether it succeeded. */
  ghost function FlatAfter(flat: map<nat, Pte>, c: MmuCall, ok: bool, globalPages: bool): map<nat, Pte> {
    var page := AlignDown(c.v);
    match c
    case MapCall(v, phys, access) => if ok then flat[page := Pte(EntryAddr(phys), ArchFlags(access, globalPages))] else flat
    case UnmapCall(v) => flat - {page}
    case RemapCall(v, to) =>
      if page !in flat then flat
      else if ok then (flat - {page})[AlignDown(to) := flat[page]]
      else flat - {page}
  }

  ghost function FlatAfterAll(flat: map<nat, Pte>, cs: seq<MmuCall>, oks: seq<bool>, globalPages: bool): map<nat, Pte>
    requires |oks| == |cs|
  {
    if cs == [] then flat
    else
      var n := |cs| - 1;
      FlatAfter(FlatAfterAll(flat, cs[..n], oks[..n], globalPages), cs[n], oks[n], globalPages)
  }

  /** Any sequence of map, unmap and remap of single pages acts on the tables as on a flat map. */
  method RunMmu(ctx: MmuContext, cs: seq<MmuCall>) returns (oks: seq<bool>)
    requires ctx.Valid() && forall i :: 0 <= i < |cs| ==> InUserHalf(cs[i])
    modifies ctx, ctx.frames
    ensures ctx.Valid() && |oks| == |cs|
    ensures forall i :: 0 <= i < |cs| && cs[i].UnmapCall? ==>
              (oks[i] <==> AlignDown(cs[i].v) in FlatAfterAll(old(ctx.flat), cs[..i], oks[..i], ctx.globalPages))
    ensures ctx.flat == FlatAfterAll(old(ctx.flat), cs, oks, ctx.globalPages)
  {
    hide Sound;
    hide Frames.Valid;
    hide Spent;
    hide Grown;
    hide EntryAddr;
    oks := [];
    ghost var flat := ctx.flat;
    for i := 0 to |cs|
      invariant ctx.Valid() && |oks| == i && ctx.flat == FlatAfterAll(flat, cs[..i], oks, ctx.globalPages)
      invariant forall j :: 0 <= j < i && cs[j].UnmapCall? ==>
                  (oks[j] <==> AlignDown(cs[j].v) in FlatAfterAll(flat, cs[..j], oks[..j], ctx.globalPages))
    {
      assert cs[..i + 1][..i] == cs[..i] && InUserHalf(cs[i]);
      var ok;
      match cs[i] {
        case MapCall(v, phys, access) => ok := ctx.MapPage(v, phys, access);
        case UnmapCall(v) => ok := ctx.UnmapPage(v);
        case RemapCall(v, to) => ok := ctx.RemapPage(v, to);
      }
      ghost var before := oks;
      oks := oks + [ok];
      assert forall j :: 0 <= j <= i ==> oks[..j] == before[..j];
      assert before[..i] == before;
    }
    assert cs[..|cs|] == cs;
  }

  // ---------------------------------------------------------------- address spaces

  datatype Call =
    | Map(virt: nat, size: nat, flags: VmFlags, kind: Kind, alloc: AllocFlags, phys: nat)
    | Unmap(virt: nat, size: nat)
    | Split(virt: nat)
    | MergeAll
    | UnmapPages(virt: nat, size: nat)
    | Allocate(size: nat, flags: VmFlags, alloc: AllocFlags)
    | Release(virt: nat)
    | PageFault(virt: nat, fault: Fault)
    | Poke(virt: nat, b: Byte, user: bool)

  /** The call stays in the window for user memory. */
  predicate InWindow(c: Call) {
    match c
    case Map(virt, size, _, _, _, _) => AlignUp(virt + size) <= USER_SEARCH_END
    case UnmapPages(virt, size) => AlignUp(virt + size) <= USER_SEARCH_END
    case Allocate(size, flags, _) => flags.user && AlignUp(size) <= USER_SEARCH_END - USER_SEARCH_START
    case PageFault(virt, _) => virt < USER_END
    case Poke(virt, _, _) => virt < USER_END
    case Unmap(_, _) => true
    case Split(_) => true
    case Release(_) => true
    case MergeAll => true
  }

  ghost predicate Within(areas: seq<Area>) {
    forall v: nat :: USER_SEARCH_END <= v ==> AttrOf(areas, v) == None
  }

  /** Every translation allows exactly what the area of its page asks for. In particular no page is shared. */
  ghost predicate Obeys(areas: seq<Area>, flat: map<nat, Pte>) {
    forall v :: v in flat ==> ObeysAt(areas, flat[v].flags, v)
  }

  ghost predicate ObeysAt(areas: seq<Area>, flags: Flags, v: nat) {
    AttrOf(areas, v).Some? && Permits(AttrOf(areas, v).value.flags, flags)
  }

  // ---------------------------------------------------------------- what the calls do

  /** The range has these attributes, every other address has its own. */
  ghost predicate Given(areas: seq<Area>, areas': seq<Area>, from: nat, to: nat, flags: VmFlags, kind: Kind,
                        alloc: AllocFlags, phys: nat) {
    forall v: nat :: AttrOf(areas', v) ==
      if from <= v < to then Some(Attr(flags, kind, alloc, if kind == Phys then Some(phys + (v - from)) else None))
      else AttrOf(areas, v)
  }

  /** The pages of the area are translated as it asks for, all others as before. */
  ghost predicate Shows(w: View, w': View, a: Area) {
    AsAsked(a, w.flat, w'.flat) && SameOutside(w.flat, w'.flat, a.start, a.end)
  }

  ghost predicate Untouched(w: View, w': View) {
    w'.areas == w.areas && w'.flat == w.flat
  }

  ghost predicate DidMap(w: View, w': View, c: Call, ok: bool)
    requires c.Map?
  {
    var from, to := AlignDown(c.virt), AlignUp(c.virt + c.size);
    if ok then
      && from < to && Clear(w.areas, from, to)
      && Given(w.areas, w'.areas, from, to, c.flags, c.kind, c.alloc, c.phys)
      && Shows(w, w', Area(from, to, c.flags, c.kind, c.alloc, c.phys, 0))
    else
      && Untouched(w, w')
      && (from == to || !Clear(w.areas, from, to)
          || TooFewFrames(w.free, Area(from, to, c.flags, c.kind, c.alloc, c.phys, 0)))
  }

  ghost predicate DidAllocate(w: View, w': View, c: Call, ok: bool)
    requires c.Allocate?
  {
    var need := AlignUp(c.size);
    if ok then
      exists at: nat :: && LowestFit(w.areas, at, need)
                        && Given(w.areas, w'.areas, at, at + need, c.flags, Anon, c.alloc, 0)
                        && Shows(w, w', Area(at, at + need, c.flags, Anon, c.alloc, 0, 0))
    else
      && Untouched(w, w')
      && (c.size == 0 || NoFit(w.areas, need) || TooFewFrames(w.free, Area(0, need, c.flags, Anon, c.alloc, 0, 0)))
  }

  /** The addresses of [from, to) lost attributes and translations, and no others did. */
  ghost predicate Lost(w: View, w': View, from: nat, to: nat) {
    Cleared(w.areas, w'.areas, from, to) && w'.flat == w.flat - Pages(from, to)
  }

  ghost predicate DidUnmap(w: View, w': View, c: Call, ok: bool)
    requires c.Unmap?
  {
    var from, to := AlignDown(c.virt), AlignUp(c.virt + c.size);
    if ok then !NoneSpans(w.areas, from, to) && Lost(w, w', from, to)
    else NoneSpans(w.areas, from, to) && Untouched(w, w')
  }

  ghost predicate DidUnmapPages(w: View, w': View, c: Call, ok: bool)
    requires c.UnmapPages?
  {
    && (ok ==> c.size != 0 && Aligned(c.virt) && Lost(w, w', c.virt, AlignUp(c.virt + c.size)))
    && (!ok ==> exists reached: nat :: c.virt <= reached <= AlignUp(c.virt + c.size) && Lost(w, w', c.virt, reached))
    && (|w.free| >= 2 && c.size != 0 && Aligned(c.virt) ==> ok)
  }

  ghost predicate DidRelease(w: View, w': View, c: Call, ok: bool)
    requires c.Release?
  {
    if ok then exists i :: 0 <= i < |w.areas| && w.areas[i].start == c.virt && Lost(w, w', c.virt, w.areas[i].end)
    else Untouched(w, w') && forall i :: 0 <= i < |w.areas| ==> w.areas[i].start != c.virt
  }

  ghost predicate DidFault(w: View, w': View, c: Call, ok: bool)
    requires c.PageFault?
  {
    && w'.areas == w.areas
    && (ok ==> IsLazyFault(w.areas, w.flat, c.virt) && w'.flat.Keys == w.flat.Keys + {AlignDown(c.virt)}
               && w'.flat - {AlignDown(c.virt)} == w.flat)
    && (!ok ==> w'.flat == w.flat)
    && (IsLazyFault(w.areas, w.flat, c.virt) ==> ok || Short(w.free, FrameAllocator.PAGE_SIZE))
  }

  ghost predicate Did(w: View, w': View, c: Call, ok: bool) {
    match c
    case Map(_, _, _, _, _, _) => DidMap(w, w', c, ok)
    case Allocate(_, _, _) => DidAllocate(w, w', c, ok)
    case Unmap(_, _) => DidUnmap(w, w', c, ok)
    case Split(virt) =>
      && SameMeaning(w'.areas, w.areas) && w'.flat == w.flat
      && (ok <==> Straddled(w.areas, AlignDown(virt)) && w.free != {})
      && |w'.areas| == |w.areas| + if ok then 1 else 0
    case MergeAll => ok && SameMeaning(w'.areas, w.areas) && Maximal(w'.areas) && w'.flat == w.flat
    case UnmapPages(_, _) => DidUnmapPages(w, w', c, ok)
    case Release(_) => DidRelease(w, w', c, ok)
    case PageFault(_, _) => DidFault(w, w', c, ok)
    case Poke(_, _, _) => Untouched(w, w') && w'.free == w.free
  }

  lemma WithinEnds(areas: seq<Area>)
    requires Sorted(areas) && Within(areas)
    ensures forall i :: 0 <= i < |areas| ==> areas[i].end <= USER_SEARCH_END
  {
    hide AttrOf;
    forall i | 0 <= i < |areas|
      ensures areas[i].end <= USER_SEARCH_END
    {
      assert WellFormed(areas[i]);
      KindInArea(areas, i);
      assert Contains(areas[i], areas[i].end - 1) && AttrOf(areas, areas[i].end - 1).Some?;
    }
  }

  lemma WithinInserted(areas: seq<Area>, a: Area)
    requires Sorted(areas) && WellFormed(a) && Clear(areas, a.start, a.end) && Within(areas) && a.end <= USER_SEARCH_END
    ensures Within(Insert(areas, a))
  {
    hide AttrOf;
    InsertKeeps(areas, a);
  }

  lemma WithinCleared(areas: seq<Area>, areas': seq<Area>, from: nat, to: nat)
    requires Within(areas) && (Cleared(areas, areas', from, to) || SameMeaning(areas', areas))
    ensures Within(areas')
  {
    hide AttrOf;
  }

  lemma ObeysMapped(areas: seq<Area>, a: Area, flat: map<nat, Pte>, flat': map<nat, Pte>)
    requires Sorted(areas) && WellFormed(a) && Clear(areas, a.start, a.end) && Obeys(areas, flat)
    requires SameOutside(flat, flat', a.start, a.end) && AsAsked(a, flat, flat')
    requires forall v :: v in flat' ==> IsPage(v)
    ensures Obeys(Insert(areas, a), flat')
  {
    hide AttrOf;
    hide Permits;
    hide Insert;
    InsertKeeps(areas, a);
    ClearNoAttr(areas, a.start, a.end);
    forall v | v in flat'
      ensures ObeysAt(Insert(areas, a), flat'[v].flags, v)
    {
      if a.start <= v < a.end {
        assert IsPage(v) && v in Pages(a.start, a.end);
        assert v in flat ==> ObeysAt(areas, flat[v].flags, v);
      } else {
        assert Lookup(flat', v) == Lookup(flat, v);
        assert ObeysAt(areas, flat[v].flags, v);
      }
    }
  }

  lemma ClearNoAttr(areas: seq<Area>, from: nat, to: nat)
    requires Clear(areas, from, to)
    ensures forall v: nat :: from <= v < to ==> AttrOf(areas, v) == None
  {
    forall v: nat | from <= v < to
      ensures AttrOf(areas, v) == None
    {
      AttrOfSome(areas, v);
    }
  }

  lemma ObeysLost(w: View, w': View, from: nat, to: nat)
    requires Obeys(w.areas, w.flat) && Lost(w, w', from, to) && forall v :: v in w.flat ==> IsPage(v)
    ensures Obeys(w'.areas, w'.flat)
  {
    hide AttrOf;
    hide Permits;
    forall v | v in w'.flat
      ensures ObeysAt(w'.areas, w'.flat[v].flags, v)
    {
      assert IsPage(v) && v !in Pages(from, to);
      assert ObeysAt(w.areas, w.flat[v].flags, v);
    }
  }

  lemma ObeysSame(areas: seq<Area>, areas': seq<Area>, flat: map<nat, Pte>)
    requires Obeys(areas, flat) && SameMeaning(areas', areas)
    ensures Obeys(areas', flat)
  {
    hide AttrOf;
    hide Permits;
    forall v | v in flat
      ensures ObeysAt(areas', flat[v].flags, v)
    {
      assert ObeysAt(areas, flat[v].flags, v);
    }
  }

  /** vmm_handle_page_fault in a space that shares nothing. */
  method OwnFault(space: VmSpace, ram: Ram, v: nat, fault: Fault) returns (ok: bool)
    requires space.Valid() && Obeys(space.areas, space.pages.flat) && ram.Covers(space.frames.managed) && v < USER_END
    modifies space.pages, space.frames, ram
    ensures space.Valid() && Obeys(space.areas, space.pages.flat) && ram.Covers(space.frames.managed)
    ensures Conserved(old(space.ViewOf(space.areas)), space.ViewOf(space.areas))
    ensures DidFault(old(space.ViewOf(space.areas)), space.ViewOf(space.areas), PageFault(v, fault), ok)
  {
    hide Sound;
    hide Frames.Valid;
    hide Owners;
    hide Conserved;
    hide AttrOf;
    hide TotalSize;
    hide TakenFrom;
    hide PhysMapped;
    hide Obeys;
    hide Short;
    hide Permits;
    hide IsLazyFault;
    ghost var w, page := space.ViewOf(space.areas), AlignDown(v);
    NoCow(space.areas, w.flat, v, fault, space.frames.managed);
    ghost var f;
    ok, f := HandleFault(space, ram, v, fault);
    ghost var w' := space.ViewOf(space.areas);
    if ok {
      FaultFacts(space.areas, v, w.flat);
      ghost var e := Pte(f, ArchFlags(ToAccess(AttrOf(space.areas, v).value.flags), space.pages.globalPages));
      PageBacked(w, w', page, e, true);
      StillPhysMapped(space.areas, w.flat, w'.flat);
      ObeysFault(space.areas, w.flat, w'.flat, v);
    } else {
      OnlyTables(w, w');
    }
  }

  lemma NoCow(areas: seq<Area>, flat: map<nat, Pte>, v: nat, fault: Fault, managed: set<nat>)
    requires Obeys(areas, flat)
    ensures CowManaged(flat, managed) && !IsCowFault(areas, flat, v, fault)
  {
    hide AttrOf;
    forall u | u in flat
      ensures !flat[u].flags.cow
    {
      assert ObeysAt(areas, flat[u].flags, u);
    }
  }

  lemma FaultFacts(areas: seq<Area>, v: nat, flat: map<nat, Pte>)
    requires Sorted(areas) && IsLazyFault(areas, flat, v)
    ensures HasKind(areas, AlignDown(v), Anon) && AlignDown(v) !in flat
  {
    SamePageAttr(areas, v);
  }

  lemma ObeysFault(areas: seq<Area>, flat: map<nat, Pte>, flat': map<nat, Pte>, v: nat)
    requires Sorted(areas) && Obeys(areas, flat) && AttrOf(areas, v).Some? && AlignDown(v) in flat'
    requires flat' == flat[AlignDown(v) := flat'[AlignDown(v)]]
    requires Permits(AttrOf(areas, v).value.flags, flat'[AlignDown(v)].flags)
    ensures Obeys(areas, flat')
  {
    hide AttrOf;
    hide Permits;
    SamePageAttr(areas, v);
    forall u | u in flat'
      ensures ObeysAt(areas, flat'[u].flags, u)
    {
      assert u != AlignDown(v) ==> ObeysAt(areas, flat[u].flags, u);
    }
  }

  lemma OnlyTables(w: View, w': View)
    requires Owners(w) && w.tables <= w'.tables && w'.areas == w.areas && w'.managed == w.managed && w'.flat == w.flat
    requires TakenFrom(w.free, w'.free, w'.tables - w.tables, {})
    ensures Owners(w') && Conserved(w, w')
  {
    hide Owners;
    hide Conserved;
    assert w.free - w'.free == w'.tables - w.tables;
    TablesGrow(w, w'.tables, w'.free);
  }

  /** Areas are made of whole pages. */
  lemma SamePageAttr(areas: seq<Area>, v: nat)
    requires Sorted(areas)
    ensures HasKind(areas, v, Anon) ==> HasKind(areas, AlignDown(v), Anon)
    ensures AttrOf(areas, v).Some? ==>
              AttrOf(areas, AlignDown(v)).Some? && AttrOf(areas, AlignDown(v)).value.flags == AttrOf(areas, v).value.flags
  {
    AttrOfSome(areas, v);
    if i :| 0 <= i < |areas| && Contains(areas[i], v) {
      assert WellFormed(areas[i]);
      AttrOfAt(areas, i, v);
      AttrOfAt(areas, i, AlignDown(v));
    }
  }

  lemma StillPhysMapped(areas: seq<Area>, flat: map<nat, Pte>, flat': map<nat, Pte>)
    requires PhysMapped(areas, flat) && flat.Keys <= flat'.Keys
    ensures PhysMapped(areas, flat')
  {
    hide AttrOf;
    forall v: nat | IsPage(v) && HasKind(areas, v, Phys)
      ensures v in flat'
    {
      assert v in flat.Keys;
    }
  }

  ghost predicate Ready(space: VmSpace, ram: Ram)
    reads space, space.pages, space.frames, ram
  {
    && space.Valid() && Within(space.areas) && Obeys(space.areas, space.pages.flat) && ram.Covers(space.frames.managed)
  }

  method MapCallOn(space: VmSpace, ram: Ram, c: Call) returns (ok: bool)
    requires Ready(space, ram) && InWindow(c) && c.Map?
    modifies space, space.pages, space.frames
    ensures Ready(space, ram) && Conserved(old(space.ViewOf(space.areas)), space.ViewOf(space.areas))
    ensures DidMap(old(space.ViewOf(space.areas)), space.ViewOf(space.areas), c, ok)
  {
    hide Sound;
    hide Frames.Valid;
    hide Owners;
    hide Conserved;
    hide AttrOf;
    hide TotalSize;
    hide PhysMapped;
    hide Populated;
    hide AsAsked;
    hide Insert;
    hide Within;
    hide Obeys;
    hide Given;
    hide TooFewFrames;
    hide SameOutside;
    ghost var a: Area;
    ghost var areas0, flat0, w0 := space.areas, space.pages.flat, space.ViewOf(space.areas);
    WindowInUserHalf();
    ok, a := space.MapRegion(c.virt, c.size, c.flags, c.kind, c.alloc, c.phys);
    SameManaged(w0, space.ViewOf(space.areas));
    if ok {
      AfterInsert(areas0, a, flat0, space.pages);
      ShowsSame(w0, space.ViewOf(space.areas), a);
    } else {
      SameNeed(w0.free, a, Area(a.start, a.end, c.flags, c.kind, c.alloc, c.phys, 0));
    }
  }

  method AllocateCallOn(space: VmSpace, ram: Ram, c: Call) returns (ok: bool)
    requires Ready(space, ram) && InWindow(c) && c.Allocate?
    modifies space, space.pages, space.frames
    ensures Ready(space, ram) && Conserved(old(space.ViewOf(space.areas)), space.ViewOf(space.areas))
    ensures DidAllocate(old(space.ViewOf(space.areas)), space.ViewOf(space.areas), c, ok)
  {
    hide Sound;
    hide Frames.Valid;
    hide Owners;
    hide Conserved;
    hide AttrOf;
    hide TotalSize;
    hide PhysMapped;
    hide Populated;
    hide AsAsked;
    hide Insert;
    hide Within;
    hide Obeys;
    hide Given;
    hide TooFewFrames;
    hide SameOutside;
    hide LowestFit;
    hide NoFit;
    ghost var a: Area;
    ghost var areas0, flat0, w0 := space.areas, space.pages.flat, space.ViewOf(space.areas);
    WithinEnds(space.areas);
    var at;
    at, a := space.AllocRegion(c.size, c.flags, c.alloc);
    ok := at != 0;
    SameManaged(w0, space.ViewOf(space.areas));
    if ok {
      FitIsClear(areas0, at, AlignUp(c.size));
      AfterInsert(areas0, a, flat0, space.pages);
      ShowsSame(w0, space.ViewOf(space.areas), a);
      assert Given(areas0, space.areas, at, at + AlignUp(c.size), c.flags, Anon, c.alloc, 0);
    } else if c.size > 0 {
      SameNeed(w0.free, a, Area(0, AlignUp(c.size), c.flags, Anon, c.alloc, 0, 0));
    }
  }

  lemma SameNeed(free: set<nat>, a: Area, b: Area)
    requires a.start <= a.end && b.start <= b.end && a.end - a.start == b.end - b.start
    requires a.kind == b.kind && a.alloc == b.alloc
    ensures TooFewFrames(free, a) <==> TooFewFrames(free, b)
  {
  }

  lemma ShowsSame(w: View, w': View, a: Area)
    requires AsAsked(a, w.flat, w'.flat) && SameOutside(w.flat, w'.flat, a.start, a.end)
    ensures Shows(w, w', a.(node := 0))
  {
  }

  /** What a new area means for the whole space. */
  lemma AfterInsert(areas: seq<Area>, a: Area, flat: map<nat, Pte>, pages: MmuContext)
    requires Sorted(areas) && Sorted(Insert(areas, a)) && Clear(areas, a.start, a.end) && a.end <= USER_SEARCH_END
    requires Within(areas) && Obeys(areas, flat) && pages.Valid()
    requires SameOutside(flat, pages.flat, a.start, a.end) && AsAsked(a, flat, pages.flat)
    ensures Within(Insert(areas, a)) && Obeys(Insert(areas, a), pages.flat)
    ensures Given(areas, Insert(areas, a), a.start, a.end, a.flags, a.kind, a.alloc, a.phys)
  {
    hide AttrOf;
    hide Insert;
    hide Within;
    hide Obeys;
    hide AsAsked;
    hide SameOutside;
    hide Sound;
    InsertedWellFormed(areas, a);
    FlatPages(pages);
    InsertKeeps(areas, a);
    ObeysMapped(areas, a, flat, pages.flat);
    WithinInserted(areas, a);
  }

  lemma WindowInUserHalf()
    ensures USER_SEARCH_END <= USER_END
  {
  }

  lemma FitIsClear(areas: seq<Area>, at: nat, need: nat)
    requires LowestFit(areas, at, need)
    ensures Clear(areas, at, at + need) && at + need <= USER_SEARCH_END
  {
  }

  lemma SameManaged(w: View, w': View)
    requires Conserved(w, w')
    ensures w'.managed == w.managed
  {
  }

  lemma InsertedWellFormed(areas: seq<Area>, a: Area)
    requires Sorted(Insert(areas, a))
    ensures WellFormed(a)
  {
    hide Insert;
    var k := InsertPlace(areas, a);
    assert Insert(areas, a)[k] == a;
  }

  method UnmapCallOn(space: VmSpace, ram: Ram, c: Call) returns (ok: bool)
    requires Ready(space, ram) && InWindow(c) && (c.Unmap? || c.UnmapPages? || c.Release?)
    modifies space, space.pages, space.frames
    ensures Ready(space, ram) && Conserved(old(space.ViewOf(space.areas)), space.ViewOf(space.areas))
    ensures Did(old(space.ViewOf(space.areas)), space.ViewOf(space.areas), c, ok)
  {
    hide Sound;
    hide Frames.Valid;
    hide Owners;
    hide Conserved;
    hide AttrOf;
    hide TotalSize;
    hide PhysMapped;
    hide Within;
    hide Obeys;
    hide Cleared;
    hide SameMeaning;
    ghost var w0 := space.ViewOf(space.areas);
    FlatPages(space.pages);
    ghost var from, to := 0, 0;
    if c.Unmap? {
      from, to := AlignDown(c.virt), AlignUp(c.virt + c.size);
      var done, at := space.UnmapRegion(c.virt, c.size);
      ok := done;
    } else if c.UnmapPages? {
      WindowInUserHalf();
      var done, reached := space.Munmap(c.virt, c.size);
      ok := done;
      from, to := c.virt, reached;
    } else {
      var done, i := space.FreeRegion(c.virt);
      ok := done;
      if ok {
        from, to := c.virt, w0.areas[i].end;
      }
    }
    ghost var w1 := space.ViewOf(space.areas);
    SameManaged(w0, w1);
    if space.areas == w0.areas {
      SameMeaningSelf(w0.areas);
    }
    WithinCleared(w0.areas, space.areas, from, to);
    if Lost(w0, w1, from, to) {
      ObeysLost(w0, w1, from, to);
    }
  }

  method ShapeCallOn(space: VmSpace, ram: Ram, c: Call) returns (ok: bool)
    requires Ready(space, ram) && (c.Split? || c.MergeAll?)
    modifies space, space.frames
    ensures Ready(space, ram) && Conserved(old(space.ViewOf(space.areas)), space.ViewOf(space.areas))
    ensures Did(old(space.ViewOf(space.areas)), space.ViewOf(space.areas), c, ok)
  {
    hide Sound;
    hide Frames.Valid;
    hide Owners;
    hide Conserved;
    hide AttrOf;
    hide TotalSize;
    hide PhysMapped;
    hide Within;
    hide Obeys;
    hide SameMeaning;
    hide Merge;
    hide Maximal;
    hide WasSplit;
    hide AreaForms.SplitRegion;
    hide Straddled;
    ghost var w0 := space.ViewOf(space.areas);
    SameMeaningSelf(w0.areas);
    if c.Split? {
      var done, i, node := space.SplitRegion(c.virt);
      ok := done;
      if ok {
        SplitListed(w0.areas, space.areas, i, AlignDown(c.virt), node, w0.flat);
        OneMore(w0.areas, space.areas, i, AlignDown(c.virt), node);
      }
    } else {
      var n := space.MergeRegions();
      ok := true;
    }
    SameManaged(w0, space.ViewOf(space.areas));
    WithinCleared(w0.areas, space.areas, 0, 0);
    ObeysSame(w0.areas, space.areas, w0.flat);
  }

  lemma OneMore(areas: seq<Area>, areas': seq<Area>, i: nat, at: nat, node: nat)
    requires WasSplit(areas, areas', i, at, node)
    ensures |areas'| == |areas| + 1
  {
  }

  lemma SameMeaningSelf(areas: seq<Area>)
    ensures SameMeaning(areas, areas)
  {
  }

  // ---------------------------------------------------------------- stores

  /** Of all memory that the space shows through anonymous pages, exactly this byte changed, and of all frames one. */
  ghost predicate StoredOne(areas: seq<Area>, flat: map<nat, Pte>, data: map<nat, seq<Byte>>,
                            data': map<nat, seq<Byte>>, v: nat, b: Byte) {
    && ReadByte(data', flat, v) == Some(b)
    && (forall u: nat :: u != v && HasKind(areas, AlignDown(u), Anon) ==>
          ReadByte(data', flat, u) == ReadByte(data, flat, u))
    && exists f :: f in data && f in data' && |data'[f]| == |data[f]| && data' - {f} == data - {f}
  }

  lemma StoreHits(w: View, data: map<nat, seq<Byte>>, v: nat, b: Byte)
    requires Owners(w) && w.managed <= data.Keys && forall f :: f in data ==> |data[f]| == FrameAllocator.PAGE_SIZE
    requires AlignDown(v) in w.flat && HasKind(w.areas, AlignDown(v), Anon)
    ensures var page := AlignDown(v); var f := w.flat[page].addr;
            f in data && StoredOne(w.areas, w.flat, data, data[f := data[f][v - page := b]], v, b)
  {
    hide AttrOf;
    var page := AlignDown(v);
    assert OwnsPage(w, page);
    var f := w.flat[page].addr;
    var data' := data[f := data[f][v - page := b]];
    forall u: nat | u != v && HasKind(w.areas, AlignDown(u), Anon)
      ensures ReadByte(data', w.flat, u) == ReadByte(data, w.flat, u)
    {
      if AlignDown(u) in w.flat {
        assert OwnsPage(w, AlignDown(u));
      }
    }
    assert data' - {f} == data - {f};
  }

  /** A store goes through exactly if the area of its page is writable, and open to the program if it is the program
      that stores. Then exactly that byte changes, and otherwise nothing. */
  method StoreIn(space: VmSpace, ram: Ram, v: nat, b: Byte, user: bool)
    requires Ready(space, ram) && v < USER_END
    modifies ram
    ensures Ready(space, ram)
    ensures var page := AlignDown(v); var attr := AttrOf(space.areas, page);
            if page in space.pages.flat && attr.Some? && attr.value.flags.write && (user ==> attr.value.flags.user)
            then attr.value.kind == Anon ==> StoredOne(space.areas, space.pages.flat, old(ram.data), ram.data, v, b)
            else ram.data == old(ram.data)
  {
    hide Sound;
    hide Frames.Valid;
    hide Owners;
    hide AttrOf;
    hide TotalSize;
    hide PhysMapped;
    hide Within;
    hide StoredOne;
    var page := AlignDown(v);
    if page in space.pages.flat {
      assert ObeysAt(space.areas, space.pages.flat[page].flags, page);
      if HasKind(space.areas, page, Anon) {
        StoreHits(space.ViewOf(space.areas), ram.data, v, b);
      }
    }
    StoreByte(space.pages, ram, v, b, user);
  }

  /** A region of anonymous memory that is mapped at once, and a store to it: with write access, and user access for a
      store of the program, exactly that byte changes, and otherwise nothing. */
  method MapThenStore(space: VmSpace, ram: Ram, virt: nat, size: nat, flags: VmFlags, zero: bool, v: nat, b: Byte,
                      user: bool) returns (ok: bool)
    requires Ready(space, ram) && AlignUp(virt + size) <= USER_SEARCH_END
    requires AlignDown(virt) <= v < AlignUp(virt + size)
    modifies space, space.pages, space.frames, ram
    ensures Ready(space, ram)
    ensures ok ==> if flags.write && (user ==> flags.user)
                   then StoredOne(space.areas, space.pages.flat, old(ram.data), ram.data, v, b)
                   else ram.data == old(ram.data)
  {
    hide Ready;
    hide Conserved;
    hide StoredOne;
    hide Clear;
    hide TooFewFrames;
    hide SameOutside;
    hide Permits;
    hide AttrOf;
    ghost var w0 := space.ViewOf(space.areas);
    ok := MapCallOn(space, ram, Map(virt, size, flags, Anon, AllocFlags(false, zero, false), 0));
    if ok {
      InPages(v, AlignDown(virt), AlignUp(virt + size));
      StoreIn(space, ram, v, b, user);
    }
  }

  lemma InPages(v: nat, from: nat, to: nat)
    requires Aligned(from) && Aligned(to) && from <= v < to <= USER_SEARCH_END
    ensures AlignDown(v) in Pages(from, to) && v < USER_END && from <= AlignDown(v) < to
  {
  }

  // ---------------------------------------------------------------- runs

  method CallOn(space: VmSpace, ram: Ram, c: Call) returns (ok: bool)
    requires Ready(space, ram) && InWindow(c)
    modifies space, space.pages, space.frames, ram
    ensures Ready(space, ram) && Conserved(old(space.ViewOf(space.areas)), space.ViewOf(space.areas))
    ensures Did(old(space.ViewOf(space.areas)), space.ViewOf(space.areas), c, ok)
  {
    hide Conserved;
    hide DidMap;
    hide DidAllocate;
    hide DidUnmap;
    hide DidUnmapPages;
    hide DidRelease;
    hide DidFault;
    hide Owners;
    hide Sound;
    hide Frames.Valid;
    hide Listed;
    hide TotalSize;
    hide PhysMapped;
    hide Within;
    hide Obeys;
    hide StoredOne;
    hide AttrOf;
    if c.Map? {
      ok := MapCallOn(space, ram, c);
    } else if c.Allocate? {
      ok := AllocateCallOn(space, ram, c);
    } else if c.Split? || c.MergeAll? {
      ok := ShapeCallOn(space, ram, c);
    } else if c.PageFault? {
      ghost var w0 := space.ViewOf(space.areas);
      ok := OwnFault(space, ram, c.virt, c.fault);
      FaultOf(w0, space.ViewOf(space.areas), c, ok);
    } else if c.Poke? {
      ConservedSame(space.ViewOf(space.areas));
      StoreIn(space, ram, c.virt, c.b, c.user);
      ok := true;
    } else {
      ok := UnmapCallOn(space, ram, c);
    }
  }

  lemma FaultOf(w: View, w': View, c: Call, ok: bool)
    requires c.PageFault? && DidFault(w, w', PageFault(c.virt, c.fault), ok)
    ensures w'.areas == w.areas && DidFault(w, w', c, ok)
  {
    assert c == PageFault(c.virt, c.fault);
  }

  /** Every call of the run did what it says. */
  ghost predicate AllDid(trace: seq<View>, cs: seq<Call>, oks: seq<bool>) {
    && |trace| == |oks| + 1 && |oks| <= |cs|
    && forall i :: 0 <= i < |oks| ==> Did(trace[i], trace[i + 1], cs[i], oks[i])
  }

  /** Over every run without fork, of mapping, unmapping, splitting, merging, allocation, freeing, page faults and
      stores: every call does to attributes and translations what it says, every translation allows exactly what its
      area asks for, every frame has one owner, none is lost and none appears. */
  method RunCalls(space: VmSpace, ram: Ram, cs: seq<Call>) returns (oks: seq<bool>, ghost trace: seq<View>)
    requires Ready(space, ram) && forall i :: 0 <= i < |cs| ==> InWindow(cs[i])
    modifies space, space.pages, space.frames, ram
    ensures Ready(space, ram) && Obeys(space.areas, space.pages.flat)
    ensures Conserved(old(space.ViewOf(space.areas)), space.ViewOf(space.areas))
    ensures |oks| == |cs| && AllDid(trace, cs, oks)
    ensures trace[0] == old(space.ViewOf(space.areas)) && trace[|cs|] == space.ViewOf(space.areas)
  {
    hide Conserved;
    hide InWindow;
    hide Did;
    hide Owners;
    hide Sound;
    hide Frames.Valid;
    hide Listed;
    hide TotalSize;
    hide PhysMapped;
    hide Within;
    hide Obeys;
    ghost var w0 := space.ViewOf(space.areas);
    ConservedSame(w0);
    oks, trace := [], [w0];
    for i := 0 to |cs|
      invariant Ready(space, ram) && Conserved(w0, space.ViewOf(space.areas))
      invariant |oks| == i && AllDid(trace, cs, oks) && trace[0] == w0 && trace[i] == space.ViewOf(space.areas)
    {
      ghost var w1 := space.ViewOf(space.areas);
      var ok := CallOn(space, ram, cs[i]);
      ConservedTrans(w0, w1, space.ViewOf(space.areas));
      oks, trace := oks + [ok], trace + [space.ViewOf(space.areas)];
    }
  }
}
