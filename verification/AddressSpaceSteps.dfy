/** What the operations of an address space keep: order, translations of physical mappings, frame owners. */
module AddressSpaceSteps {
  import opened Options
  import opened FrameAllocator
  import opened PageTree
  import opened PageTables
  import opened Areas
  import opened AreaForms
  import opened FrameOwners

  /** vmm_flags_to_mmu, without the execute flag that mmu_map_page does not look at. */
  function ToAccess(flags: VmFlags): Access {
    Access(flags.write, flags.user, flags.nocache, false)
  }

  ghost predicate Listed(areas: seq<Area>) {
    Sorted(areas) && forall i :: 0 <= i < |areas| ==> areas[i].end <= USER_END
  }

  lemma ListedSorted(areas: seq<Area>)
    requires Listed(areas)
    ensures Sorted(areas)
  {
  }

  /** Every page of a physical mapping is translated. */
  ghost predicate PhysMapped(areas: seq<Area>, flat: map<nat, Pte>) {
    forall v: nat :: IsPage(v) && HasKind(areas, v, Phys) ==> v in flat
  }

  /** All pages in [from, to) belong to areas of one kind. */
  ghost predicate AllKind(areas: seq<Area>, from: nat, to: nat, kind: Kind) {
    forall v: nat :: from <= v < to ==> HasKind(areas, v, kind)
  }

  /** The two maps agree outside [from, to). */
  ghost predicate SameOutside(flat: map<nat, Pte>, flat': map<nat, Pte>, from: nat, to: nat) {
    forall v: nat :: v < from || to <= v ==> Lookup(flat', v) == Lookup(flat, v)
  }

  /** If nothing but tables came into use, then the tables account for the frames that are gone. */
  lemma OnlyTablesTaken(w: View, w': View)
    requires Owners(w) && Owners(w') && Conserved(w, w')
    requires w'.areas == w.areas && w'.flat == w.flat && w.tables <= w'.tables
    ensures w'.free == w.free - (w'.tables - w.tables)
  {
    hide AttrOf;
    assert Data(w') == Data(w);
    DataApart(w);
    DataApart(w');
    forall f
      ensures f in w'.free <==> f in w.free - (w'.tables - w.tables)
    {
      assert f in w'.free + Owned(w') <==> f in w.free + Owned(w);
    }
  }

  lemma ConservedTrans(a: View, b: View, c: View)
    requires Conserved(a, b) && Conserved(b, c)
    ensures Conserved(a, c)
  {
  }

  predicate Eager(a: Area) {
    a.kind.Anon? && !a.alloc.lazy && !a.alloc.cow
  }

  /** Every page of the range is translated with these flags. */
  ghost predicate BackedPages(flat: map<nat, Pte>, from: nat, to: nat, flags: Flags) {
    forall v :: v in Pages(from, to) ==> v in flat && flat[v].flags == flags
  }

  /** Every page of the range is translated to its physical address with these flags. */
  ghost predicate PhysPages(flat: map<nat, Pte>, from: nat, to: nat, phys: nat, flags: Flags) {
    forall v :: v in Pages(from, to) ==> v in flat && flat[v] == Pte(EntryAddr(phys + (v - from)), flags)
  }

  /** The areas map [from, to) to consecutive physical addresses. */
  ghost predicate ShowsPhys(areas: seq<Area>, from: nat, to: nat, phys: nat) {
    forall v: nat :: from <= v < to ==> PhysOf(areas, v) == Some(phys + (v - from))
  }

  lemma NothingBacked(flat: map<nat, Pte>, from: nat, flags: Flags)
    ensures BackedPages(flat, from, from, flags) && SameOutside(flat, flat, from, from)
  {
  }

  lemma NothingShown(flat: map<nat, Pte>, from: nat, phys: nat, flags: Flags)
    ensures PhysPages(flat, from, from, phys, flags) && SameOutside(flat, flat, from, from)
  {
  }

  lemma OutsideSelf(flat: map<nat, Pte>, from: nat, to: nat)
    ensures SameOutside(flat, flat, from, to)
  {
  }

  lemma StillOutside(flat: map<nat, Pte>, flat': map<nat, Pte>, from: nat, v: nat)
    requires SameOutside(flat, flat', from, v)
    ensures v in flat' <==> v in flat
  {
    assert Lookup(flat', v) == Lookup(flat, v);
  }

  lemma OutsideStep(flat: map<nat, Pte>, mid: map<nat, Pte>, after: map<nat, Pte>, from: nat, v: nat)
    requires SameOutside(flat, mid, from, v) && from <= v && v in after && after == mid[v := after[v]]
    ensures SameOutside(flat, after, from, v + PageTree.PAGE_SIZE)
  {
    forall u: nat | u < from || v + PageTree.PAGE_SIZE <= u
      ensures Lookup(after, u) == Lookup(flat, u)
    {
      assert Lookup(mid, u) == Lookup(flat, u);
    }
  }

  lemma BackedStep(mid: map<nat, Pte>, after: map<nat, Pte>, from: nat, v: nat, flags: Flags)
    requires BackedPages(mid, from, v, flags) && from <= v && Aligned(v)
    requires v in after && after == mid[v := after[v]] && after[v].flags == flags
    ensures BackedPages(after, from, v + PageTree.PAGE_SIZE, flags)
  {
    PagesExtend(from, v);
  }

  lemma PhysStep(mid: map<nat, Pte>, after: map<nat, Pte>, from: nat, v: nat, phys: nat, flags: Flags)
    requires PhysPages(mid, from, v, phys, flags) && from <= v && Aligned(v)
    requires after == mid[v := Pte(EntryAddr(phys + (v - from)), flags)]
    ensures PhysPages(after, from, v + PageTree.PAGE_SIZE, phys, flags)
  {
    hide EntryAddr;
    PagesExtend(from, v);
  }

  /** What the translations of a new area look like after vmm_map_region_internal. */
  ghost predicate Populated(a: Area, before: map<nat, Pte>, after: map<nat, Pte>, globalPages: bool) {
    var flags := ArchFlags(ToAccess(a.flags), globalPages);
    if a.kind.Phys? then PhysPages(after, a.start, a.end, a.phys, flags)
    else if Eager(a) then BackedPages(after, a.start, a.end, flags)
    else after == before
  }

  /** An entry allows what the flags of an area ask for; whether they ask for execution makes no difference. */
  predicate Permits(flags: VmFlags, e: Flags) {
    && e.present && !e.cow && !e.nx && !e.global
    && (e.writable <==> flags.write)
    && (e.user <==> flags.user)
    && (e.nocache <==> flags.nocache)
  }

  /** Every page of the range is translated, with what the flags ask for. */
  ghost predicate PermitsAll(flags: VmFlags, flat: map<nat, Pte>, from: nat, to: nat) {
    forall v :: v in Pages(from, to) ==> v in flat && Permits(flags, flat[v].flags)
  }

  /** The pages of a new area are translated at once, with what it asks for, if it shows physical memory or is anonymous
      and neither lazy nor copy-on-write; otherwise no translation changes. */
  ghost predicate AsAsked(a: Area, before: map<nat, Pte>, after: map<nat, Pte>) {
    if a.kind == Phys || (a.kind == Anon && !a.alloc.lazy && !a.alloc.cow)
    then PermitsAll(a.flags, after, a.start, a.end)
    else after == before
  }

  lemma PopulatedAsAsked(a: Area, before: map<nat, Pte>, after: map<nat, Pte>, globalPages: bool)
    requires Populated(a, before, after, globalPages)
    ensures AsAsked(a, before, after)
  {
    hide EntryAddr;
  }

  /** A page takes at most four frames: its own and one for each level of tables below the root. */
  const BYTES_PER_FRAME: nat := 1024

  /** The frames of new tables and of data, apart from each other, were free and are not any more. */
  ghost predicate TakenFrom(free: set<nat>, free': set<nat>, tables: set<nat>, data: set<nat>) {
    tables <= free && data <= free && tables !! data && free' == free - tables - data
  }

  lemma GrownTaken(free: set<nat>, free': set<nat>, tables: set<nat>, tables': set<nat>, f: nat)
    requires f in free && free' <= free - {f} && tables' - tables == (free - {f}) - free'
    ensures TakenFrom(free, free', tables' - tables, {f})
    ensures TakenFrom(free, free' + {f}, tables' - tables, {}) && f !in free' && f !in tables' - tables
  {
    assert f !in tables' - tables;
  }

  /** A page translated to a frame that was free, or only new tables. */
  lemma PageBacked(w: View, w': View, v: nat, e: Pte, ok: bool)
    requires Owners(w) && HasKind(w.areas, v, Anon) && v !in w.flat && w.tables <= w'.tables
    requires w'.areas == w.areas && w'.managed == w.managed && w'.flat == if ok then w.flat[v := e] else w.flat
    requires TakenFrom(w.free, w'.free, w'.tables - w.tables, if ok then {e.addr} else {})
    ensures Owners(w') && Conserved(w, w') && (ok ==> e.addr in w.free)
  {
    hide Owners;
    hide Conserved;
    hide AttrOf;
    var taken := w'.tables - w.tables;
    var w1 := w.(tables := w'.tables, free := w.free - taken);
    assert w.free - w1.free == taken;
    TablesGrow(w, w'.tables, w1.free);
    if ok {
      assert e.addr in {e.addr};
      PageTaken(w1, v, e);
      ConservedTrans(w, w1, w1.(flat := w1.flat[v := e], free := w1.free - {e.addr}));
      assert w' == w1.(flat := w1.flat[v := e], free := w1.free - {e.addr});
    } else {
      assert w' == w1;
    }
  }

  /** A page of a physical mapping translated to its address, or only new tables. */
  lemma PhysTranslated(w: View, w': View, v: nat, e: Pte, ok: bool)
    requires Owners(w) && PhysOf(w.areas, v).Some? && e.addr == EntryAddr(PhysOf(w.areas, v).value)
    requires w'.areas == w.areas && w'.managed == w.managed && w'.flat == if ok then w.flat[v := e] else w.flat
    requires w.tables <= w'.tables && w'.free <= w.free && w'.tables - w.tables == w.free - w'.free
    ensures Owners(w') && Conserved(w, w')
  {
    hide Owners;
    hide Conserved;
    hide AttrOf;
    hide EntryAddr;
    TablesGrow(w, w'.tables, w'.free);
    var w1 := w.(tables := w'.tables, free := w'.free);
    if ok {
      assert w'.flat - {v} == w1.flat - {v};
    }
    SharedPage(w1, v, w'.flat);
    ConservedTrans(w, w1, w');
  }

  lemma NoneSpent()
    ensures Spent({}, {}, 4) && Short({}, FrameAllocator.PAGE_SIZE)
  {
  }

  /** At most four frames for each page of so many bytes are gone. */
  ghost predicate Used(free: set<nat>, free': set<nat>, bytes: nat) {
    (|free| - |free'|) * BYTES_PER_FRAME <= bytes
  }

  lemma UsedWithDescriptor(free: set<nat>, f: nat, free': set<nat>, bytes: nat)
    requires f in free && Used(free - {f}, free', bytes)
    ensures Used(free, free', bytes + BYTES_PER_FRAME)
  {
  }

  lemma UsedNothing(free: set<nat>, bytes: nat)
    ensures Used(free, free, bytes)
  {
  }

  /** The free frames do not suffice for every page of so many bytes. */
  ghost predicate Short(free: set<nat>, bytes: nat) {
    |free| * BYTES_PER_FRAME <= bytes
  }

  lemma SpentMore(free: set<nat>, free': set<nat>, m: nat, n: nat)
    requires Spent(free, free', m) && m <= n
    ensures Spent(free, free', n)
  {
  }

  /** A loop over the pages of [from, ...) has come to v: only pages before v differ, at most four frames a page
      are gone, and every frame is accounted for. */
  ghost predicate Progress(w0: View, w: View, from: nat, v: nat) {
    && from <= v && Conserved(w0, w) && w.areas == w0.areas && w0.tables <= w.tables
    && SameOutside(w0.flat, w.flat, from, v)
    && (|w0.free| - |w.free|) * BYTES_PER_FRAME <= v - from
  }

  lemma ProgressStart(w: View, from: nat)
    ensures Progress(w, w, from, from)
  {
  }

  lemma ProgressEnds(w0: View, w: View, from: nat, v: nat)
    requires Progress(w0, w, from, v)
    ensures Conserved(w0, w) && w0.tables <= w.tables && SameOutside(w0.flat, w.flat, from, v)
    ensures Used(w0.free, w.free, v - from)
  {
  }

  lemma StillUntranslated(w0: View, w: View, from: nat, v: nat)
    requires Progress(w0, w, from, v)
    ensures v in w.flat <==> v in w0.flat
  {
    StillOutside(w0.flat, w.flat, from, v);
  }

  lemma ProgressStep(w0: View, w1: View, w2: View, from: nat, v: nat)
    requires Progress(w0, w1, from, v) && Conserved(w1, w2) && w2.areas == w1.areas && w1.tables <= w2.tables
    requires Spent(w1.free, w2.free, 4) && v in w2.flat && w2.flat == w1.flat[v := w2.flat[v]]
    ensures Progress(w0, w2, from, v + FrameAllocator.PAGE_SIZE)
  {
    hide Conserved;
    ConservedTrans(w0, w1, w2);
    OutsideStep(w0.flat, w1.flat, w2.flat, from, v);
  }

  lemma ProgressSame(w0: View, w1: View, w2: View, from: nat, v: nat)
    requires Progress(w0, w1, from, v) && Conserved(w1, w2) && w2.areas == w1.areas && w1.tables <= w2.tables
    requires w2.flat == w1.flat
    ensures UpTo(w0, w2, from, v)
  {
    hide Conserved;
    ConservedTrans(w0, w1, w2);
  }

  /** The same without the bound on the frames. */
  ghost predicate UpTo(w0: View, w: View, from: nat, v: nat) {
    Conserved(w0, w) && w.areas == w0.areas && w0.tables <= w.tables && SameOutside(w0.flat, w.flat, from, v)
  }

  lemma ProgressFails(w0: View, w: View, from: nat, v: nat, to: nat)
    requires Progress(w0, w, from, v) && Short(w.free, FrameAllocator.PAGE_SIZE) && v + FrameAllocator.PAGE_SIZE <= to
    ensures Short(w0.free, to - from)
  {
  }

  lemma NextPage(v: nat, to: nat)
    requires Aligned(v) && Aligned(to) && v < to
    ensures v + FrameAllocator.PAGE_SIZE <= to
  {
  }

  lemma SpentShort(free: set<nat>, n: nat)
    requires Spent(free, {}, n) && n <= 4
    ensures Short(free, FrameAllocator.PAGE_SIZE)
  {
  }

  lemma ShortWithDescriptor(free: set<nat>, f: nat, a: Area)
    requires f in free && Short(free - {f}, Size(a)) && (a.kind.Phys? || Eager(a))
    ensures TooFewFrames(free, a)
  {
  }

  /** Not enough free frames for the descriptor of an area and, unless its pages come later, for its pages and
      tables. */
  ghost predicate TooFewFrames(free: set<nat>, a: Area) {
    free == {} || ((a.kind.Phys? || Eager(a)) && (|free| - 1) * BYTES_PER_FRAME <= Size(a))
  }

  lemma NoFrames(a: Area)
    ensures TooFewFrames({}, a)
  {
  }

  lemma {:induction false} InsertAfter(areas: seq<Area>, a: Area, prev: nat)
    requires prev < |areas| && forall k :: 0 <= k <= prev ==> areas[k].start <= a.start
    requires prev + 1 < |areas| ==> a.start < areas[prev + 1].start
    ensures Insert(areas, a) == areas[..prev + 1] + [a] + areas[prev + 1..]
  {
    var tail := areas[1..];
    if prev == 0 {
      assert Insert(tail, a) == [a] + tail;
    } else {
      InsertAfter(tail, a, prev - 1);
      assert tail[..prev] == areas[1..prev + 1] && tail[prev..] == areas[prev + 1..];
      assert [areas[0]] + areas[1..prev + 1] == areas[..prev + 1];
    }
  }

  lemma NodeApart(w: View, node: nat)
    requires Owners(w) && node in w.free
    ensures node !in Nodes(w.areas) && DistinctNodes(w.areas)
  {
  }

  lemma InsertListed(areas: seq<Area>, a: Area)
    requires Listed(areas) && WellFormed(a) && Clear(areas, a.start, a.end) && a.end <= USER_END
    ensures Listed(Insert(areas, a))
  {
    InsertKeeps(areas, a);
    var r := Insert(areas, a);
    forall i | 0 <= i < |r|
      ensures r[i].end <= USER_END
    {
      assert r[i] in r;
    }
  }

  lemma PhysStillMapped(areas: seq<Area>, a: Area, flat: map<nat, Pte>, flat': map<nat, Pte>, globalPages: bool)
    requires Listed(areas) && WellFormed(a) && Clear(areas, a.start, a.end)
    requires PhysMapped(areas, flat) && SameOutside(flat, flat', a.start, a.end)
             && Populated(a, flat, flat', globalPages)
    ensures PhysMapped(Insert(areas, a), flat')
  {
    InsertKeeps(areas, a);
    forall v: nat | IsPage(v) && HasKind(Insert(areas, a), v, Phys)
      ensures v in flat'
    {
      if Contains(a, v) {
        assert v in Pages(a.start, a.end);
      } else {
        assert HasKind(areas, v, Phys) && Lookup(flat', v) == Lookup(flat, v);
      }
    }
  }

  /** Undoing the insertion of an area that got no translations. */
  lemma TakeBackArea(w: View, areas: seq<Area>, a: Area)
    requires Sorted(areas) && WellFormed(a) && Clear(areas, a.start, a.end)
    requires Owners(w) && w.areas == Insert(areas, a) && a.node !in Nodes(areas) && DistinctNodes(areas)
    requires forall v :: v in w.flat ==> !Contains(a, v)
    ensures var w' := w.(areas := areas, free := w.free + {a.node}); Owners(w') && Conserved(w, w')
    ensures a.node in w.managed && a.node !in w.free && a.node !in w.tables
  {
    InsertKeeps(areas, a);
    NodesOf(areas, w.areas, a);
    assert a.node in Nodes(w.areas);
    hide AttrOf;
    ListChanged(w, areas, w.free + {a.node});
  }

  /** Two maps that differ at most in [from, to), where one has nothing. */
  lemma RangeCleared(flat: map<nat, Pte>, flat': map<nat, Pte>, from: nat, to: nat)
    requires SameOutside(flat, flat', from, to)
    requires forall v :: v in flat ==> v < from || to <= v
    requires forall v :: v in flat' ==> IsPage(v)
    ensures flat' - Pages(from, to) == flat
  {
    forall v: nat
      ensures v in flat' - Pages(from, to) <==> v in flat
      ensures v in flat ==> flat'[v] == flat[v]
    {
      assert v < from || to <= v ==> Lookup(flat', v) == Lookup(flat, v);
    }
  }

  lemma AlignedSelf(v: nat)
    requires Aligned(v)
    ensures AlignDown(v) == v && v % PageTree.PAGE_SIZE == 0
  {
  }

  lemma OwnedShape(w: View, frames: Frames, v: nat)
    requires frames.Valid() && w.managed == frames.managed && w.free == frames.free
    requires Owners(w) && v in w.flat && HasKind(w.areas, v, Anon)
    ensures var f := w.flat[v].addr; f != 0 && Aligned(f) && f in frames.managed && f !in frames.free && f !in w.tables
  {
    assert OwnsPage(w, v);
  }

  lemma NodeShape(frames: Frames, f: nat)
    requires frames.Valid() && f in frames.managed
    ensures f != 0 && Aligned(f)
  {
  }

  lemma FlatPages(pages: MmuContext)
    requires pages.Valid()
    ensures forall v :: v in pages.flat ==> IsPage(v)
  {
  }

  lemma SharedPage(w: View, v: nat, flat: map<nat, Pte>)
    requires Owners(w) && PhysOf(w.areas, v).Some?
    requires flat == w.flat || (v in flat && flat - {v} == w.flat - {v} && flat[v].addr == EntryAddr(PhysOf(w.areas, v).value))
    ensures var w' := w.(flat := flat); Owners(w') && Conserved(w, w')
  {
    SharedPageChanged(w, v, flat);
  }

  lemma ConservedSame(w: View)
    ensures Conserved(w, w)
  {
  }

  /** Area i spans [from, to). */
  ghost predicate Spanned(areas: seq<Area>, i: nat, from: nat, to: nat) {
    i < |areas| && areas[i].start == from && areas[i].end == to
  }

  /** The addresses of [from, to) have no attributes, the others have those of the first list. */
  ghost predicate Cleared(areas: seq<Area>, areas': seq<Area>, from: nat, to: nat) {
    forall v: nat :: AttrOf(areas', v) == if from <= v < to then None else AttrOf(areas, v)
  }

  /** The list lost area i, which spanned [from, to). */
  ghost predicate AreaGone(areas: seq<Area>, areas': seq<Area>, i: nat, from: nat, to: nat) {
    Spanned(areas, i, from, to) && areas' == Remove(areas, i) && Cleared(areas, areas', from, to)
  }

  lemma KindInArea(areas: seq<Area>, i: nat)
    requires Sorted(areas) && i < |areas|
    ensures forall v: nat :: Contains(areas[i], v) ==> AttrOf(areas, v) == Some(AttrIn(areas[i], v))
  {
    forall v: nat | Contains(areas[i], v)
      ensures AttrOf(areas, v) == Some(AttrIn(areas[i], v))
    {
      AttrOfAt(areas, i, v);
    }
  }

  lemma RemovePhysMapped(areas: seq<Area>, areas': seq<Area>, flat: map<nat, Pte>, from: nat, to: nat)
    requires Cleared(areas, areas', from, to) && PhysMapped(areas, flat)
    ensures PhysMapped(areas', flat - Pages(from, to))
  {
    hide AttrOf;
    forall v: nat | IsPage(v) && HasKind(areas', v, Phys)
      ensures v in flat - Pages(from, to)
    {
      assert HasKind(areas, v, Phys);
    }
  }

  lemma RemoveEnds(areas: seq<Area>, i: nat)
    requires Listed(areas) && i < |areas|
    ensures Listed(Remove(areas, i))
  {
    RemoveSorted(areas, i);
    var r := Remove(areas, i);
    assert forall k :: 0 <= k < |r| ==> r[k] == areas[if k < i then k else k + 1];
  }

  /** Removing an area and its translations leaves the list in order and the physical mappings mapped. */
  lemma RemoveListed(areas: seq<Area>, i: nat, flat: map<nat, Pte>)
    requires Listed(areas) && i < |areas| && PhysMapped(areas, flat)
    ensures Listed(Remove(areas, i)) && Cleared(areas, Remove(areas, i), areas[i].start, areas[i].end)
    ensures PhysMapped(Remove(areas, i), flat - Pages(areas[i].start, areas[i].end))
    ensures TotalSize(Remove(areas, i)) == TotalSize(areas) - (areas[i].end - areas[i].start)
  {
    hide AttrOf;
    hide TotalSize;
    hide PhysMapped;
    hide Remove;
    assert WellFormed(areas[i]);
    RemoveKeeps(areas, i);
    RemoveEnds(areas, i);
    RemovePhysMapped(areas, Remove(areas, i), flat, areas[i].start, areas[i].end);
  }

  /** No area spans [from, to). */
  ghost predicate NoneSpans(areas: seq<Area>, from: nat, to: nat) {
    forall k: nat :: !Spanned(areas, k, from, to)
  }

  lemma NoSpan(areas: seq<Area>, i: nat, from: nat, to: nat)
    requires Sorted(areas) && i < |areas| && from < areas[i].end && areas[i].start < to && !Spanned(areas, i, from, to)
    ensures NoneSpans(areas, from, to)
  {
  }

  lemma ClearNoSpan(areas: seq<Area>, from: nat, to: nat)
    requires Sorted(areas) && Clear(areas, from, to)
    ensures NoneSpans(areas, from, to)
  {
    assert forall k :: 0 <= k < |areas| ==> WellFormed(areas[k]);
  }

  lemma AlignedSize(a: Area)
    requires WellFormed(a)
    ensures AlignUp(a.end - a.start) == a.end - a.start
  {
  }

  // ---------------------------------------------------------------- split and merge

  /** Some area starts before p and ends after it. */
  ghost predicate Straddled(areas: seq<Area>, p: nat) {
    exists i :: 0 <= i < |areas| && areas[i].start < p < areas[i].end
  }

  /** Area i was split at `at`; the new descriptor is in frame `node`. */
  ghost predicate WasSplit(areas: seq<Area>, areas': seq<Area>, i: nat, at: nat, node: nat) {
    && i < |areas| && areas[i].start < at < areas[i].end
    && areas' == SplitAt(areas, i, at, node)
  }

  lemma SameMeaningMapped(areas: seq<Area>, areas': seq<Area>, flat: map<nat, Pte>)
    requires SameMeaning(areas', areas) && PhysMapped(areas, flat)
    ensures PhysMapped(areas', flat)
  {
    hide AttrOf;
    forall v: nat | IsPage(v) && HasKind(areas', v, Phys)
      ensures v in flat
    {
      assert HasKind(areas, v, Phys);
    }
  }

  lemma SplitListed(areas: seq<Area>, areas': seq<Area>, i: nat, at: nat, node: nat, flat: map<nat, Pte>)
    requires Listed(areas) && WasSplit(areas, areas', i, at, node) && Aligned(at) && PhysMapped(areas, flat)
    ensures Listed(areas') && SameMeaning(areas', areas) && PhysMapped(areas', flat)
    ensures |areas'| == |areas| + 1 && TotalSize(areas') == TotalSize(areas)
    ensures Spanned(areas', i, areas[i].start, at) && Spanned(areas', i + 1, at, areas[i].end)
  {
    hide AttrOf;
    hide TotalSize;
    SplitKeeps(areas, i, at, node);
    SameMeaningMapped(areas, areas', flat);
    assert forall k :: 0 <= k < |areas'| ==> k < i ==> areas'[k] == areas[k];
    assert forall k :: 0 <= k < |areas'| ==> k > i + 1 ==> areas'[k] == areas[k - 1];
  }

  /** The split by position is the split by address. */
  lemma {:induction false} SplitByAddress(areas: seq<Area>, i: nat, cut: Cut)
    requires Sorted(areas) && i < |areas| && areas[i].start < cut.at < areas[i].end
    ensures AreaForms.SplitRegion(areas, cut) == SplitAt(areas, i, cut.at, cut.node)
  {
    if i > 0 {
      assert areas[0].end <= areas[i].start;
      SortedTail(areas);
      SplitByAddress(areas[1..], i - 1, cut);
      var tail := areas[1..];
      assert tail[..i - 1] == areas[1..i] && tail[i..] == areas[i + 1..];
      assert [areas[0]] + areas[1..i] == areas[..i];
    }
  }

  lemma JoinListed(areas: seq<Area>, i: nat, flat: map<nat, Pte>)
    requires Listed(areas) && i + 1 < |areas| && CanMerge(areas[i], areas[i + 1]) && PhysMapped(areas, flat)
    ensures Listed(JoinAt(areas, i)) && PhysMapped(JoinAt(areas, i), flat) && |JoinAt(areas, i)| == |areas| - 1
    ensures TotalSize(JoinAt(areas, i)) == TotalSize(areas)
  {
    hide AttrOf;
    hide TotalSize;
    JoinAtKeeps(areas, i);
    SameMeaningMapped(areas, JoinAt(areas, i), flat);
    var j := JoinAt(areas, i);
    assert forall k :: 0 <= k < |j| ==> j[k].end == areas[if k < i then k else k + 1].end;
  }

  /** Merging the rest from i on completes the pass over the whole list. */
  ghost predicate LeftToMerge(whole: seq<Area>, areas: seq<Area>, i: nat) {
    i <= |areas| && areas[..i] + Merge(areas[i..]) == Merge(whole)
  }

  lemma MergeStart(areas: seq<Area>)
    ensures LeftToMerge(areas, areas, 0)
  {
    assert areas[..0] + Merge(areas[0..]) == Merge(areas);
  }

  lemma MergeGoesOn(whole: seq<Area>, areas: seq<Area>, i: nat)
    requires LeftToMerge(whole, areas, i) && i + 1 < |areas|
    ensures CanMerge(areas[i], areas[i + 1]) ==> LeftToMerge(whole, JoinAt(areas, i), i)
    ensures !CanMerge(areas[i], areas[i + 1]) ==> LeftToMerge(whole, areas, i + 1)
  {
    MergeStep(areas, i);
  }

  lemma MergeEnd(whole: seq<Area>, areas: seq<Area>, i: nat)
    requires LeftToMerge(whole, areas, i) && i + 1 >= |areas|
    ensures areas == Merge(whole)
  {
    assert areas[..i] + areas[i..] == areas;
  }

  lemma MergeTail(tail: seq<Area>)
    requires |tail| >= 2
    ensures Merge(tail) == if CanMerge(tail[0], tail[1]) then Merge([tail[0].(end := tail[1].end)] + tail[2..])
                           else [tail[0]] + Merge(tail[1..])
  {
  }

  lemma JoinAtParts(areas: seq<Area>, i: nat)
    requires i + 1 < |areas|
    ensures JoinAt(areas, i)[..i] == areas[..i]
    ensures JoinAt(areas, i)[i..] == [areas[i].(end := areas[i + 1].end)] + areas[i..][2..]
  {
    assert areas[i..][2..] == areas[i + 2..];
  }

  /** One step of the pass leaves the same work to do. */
  lemma MergeStep(areas: seq<Area>, i: nat)
    requires i + 1 < |areas|
    ensures CanMerge(areas[i], areas[i + 1]) ==>
              JoinAt(areas, i)[..i] + Merge(JoinAt(areas, i)[i..]) == areas[..i] + Merge(areas[i..])
    ensures !CanMerge(areas[i], areas[i + 1]) ==>
              areas[..i + 1] + Merge(areas[i + 1..]) == areas[..i] + Merge(areas[i..])
  {
    hide Merge;
    hide JoinAt;
    var tail := areas[i..];
    MergeTail(tail);
    if CanMerge(areas[i], areas[i + 1]) {
      JoinAtParts(areas, i);
    } else {
      assert tail[1..] == areas[i + 1..];
      assert areas[..i + 1] == areas[..i] + [areas[i]];
    }
  }

  // ---------------------------------------------------------------- munmap

  lemma SameArea(areas: seq<Area>, i: nat, j: nat, v: nat)
    requires Sorted(areas) && i < |areas| && j < |areas| && Contains(areas[i], v) && Contains(areas[j], v)
    ensures i == j
  {
  }

  lemma AlignedRange(from: nat, to: nat)
    requires Aligned(from) && Aligned(to) && from <= to
    ensures AlignDown(from) == from && AlignDown(to) == to && AlignUp(from + (to - from)) == to
  {
  }

  lemma ClearedTrans(a: seq<Area>, b: seq<Area>, c: seq<Area>, from: nat, mid: nat, to: nat)
    requires Cleared(a, b, from, mid) && Cleared(b, c, mid, to) && from <= mid <= to
    ensures Cleared(a, c, from, to)
  {
    hide AttrOf;
  }

  lemma ClearedAfterSame(a: seq<Area>, b: seq<Area>, c: seq<Area>, from: nat, to: nat)
    requires SameMeaning(b, a) && Cleared(b, c, from, to)
    ensures Cleared(a, c, from, to)
  {
    hide AttrOf;
  }

  lemma ClearedBeforeSame(a: seq<Area>, b: seq<Area>, c: seq<Area>, from: nat, to: nat)
    requires Cleared(a, b, from, to) && SameMeaning(c, b)
    ensures Cleared(a, c, from, to)
  {
    hide AttrOf;
  }

  lemma SameMeaningTrans(a: seq<Area>, b: seq<Area>, c: seq<Area>)
    requires SameMeaning(b, a) && SameMeaning(c, b)
    ensures SameMeaning(c, a)
  {
    hide AttrOf;
  }

  /** Where everything from `from` to `cur` is cleared, an area at `cur` starts there or before `from`. */
  lemma StartsAtCursor(areas0: seq<Area>, areas: seq<Area>, i: nat, from: nat, cur: nat)
    requires Sorted(areas) && Cleared(areas0, areas, from, cur) && from <= cur && i < |areas| && Contains(areas[i], cur)
    ensures cur == if areas[i].start > from then areas[i].start else from
    ensures areas[i].start < cur ==> cur == from
  {
    KindInArea(areas, i);
    var v := if areas[i].start > from then areas[i].start else from;
    assert Contains(areas[i], v) && AttrOf(areas, v).Some?;
  }

  lemma NothingAt(areas0: seq<Area>, areas: seq<Area>, from: nat, cur: nat)
    requires Sorted(areas) && Cleared(areas0, areas, from, cur) && from <= cur && Aligned(cur)
    requires forall k :: 0 <= k < |areas| ==> !Contains(areas[k], cur)
    ensures Cleared(areas0, areas, from, cur + FrameAllocator.PAGE_SIZE)
  {
    hide AttrOf;
    forall v: nat | cur <= v < cur + FrameAllocator.PAGE_SIZE
      ensures AttrOf(areas, v) == None
    {
      AttrOfSome(areas, v);
      forall k | 0 <= k < |areas|
        ensures !Contains(areas[k], v)
      {
        assert WellFormed(areas[k]) && !Contains(areas[k], cur);
      }
    }
  }

  lemma NothingCleared(areas: seq<Area>, flat: map<nat, Pte>, from: nat)
    ensures Cleared(areas, areas, from, from) && flat - Pages(from, from) == flat
  {
    hide AttrOf;
    PagesEmpty(from);
  }

  lemma PagesSkip(flat: map<nat, Pte>, from: nat, cur: nat)
    requires from <= cur && Aligned(cur) && cur !in flat - Pages(from, cur)
    ensures flat - Pages(from, cur + FrameAllocator.PAGE_SIZE) == flat - Pages(from, cur)
  {
    PagesExtend(from, cur);
  }

  lemma PagesJoin(flat: map<nat, Pte>, from: nat, mid: nat, to: nat)
    requires from <= mid <= to
    ensures flat - Pages(from, mid) - Pages(mid, to) == flat - Pages(from, to)
  {
    assert Pages(from, mid) + Pages(mid, to) == Pages(from, to);
  }

  /** Without an area there is no translation. */
  lemma NothingMappedAt(w: View, v: nat)
    requires Owners(w) && forall k :: 0 <= k < |w.areas| ==> !Contains(w.areas[k], v)
    ensures v !in w.flat
  {
    AttrOfSome(w.areas, v);
  }

  // ---------------------------------------------------------------- allocation and its inverse

  /** The lowest place for `need` bytes in the user window. */
  ghost predicate LowestFit(areas: seq<Area>, at: nat, need: nat) {
    Fits(areas, at, need, true) && forall b: nat :: Fits(areas, b, need, true) ==> at <= b
  }

  ghost predicate NoFit(areas: seq<Area>, need: nat) {
    forall b: nat :: !Fits(areas, b, need, true)
  }

  lemma WindowBelow(areas: seq<Area>)
    requires Sorted(areas)
    ensures forall i :: 0 <= i < |areas| ==> USER_SEARCH_START <= areas[i].end
  {
    forall i | 0 <= i < |areas|
      ensures USER_SEARCH_START <= areas[i].end
    {
      assert WellFormed(areas[i]);
    }
  }

  lemma FoundAligned(at: nat, size: nat)
    requires Aligned(at)
    ensures AlignDown(at) == at && AlignUp(at + size) == at + AlignUp(size)
  {
  }

  /** In a sorted list an address where an area starts lies in no other area. */
  lemma StartContained(areas: seq<Area>)
    requires Sorted(areas)
    ensures forall i, k :: 0 <= i < |areas| && 0 <= k < |areas| && Contains(areas[k], areas[i].start) ==> k == i
    ensures forall i :: 0 <= i < |areas| ==> Contains(areas[i], areas[i].start)
  {
    forall i | 0 <= i < |areas|
      ensures Contains(areas[i], areas[i].start)
    {
      assert WellFormed(areas[i]);
    }
  }

  lemma {:induction false} InsertPlace(areas: seq<Area>, a: Area) returns (k: nat)
    ensures k <= |areas| && Insert(areas, a) == areas[..k] + [a] + areas[k..]
  {
    if areas == [] || a.start < areas[0].start {
      k := 0;
    } else {
      var j := InsertPlace(areas[1..], a);
      k := j + 1;
      assert areas[1..][..j] == areas[1..k] && areas[1..][j..] == areas[k..];
      assert [areas[0]] + areas[1..k] == areas[..k];
    }
  }

  lemma RemoveInserted(areas: seq<Area>, a: Area, i: nat)
    requires Sorted(Insert(areas, a)) && i < |Insert(areas, a)| && Insert(areas, a)[i].start == a.start
    ensures Remove(Insert(areas, a), i) == areas
  {
    hide Insert;
    var k := InsertPlace(areas, a);
    var r := Insert(areas, a);
    assert r[k] == a && WellFormed(r[k]) && WellFormed(r[i]);
    assert i == k;
    assert r[..k] == areas[..k] && r[k + 1..] == areas[k..];
  }

  /** vmm_alloc_region and then vmm_free_region: the list and the translations are as before, and every frame
      is back but those of new tables. */
  lemma AllocFreeRoundTrip(w0: View, w1: View, w2: View, a: Area, i: nat)
    requires Owners(w0) && Owners(w1) && Owners(w2) && Conserved(w0, w1) && Conserved(w1, w2)
    requires Sorted(w0.areas) && WellFormed(a) && Clear(w0.areas, a.start, a.end) && w1.areas == Insert(w0.areas, a)
    requires SameOutside(w0.flat, w1.flat, a.start, a.end) && forall v :: v in w1.flat ==> IsPage(v)
    requires AreaGone(w1.areas, w2.areas, i, a.start, a.end) && w2.flat == w1.flat - Pages(a.start, a.end)
    requires w0.tables <= w1.tables == w2.tables
    ensures w2.areas == w0.areas && w2.flat == w0.flat
    ensures w2.free == w0.free - (w2.tables - w0.tables)
  {
    hide Owners;
    hide Conserved;
    hide AttrOf;
    hide Insert;
    InsertKeeps(w0.areas, a);
    RemoveInserted(w0.areas, a, i);
    NoTranslationInClear(w0, a.start, a.end);
    RangeCleared(w0.flat, w1.flat, a.start, a.end);
    ConservedTrans(w0, w1, w2);
    OnlyTablesTaken(w0, w2);
  }
}
